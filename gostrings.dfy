/** The few functions of Go's `strings` package that the numstat parser calls,
    restricted to ASCII: `Fields`, `TrimSpace`, `Trim`, `TrimLeft`, `TrimPrefix`,
    `TrimSuffix`, `Index`, `Contains` and `Split` (with a non-empty separator).
    Each is defined the way the Go library computes it. `TrimLeft`,
    `TrimPrefix`, `TrimSuffix`, `Index` and `Contains` are characterised by
    their contracts alone; `Fields` by its contract together with
    `FieldsKeepText`, `FieldsCons`, `FieldsOfLeadingSpace` and `FieldsOfWord`;
    `Trim` and `TrimSpace` by theirs together with `TrimIsSlice` and
    `TrimSpaceIsSlice`.
    The contract of `Split` fixes its result only for a separator that cannot
    overlap itself, such as "=>" and "/", the only ones the parser passes. */
module GoStrings {

  /** ASCII white space as `unicode.IsSpace` sees it: tab, line feed, vertical
      tab, form feed, carriage return and space. */
  const Whitespace: set<char> := {'\t', '\n', '\U{0B}', '\U{0C}', '\r', ' '}

  predicate IsSpace(c: char) { c in Whitespace }

  predicate NoSpace(s: string) { forall i :: 0 <= i < |s| ==> !IsSpace(s[i]) }

  /** The characters of `s` that are not white space, in order. */
  function RemoveSpaces(s: string): string {
    if s == [] then [] else (if IsSpace(s[0]) then [] else [s[0]]) + RemoveSpaces(s[1..])
  }

  function Concat(ws: seq<string>): string {
    if ws == [] then [] else ws[0] + Concat(ws[1..])
  }

  /** `ws` joined with `sep` between consecutive elements (`strings.Join`). */
  function Join(ws: seq<string>, sep: string): string {
    if ws == [] then [] else if |ws| == 1 then ws[0] else ws[0] + sep + Join(ws[1..], sep)
  }

  // ---------------------------------------------------------------------------
  // strings.Fields

  /** The longest prefix of `s` without white space. */
  function Word(s: string): (w: string)
    ensures w <= s && NoSpace(w)
    ensures |w| < |s| ==> IsSpace(s[|w|])
  {
    if s == [] || IsSpace(s[0]) then [] else [s[0]] + Word(s[1..])
  }

  /** `strings.Fields`: the maximal runs of non-white-space characters. */
  function Fields(s: string): (r: seq<string>)
    ensures forall i :: 0 <= i < |r| ==> r[i] != [] && NoSpace(r[i])
    decreases |s|
  {
    if s == [] then []
    else if IsSpace(s[0]) then Fields(s[1..])
    else
      var w := Word(s);
      [w] + Fields(s[|w|..])
  }

  /** The fields hold every non-space character of the line, in order, and
      nothing else; there are none exactly when the line is all white space. */
  lemma {:induction false} FieldsKeepText(s: string)
    ensures Concat(Fields(s)) == RemoveSpaces(s)
    ensures Fields(s) == [] <==> RemoveSpaces(s) == []
    decreases |s|
  {
    if s != [] {
      if IsSpace(s[0]) {
        FieldsKeepText(s[1..]);
      } else {
        var w := Word(s);
        WordSplit(s);
        FieldsKeepText(s[|w|..]);
      }
    }
  }

  lemma {:induction false} WordSplit(s: string)
    ensures RemoveSpaces(s) == Word(s) + RemoveSpaces(s[|Word(s)|..])
    decreases |s|
  {
    if s != [] && !IsSpace(s[0]) {
      var w' := Word(s[1..]);
      WordSplit(s[1..]);
      assert Word(s) == [s[0]] + w';
      assert RemoveSpaces(s) == [s[0]] + RemoveSpaces(s[1..]);
      assert s[1..][|w'|..] == s[|Word(s)|..];
    }
  }

  lemma {:induction false} WordOfNoSpace(w: string, rest: string)
    requires NoSpace(w)
    requires rest == [] || IsSpace(rest[0])
    ensures Word(w + rest) == w
    decreases |w|
  {
    if w != [] {
      assert (w + rest)[1..] == w[1..] + rest;
      WordOfNoSpace(w[1..], rest);
    }
  }

  /** Leading white space adds no field. */
  lemma {:induction false} FieldsOfLeadingSpace(sep: string, s: string)
    requires forall i :: 0 <= i < |sep| ==> IsSpace(sep[i])
    ensures Fields(sep + s) == Fields(s)
    decreases |sep|
  {
    if sep == [] {
      assert sep + s == s;
    } else {
      var t := sep + s;
      assert t != [] && IsSpace(t[0]) && t[1..] == sep[1..] + s;
      assert Fields(t) == Fields(t[1..]);
      FieldsOfLeadingSpace(sep[1..], s);
    }
  }

  /** One field followed by white space: it is the first field, and the rest
      of the line gives the others. */
  lemma FieldsCons(w: string, sep: string, rest: string)
    requires w != [] && NoSpace(w)
    requires sep != [] && forall i :: 0 <= i < |sep| ==> IsSpace(sep[i])
    ensures Fields(w + sep + rest) == [w] + Fields(rest)
  {
    var line := w + (sep + rest);
    assert w + sep + rest == line;
    WordOfNoSpace(w, sep + rest);
    assert line[|w|..] == sep + rest;
    FieldsOfLeadingSpace(sep, rest);
  }

  /** A single word without white space is its own only field. */
  lemma FieldsOfWord(w: string)
    requires w != [] && NoSpace(w)
    ensures Fields(w) == [w]
  {
    WordOfNoSpace(w, []);
    assert w + [] == w;
    assert w[|w|..] == [];
  }

  /** Round trip: splitting words joined by a white-space separator gives the
      words back, so a tab-separated numstat line has exactly its fields. */
  lemma {:induction false} FieldsOfJoin(ws: seq<string>, sep: string)
    requires sep != [] && forall i :: 0 <= i < |sep| ==> IsSpace(sep[i])
    requires forall i :: 0 <= i < |ws| ==> ws[i] != [] && NoSpace(ws[i])
    ensures Fields(Join(ws, sep)) == ws
    decreases |ws|
  {
    if ws == [] {
    } else if |ws| == 1 {
      WordOfNoSpace(ws[0], []);
      assert ws[0] + [] == ws[0];
      assert ws[0][|ws[0]|..] == [];
    } else {
      var rest := sep + Join(ws[1..], sep);
      var line := ws[0] + rest;
      assert Join(ws, sep) == line;
      WordOfNoSpace(ws[0], rest);
      assert line[|ws[0]|..] == rest;
      FieldsOfLeadingSpace(sep, Join(ws[1..], sep));
      FieldsOfJoin(ws[1..], sep);
      assert ws == [ws[0]] + ws[1..];
    }
  }

  // ---------------------------------------------------------------------------
  // strings.Index and strings.Contains

  predicate OccursAt(s: string, p: string, j: int) {
    0 <= j && j + |p| <= |s| && s[j..j + |p|] == p
  }

  function IndexFrom(s: string, p: string, k: nat): (r: int)
    requires k <= |s|
    ensures r == -1 || (k <= r && OccursAt(s, p, r))
    ensures forall j :: k <= j && (r == -1 || j < r) ==> !OccursAt(s, p, j)
    decreases |s| - k
  {
    if k + |p| > |s| then -1
    else if s[k..k + |p|] == p then k
    else IndexFrom(s, p, k + 1)
  }

  /** `strings.Index`: the first position at which `p` occurs in `s`, or -1. */
  function IndexOf(s: string, p: string): (r: int)
    ensures -1 <= r
    ensures r >= 0 ==> OccursAt(s, p, r)
    ensures forall j :: 0 <= j && (r == -1 || j < r) ==> !OccursAt(s, p, j)
  {
    IndexFrom(s, p, 0)
  }

  /** `strings.Contains`. */
  function Contains(s: string, p: string): (b: bool)
    ensures b <==> exists j :: OccursAt(s, p, j)
  {
    IndexOf(s, p) >= 0
  }

  // ---------------------------------------------------------------------------
  // strings.Split with a non-empty separator

  /** `strings.Split(s, sep)`: cut `s` at every occurrence of `sep`, scanning
      left to right. */
  function Split(s: string, sep: string): (r: seq<string>)
    requires sep != []
    ensures |r| >= 1
    ensures Join(r, sep) == s
    ensures forall i :: 0 <= i < |r| ==> IndexOf(r[i], sep) == -1
    decreases |s|
  {
    var i := IndexOf(s, sep);
    if i < 0 then [s]
    else
      var head := s[..i];
      assert forall j :: 0 <= j && OccursAt(head, sep, j) ==> OccursAt(s, sep, j);
      var tail := Split(s[i + |sep|..], sep);
      assert s == head + sep + s[i + |sep|..];
      [head] + tail
  }

  // ---------------------------------------------------------------------------
  // strings.TrimLeft, TrimRight, Trim, TrimSpace, TrimPrefix, TrimSuffix

  /** `strings.TrimLeft(s, cutset)`: drop the longest prefix made of `cut`. */
  function TrimLeft(s: string, cut: set<char>): (r: string)
    ensures |r| <= |s| && r == s[|s| - |r|..]
    ensures forall i :: 0 <= i < |s| - |r| ==> s[i] in cut
    ensures r == [] || r[0] !in cut
  {
    if s != [] && s[0] in cut then TrimLeft(s[1..], cut) else s
  }

  /** `strings.TrimRight(s, cutset)`: drop the longest suffix made of `cut`. */
  function TrimRight(s: string, cut: set<char>): (r: string)
    ensures |r| <= |s| && r == s[..|r|]
    ensures forall i :: |r| <= i < |s| ==> s[i] in cut
    ensures r == [] || r[|r| - 1] !in cut
  {
    if s != [] && s[|s| - 1] in cut then TrimRight(s[..|s| - 1], cut) else s
  }

  /** `strings.Trim(s, cutset)`. */
  function Trim(s: string, cut: set<char>): (r: string)
    ensures r == [] || (r[0] !in cut && r[|r| - 1] !in cut)
    ensures (forall i :: 0 <= i < |s| ==> s[i] in cut) ==> r == []
    ensures (s == [] || (s[0] !in cut && s[|s| - 1] !in cut)) ==> r == s
  {
    var l := TrimLeft(s, cut);
    TrimEnds(s, cut);
    TrimAllCut(s, cut);
    TrimClean(s, cut);
    TrimRight(l, cut)
  }

  /** Neither end of what is left is a cut character. */
  lemma TrimEnds(s: string, cut: set<char>)
    ensures var r := TrimRight(TrimLeft(s, cut), cut);
            r == [] || (r[0] !in cut && r[|r| - 1] !in cut)
  {
    var l := TrimLeft(s, cut);
    var r := TrimRight(l, cut);
    if r != [] {
      assert r[0] == l[0];
    }
  }

  /** A string made only of cut characters is trimmed away entirely. */
  lemma TrimAllCut(s: string, cut: set<char>)
    ensures (forall i :: 0 <= i < |s| ==> s[i] in cut) ==> TrimRight(TrimLeft(s, cut), cut) == []
  {
    var l := TrimLeft(s, cut);
    if l != [] {
      assert l[0] == s[|s| - |l|];
    }
  }

  /** A string with clean ends is left as it is. */
  lemma TrimClean(s: string, cut: set<char>)
    ensures (s == [] || (s[0] !in cut && s[|s| - 1] !in cut)) ==> TrimRight(TrimLeft(s, cut), cut) == s
  {
    if s != [] && s[0] !in cut {
      assert TrimLeft(s, cut) == s;
    }
  }

  /** `strings.TrimSpace`. */
  function TrimSpace(s: string): (r: string)
    ensures r == [] || (!IsSpace(r[0]) && !IsSpace(r[|r| - 1]))
    ensures NoSpace(s) ==> r == s
  {
    assert NoSpace(s) && s != [] ==> s[0] !in Whitespace && s[|s| - 1] !in Whitespace;
    Trim(s, Whitespace)
  }

  /** `r` is the piece of `s` that starts at `a`, and every character of `s`
      before or after that piece is in `cut`. */
  predicate CutAround(s: string, r: string, a: nat, cut: set<char>) {
    a + |r| <= |s| && r == s[a..a + |r|] &&
    (forall i :: 0 <= i < a ==> s[i] in cut) &&
    (forall i :: a + |r| <= i < |s| ==> s[i] in cut)
  }

  /** What `Trim` keeps is a contiguous piece of its input, starting at `a`,
      and everything it drops before and after that piece is a cut character.
      With the ends of the result clean (`Trim`'s contract) this fixes the
      result: only the leading and trailing runs of cut characters go, and
      cut characters inside the text stay. */
  lemma TrimIsSlice(s: string, cut: set<char>) returns (a: nat)
    ensures CutAround(s, Trim(s, cut), a, cut)
  {
    var l := TrimLeft(s, cut);
    var r := TrimRight(l, cut);
    a := |s| - |l|;
    TailCut(s, l, a, r, cut);
  }

  /** When `l` is the tail of `s` after a run of `a` cut characters and `r` the
      head of `l` that leaves only cut characters behind, `r` is the piece of
      `s` from `a` with only cut characters around it. */
  lemma TailCut(s: string, l: string, a: nat, r: string, cut: set<char>)
    requires a <= |s| && l == s[a..] && |r| <= |l| && r == l[..|r|]
    requires forall i :: 0 <= i < a ==> s[i] in cut
    requires forall i :: |r| <= i < |l| ==> l[i] in cut
    ensures CutAround(s, r, a, cut)
  {
    forall i | a + |r| <= i < |s| ensures s[i] in cut {
      assert s[i] == l[i - a];
    }
  }

  /** `strings.TrimSpace` keeps a contiguous piece of its input, starting at
      `a`, and drops only the white space before and after it. */
  lemma TrimSpaceIsSlice(s: string) returns (a: nat)
    ensures CutAround(s, TrimSpace(s), a, Whitespace)
  {
    assert TrimSpace(s) == Trim(s, Whitespace);
    a := TrimIsSlice(s, Whitespace);
  }

  /** `strings.TrimPrefix`. */
  function TrimPrefix(s: string, prefix: string): (r: string)
    ensures prefix <= s ==> s == prefix + r
    ensures !(prefix <= s) ==> r == s
  {
    if prefix <= s then s[|prefix|..] else s
  }

  /** `strings.TrimSuffix`. */
  function TrimSuffix(s: string, suffix: string): (r: string)
    ensures |suffix| <= |s| && s[|s| - |suffix|..] == suffix ==> s == r + suffix
    ensures !(|suffix| <= |s| && s[|s| - |suffix|..] == suffix) ==> r == s
  {
    if |suffix| <= |s| && s[|s| - |suffix|..] == suffix then s[..|s| - |suffix|] else s
  }
}
