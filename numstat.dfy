/** The numstat pass of `analyzeRepo`: each line of `git log --numstat` output
    is classified on its own (skipped, or a file path with its added/deleted
    fields), and the accepted paths are counted in `fileChangeCounts`. */
module Numstat {
  import opened GoStrings

  /** Why a line contributes nothing. */
  datatype SkipReason =
    | EmptyLine        // blank separator between commits
    | Malformed        // fewer than 3 fields and no "=>"
    | UnparsedRename   // "=>" present but no destination could be extracted
    | NoNumericFields  // a destination was extracted but the line has fewer than 2 fields
    | EmptyPath        // the path is empty once normalised

  /** The decision for one line: a change record for `path`, or a skip. */
  datatype LineOutcome =
    | Record(added: string, deleted: string, path: string)
    | Skip(reason: SkipReason)

  const RenameArrow: string := "=>"

  /** The characters `strings.TrimLeft(…, "{ ")` removes from a recorded path. */
  const LeadingJunk: set<char> := {'{', ' '}

  /** A key of `fileChangeCounts`: non-empty, not starting with `{` or a space,
      and not ending in white space. */
  predicate IsRecordedKey(p: string) {
    p != [] && p[0] !in LeadingJunk && !IsSpace(p[|p| - 1])
  }

  /** Path normalisation: `filepath.ToSlash` (the identity on Unix), then
      `TrimSpace`, then `TrimLeft(…, "{ ")`. */
  function Normalize(filePath: string): (p: string)
    ensures p == [] || IsRecordedKey(p)
  {
    var t := TrimSpace(filePath);
    var p := TrimLeft(t, LeadingJunk);
    assert p != [] ==> p[|p| - 1] == t[|t| - 1];
    p
  }

  /** A path that neither starts nor ends with white space and does not start
      with `{` is recorded exactly as it is. */
  lemma NormalizeKeepsCleanPath(path: string)
    requires path != [] && !IsSpace(path[0]) && path[0] != '{' && !IsSpace(path[|path| - 1])
    ensures Normalize(path) == path
  {
    assert TrimSpace(path) == path;
  }

  /** Destination path of a rename line, or "" when neither brace pattern
      yields one. The first pattern keeps everything before the first `{`
      as a prefix, numeric fields included. */
  function RenameDestination(line: string): string {
    var leftCurly := IndexOf(line, "{");
    var rightCurly := IndexOf(line, "}");
    var arrow := IndexOf(line, RenameArrow);
    if leftCurly >= 0 && rightCurly > leftCurly && arrow > leftCurly && arrow < rightCurly then
      var inside := line[leftCurly + 1..rightCurly];
      var insideParts := Split(inside, RenameArrow);
      if |insideParts| == 2 then TrimSpace(line[..leftCurly] + insideParts[1]) else ""
    else if leftCurly == 0 && arrow > 0 then
      var inside := line[1..];
      var arrow' := IndexOf(inside, RenameArrow);
      if arrow' > 0 then
        var right := inside[arrow' + 2..];
        TrimSpace(TrimSuffix(TrimPrefix(right, " "), "}"))
      else ""
    else ""
  }

  /** Whichever pattern yields it, a destination is trimmed of white space at
      both ends, and only a line with a `{` yields one. */
  lemma RenameDestinationTrimmed(line: string)
    ensures var d := RenameDestination(line);
            d == [] || (!IsSpace(d[0]) && !IsSpace(d[|d| - 1]))
    ensures RenameDestination(line) != [] ==> IndexOf(line, "{") >= 0
  {
  }

  /** The common tail of both branches: normalise the path, drop it if empty. */
  function Accept(added: string, deleted: string, filePath: string): (r: LineOutcome)
    ensures r.Record? ==> r.added == added && r.deleted == deleted && IsRecordedKey(r.path)
    ensures r.Skip? ==> r.reason == EmptyPath
  {
    var p := Normalize(filePath);
    if p == [] then Skip(EmptyPath) else Record(added, deleted, p)
  }

  /** The per-line decision of the parse loop. */
  function ParseLine(line: string): (r: LineOutcome)
    ensures r.Record? ==> IsRecordedKey(r.path)
    ensures r == Skip(EmptyLine) <==> line == []
    ensures r == Skip(Malformed) <==> line != [] && |Fields(line)| < 3 && !Contains(line, RenameArrow)
    ensures r == Skip(NoNumericFields) ==> |Fields(line)| < 2 && Contains(line, RenameArrow)
    ensures r.Record? && |Fields(line)| < 3 ==> |Fields(line)| == 2 && Contains(line, RenameArrow)
    ensures r.Record? ==> r.added == Fields(line)[0] && r.deleted == Fields(line)[1]
  {
    if line == [] then Skip(EmptyLine)
    else
      var parts := Fields(line);
      if |parts| < 3 then
        if Contains(line, RenameArrow) then
          var filePath := RenameDestination(line);
          if filePath == [] then Skip(UnparsedRename)
          else if |parts| >= 2 then Accept(parts[0], parts[1], filePath)
          else Skip(NoNumericFields)
        else Skip(Malformed)
      else Accept(parts[0], parts[1], parts[2])
  }

  /** `changeAmount`: 1 whether the fields are numbers or `-` (binary file). */
  function ChangeAmount(added: string, deleted: string): (w: int)
    ensures w == 1
  {
    if added == "-" || deleted == "-" then 1 else 1
  }
}

/** What `ParseLine` does, stated apart from how it is computed. */
module NumstatFacts {
  import opened GoStrings
  import opened Numstat

  lemma {:induction false} TrimLeftIgnoresAbsent(s: string, cut: set<char>, extra: set<char>)
    requires forall i :: 0 <= i < |s| ==> s[i] !in extra
    ensures TrimLeft(s, cut + extra) == TrimLeft(s, cut)
    decreases |s|
  {
    if s != [] && s[0] in cut {
      TrimLeftIgnoresAbsent(s[1..], cut, extra);
    }
  }

  /** A line with three or more fields records its third field, whatever the
      first two hold and even when the line contains "=>" or braces; only
      leading `{` characters are stripped from it. */
  lemma ThirdFieldRecorded(line: string)
    requires |Fields(line)| >= 3
    ensures var parts := Fields(line);
            var p := TrimLeft(parts[2], {'{'});
            ParseLine(line) == if p == [] then Skip(EmptyPath) else Record(parts[0], parts[1], p)
  {
    var parts := Fields(line);
    assert ParseLine(line) == Accept(parts[0], parts[1], parts[2]);
    AcceptWord(parts[0], parts[1], parts[2]);
  }

  /** A path without white space loses only its leading `{` characters. */
  lemma AcceptWord(added: string, deleted: string, field: string)
    requires NoSpace(field)
    ensures var p := TrimLeft(field, {'{'});
            Accept(added, deleted, field) == if p == [] then Skip(EmptyPath) else Record(added, deleted, p)
  {
    assert TrimSpace(field) == field;
    TrimLeftIgnoresAbsent(field, {'{'}, {' '});
    assert {'{'} + {' '} == LeadingJunk;
  }

  predicate NoChar(s: string, c: char) { forall i :: 0 <= i < |s| ==> s[i] != c }

  /** `s` has no "=>" in it. */
  predicate NoArrow(s: string) { forall j :: 0 <= j < |s| - 1 ==> !(s[j] == '=' && s[j + 1] == '>') }

  lemma OccursChar(s: string, c: char, j: int)
    ensures OccursAt(s, [c], j) <==> 0 <= j < |s| && s[j] == c
  {
    if 0 <= j < |s| { assert s[j..j + 1] == [s[j]]; }
  }

  lemma OccursArrow(s: string, j: int)
    ensures OccursAt(s, RenameArrow, j) <==> 0 <= j && j + 1 < |s| && s[j] == '=' && s[j + 1] == '>'
  {
    if 0 <= j && j + 1 < |s| { assert s[j..j + 2] == [s[j], s[j + 1]]; }
  }

  lemma IndexOfCharIs(s: string, c: char, i: int)
    requires 0 <= i < |s| && s[i] == c
    requires forall j :: 0 <= j < i ==> s[j] != c
    ensures IndexOf(s, [c]) == i
  {
    var r := IndexOf(s, [c]);
    OccursChar(s, c, i);
    OccursChar(s, c, r);
  }

  lemma IndexOfArrowIs(s: string, i: int)
    requires 0 <= i && i + 1 < |s| && s[i] == '=' && s[i + 1] == '>'
    requires forall j :: 0 <= j < i ==> !(s[j] == '=' && s[j + 1] == '>')
    ensures IndexOf(s, RenameArrow) == i
  {
    var r := IndexOf(s, RenameArrow);
    OccursArrow(s, i);
    OccursArrow(s, r);
  }

  lemma NoArrowIndex(s: string)
    requires NoArrow(s)
    ensures IndexOf(s, RenameArrow) == -1
  {
    var r := IndexOf(s, RenameArrow);
    if r >= 0 { OccursArrow(s, r); }
  }

  /** The text `src => dst` between braces splits into exactly `src` and `dst`
      when neither holds an arrow. */
  lemma SplitRenameInside(src: string, dst: string)
    requires NoArrow(src) && NoArrow(dst)
    ensures Split(src + RenameArrow + dst, RenameArrow) == [src, dst]
  {
    var inside := src + RenameArrow + dst;
    forall j | 0 <= j < |src| ensures !(inside[j] == '=' && inside[j + 1] == '>') {
      if j < |src| - 1 { assert inside[j] == src[j] && inside[j + 1] == src[j + 1]; }
      else { assert inside[j + 1] == '='; }
    }
    IndexOfArrowIs(inside, |src|);
    assert inside[..|src|] == src && inside[|src| + 2..] == dst;
    NoArrowIndex(dst);
  }

  /** Where the first `{`, `}` and "=>" of `pre{src=>dst}post` are. */
  lemma BraceRenameIndices(pre: string, src: string, dst: string, post: string)
    requires NoChar(pre, '{') && NoChar(pre, '}') && NoArrow(pre)
    requires NoChar(src, '}') && NoArrow(src)
    requires NoChar(dst, '}')
    ensures var line := pre + "{" + src + RenameArrow + dst + "}" + post;
            IndexOf(line, "{") == |pre| &&
            IndexOf(line, RenameArrow) == |pre| + 1 + |src| &&
            IndexOf(line, "}") == |pre| + 3 + |src| + |dst|
  {
    var line := pre + "{" + src + RenameArrow + dst + "}" + post;
    var lc := |pre|;
    var ar := lc + 1 + |src|;
    var rc := ar + 2 + |dst|;
    assert forall k :: 0 <= k < lc ==> line[k] == pre[k];
    assert line[lc] == '{';
    assert forall k :: 0 <= k < |src| ==> line[lc + 1 + k] == src[k];
    assert line[ar] == '=' && line[ar + 1] == '>';
    assert forall k :: 0 <= k < |dst| ==> line[ar + 2 + k] == dst[k];
    assert line[rc] == '}';
    IndexOfCharIs(line, '{', lc);
    forall j | 0 <= j < rc ensures line[j] != '}' {
      if j < lc {} else if j == lc {} else if j < ar { assert line[j] == src[j - lc - 1]; }
      else if j < ar + 2 {} else { assert line[j] == dst[j - ar - 2]; }
    }
    IndexOfCharIs(line, '}', rc);
    forall j | 0 <= j < ar ensures !(line[j] == '=' && line[j + 1] == '>') {
      if j < lc - 1 { assert line[j] == pre[j] && line[j + 1] == pre[j + 1]; }
      else if j == lc - 1 {} else if j == lc {}
      else if j < ar - 1 { assert line[j] == src[j - lc - 1] && line[j + 1] == src[j - lc]; }
    }
    IndexOfArrowIs(line, ar);
  }

  /** The first brace pattern applies whenever the first `{`, "=>" and `}`
      come in that order. */
  lemma FirstPatternApplies(line: string, lc: int, ar: int, rc: int)
    requires IndexOf(line, "{") == lc && IndexOf(line, RenameArrow) == ar && IndexOf(line, "}") == rc
    requires 0 <= lc < ar < rc
    ensures var parts := Split(line[lc + 1..rc], RenameArrow);
            RenameDestination(line) == if |parts| == 2 then TrimSpace(line[..lc] + parts[1]) else ""
  {
  }

  /** First rename pattern, `prefix{src => dst}suffix`: the destination is
      `prefix` followed by `dst`, trimmed, where `prefix` is everything on the
      line before the first `{`, numeric fields included. */
  lemma BraceRenameDestination(pre: string, src: string, dst: string, post: string)
    requires NoChar(pre, '{') && NoChar(pre, '}') && NoArrow(pre)
    requires NoChar(src, '}') && NoArrow(src)
    requires NoChar(dst, '}') && NoArrow(dst)
    ensures RenameDestination(pre + "{" + src + RenameArrow + dst + "}" + post) == TrimSpace(pre + dst)
  {
    var line := pre + "{" + src + RenameArrow + dst + "}" + post;
    BraceRenameIndices(pre, src, dst, post);
    BraceRenameSlices(pre, src, dst, post);
    FirstPatternCuts(line, |pre|, |pre| + 1 + |src|, |pre| + 3 + |src| + |dst|, pre, src, dst);
  }

  /** The first pattern on a line whose first `{`, "=>" and `}` surround
      `src=>dst`, with `pre` before the `{`. */
  lemma FirstPatternCuts(line: string, lc: int, ar: int, rc: int, pre: string, src: string, dst: string)
    requires IndexOf(line, "{") == lc && IndexOf(line, RenameArrow) == ar && IndexOf(line, "}") == rc
    requires 0 <= lc < ar < rc <= |line|
    requires line[..lc] == pre && line[lc + 1..rc] == src + RenameArrow + dst
    requires NoArrow(src) && NoArrow(dst)
    ensures RenameDestination(line) == TrimSpace(pre + dst)
  {
    FirstPatternApplies(line, lc, ar, rc);
    SplitRenameInside(src, dst);
  }

  /** The pieces of `pre{src=>dst}post` the first pattern cuts out. */
  lemma BraceRenameSlices(pre: string, src: string, dst: string, post: string)
    ensures var line := pre + "{" + src + RenameArrow + dst + "}" + post;
            line[..|pre|] == pre && line[|pre| + 1..|pre| + 3 + |src| + |dst|] == src + RenameArrow + dst
  {
  }

  lemma NoCharIndex(s: string, c: char)
    requires NoChar(s, c)
    ensures IndexOf(s, [c]) == -1
  {
    var r := IndexOf(s, [c]);
    if r >= 0 { OccursChar(s, c, r); }
  }

  /** Where the searches of the second pattern land on `{src=>dst`. */
  lemma OpenBraceIndices(src: string, dst: string)
    requires src != [] && NoChar(src, '{') && NoChar(src, '}') && NoArrow(src)
    requires NoChar(dst, '}')
    ensures var line := "{" + src + RenameArrow + dst;
            IndexOf(line, "{") == 0 && IndexOf(line, "}") == -1 &&
            IndexOf(line, RenameArrow) == |src| + 1 && IndexOf(line[1..], RenameArrow) == |src|
  {
    var line := "{" + src + RenameArrow + dst;
    var inside := src + RenameArrow + dst;
    assert line[1..] == inside;
    IndexOfCharIs(line, '{', 0);
    assert NoChar(line, '}') by {
      forall j | 0 <= j < |line| ensures line[j] != '}' {
        if 1 <= j <= |src| { assert line[j] == src[j - 1]; }
        else if j > |src| + 2 { assert line[j] == dst[j - |src| - 3]; }
      }
    }
    NoCharIndex(line, '}');
    forall j | 0 <= j < |src| ensures !(inside[j] == '=' && inside[j + 1] == '>') {
      if j < |src| - 1 { assert inside[j] == src[j] && inside[j + 1] == src[j + 1]; }
      else { assert inside[j + 1] == '='; }
    }
    IndexOfArrowIs(inside, |src|);
    forall j | 0 <= j < |src| + 1 ensures !(line[j] == '=' && line[j + 1] == '>') {
      if j > 0 { assert line[j] == inside[j - 1] && line[j + 1] == inside[j]; }
    }
    IndexOfArrowIs(line, |src| + 1);
  }

  /** Stripping one leading space from a string without `}` leaves no `}` to
      strip at its end. */
  lemma TrimSuffixBraceAbsent(dst: string)
    requires NoChar(dst, '}')
    ensures TrimSuffix(TrimPrefix(dst, " "), "}") == TrimPrefix(dst, " ")
  {
    var t := TrimPrefix(dst, " ");
    assert t == dst[|dst| - |t|..];
    assert t != [] ==> t[|t| - 1] == dst[|dst| - 1];
  }

  /** Second rename pattern: a line that starts with `{` and has no `}` at
      all, `{src=>dst`, takes everything after the first "=>", one leading
      space and surrounding white space removed. */
  lemma OpenBraceRenameDestination(src: string, dst: string)
    requires src != [] && NoChar(src, '{') && NoChar(src, '}') && NoArrow(src)
    requires NoChar(dst, '}')
    ensures RenameDestination("{" + src + RenameArrow + dst) == TrimSpace(TrimPrefix(dst, " "))
  {
    var line := "{" + src + RenameArrow + dst;
    OpenBraceIndices(src, dst);
    assert line[1..][|src| + 2..] == dst;
    TrimSuffixBraceAbsent(dst);
  }

  // ---------------------------------------------------------------------------
  // Rename lines as `git log --numstat` prints them, and what the parser makes
  // of them

  predicate PlainWord(w: string) { w != [] && NoSpace(w) }

  /** The two ways a line of the rename branch is dropped: no destination
      could be extracted, or a destination was found on a line with fewer
      than two fields. */
  lemma RenameBranchSkips(line: string)
    requires line != [] && |Fields(line)| < 3 && Contains(line, RenameArrow)
    ensures ParseLine(line) == Skip(UnparsedRename) <==> RenameDestination(line) == []
    ensures ParseLine(line) == Skip(NoNumericFields) <==> RenameDestination(line) != [] && |Fields(line)| < 2
  {
  }

  /** A line of exactly two fields with an arrow is recorded under the
      normalised rename destination, when that is not empty. */
  lemma RenameBranchRecorded(line: string)
    requires |Fields(line)| == 2 && Contains(line, RenameArrow)
    requires Normalize(RenameDestination(line)) != []
    ensures ParseLine(line) == Record(Fields(line)[0], Fields(line)[1], Normalize(RenameDestination(line)))
  {
  }

  /** The fields of `third => last`. */
  lemma ArrowTailFields(third: string, last: string)
    requires PlainWord(third) && PlainWord(last)
    ensures Fields(third + " " + ("=>" + " " + last)) == [third, "=>", last]
  {
    FieldsOfWord(last);
    FieldsCons("=>", " ", last);
    FieldsCons(third, " ", "=>" + " " + last);
  }

  /** Regrouping of the rename line for `RenameWithSpacesFields`, kept apart
      because the concatenation is costly to regroup beside the field facts. */
  lemma RenameWithSpacesShape(added: string, deleted: string, third: string, dst: string)
    ensures added + "\t" + deleted + "\t" + third + " => " + dst + "}"
         == added + "\t" + (deleted + "\t" + (third + " " + ("=>" + " " + (dst + "}"))))
  {
  }

  /** The fields of a rename line printed with spaces around the arrow. */
  lemma RenameWithSpacesFields(added: string, deleted: string, third: string, dst: string)
    requires PlainWord(added) && PlainWord(deleted) && PlainWord(third) && PlainWord(dst + "}")
    ensures Fields(added + "\t" + deleted + "\t" + third + " => " + dst + "}")
         == [added, deleted, third, "=>", dst + "}"]
  {
    var s3 := third + " " + ("=>" + " " + (dst + "}"));
    ArrowTailFields(third, dst + "}");
    FieldsCons(deleted, "\t", s3);
    FieldsCons(added, "\t", deleted + "\t" + s3);
    RenameWithSpacesShape(added, deleted, third, dst);
  }

  /** A line whose first three fields are `added`, `deleted` and `third`
      records `third` without its leading `{` characters. */
  lemma ThirdFieldIs(line: string, added: string, deleted: string, third: string, p: string)
    requires |Fields(line)| >= 3 && Fields(line)[0] == added && Fields(line)[1] == deleted && Fields(line)[2] == third
    requires TrimLeft(third, {'{'}) == p && p != []
    ensures ParseLine(line) == Record(added, deleted, p)
  {
    ThirdFieldRecorded(line);
  }

  /** `git` prints a rename inside a directory as `dir{src => dst}`, with spaces
      around the arrow. That line has five fields, so the rename branch is never
      reached: the third field, `dir{src`, is recorded. */
  lemma BraceRenameWithSpacesKeepsSourceHalf(added: string, deleted: string, dir: string, src: string, dst: string)
    requires PlainWord(added) && PlainWord(deleted) && PlainWord(dir) && NoSpace(src) && PlainWord(dst + "}")
    requires dir[0] != '{'
    ensures ParseLine(added + "\t" + deleted + "\t" + dir + "{" + src + " => " + dst + "}")
         == Record(added, deleted, dir + "{" + src)
  {
    var third := dir + "{" + src;
    var line := added + "\t" + deleted + "\t" + third + " => " + dst + "}";
    assert line == added + "\t" + deleted + "\t" + dir + "{" + src + " => " + dst + "}";
    assert PlainWord(third) by { NoSpaceBrace(dir, src); }
    RenameWithSpacesFields(added, deleted, third, dst);
    KeepNoLeadingBrace(third);
    ThirdFieldIs(line, added, deleted, third, third);
  }

  lemma NoSpaceBrace(dir: string, src: string)
    requires NoSpace(dir) && NoSpace(src)
    ensures NoSpace(dir + "{" + src)
  {
  }

  lemma KeepNoLeadingBrace(s: string)
    requires s != [] && s[0] != '{'
    ensures TrimLeft(s, {'{'}) == s
  {
  }

  /** A rename of the whole path, `{src => dst}` with spaces around the arrow,
      records the source path, its leading `{` stripped. */
  lemma WholePathRenameKeepsSource(added: string, deleted: string, src: string, dst: string)
    requires PlainWord(added) && PlainWord(deleted) && PlainWord(src) && PlainWord(dst + "}")
    requires src[0] != '{'
    ensures ParseLine(added + "\t" + deleted + "\t{" + src + " => " + dst + "}") == Record(added, deleted, src)
  {
    var third := "{" + src;
    var line := added + "\t" + deleted + "\t" + third + " => " + dst + "}";
    assert line == added + "\t" + deleted + "\t{" + src + " => " + dst + "}";
    RenameWithSpacesFields(added, deleted, third, dst);
    StripOneBrace(src);
    ThirdFieldIs(line, added, deleted, third, src);
  }

  lemma StripOneBrace(src: string)
    requires src != [] && src[0] != '{'
    ensures TrimLeft("{" + src, {'{'}) == src
  {
    assert ("{" + src)[1..] == src;
  }

  lemma TwoFieldShape(added: string, dir: string, src: string, dst: string)
    requires PlainWord(added) && NoSpace(dir) && NoSpace(src) && NoSpace(dst)
    ensures var second := dir + "{" + src + RenameArrow + dst + "}";
            Fields(added + "\t" + second) == [added, second] &&
            added + "\t" + second == added + "\t" + dir + "{" + src + RenameArrow + dst + "}" + ""
  {
    var second := dir + "{" + src + RenameArrow + dst + "}";
    NoSpaceBraceRename(dir, src, dst);
    TwoWordFields(added, second);
    assert added + "\t" + second == added + "\t" + dir + "{" + src + RenameArrow + dst + "}" + "";
  }

  lemma TwoWordFields(added: string, second: string)
    requires PlainWord(added) && PlainWord(second)
    ensures Fields(added + "\t" + second) == [added, second]
  {
    FieldsOfWord(second);
    FieldsCons(added, "\t", second);
  }

  lemma NoSpaceBraceRename(dir: string, src: string, dst: string)
    requires NoSpace(dir) && NoSpace(src) && NoSpace(dst)
    ensures NoSpace(dir + "{" + src + RenameArrow + dst + "}")
  {
  }

  lemma NoCharAppend(a: string, b: string, c: char)
    requires NoChar(a, c) && NoChar(b, c)
    ensures NoChar(a + b, c)
  {
  }

  /** A line with a brace rename holds "=>". */
  lemma BraceLineHasArrow(pre: string, src: string, dst: string, post: string)
    ensures Contains(pre + "{" + src + RenameArrow + dst + "}" + post, RenameArrow)
  {
    var line := pre + "{" + src + RenameArrow + dst + "}" + post;
    OccursArrow(line, |pre| + 1 + |src|);
  }

  /** `added<TAB>dir` followed by `dst` is already a normalised path. */
  lemma TwoFieldDestClean(added: string, dir: string, dst: string)
    requires PlainWord(added) && added[0] != '{' && PlainWord(dst)
    ensures TrimSpace(added + "\t" + dir + dst) == added + "\t" + dir + dst
    ensures Normalize(added + "\t" + dir + dst) == added + "\t" + dir + dst
  {
    var dest := added + "\t" + dir + dst;
    assert dest[0] == added[0] && dest[|dest| - 1] == dst[|dst| - 1];
    assert TrimSpace(dest) == dest;
    NormalizeKeepsCleanPath(dest);
  }

  /** A two-field line with an arrow records its destination, normalised. */
  lemma TwoFieldRecorded(line: string, added: string, deleted: string, dest: string)
    requires Fields(line) == [added, deleted] && Contains(line, RenameArrow)
    requires Normalize(RenameDestination(line)) == dest && dest != []
    ensures ParseLine(line) == Record(added, deleted, dest)
  {
    RenameBranchRecorded(line);
  }

  /** A two-field line with a brace rename and no spaces around the arrow goes
      through the first brace pattern, whose prefix is all of the line before
      `{`: the recorded path starts with the first field and its tab. */
  lemma TwoFieldRenameKeepsNumericPrefix(added: string, dir: string, src: string, dst: string)
    requires PlainWord(added) && added[0] != '{'
    requires NoChar(added, '{') && NoChar(added, '}') && NoArrow(added + "\t" + dir)
    requires NoSpace(dir) && NoChar(dir, '{') && NoChar(dir, '}')
    requires NoSpace(src) && NoChar(src, '}') && NoArrow(src)
    requires PlainWord(dst) && NoChar(dst, '}') && NoArrow(dst)
    ensures var second := dir + "{" + src + RenameArrow + dst + "}";
            ParseLine(added + "\t" + second) == Record(added, second, added + "\t" + dir + dst)
  {
    var second := dir + "{" + src + RenameArrow + dst + "}";
    TwoFieldFacts(added, dir, src, dst);
    TwoFieldRecorded(added + "\t" + second, added, second, added + "\t" + dir + dst);
  }

  /** What the parser sees on `added<TAB>dir{src=>dst}`: two fields, an
      arrow, and a destination that normalises to itself. */
  lemma TwoFieldFacts(added: string, dir: string, src: string, dst: string)
    requires PlainWord(added) && added[0] != '{'
    requires NoChar(added, '{') && NoChar(added, '}') && NoArrow(added + "\t" + dir)
    requires NoSpace(dir) && NoChar(dir, '{') && NoChar(dir, '}')
    requires NoSpace(src) && NoChar(src, '}') && NoArrow(src)
    requires PlainWord(dst) && NoChar(dst, '}') && NoArrow(dst)
    ensures var second := dir + "{" + src + RenameArrow + dst + "}";
            var line := added + "\t" + second;
            Fields(line) == [added, second] && Contains(line, RenameArrow) &&
            Normalize(RenameDestination(line)) == added + "\t" + dir + dst
  {
    TwoFieldShape(added, dir, src, dst);
    TwoFieldDestination(added, dir, src, dst);
    TwoFieldDestClean(added, dir, dst);
  }

  /** The first pattern on `added<TAB>dir{src=>dst}`. */
  lemma TwoFieldDestination(added: string, dir: string, src: string, dst: string)
    requires NoChar(added, '{') && NoChar(added, '}') && NoArrow(added + "\t" + dir)
    requires NoChar(dir, '{') && NoChar(dir, '}')
    requires NoChar(src, '}') && NoArrow(src)
    requires NoChar(dst, '}') && NoArrow(dst)
    ensures var pre := added + "\t" + dir;
            var line := pre + "{" + src + RenameArrow + dst + "}" + "";
            RenameDestination(line) == TrimSpace(pre + dst) && Contains(line, RenameArrow)
  {
    var pre := added + "\t" + dir;
    NoCharAppend(added, "\t", '{');
    NoCharAppend(added + "\t", dir, '{');
    NoCharAppend(added, "\t", '}');
    NoCharAppend(added + "\t", dir, '}');
    BraceRenameDestination(pre, src, dst, "");
    BraceLineHasArrow(pre, src, dst, "");
  }
}
