/** The tree-building loop of `analyzeRepo`: every path with a non-zero count
    is split on `/`, its parts are trimmed of spaces and braces, the nodes
    down to it are ensured, and the node reached gets the count. Then the
    whole pipeline from numstat lines to the exported tree. */
module Build {
  import opened GoStrings
  import opened Tree
  import opened Walk
  import opened Export
  import opened RepoTrees
  import opened ChangeCounts
  import opened ParseLoop
  import opened Conservation

  /** The characters trimmed from both ends of every path part. */
  const SegmentJunk: set<char> := {' ', '{', '}'}

  /** The name given to the root when the repository path ends in `.` or `/`. */
  const DefaultRootName: string := "repository_root"

  /** The root's name from the base name of the repository path. */
  function RootName(base: string): (r: string)
    ensures r != "." && r != "/"
    ensures r == base || (r == DefaultRootName && (base == "." || base == "/"))
  {
    if base == "." || base == "/" then DefaultRootName else base
  }

  /** One part with its junk trimmed from both ends. */
  function TrimJunk(part: string): string {
    Trim(part, SegmentJunk)
  }

  /** Every part with its junk trimmed. */
  function Sanitized(parts: seq<string>): seq<string> {
    seq(|parts|, i requires 0 <= i < |parts| => TrimJunk(parts[i]))
  }

  lemma SanitizedAll(parts: seq<string>, b: seq<string>)
    requires |b| == |parts| && forall j :: 0 <= j < |b| ==> b[j] == TrimJunk(parts[j])
    ensures b == Sanitized(parts)
  {
  }

  /** Trimmed parts neither start nor end with a space or a brace, parts with
      no junk at either end are kept as they are, and parts made only of junk
      become empty (so `ensurePath` skips them). */
  lemma SanitizedClean(parts: seq<string>)
    ensures |Sanitized(parts)| == |parts|
    ensures forall i :: 0 <= i < |parts| ==>
      var p := Sanitized(parts)[i];
      (p == [] || (p[0] !in SegmentJunk && p[|p| - 1] !in SegmentJunk)) &&
      ((parts[i] == [] || (parts[i][0] !in SegmentJunk && parts[i][|parts[i]| - 1] !in SegmentJunk)) ==> p == parts[i]) &&
      ((forall c :: 0 <= c < |parts[i]| ==> parts[i][c] in SegmentJunk) ==> p == [])
  {
  }

  /** Trimming a part keeps the contiguous piece of it that starts at `a`, and
      drops only the spaces and braces before and after that piece: junk
      inside the part stays. */
  lemma SanitizedIsSlice(parts: seq<string>, k: nat) returns (a: nat)
    requires k < |parts|
    ensures CutAround(parts[k], Sanitized(parts)[k], a, SegmentJunk)
  {
    assert Sanitized(parts)[k] == Trim(parts[k], SegmentJunk);
    a := TrimIsSlice(parts[k], SegmentJunk);
  }

  /** The parts `ensurePath` receives for the key `key`. */
  function PathParts(key: string): seq<string> {
    Sanitized(Split(key, "/"))
  }

  /** The segments from the root to the node that holds `key`'s count. */
  function PathOf(key: string): seq<string> {
    Segments(PathParts(key))
  }

  /** A key whose parts carry no junk and are all non-empty sits at the path
      made of its parts. */
  lemma PathOfCleanKey(key: string)
    requires forall i :: 0 <= i < |Split(key, "/")| ==>
      var p := Split(key, "/")[i];
      p != [] && p[0] !in SegmentJunk && p[|p| - 1] !in SegmentJunk
    ensures PathOf(key) == Split(key, "/")
  {
    SanitizedClean(Split(key, "/"));
    assert PathParts(key) == Split(key, "/");
    SegmentsOfNonEmpty(Split(key, "/"));
  }

  // ---------------------------------------------------------------------------
  // The loop, as a fold over the order in which the map is visited

  /** `fileNode.Value = count` */
  function SetValue(ns: seq<Node>, r: nat, v: int): (res: seq<Node>)
    requires r < |ns|
  {
    ns[r := ns[r].(value := v)]
  }

  /** Writing a value changes no link, name, path or kind of node. */
  lemma SetValueWellFormed(ns: seq<Node>, r: nat, v: int)
    requires WellFormed(ns) && r < |ns|
    ensures WellFormed(SetValue(ns, r, v))
  {
    var res := SetValue(ns, r, v);
    forall i | 0 <= i < |res| ensures NodeOk(res, i) {
      assert NodeOk(ns, i);
      forall k | k in res[i].children ensures ChildOk(res, i, k) {
        assert ChildOk(ns, i, k);
      }
    }
  }

  /** Lookups only follow links, which values do not affect. */
  lemma {:induction false} LookupSameLinks(a: seq<Node>, b: seq<Node>, i: nat, p: seq<string>)
    requires |a| == |b| && forall j :: 0 <= j < |a| ==> a[j].children == b[j].children
    ensures Lookup(a, i, p) == Lookup(b, i, p)
    decreases |p|
  {
    if i < |a| && p != [] && p[0] in a[i].children {
      LookupSameLinks(a, b, a[i].children[p[0]], p[1..]);
    }
  }

  /** One turn of the loop for key `k`. */
  function AddFile(ns: seq<Node>, counts: map<string, int>, k: string): (r: seq<Node>)
    requires WellFormed(ns) && k in counts
    ensures WellFormed(r)
  {
    if counts[k] == 0 then ns
    else
      var w := EnsureFrom(ns, 0, PathParts(k));
      SetValueWellFormed(w.nodes, w.at, counts[k]);
      SetValue(w.nodes, w.at, counts[k])
  }

  /** The arena after the loop has visited the keys of `order`, in that order. */
  function Build(ns: seq<Node>, counts: map<string, int>, order: seq<string>): (r: seq<Node>)
    requires WellFormed(ns) && forall i :: 0 <= i < |order| ==> order[i] in counts
    ensures WellFormed(r)
    decreases |order|
  {
    if order == [] then ns
    else AddFile(Build(ns, counts, order[..|order| - 1]), counts, order[|order| - 1])
  }

  /** Visiting one more key is one more turn. */
  lemma BuildSnoc(ns: seq<Node>, counts: map<string, int>, order: seq<string>, k: string)
    requires WellFormed(ns) && (forall i :: 0 <= i < |order| ==> order[i] in counts) && k in counts
    ensures forall i :: 0 <= i < |order + [k]| ==> (order + [k])[i] in counts
    ensures Build(ns, counts, order + [k]) == AddFile(Build(ns, counts, order), counts, k)
  {
    assert (order + [k])[..|order|] == order;
  }

  /** One turn keeps every path that already led somewhere, keeps the value
      of every node but the one it writes, and, for a non-zero count, writes
      the count into the node at the key's path. */
  lemma AddFileFacts(ns: seq<Node>, counts: map<string, int>, k: string)
    requires WellFormed(ns) && k in counts
    ensures var r := AddFile(ns, counts, k);
            KeepsLinks(ns, r) &&
            (counts[k] != 0 ==> Lookup(r, 0, PathOf(k)).Some? && r[Lookup(r, 0, PathOf(k)).value].value == counts[k]) &&
            (forall j :: 0 <= j < |ns| && (counts[k] == 0 || Lookup(r, 0, PathOf(k)) != Some(j)) ==> r[j].value == ns[j].value)
  {
    if counts[k] != 0 {
      var w := EnsureFrom(ns, 0, PathParts(k));
      EnsureReaches(ns, 0, PathParts(k));
      TurnFacts(ns, w, PathOf(k), counts[k]);
    }
  }

  /** Writing `v` into the node a walk reached along `path`. */
  lemma TurnFacts(ns: seq<Node>, w: Walked, path: seq<string>, v: int)
    requires Extends(ns, w.nodes) && w.at < |w.nodes| && Lookup(w.nodes, 0, path) == Some(w.at)
    ensures var r := SetValue(w.nodes, w.at, v);
            KeepsLinks(ns, r) && Lookup(r, 0, path) == Some(w.at) && r[w.at].value == v &&
            forall j :: 0 <= j < |ns| && j != w.at ==> r[j].value == ns[j].value
  {
    var r := SetValue(w.nodes, w.at, v);
    SetValueAfterExtends(ns, w.nodes, w.at, v);
    LookupSameLinks(w.nodes, r, 0, path);
  }

  /** Writing a value into a tree that extends `ns` keeps the links of `ns`
      and the values of its other nodes. */
  lemma SetValueAfterExtends(ns: seq<Node>, w: seq<Node>, at: nat, v: int)
    requires Extends(ns, w) && at < |w|
    ensures KeepsLinks(ns, SetValue(w, at, v))
    ensures SetValue(w, at, v)[at].value == v
    ensures forall j :: 0 <= j < |ns| && j != at ==> SetValue(w, at, v)[j].value == ns[j].value
  {
  }

  /** Every key with a non-zero count has a node at its path once it has
      been visited. */
  lemma {:induction false} BuildReaches(ns: seq<Node>, counts: map<string, int>, order: seq<string>, i: nat)
    requires WellFormed(ns) && forall x :: 0 <= x < |order| ==> order[x] in counts
    requires i < |order| && counts[order[i]] != 0
    ensures Lookup(Build(ns, counts, order), 0, PathOf(order[i])).Some?
    decreases |order|
  {
    var prefix := order[..|order| - 1];
    var before := Build(ns, counts, prefix);
    AddFileFacts(before, counts, order[|order| - 1]);
    if i < |order| - 1 {
      BuildReaches(ns, counts, prefix, i);
      LookupKept(before, Build(ns, counts, order), 0, PathOf(order[i]));
    }
  }

  /** Nodes at different paths are different nodes. */
  lemma LookupDistinct(ns: seq<Node>, p: seq<string>, q: seq<string>)
    requires WellFormed(ns) && Lookup(ns, 0, p).Some? && Lookup(ns, 0, q).Some? && p != q
    ensures Lookup(ns, 0, p) != Lookup(ns, 0, q)
  {
    LookupPath(ns, 0, p);
    LookupPath(ns, 0, q);
    assert ns[0].path + p == p && ns[0].path + q == q;
  }

  /** A turn for a key at another path leaves the node at `p` and its value
      alone. */
  lemma AddFileElsewhere(ns: seq<Node>, counts: map<string, int>, k: string, p: seq<string>)
    requires WellFormed(ns) && k in counts && Lookup(ns, 0, p).Some?
    requires counts[k] != 0 ==> PathOf(k) != p
    ensures var r := AddFile(ns, counts, k);
            Lookup(r, 0, p) == Lookup(ns, 0, p) && r[Lookup(r, 0, p).value].value == ns[Lookup(ns, 0, p).value].value
  {
    var r := AddFile(ns, counts, k);
    AddFileFacts(ns, counts, k);
    LookupKept(ns, r, 0, p);
    if counts[k] != 0 {
      LookupDistinct(r, PathOf(k), p);
    }
  }

  /** The node of a key holds the count of the last key visited with a
      non-zero count at the same path: keys that trim to the same path
      overwrite one another instead of adding up. */
  lemma {:induction false} BuildLastWins(ns: seq<Node>, counts: map<string, int>, order: seq<string>, i: nat)
    requires WellFormed(ns) && forall x :: 0 <= x < |order| ==> order[x] in counts
    requires i < |order| && counts[order[i]] != 0
    requires forall x :: i < x < |order| && counts[order[x]] != 0 ==> PathOf(order[x]) != PathOf(order[i])
    ensures var r := Build(ns, counts, order);
            Lookup(r, 0, PathOf(order[i])).Some? && r[Lookup(r, 0, PathOf(order[i])).value].value == counts[order[i]]
    decreases |order|
  {
    var prefix := order[..|order| - 1];
    var before := Build(ns, counts, prefix);
    if i < |order| - 1 {
      BuildLastWins(ns, counts, prefix, i);
      AddFileElsewhere(before, counts, order[|order| - 1], PathOf(order[i]));
    } else {
      AddFileFacts(before, counts, order[i]);
    }
  }

  // ---------------------------------------------------------------------------
  // The loop itself

  /** `pathParts[i] = strings.Trim(part, " {}")` for every part, in place. */
  method SanitizeParts(a: array<string>)
    modifies a
    ensures a[..] == Sanitized(old(a[..]))
  {
    ghost var parts := a[..];
    for i := 0 to a.Length
      invariant |parts| == a.Length
      invariant forall j :: 0 <= j < i ==> a[j] == TrimJunk(parts[j])
      invariant forall j :: i <= j < a.Length ==> a[j] == parts[j]
    {
      a[i] := TrimJunk(a[i]);
    }
    SanitizedAll(parts, a[..]);
  }

  /** One turn of the loop: ensure the node of `filePath` and give it
      `count`. */
  method AddPath(t: RepoTree, filePath: string, count: int, ghost counts: map<string, int>)
    requires t.Valid() && filePath in counts && counts[filePath] == count
    modifies t
    ensures t.Valid()
    ensures t.nodes == AddFile(old(t.nodes), counts, filePath)
  {
    if count != 0 {
      ghost var before := t.nodes;
      var parts := Split(filePath, "/");
      var pathParts := new string[|parts|](i requires 0 <= i < |parts| => parts[i]);
      assert pathParts[..] == parts;
      SanitizeParts(pathParts);
      var fileNode := t.EnsurePath(pathParts[..]);
      t.nodes := t.nodes[fileNode := t.nodes[fileNode].(value := count)];
      SetValueWellFormed(EnsureFrom(before, 0, PathParts(filePath)).nodes, fileNode, count);
    }
  }

  /** The root directory named `rootName`, and every key of `counts` with a
      non-zero count ensured and given its count, the keys visited in the
      (arbitrary) order `order`. */
  method BuildTree(rootName: string, counts: map<string, int>) returns (t: RepoTree, ghost order: seq<string>)
    ensures fresh(t) && t.Valid()
    ensures forall k :: k in counts <==> k in order
    ensures forall x, y :: 0 <= x < y < |order| ==> order[x] != order[y]
    ensures t.nodes == Build([Node(rootName, [], 0, false, map[])], counts, order)
  {
    t := new RepoTree(rootName);
    ghost var n0 := t.nodes;
    order := [];
    var keys := counts.Keys;
    while keys != {}
      invariant fresh(t) && t.Valid()
      invariant keys <= counts.Keys
      invariant forall x :: 0 <= x < |order| ==> order[x] in counts && order[x] !in keys
      invariant forall k :: k in counts ==> k in keys || k in order
      invariant forall x, y :: 0 <= x < y < |order| ==> order[x] != order[y]
      invariant t.nodes == Build(n0, counts, order)
      decreases |keys|
    {
      var filePath :| filePath in keys;
      AddPath(t, filePath, counts[filePath], counts);
      BuildSnoc(n0, counts, order, filePath);
      order := order + [filePath];
      keys := keys - {filePath};
    }
  }

  // ---------------------------------------------------------------------------
  // The whole pipeline

  /** From the numstat lines to the exported tree: count the changes per
      path, build the tree under the root `RootName(base)`, aggregate the
      directory values from the root down, and export the root. The root's
      value is the sum of the counts of the file nodes of the tree. */
  method AnalyzeRepo(base: string, lines: seq<string>) returns (json: JSONNode, ghost order: seq<string>)
    ensures forall k :: k in Tally(lines) <==> k in order
    ensures forall x, y :: 0 <= x < y < |order| ==> order[x] != order[y]
    ensures var built := Build([Node(RootName(base), [], 0, false, map[])], Tally(lines), order);
            ExportOf(AggSpec(built, 0), 0, json) && json.value == Total(built, 0) &&
            json.value == FileSum(built, Sub(built, 0))
  {
    var fileChangeCounts := CountChanges(lines);
    var rootDir;
    rootDir, order := BuildTree(RootName(base), fileChangeCounts);
    ghost var built := rootDir.nodes;
    var total := rootDir.AggregateCounts(0);
    json := rootDir.ToJSONNode(0);
    AggRoot(built);
    TotalIsFileSum(built, 0);
  }
}
