/** The directory tree of `git-dirheat`, as values: an arena of nodes where a
    Go `*Node` is an index, the root is index 0, and every child has a larger
    index than its parent. Defines what a well-formed tree is, how a path of
    segments is looked up, and what `aggregateCounts` computes. */
module Tree {
  import opened Sums

  datatype Option<T> = None | Some(value: T)

  /** Go's `Node`. `children` maps a segment to the index of the child node;
      `path` is the list of segments from the root down to the node (Go keeps
      the same information as a slash-joined string). */
  datatype Node = Node(name: string, path: seq<string>, value: int, isFile: bool, children: map<string, nat>)

  /** The child under key `k` lies after its parent, is named `k`, and its
      path extends the parent's path by `k`. */
  predicate ChildOk(ns: seq<Node>, i: nat, k: string)
    requires i < |ns| && k in ns[i].children
  {
    var c := ns[i].children[k];
    i < c < |ns| && ns[c].name == k && ns[c].path == ns[i].path + [k]
  }

  predicate NodeOk(ns: seq<Node>, i: nat)
    requires i < |ns|
  {
    (ns[i].isFile ==> ns[i].children == map[]) &&
    forall k :: k in ns[i].children ==> ChildOk(ns, i, k)
  }

  /** The root is a directory with the empty path, files have no children, and
      every child link is as `ensurePath` creates it. Values are not
      constrained. */
  predicate WellFormed(ns: seq<Node>) {
    |ns| >= 1 && ns[0].path == [] && !ns[0].isFile &&
    forall i :: 0 <= i < |ns| ==> NodeOk(ns, i)
  }

  /** Two arenas with the same links, the same kinds of node and the same
      file values: they differ at most in directory values. */
  predicate SameShape(a: seq<Node>, b: seq<Node>) {
    |a| == |b| &&
    forall j :: 0 <= j < |a| ==>
      a[j].children == b[j].children && a[j].isFile == b[j].isFile &&
      (a[j].isFile ==> a[j].value == b[j].value)
  }

  // ---------------------------------------------------------------------------
  // Paths

  /** The parts `ensurePath` walks: the non-empty ones, in order. */
  function Segments(parts: seq<string>): (s: seq<string>)
    ensures |s| <= |parts|
    ensures forall x :: 0 <= x < |s| ==> s[x] != []
  {
    if parts == [] then []
    else (if parts[0] == [] then [] else [parts[0]]) + Segments(parts[1..])
  }

  /** A single part is walked when it is not empty and skipped when it is. */
  lemma SegmentsSingle(p: string)
    ensures Segments([p]) == if p == [] then [] else [p]
  {
    assert [p][1..] == [];
  }

  /** The segments of two lists of parts one after the other are the segments
      of each, in the same order: empty parts are dropped wherever they sit,
      and the others keep their order. */
  lemma {:induction false} SegmentsAppend(a: seq<string>, b: seq<string>)
    ensures Segments(a + b) == Segments(a) + Segments(b)
    decreases |a|
  {
    if a == [] {
      assert a + b == b;
    } else {
      assert (a + b)[0] == a[0] && (a + b)[1..] == a[1..] + b;
      SegmentsAppend(a[1..], b);
    }
  }

  /** Parts without empty strings are walked exactly as given. */
  lemma {:induction false} SegmentsOfNonEmpty(parts: seq<string>)
    requires forall x :: 0 <= x < |parts| ==> parts[x] != []
    ensures Segments(parts) == parts
  {
    if parts != [] {
      SegmentsOfNonEmpty(parts[1..]);
      assert [parts[0]] + parts[1..] == parts;
    }
  }

  /** Only parts that are all empty walk nowhere. */
  lemma {:induction false} SegmentsEmpty(parts: seq<string>)
    ensures Segments(parts) == [] <==> forall x :: 0 <= x < |parts| ==> parts[x] == []
  {
    if parts != [] {
      SegmentsEmpty(parts[1..]);
      if Segments(parts) == [] {
        forall x | 0 <= x < |parts| ensures parts[x] == [] {
          if x > 0 { assert parts[x] == parts[1..][x - 1]; }
        }
      } else if parts[0] == [] {
        var x :| 0 <= x < |parts[1..]| && parts[1..][x] != [];
        assert parts[x + 1] != [];
      }
    }
  }

  /** The node reached from `i` by following the keys of `p`, if any. */
  function Lookup(ns: seq<Node>, i: nat, p: seq<string>): (r: Option<nat>)
    ensures r.Some? ==> r.value < |ns|
    decreases |p|
  {
    if i >= |ns| then None
    else if p == [] then Some(i)
    else if p[0] in ns[i].children then Lookup(ns, ns[i].children[p[0]], p[1..])
    else None
  }

  /** The node a path leads to carries that path: different paths lead to
      different nodes. */
  lemma {:induction false} LookupPath(ns: seq<Node>, i: nat, p: seq<string>)
    requires WellFormed(ns) && i < |ns|
    requires Lookup(ns, i, p).Some?
    ensures ns[Lookup(ns, i, p).value].path == ns[i].path + p
    decreases |p|
  {
    if p != [] {
      var c := ns[i].children[p[0]];
      assert NodeOk(ns, i);
      assert ChildOk(ns, i, p[0]);
      LookupPath(ns, c, p[1..]);
      assert ns[i].path + [p[0]] + p[1..] == ns[i].path + p;
    }
  }

  // ---------------------------------------------------------------------------
  // What aggregateCounts computes

  /** The value `aggregateCounts` returns for node `i`: a file's own value, or
      the sum over the children of a directory. */
  ghost function Total(ns: seq<Node>, i: nat): int
    requires i < |ns|
    decreases |ns| - i, 1
  {
    if ns[i].isFile then ns[i].value else MapSum(ChildTotals(ns, i, ns[i].children.Keys))
  }

  /** `Total` of the children of `i` under the keys `ks`. */
  ghost function ChildTotals(ns: seq<Node>, i: nat, ks: set<string>): map<string, int>
    requires i < |ns|
    decreases |ns| - i, 0
  {
    map k | k in ks && k in ns[i].children && i < ns[i].children[k] < |ns| :: Total(ns, ns[i].children[k])
  }

  /** The nodes below the children of `i` under the keys `ks`. */
  ghost function SubOf(ns: seq<Node>, i: nat, ks: set<string>): set<nat>
    requires i < |ns|
    decreases |ns| - i, 0
  {
    set k, j | k in ks && k in ns[i].children && i < ns[i].children[k] < |ns| &&
               j in Sub(ns, ns[i].children[k]) :: j
  }

  /** The nodes `aggregateCounts` visits from `i`: `i` and everything below. */
  ghost function Sub(ns: seq<Node>, i: nat): set<nat>
    requires i < |ns|
    decreases |ns| - i, 1
  {
    {i} + SubOf(ns, i, ns[i].children.Keys)
  }

  /** `ns` with every node of `S` holding its `Total`. */
  ghost function SetTotals(ns: seq<Node>, S: set<nat>): seq<Node>
  {
    seq(|ns|, j requires 0 <= j < |ns| => if j in S then ns[j].(value := Total(ns, j)) else ns[j])
  }

  /** The arena after `aggregateCounts` on node `i`. */
  ghost function AggSpec(ns: seq<Node>, i: nat): seq<Node>
    requires i < |ns|
  {
    SetTotals(ns, Sub(ns, i))
  }

  /** The values of the children of `j`, by key. */
  function ChildValues(ns: seq<Node>, j: nat): map<string, int>
    requires j < |ns|
  {
    map k | k in ns[j].children && ns[j].children[k] < |ns| :: ns[ns[j].children[k]].value
  }

  // ---------------------------------------------------------------------------
  // Lemmas about the aggregation

  lemma SetTotalsShape(ns: seq<Node>, S: set<nat>)
    ensures SameShape(ns, SetTotals(ns, S))
    ensures forall j :: 0 <= j < |ns| ==>
      SetTotals(ns, S)[j].name == ns[j].name && SetTotals(ns, S)[j].path == ns[j].path
  {
  }

  lemma SameShapeWellFormed(a: seq<Node>, b: seq<Node>)
    requires SameShape(a, b) && WellFormed(a)
    requires forall j :: 0 <= j < |a| ==> a[j].name == b[j].name && a[j].path == b[j].path
    ensures WellFormed(b)
  {
    forall i | 0 <= i < |b| ensures NodeOk(b, i) {
      assert NodeOk(a, i);
      forall k | k in b[i].children ensures ChildOk(b, i, k) {
        assert ChildOk(a, i, k);
      }
    }
  }

  /** `Total` depends on the links, the kinds of node and the file values
      only, so it is the same in two arenas of the same shape. */
  lemma {:induction false} TotalFrame(a: seq<Node>, b: seq<Node>, i: nat)
    requires SameShape(a, b) && i < |a|
    ensures Total(a, i) == Total(b, i)
    ensures Sub(a, i) == Sub(b, i)
    decreases |a| - i
  {
    var ch := a[i].children;
    forall k | k in ch && i < ch[k] < |a| ensures Total(a, ch[k]) == Total(b, ch[k]) && Sub(a, ch[k]) == Sub(b, ch[k]) {
      TotalFrame(a, b, ch[k]);
    }
    assert ChildTotals(a, i, ch.Keys) == ChildTotals(b, i, ch.Keys);
    assert SubOf(a, i, ch.Keys) == SubOf(b, i, ch.Keys);
  }

  lemma {:induction false} SubRange(ns: seq<Node>, i: nat)
    requires i < |ns|
    ensures forall j :: j in Sub(ns, i) ==> i <= j < |ns|
    decreases |ns| - i
  {
    var ch := ns[i].children;
    forall j | j in Sub(ns, i) ensures i <= j < |ns| {
      if j != i {
        assert j in SubOf(ns, i, ch.Keys);
        var k :| k in ch && i < ch[k] < |ns| && j in Sub(ns, ch[k]);
        SubRange(ns, ch[k]);
      }
    }
  }

  /** A file is its own whole subtree. */
  lemma SubOfFile(ns: seq<Node>, i: nat)
    requires WellFormed(ns) && i < |ns| && ns[i].isFile
    ensures Sub(ns, i) == {i}
  {
    assert NodeOk(ns, i);
  }

  /** Totals on `S` and then on `Sub(·, c)` are totals on both at once. */
  lemma SetTotalsThenSub(ns: seq<Node>, S: set<nat>, c: nat)
    requires c < |ns|
    ensures c < |SetTotals(ns, S)|
    ensures AggSpec(SetTotals(ns, S), c) == SetTotals(ns, S + Sub(ns, c))
  {
    var mid := SetTotals(ns, S);
    SetTotalsShape(ns, S);
    TotalFrame(ns, mid, c);
    forall j | 0 <= j < |ns| ensures j in S ==> Total(mid, j) == Total(ns, j) {
      if j in S { TotalFrame(ns, mid, j); }
    }
    forall j | 0 <= j < |ns| ensures AggSpec(mid, c)[j] == SetTotals(ns, S + Sub(ns, c))[j] {
      if j in Sub(ns, c) { TotalFrame(ns, mid, j); }
    }
  }

  /** Aggregating a second time changes nothing. */
  lemma AggIdempotent(ns: seq<Node>, i: nat)
    requires i < |ns|
    ensures |AggSpec(ns, i)| == |ns|
    ensures AggSpec(AggSpec(ns, i), i) == AggSpec(ns, i)
  {
    var once := AggSpec(ns, i);
    SetTotalsThenSub(ns, Sub(ns, i), i);
    assert Sub(ns, i) + Sub(ns, i) == Sub(ns, i);
  }

  /** After aggregation every directory below `i` holds the sum of its
      children's values, every file keeps its value, and nodes elsewhere are
      untouched. */
  lemma AggConservation(ns: seq<Node>, i: nat, j: nat)
    requires WellFormed(ns) && i < |ns| && j in Sub(ns, i)
    ensures j < |ns| && |AggSpec(ns, i)| == |ns|
    ensures !ns[j].isFile ==> AggSpec(ns, i)[j].value == MapSum(ChildValues(AggSpec(ns, i), j))
    ensures ns[j].isFile ==> AggSpec(ns, i)[j].value == ns[j].value
  {
    SubRange(ns, i);
    if !ns[j].isFile {
      AggDirectory(ns, i, j);
    }
  }

  lemma AggDirectory(ns: seq<Node>, i: nat, j: nat)
    requires WellFormed(ns) && i < |ns| && j in Sub(ns, i) && j < |ns| && !ns[j].isFile
    ensures AggSpec(ns, i)[j].value == MapSum(ChildValues(AggSpec(ns, i), j))
  {
    var agg := AggSpec(ns, i);
    var ch := ns[j].children;
    assert NodeOk(ns, j);
    forall k | k in ch ensures ch[k] < |ns| && agg[ch[k]].value == Total(ns, ch[k]) {
      assert ChildOk(ns, j, k);
      SubTransitive(ns, i, j, ch[k]);
    }
    assert ChildValues(agg, j) == ChildTotals(ns, j, ch.Keys);
  }

  /** The subtree of a child is part of the subtree of any ancestor. */
  lemma SubTransitive(ns: seq<Node>, i: nat, j: nat, c: nat)
    requires i < |ns| && j in Sub(ns, i) && j < |ns|
    requires exists k :: k in ns[j].children && ns[j].children[k] == c && j < c < |ns|
    ensures c < |ns| && c in Sub(ns, i) && Sub(ns, c) <= Sub(ns, i)
    decreases |ns| - i
  {
    var k :| k in ns[j].children && ns[j].children[k] == c && j < c < |ns|;
    if j == i {
      assert c in Sub(ns, c);
    } else {
      var k', j' :| k' in ns[i].children && i < ns[i].children[k'] < |ns| && j' == j && j in Sub(ns, ns[i].children[k']);
      SubTransitive(ns, ns[i].children[k'], j, c);
    }
  }

  /** Aggregation leaves the shape alone and only writes the nodes below `i`. */
  lemma AggFrame(ns: seq<Node>, i: nat)
    requires WellFormed(ns) && i < |ns|
    ensures SameShape(ns, AggSpec(ns, i)) && WellFormed(AggSpec(ns, i))
    ensures forall j :: 0 <= j < |ns| && j !in Sub(ns, i) ==> AggSpec(ns, i)[j] == ns[j]
    ensures forall j :: 0 <= j < |ns| ==> AggSpec(ns, i)[j].name == ns[j].name && AggSpec(ns, i)[j].path == ns[j].path
  {
    SetTotalsShape(ns, Sub(ns, i));
    SameShapeWellFormed(ns, AggSpec(ns, i));
  }

  /** Steps of the aggregation loop: one more child done. */
  lemma SubOfAdd(ns: seq<Node>, i: nat, done: set<string>, k: string)
    requires i < |ns| && k in ns[i].children && i < ns[i].children[k] < |ns|
    ensures SubOf(ns, i, done + {k}) == SubOf(ns, i, done) + Sub(ns, ns[i].children[k])
  {
    var c := ns[i].children[k];
    forall j | j in Sub(ns, c) ensures j in SubOf(ns, i, done + {k}) {
      assert k in done + {k} && j in Sub(ns, c);
    }
  }

  lemma ChildTotalsAdd(ns: seq<Node>, i: nat, done: set<string>, k: string)
    requires i < |ns| && k in ns[i].children && i < ns[i].children[k] < |ns| && k !in done
    ensures k !in ChildTotals(ns, i, done)
    ensures ChildTotals(ns, i, done + {k}) == ChildTotals(ns, i, done)[k := Total(ns, ns[i].children[k])]
  {
  }

  /** Giving node `n` its total last is the same as including it in `S`. */
  lemma SetTotalsAddTop(ns: seq<Node>, S: set<nat>, n: nat, v: int)
    requires n < |ns| && v == Total(ns, n)
    ensures |SetTotals(ns, S)| == |ns|
    ensures SetTotals(ns, S)[n := SetTotals(ns, S)[n].(value := v)] == SetTotals(ns, S + {n})
  {
  }

  /** After aggregating from the root, the root holds its total and is still
      named as before. */
  lemma AggRoot(ns: seq<Node>)
    requires WellFormed(ns)
    ensures |AggSpec(ns, 0)| == |ns|
    ensures AggSpec(ns, 0)[0].value == Total(ns, 0) && AggSpec(ns, 0)[0].name == ns[0].name
  {
    assert 0 in Sub(ns, 0);
  }

  /** Aggregating a file changes nothing. */
  lemma AggOfFile(ns: seq<Node>, n: nat)
    requires WellFormed(ns) && n < |ns| && ns[n].isFile
    ensures AggSpec(ns, n) == ns
  {
    SubOfFile(ns, n);
  }

  // ---------------------------------------------------------------------------
  // What ensurePath does to the arena

  /** Every link of `a` is still in `b`, to the same node. */
  predicate KeepsLinks(a: seq<Node>, b: seq<Node>) {
    |a| <= |b| &&
    forall j :: 0 <= j < |a| ==>
      forall k :: k in a[j].children ==> k in b[j].children && b[j].children[k] == a[j].children[k]
  }

  /** `b` is `a` with nodes appended and links added: names, paths and values
      of the old nodes are unchanged, and an old node stops being a file
      exactly when it gained a child. */
  predicate Extends(a: seq<Node>, b: seq<Node>) {
    KeepsLinks(a, b) &&
    forall j :: 0 <= j < |a| ==>
      b[j].name == a[j].name && b[j].path == a[j].path && b[j].value == a[j].value &&
      b[j].isFile == (a[j].isFile && b[j].children == a[j].children)
  }

  /** Paths that lead somewhere keep leading there when links are only added. */
  lemma {:induction false} LookupKept(a: seq<Node>, b: seq<Node>, i: nat, p: seq<string>)
    requires KeepsLinks(a, b) && Lookup(a, i, p).Some?
    ensures Lookup(b, i, p) == Lookup(a, i, p)
    decreases |p|
  {
    if p != [] {
      LookupKept(a, b, a[i].children[p[0]], p[1..]);
    }
  }

  /** `ns` once `ensurePath` has created the child `k` of `p`: a node with
      value 0 and no children is appended, linked under `k`, and `p` stops
      being a file. */
  function Attach(ns: seq<Node>, p: nat, k: string, isFile: bool): (r: seq<Node>)
    requires p < |ns|
    ensures |r| == |ns| + 1
  {
    var grown := ns + [Node(k, ns[p].path + [k], 0, isFile, map[])];
    grown[p := grown[p].(children := grown[p].children[k := |ns|], isFile := false)]
  }

  /** Creating a missing child keeps the arena well formed, keeps every old
      link, and makes `k` lead from `p` to the new node. */
  lemma AttachFacts(ns: seq<Node>, p: nat, k: string, isFile: bool)
    requires WellFormed(ns) && p < |ns| && k !in ns[p].children
    ensures WellFormed(Attach(ns, p, k, isFile))
    ensures KeepsLinks(ns, Attach(ns, p, k, isFile))
    ensures Lookup(Attach(ns, p, k, isFile), p, [k]) == Some(|ns|)
  {
    var r := Attach(ns, p, k, isFile);
    forall i | 0 <= i < |r| ensures NodeOk(r, i) {
      if i < |ns| {
        assert NodeOk(ns, i);
        forall k' | k' in r[i].children ensures ChildOk(r, i, k') {
          if !(i == p && k' == k) { assert ChildOk(ns, i, k'); }
        }
      }
    }
    assert [k][1..] == [];
  }

  /** `Extends` from a fixed starting arena survives one more creation, when
      the creating node is new or nothing has changed yet. */
  lemma AttachExtends(n0: seq<Node>, ns: seq<Node>, p: nat, k: string, isFile: bool)
    requires Extends(n0, ns) && p < |ns| && k !in ns[p].children
    requires p < |n0| ==> ns == n0
    ensures Extends(n0, Attach(ns, p, k, isFile))
  {
  }

  /** One turn of the aggregation loop of directory `n`: aggregating child `k`
      in the arena where the children in `done` are already aggregated. */
  lemma AggStep(n0: seq<Node>, n: nat, done: set<string>, k: string)
    requires WellFormed(n0) && n < |n0| && k in n0[n].children && k !in done
    ensures var ns := SetTotals(n0, SubOf(n0, n, done));
            var c := n0[n].children[k];
            WellFormed(ns) && |ns| == |n0| && ns[n].children == n0[n].children && n < c < |ns| &&
            AggSpec(ns, c) == SetTotals(n0, SubOf(n0, n, done + {k})) &&
            Total(ns, c) == Total(n0, c) &&
            MapSum(ChildTotals(n0, n, done + {k})) == MapSum(ChildTotals(n0, n, done)) + Total(n0, c)
  {
    var ns := SetTotals(n0, SubOf(n0, n, done));
    var c := n0[n].children[k];
    SetTotalsShape(n0, SubOf(n0, n, done));
    SameShapeWellFormed(n0, ns);
    assert NodeOk(n0, n) && ChildOk(n0, n, k);
    SetTotalsThenSub(n0, SubOf(n0, n, done), c);
    TotalFrame(n0, ns, c);
    ChildTotalsAdd(n0, n, done, k);
    MapSumAdd(ChildTotals(n0, n, done), k, Total(n0, c));
    SubOfAdd(n0, n, done, k);
  }

  /** The end of the aggregation loop of directory `n`: with every child done,
      writing the sum into `n` gives the aggregated arena. */
  lemma AggFinish(n0: seq<Node>, n: nat, sum: int)
    requires WellFormed(n0) && n < |n0| && !n0[n].isFile
    requires sum == MapSum(ChildTotals(n0, n, n0[n].children.Keys))
    ensures var ns := SetTotals(n0, SubOf(n0, n, n0[n].children.Keys));
            |ns| == |n0| &&
            ns[n := ns[n].(value := sum)] == AggSpec(n0, n) &&
            sum == Total(n0, n) && WellFormed(AggSpec(n0, n))
  {
    SetTotalsAddTop(n0, SubOf(n0, n, n0[n].children.Keys), n, sum);
    assert SubOf(n0, n, n0[n].children.Keys) + {n} == Sub(n0, n);
    AggFrame(n0, n);
  }

  /** With nothing left to visit, every key is done. Kept as a lemma so the
      set identity stays out of the aggregation loop's proof context. */
  lemma DoneAll<T>(all: set<T>, keys: set<T>)
    requires keys == {}
    ensures all - keys == all
  {
  }

  /** Visiting `k` moves it from the keys left to the keys done. */
  lemma DoneStep<T>(all: set<T>, keys: set<T>, k: T)
    requires k in keys && keys <= all
    ensures all - (keys - {k}) == (all - keys) + {k}
  {
  }

  /** The start of the aggregation loop: nothing done, nothing summed. */
  lemma AggStart(ns: seq<Node>, n: nat)
    requires n < |ns|
    ensures SetTotals(ns, SubOf(ns, n, {})) == ns
    ensures MapSum(ChildTotals(ns, n, {})) == 0
  {
    assert SubOf(ns, n, {}) == {};
    assert ChildTotals(ns, n, {}) == map[];
  }
}
