/** What `ToJSONNode` produces: the JSON view of a node, in which only the
    children with a positive value are listed, sorted by value from the
    largest down. */
module Export {
  import opened Tree

  /** Go's `JSONNode`. `children` is `None` for a node without children (the
      Go slice stays nil) and `Some` list otherwise, possibly empty. */
  datatype JSONNode = JSONNode(name: string, value: int, children: Option<seq<JSONNode>>)

  predicate SortedByValueDesc(cs: seq<JSONNode>) {
    forall x, y :: 0 <= x < y < |cs| ==> cs[x].value >= cs[y].value
  }

  function Names(cs: seq<JSONNode>): seq<string> {
    seq(|cs|, x requires 0 <= x < |cs| => cs[x].name)
  }

  // ---------------------------------------------------------------------------
  // The sort of the listed children (`sort.Slice` with "greater value first")

  /** Puts `c` in front of the first element whose value does not exceed its
      own. */
  function Insert(c: JSONNode, cs: seq<JSONNode>): seq<JSONNode> {
    if cs == [] || cs[0].value <= c.value then [c] + cs else [cs[0]] + Insert(c, cs[1..])
  }

  lemma NamesCons(c: JSONNode, cs: seq<JSONNode>)
    ensures Names([c] + cs) == [c.name] + Names(cs)
  {
  }

  /** Inserting adds exactly `c`. */
  lemma {:induction false} InsertPerm(c: JSONNode, cs: seq<JSONNode>)
    ensures multiset(Insert(c, cs)) == multiset(cs) + multiset{c}
    ensures multiset(Names(Insert(c, cs))) == multiset(Names(cs)) + multiset{c.name}
  {
    NamesCons(c, cs);
    if !(cs == [] || cs[0].value <= c.value) {
      InsertPerm(c, cs[1..]);
      assert cs == [cs[0]] + cs[1..];
      NamesCons(cs[0], cs[1..]);
      NamesCons(cs[0], Insert(c, cs[1..]));
    }
  }

  /** Inserting into a sorted list keeps it sorted. */
  lemma {:induction false} InsertSorted(c: JSONNode, cs: seq<JSONNode>)
    requires SortedByValueDesc(cs)
    ensures SortedByValueDesc(Insert(c, cs))
  {
    if !(cs == [] || cs[0].value <= c.value) {
      InsertSorted(c, cs[1..]);
      InsertBelow(c, cs[1..], cs[0].value);
    }
  }

  /** A bound on every value of `cs` and on `c` bounds every value of the
      insertion. */
  lemma {:induction false} InsertBelow(c: JSONNode, cs: seq<JSONNode>, v: int)
    requires c.value <= v && forall x :: 0 <= x < |cs| ==> cs[x].value <= v
    ensures forall y :: 0 <= y < |Insert(c, cs)| ==> Insert(c, cs)[y].value <= v
  {
    if !(cs == [] || cs[0].value <= c.value) {
      InsertBelow(c, cs[1..], v);
    }
  }

  /** The children in order of decreasing value. Elements of equal value may
      come in any order: `sort.Slice` is not stable and the input order comes
      from map iteration, so nothing is promised about ties. */
  function SortByValueDesc(cs: seq<JSONNode>): (r: seq<JSONNode>)
    ensures multiset(r) == multiset(cs)
    ensures multiset(Names(r)) == multiset(Names(cs))
    ensures SortedByValueDesc(r)
  {
    if cs == [] then []
    else
      var rest := SortByValueDesc(cs[1..]);
      InsertStep(cs, rest);
      Insert(cs[0], rest)
  }

  /** Inserting the head of `cs` into a sorted permutation of its tail gives a
      sorted permutation of `cs`. */
  lemma InsertStep(cs: seq<JSONNode>, rest: seq<JSONNode>)
    requires cs != [] && SortedByValueDesc(rest)
    requires multiset(rest) == multiset(cs[1..]) && multiset(Names(rest)) == multiset(Names(cs[1..]))
    ensures multiset(Insert(cs[0], rest)) == multiset(cs)
    ensures multiset(Names(Insert(cs[0], rest))) == multiset(Names(cs))
    ensures SortedByValueDesc(Insert(cs[0], rest))
  {
    assert cs == [cs[0]] + cs[1..];
    NamesCons(cs[0], cs[1..]);
    InsertPerm(cs[0], rest);
    InsertSorted(cs[0], rest);
  }

  // ---------------------------------------------------------------------------
  // The export relation

  /** The keys of `i` among `ks` whose child has a positive value: the ones
      `ToJSONNode` lists. */
  function Listed(ns: seq<Node>, i: nat, ks: set<string>): set<string>
    requires i < |ns|
  {
    set k | k in ks && k in ns[i].children && ns[i].children[k] < |ns| && ns[ns[i].children[k]].value > 0
  }

  /** Visiting key `k` lists it exactly when its child has a positive value. */
  lemma ListedStep(ns: seq<Node>, i: nat, all: set<string>, keys: set<string>, k: string)
    requires WellFormed(ns) && i < |ns| && keys <= all && k in keys && all == ns[i].children.Keys
    ensures i < ns[i].children[k] < |ns| && ns[ns[i].children[k]].name == k
    ensures multiset(Listed(ns, i, all - (keys - {k}))) ==
            multiset(Listed(ns, i, all - keys)) + (if ns[ns[i].children[k]].value > 0 then multiset{k} else multiset{})
  {
    assert NodeOk(ns, i) && ChildOk(ns, i, k);
    assert all - (keys - {k}) == (all - keys) + {k};
    var before := Listed(ns, i, all - keys);
    assert k !in before;
    if ns[ns[i].children[k]].value > 0 {
      assert Listed(ns, i, all - (keys - {k})) == before + {k};
    } else {
      assert Listed(ns, i, all - (keys - {k})) == before;
    }
  }

  lemma NamesSnoc(cs: seq<JSONNode>, c: JSONNode)
    ensures multiset(Names(cs + [c])) == multiset(Names(cs)) + multiset{c.name}
  {
    assert Names(cs + [c]) == Names(cs) + [c.name];
  }

  /** `e` is the export of the child of `i` named `e.name`. */
  ghost predicate ChildExport(ns: seq<Node>, i: nat, e: JSONNode)
    requires i < |ns|
    decreases |ns| - i, 0
  {
    e.name in ns[i].children && i < ns[i].children[e.name] < |ns| &&
    ExportOf(ns, ns[i].children[e.name], e)
  }

  /** `j` is the export of node `i`: same name and value; no child list when
      the node has no children; otherwise the exports of exactly the children
      with a positive value, each once, in order of decreasing value. */
  ghost predicate ExportOf(ns: seq<Node>, i: nat, j: JSONNode)
    decreases |ns| - i, 1
  {
    i < |ns| && j.name == ns[i].name && j.value == ns[i].value &&
    if ns[i].children == map[] then j.children == None
    else
      j.children.Some? &&
      var cs := j.children.value;
      SortedByValueDesc(cs) &&
      multiset(Names(cs)) == multiset(Listed(ns, i, ns[i].children.Keys)) &&
      forall x :: 0 <= x < |cs| ==> ChildExport(ns, i, cs[x])
  }
}
