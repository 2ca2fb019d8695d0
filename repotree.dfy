/** The tree of `*Node` values that `analyzeRepo` builds, as one object owning
    an arena of nodes. A Go `*Node` is an index into `nodes`; the receiver of
    each Go method is passed as that index. */
module RepoTrees {
  import opened Sums
  import opened Tree
  import opened Export
  import opened Walk

  class RepoTree {
    var nodes: seq<Node>

    predicate Valid()
      reads this
    {
      WellFormed(nodes)
    }

    /** `NewNode(rootDirName, "/", false)`: a tree holding only its root
        directory. */
    constructor (rootName: string)
      ensures Valid()
      ensures nodes == [Node(rootName, [], 0, false, map[])]
    {
      nodes := [Node(rootName, [], 0, false, map[])];
    }

    /** Go's `NewNode`: a fresh node with value 0 and no children. */
    method NewNode(name: string, path: seq<string>, isFile: bool) returns (id: nat)
      modifies this
      ensures id == |old(nodes)|
      ensures nodes == old(nodes) + [Node(name, path, 0, isFile, map[])]
    {
      id := |nodes|;
      nodes := nodes + [Node(name, path, 0, isFile, map[])];
    }

    /** `rootDir.ensurePath(pathParts)`: walk down from the root along the
        non-empty parts, creating every missing node, and return the node
        reached. The receiver is always the root: `currentPath` starts at
        `"/"`. */
    method EnsurePath(pathParts: seq<string>) returns (r: nat)
      requires Valid()
      modifies this
      ensures Valid()
      ensures Walked(nodes, r) == EnsureFrom(old(nodes), 0, pathParts)
    {
      ghost var goal := EnsureFrom(nodes, 0, pathParts);
      var current: nat := 0;
      for i := 0 to |pathParts|
        invariant Valid() && current < |nodes|
        invariant EnsureFrom(nodes, current, pathParts[i..]) == goal
      {
        var part := pathParts[i];
        assert pathParts[i..][0] == part && pathParts[i..][1..] == pathParts[i + 1..];
        if part != [] {
          var isFile := i == |pathParts| - 1;
          ghost var before, from := nodes, current;
          DescendFacts(nodes, current, part, isFile);
          if part !in nodes[current].children {
            var child := NewNode(part, nodes[current].path + [part], isFile);
            nodes := nodes[current := nodes[current].(children := nodes[current].children[part := child])];
            nodes := nodes[current := nodes[current].(isFile := false)];
            assert nodes == Attach(before, current, part, isFile);
          }
          current := nodes[current].children[part];
          assert Walked(nodes, current) == Descend(before, from, part, isFile);
        }
      }
      r := current;
    }

    /** `n.aggregateCounts()`: a file returns its value; a directory sets its
        value to the sum of what its children return, in map order, and
        returns it. */
    method AggregateCounts(n: nat) returns (sum: int)
      requires Valid() && n < |nodes|
      modifies this
      ensures Valid()
      ensures nodes == AggSpec(old(nodes), n)
      ensures sum == Total(old(nodes), n)
      decreases |nodes| - n, 2
    {
      if nodes[n].isFile {
        AggOfFile(nodes, n);
        return nodes[n].value;
      }
      ghost var n0 := nodes;
      sum := AggregateChildren(n, n0);
      AggFinish(n0, n, sum);
      nodes := nodes[n := nodes[n].(value := sum)];
    }

    /** The loop of `aggregateCounts` on directory `n`: every child aggregated,
        their totals summed. */
    method AggregateChildren(n: nat, ghost n0: seq<Node>) returns (sum: int)
      requires WellFormed(n0) && n < |n0| && nodes == n0
      modifies this
      ensures nodes == SetTotals(n0, SubOf(n0, n, n0[n].children.Keys))
      ensures sum == MapSum(ChildTotals(n0, n, n0[n].children.Keys))
      decreases |nodes| - n, 1
    {
      AggStart(n0, n);
      sum := 0;
      var keys := nodes[n].children.Keys;
      ghost var allKeys := keys;
      while keys != {}
        invariant keys <= allKeys
        invariant nodes == SetTotals(n0, SubOf(n0, n, allKeys - keys))
        invariant sum == MapSum(ChildTotals(n0, n, allKeys - keys))
        decreases |keys|
      {
        var k :| k in keys;
        var s := AggregateChild(n, k, n0, allKeys - keys);
        sum := sum + s;
        DoneStep(allKeys, keys, k);
        keys := keys - {k};
      }
      DoneAll(allKeys, keys);
    }

    /** One turn of the loop of `aggregateCounts` on directory `n`: aggregate
        the child under `k`. */
    method AggregateChild(n: nat, k: string, ghost n0: seq<Node>, ghost done: set<string>) returns (s: int)
      requires WellFormed(n0) && n < |n0| && k in n0[n].children && k !in done
      requires nodes == SetTotals(n0, SubOf(n0, n, done))
      modifies this
      ensures nodes == SetTotals(n0, SubOf(n0, n, done + {k}))
      ensures MapSum(ChildTotals(n0, n, done + {k})) == MapSum(ChildTotals(n0, n, done)) + s
      decreases |nodes| - n, 0
    {
      AggStep(n0, n, done, k);
      var child := nodes[n].children[k];
      s := AggregateCounts(child);
    }

    /** `n.ToJSONNode()`: the node's name and value, and, when it has
        children, the exports of those with a positive value sorted by
        decreasing value. The tree is only read. */
    method ToJSONNode(n: nat) returns (jNode: JSONNode)
      requires Valid() && n < |nodes|
      ensures ExportOf(nodes, n, jNode)
      decreases |nodes| - n, 1
    {
      jNode := JSONNode(nodes[n].name, nodes[n].value, None);
      if |nodes[n].children| > 0 {
        var cs := ExportChildren(n);
        var sorted := SortByValueDesc(cs);
        forall x | 0 <= x < |sorted| ensures ChildExport(nodes, n, sorted[x]) {
          assert sorted[x] in multiset(cs);
        }
        jNode := jNode.(children := Some(sorted));
      }
    }

    /** The loop of `ToJSONNode`: the exports of the children with a positive
        value, in map order. */
    method ExportChildren(n: nat) returns (cs: seq<JSONNode>)
      requires Valid() && n < |nodes|
      ensures multiset(Names(cs)) == multiset(Listed(nodes, n, nodes[n].children.Keys))
      ensures forall x :: 0 <= x < |cs| ==> ChildExport(nodes, n, cs[x])
      decreases |nodes| - n, 0
    {
      cs := [];
      var keys := nodes[n].children.Keys;
      ghost var all := keys;
      assert Listed(nodes, n, all - all) == {};
      while keys != {}
        invariant keys <= all
        invariant multiset(Names(cs)) == multiset(Listed(nodes, n, all - keys))
        invariant forall x :: 0 <= x < |cs| ==> ChildExport(nodes, n, cs[x])
        decreases |keys|
      {
        var k :| k in keys;
        var child := nodes[n].children[k];
        ListedStep(nodes, n, all, keys, k);
        if nodes[child].value > 0 {
          var cj := ToJSONNode(child);
          NamesSnoc(cs, cj);
          cs := cs + [cj];
        }
        keys := keys - {k};
      }
      assert all - keys == all;
    }
  }
}
