/** The conservation law of `aggregateCounts`: once a node is aggregated, its
    value is the sum of the values of the file nodes reachable from it. A node
    that was created as a file and later received a child is a directory by
    then, so its own count is not part of the sum. */
module Conservation {
  import opened Sums
  import opened Tree

  /** What node `j` adds to a sum over files: its value if it is a file. */
  function FileValue(ns: seq<Node>, j: nat): int {
    if j < |ns| && ns[j].isFile then ns[j].value else 0
  }

  /** The sum of `FileValue` over a finite set of nodes. */
  ghost function FileSum(ns: seq<Node>, S: set<nat>): int
    decreases |S|
  {
    if S == {} then 0 else var j :| j in S; FileValue(ns, j) + FileSum(ns, S - {j})
  }

  lemma FileSumUnfold(ns: seq<Node>, S: set<nat>) returns (j: nat)
    requires S != {}
    ensures j in S && FileSum(ns, S) == FileValue(ns, j) + FileSum(ns, S - {j})
  {
    j :| j in S && FileSum(ns, S) == FileValue(ns, j) + FileSum(ns, S - {j});
  }

  /** The sum does not depend on which node is taken out first. */
  lemma {:induction false} FileSumPick(ns: seq<Node>, S: set<nat>, k: nat)
    requires k in S
    ensures FileSum(ns, S) == FileValue(ns, k) + FileSum(ns, S - {k})
    decreases |S|
  {
    var j := FileSumUnfold(ns, S);
    if j != k {
      var sj, sk := S - {j}, S - {k};
      assert |sj| < |S| && |sk| < |S|;
      FileSumPick(ns, sj, k);
      FileSumPick(ns, sk, j);
      assert sj - {k} == sk - {j};
    }
  }

  /** Sums over disjoint sets add up. */
  lemma {:induction false} FileSumUnion(ns: seq<Node>, A: set<nat>, B: set<nat>)
    requires A !! B
    ensures FileSum(ns, A + B) == FileSum(ns, A) + FileSum(ns, B)
    decreases |A|
  {
    if A == {} {
      assert A + B == B;
    } else {
      var j :| j in A;
      FileSumPick(ns, A + B, j);
      FileSumPick(ns, A, j);
      assert (A + B) - {j} == (A - {j}) + B;
      FileSumUnion(ns, A - {j}, B);
    }
  }

  /** A node's path starts with the path of every node above it. */
  lemma {:induction false} SubPrefix(ns: seq<Node>, i: nat, j: nat)
    requires WellFormed(ns) && i < |ns| && j in Sub(ns, i)
    ensures j < |ns| && ns[i].path <= ns[j].path
    decreases |ns| - i
  {
    SubRange(ns, i);
    if j != i {
      var k :| k in ns[i].children && i < ns[i].children[k] < |ns| && j in Sub(ns, ns[i].children[k]);
      assert NodeOk(ns, i) && ChildOk(ns, i, k);
      SubPrefix(ns, ns[i].children[k], j);
    }
  }

  /** Every node below the child under `k` has `k` right after the node's
      own path. */
  lemma SubPathAt(ns: seq<Node>, i: nat, k: string, j: nat)
    requires WellFormed(ns) && i < |ns| && k in ns[i].children
    ensures ns[i].children[k] < |ns|
    ensures j in Sub(ns, ns[i].children[k]) ==>
              j < |ns| && |ns[i].path| < |ns[j].path| && ns[j].path[|ns[i].path|] == k
  {
    assert NodeOk(ns, i) && ChildOk(ns, i, k);
    var c := ns[i].children[k];
    if j in Sub(ns, c) {
      SubPrefix(ns, c, j);
      assert ns[c].path[|ns[i].path|] == k;
    }
  }

  /** The subtrees under two different keys of a node share no node: their
      paths differ right after the node's own path. */
  lemma SubtreesDisjoint(ns: seq<Node>, i: nat, k1: string, k2: string)
    requires WellFormed(ns) && i < |ns| && k1 in ns[i].children && k2 in ns[i].children && k1 != k2
    ensures ns[i].children[k1] < |ns| && ns[i].children[k2] < |ns|
    ensures Sub(ns, ns[i].children[k1]) !! Sub(ns, ns[i].children[k2])
  {
    assert NodeOk(ns, i) && ChildOk(ns, i, k1) && ChildOk(ns, i, k2);
    var c1, c2 := ns[i].children[k1], ns[i].children[k2];
    forall j | j in Sub(ns, c1) ensures j !in Sub(ns, c2) {
      SubPathAt(ns, i, k1, j);
      SubPathAt(ns, i, k2, j);
    }
  }

  /** One more key: its child's total joins the map, and its subtree joins
      the nodes below, apart from those already there. */
  lemma ChildTotalsStep(ns: seq<Node>, i: nat, rest: set<string>, k: string)
    requires WellFormed(ns) && i < |ns| && rest <= ns[i].children.Keys && k in ns[i].children && k !in rest
    ensures i < ns[i].children[k] < |ns|
    ensures MapSum(ChildTotals(ns, i, rest + {k})) == MapSum(ChildTotals(ns, i, rest)) + Total(ns, ns[i].children[k])
    ensures FileSum(ns, SubOf(ns, i, rest + {k})) == FileSum(ns, SubOf(ns, i, rest)) + FileSum(ns, Sub(ns, ns[i].children[k]))
  {
    assert NodeOk(ns, i) && ChildOk(ns, i, k);
    var c := ns[i].children[k];
    ChildTotalsAdd(ns, i, rest, k);
    MapSumAdd(ChildTotals(ns, i, rest), k, Total(ns, c));
    SubOfAdd(ns, i, rest, k);
    forall j | j in SubOf(ns, i, rest) ensures j !in Sub(ns, c) {
      var k' :| k' in rest && k' in ns[i].children && i < ns[i].children[k'] < |ns| && j in Sub(ns, ns[i].children[k']);
      SubtreesDisjoint(ns, i, k', k);
    }
    FileSumUnion(ns, SubOf(ns, i, rest), Sub(ns, c));
  }

  /** The children totals under `ks` add up to the files below those
      children. */
  lemma {:induction false} ChildTotalsFileSum(ns: seq<Node>, i: nat, ks: set<string>)
    requires WellFormed(ns) && i < |ns| && ks <= ns[i].children.Keys
    ensures MapSum(ChildTotals(ns, i, ks)) == FileSum(ns, SubOf(ns, i, ks))
    decreases |ns| - i, 0, |ks|
  {
    if ks == {} {
      assert ChildTotals(ns, i, ks) == map[];
      assert SubOf(ns, i, ks) == {};
    } else {
      var k :| k in ks;
      var rest := ks - {k};
      assert rest + {k} == ks;
      ChildTotalsStep(ns, i, rest, k);
      ChildTotalsFileSum(ns, i, rest);
      TotalIsFileSum(ns, ns[i].children[k]);
    }
  }

  /** What `aggregateCounts` returns for a node is the sum of the file values
      in its subtree. */
  lemma {:induction false} TotalIsFileSum(ns: seq<Node>, i: nat)
    requires WellFormed(ns) && i < |ns|
    ensures Total(ns, i) == FileSum(ns, Sub(ns, i))
    decreases |ns| - i, 1, 0
  {
    if ns[i].isFile {
      SubOfFile(ns, i);
      FileSumPick(ns, {i}, i);
      assert {i} - {i} == {};
    } else {
      var all := ns[i].children.Keys;
      ChildTotalsFileSum(ns, i, all);
      SubRange(ns, i);
      assert i !in SubOf(ns, i, all) by {
        if i in SubOf(ns, i, all) {
          var k :| k in all && i < ns[i].children[k] < |ns| && i in Sub(ns, ns[i].children[k]);
          SubRange(ns, ns[i].children[k]);
        }
      }
      FileSumPick(ns, Sub(ns, i), i);
      assert Sub(ns, i) - {i} == SubOf(ns, i, all);
    }
  }

  /** After `aggregateCounts` on node `i`, the value of `i` is the sum of the
      values of the file nodes reachable from it; from the root, the sum over
      every file of the tree. */
  lemma AggSumsFiles(ns: seq<Node>, i: nat)
    requires WellFormed(ns) && i < |ns|
    ensures |AggSpec(ns, i)| == |ns|
    ensures AggSpec(ns, i)[i].value == FileSum(ns, Sub(ns, i))
  {
    assert i in Sub(ns, i);
    TotalIsFileSum(ns, i);
  }
}
