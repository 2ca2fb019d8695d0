/** What `ensurePath` does to the arena, as a function: the walk from a node
    along a list of path parts, creating each missing child on the way. The
    method `RepoTree.EnsurePath` is proved equal to this walk; the lemmas here
    say what the walk guarantees. */
module Walk {
  import opened Tree

  /** Where a walk ends: the arena afterwards and the node reached. */
  datatype Walked = Walked(nodes: seq<Node>, at: nat)

  /** One non-empty part: follow the child `part` of `cur`, or create it
      (a file when `isFile`) when it is missing. */
  function Descend(ns: seq<Node>, cur: nat, part: string, isFile: bool): (w: Walked)
    requires cur < |ns|
    ensures part in ns[cur].children ==> w.nodes == ns
    ensures part !in ns[cur].children ==> |w.nodes| == |ns| + 1 && w.at == |ns|
  {
    if part in ns[cur].children then Walked(ns, ns[cur].children[part])
    else Walked(Attach(ns, cur, part, isFile), |ns|)
  }

  /** The walk from `cur` along `rest`, the parts not yet visited. Empty parts
      are skipped; a node is created as a file exactly when its part is the
      last one. */
  function EnsureFrom(ns: seq<Node>, cur: nat, rest: seq<string>): (w: Walked)
    requires WellFormed(ns) && cur < |ns|
    ensures WellFormed(w.nodes) && cur <= w.at < |w.nodes|
    decreases |rest|
  {
    if rest == [] then Walked(ns, cur)
    else if rest[0] == [] then EnsureFrom(ns, cur, rest[1..])
    else
      var step := Descend(ns, cur, rest[0], |rest| == 1);
      DescendFacts(ns, cur, rest[0], |rest| == 1);
      EnsureFrom(step.nodes, step.at, rest[1..])
  }

  /** One step keeps the arena well formed, only adds to it, and leads along
      `part`; an existing child is reused with nothing changed, a missing one
      is a fresh node of value 0 that is a file exactly when `isFile`. */
  lemma DescendFacts(ns: seq<Node>, cur: nat, part: string, isFile: bool)
    requires WellFormed(ns) && cur < |ns|
    ensures var w := Descend(ns, cur, part, isFile);
            WellFormed(w.nodes) && cur < w.at < |w.nodes| && Extends(ns, w.nodes) &&
            Lookup(w.nodes, cur, [part]) == Some(w.at) &&
            (part in ns[cur].children ==> w.nodes == ns) &&
            (part !in ns[cur].children ==>
               w.at == |ns| && |w.nodes| == |ns| + 1 &&
               w.nodes[w.at].value == 0 && w.nodes[w.at].isFile == isFile && w.nodes[w.at].children == map[])
  {
    if part in ns[cur].children {
      assert NodeOk(ns, cur) && ChildOk(ns, cur, part);
      assert [part][1..] == [];
    } else {
      AttachFacts(ns, cur, part, isFile);
      AttachExtends(ns, ns, cur, part, isFile);
    }
  }

  /** Extending is transitive. */
  lemma ExtendsTrans(a: seq<Node>, b: seq<Node>, c: seq<Node>)
    requires Extends(a, b) && Extends(b, c)
    ensures Extends(a, c)
  {
    forall j | 0 <= j < |a| ensures c[j].isFile == (a[j].isFile && c[j].children == a[j].children) {
      if c[j].children == a[j].children {
        assert b[j].children == a[j].children;
      }
    }
  }

  lemma ExtendsRefl(a: seq<Node>)
    ensures Extends(a, a)
  {
  }

  /** The walk keeps the arena well formed and only adds to it, and the node it
      reaches is the one the non-empty parts lead to from `cur`. */
  lemma {:induction false} EnsureReaches(ns: seq<Node>, cur: nat, rest: seq<string>)
    requires WellFormed(ns) && cur < |ns|
    ensures var w := EnsureFrom(ns, cur, rest);
            Extends(ns, w.nodes) && Lookup(w.nodes, cur, Segments(rest)) == Some(w.at)
    decreases |rest|
  {
    var w := EnsureFrom(ns, cur, rest);
    if rest == [] {
      ExtendsRefl(ns);
    } else if rest[0] == [] {
      EnsureReaches(ns, cur, rest[1..]);
      assert Segments(rest) == Segments(rest[1..]);
    } else {
      var step := Descend(ns, cur, rest[0], |rest| == 1);
      DescendFacts(ns, cur, rest[0], |rest| == 1);
      EnsureReaches(step.nodes, step.at, rest[1..]);
      ExtendsTrans(ns, step.nodes, w.nodes);
      LookupKept(step.nodes, w.nodes, cur, [rest[0]]);
      assert Segments(rest) == [rest[0]] + Segments(rest[1..]);
    }
  }

  /** With only empty parts left, the walk stays where it is and changes
      nothing; with a non-empty part left, it moves to a later node. */
  lemma {:induction false} EnsureMoves(ns: seq<Node>, cur: nat, rest: seq<string>)
    requires WellFormed(ns) && cur < |ns|
    ensures Segments(rest) == [] ==> EnsureFrom(ns, cur, rest) == Walked(ns, cur)
    ensures Segments(rest) != [] ==> EnsureFrom(ns, cur, rest).at > cur
    decreases |rest|
  {
    if rest != [] {
      if rest[0] == [] {
        EnsureMoves(ns, cur, rest[1..]);
      } else {
        var step := Descend(ns, cur, rest[0], |rest| == 1);
        DescendFacts(ns, cur, rest[0], |rest| == 1);
        EnsureMoves(step.nodes, step.at, rest[1..]);
      }
    }
  }

  /** A walk along a path that already exists creates nothing. */
  lemma {:induction false} EnsureExisting(ns: seq<Node>, cur: nat, rest: seq<string>)
    requires WellFormed(ns) && cur < |ns|
    requires Lookup(ns, cur, Segments(rest)).Some?
    ensures EnsureFrom(ns, cur, rest) == Walked(ns, Lookup(ns, cur, Segments(rest)).value)
    decreases |rest|
  {
    if rest != [] {
      if rest[0] == [] {
        assert Segments(rest) == Segments(rest[1..]);
        EnsureExisting(ns, cur, rest[1..]);
      } else {
        assert Segments(rest) == [rest[0]] + Segments(rest[1..]);
        DescendFacts(ns, cur, rest[0], |rest| == 1);
        EnsureExisting(ns, ns[cur].children[rest[0]], rest[1..]);
      }
    }
  }

  /** Every node the walk creates has value 0, and only the node reached can be
      a file: it is one exactly when it was created for the last part, that is
      when the last part is not empty. */
  lemma EnsureCreates(ns: seq<Node>, cur: nat, rest: seq<string>)
    requires WellFormed(ns) && cur < |ns|
    ensures var w := EnsureFrom(ns, cur, rest);
            (forall j :: |ns| <= j < |w.nodes| ==> w.nodes[j].value == 0 && (w.nodes[j].isFile ==> j == w.at)) &&
            (w.at >= |ns| ==> rest != [] && (w.nodes[w.at].isFile <==> rest[|rest| - 1] != []))
  {
    CreatedNodes(ns, cur, rest);
    CreatedLast(ns, cur, rest);
  }

  /** Every node of `w` from index `from` on has value 0, and none but the
      node reached is a file. */
  predicate CreatedFresh(from: nat, w: Walked) {
    forall j :: from <= j < |w.nodes| ==> w.nodes[j].value == 0 && (w.nodes[j].isFile ==> j == w.at)
  }

  /** Created nodes have value 0, and none but the one reached is a file. */
  lemma {:induction false} CreatedNodes(ns: seq<Node>, cur: nat, rest: seq<string>)
    requires WellFormed(ns) && cur < |ns|
    ensures CreatedFresh(|ns|, EnsureFrom(ns, cur, rest))
    decreases |rest|
  {
    if rest == [] {
    } else if rest[0] == [] {
      CreatedNodes(ns, cur, rest[1..]);
      assert EnsureFrom(ns, cur, rest) == EnsureFrom(ns, cur, rest[1..]);
    } else {
      var step := Descend(ns, cur, rest[0], |rest| == 1);
      DescendFacts(ns, cur, rest[0], |rest| == 1);
      var w := EnsureFrom(step.nodes, step.at, rest[1..]);
      assert EnsureFrom(ns, cur, rest) == w;
      CreatedNodes(step.nodes, step.at, rest[1..]);
      EnsureReaches(step.nodes, step.at, rest[1..]);
      if |rest| == 1 {
        assert rest[1..] == [];
      }
      forall j | |ns| <= j < |w.nodes| ensures w.nodes[j].value == 0 && (w.nodes[j].isFile ==> j == w.at) {
        if j < |step.nodes| {
          assert j == step.at;
        }
      }
    }
  }

  /** A node reached that the walk created is a file exactly when the last
      part is not empty. */
  lemma {:induction false} CreatedLast(ns: seq<Node>, cur: nat, rest: seq<string>)
    requires WellFormed(ns) && cur < |ns|
    ensures var w := EnsureFrom(ns, cur, rest);
            w.at >= |ns| ==> rest != [] && (w.nodes[w.at].isFile <==> rest[|rest| - 1] != [])
    decreases |rest|
  {
    var w := EnsureFrom(ns, cur, rest);
    if rest == [] {
    } else if rest[0] == [] {
      CreatedLast(ns, cur, rest[1..]);
      if w.at >= |ns| {
        EnsureMoves(ns, cur, rest[1..]);
        assert rest[|rest| - 1] == rest[1..][|rest[1..]| - 1];
      }
    } else {
      var step := Descend(ns, cur, rest[0], |rest| == 1);
      DescendFacts(ns, cur, rest[0], |rest| == 1);
      CreatedLast(step.nodes, step.at, rest[1..]);
      EnsureReaches(step.nodes, step.at, rest[1..]);
      EnsureMoves(step.nodes, step.at, rest[1..]);
      SegmentsEmpty(rest[1..]);
      if rest[1..] != [] {
        assert rest[|rest| - 1] == rest[1..][|rest[1..]| - 1];
      }
    }
  }
}
