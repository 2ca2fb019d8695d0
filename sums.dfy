/** Sums over the values of a finite map. Go iterates a map in an arbitrary
    order, so the sum is defined by picking any key, and `MapSumPick` shows that
    every choice of key gives the same total. */
module Sums {

  ghost function MapSum(m: map<string, int>): int
    decreases |m|
  {
    if |m| == 0 then 0 else var k :| k in m; m[k] + MapSum(m - {k})
  }

  /** One unfolding of the definition: some key was taken out first. */
  lemma MapSumUnfold(m: map<string, int>) returns (j: string)
    requires |m| > 0
    ensures j in m && MapSum(m) == m[j] + MapSum(m - {j})
  {
    j :| j in m && MapSum(m) == m[j] + MapSum(m - {j});
  }

  /** The sum does not depend on which key is taken out first. */
  lemma {:induction false} MapSumPick(m: map<string, int>, k: string)
    requires k in m
    ensures MapSum(m) == m[k] + MapSum(m - {k})
    decreases |m|
  {
    var j := MapSumUnfold(m);
    if j != k {
      var mj, mk := m - {j}, m - {k};
      assert k in mj && mj[k] == m[k] && j in mk && mk[j] == m[j];
      assert mj - {k} == mk - {j};
      MapSumPick(mj, k);
      MapSumPick(mk, j);
    }
  }

  /** Adding a fresh key adds its value to the sum. */
  lemma MapSumAdd(m: map<string, int>, k: string, v: int)
    requires k !in m
    ensures MapSum(m[k := v]) == MapSum(m) + v
  {
    MapSumPick(m[k := v], k);
    assert m[k := v] - {k} == m;
  }

  /** Overwriting the value of a present key changes the sum by the difference. */
  lemma MapSumUpdate(m: map<string, int>, k: string, v: int)
    requires k in m
    ensures MapSum(m[k := v]) == MapSum(m) - m[k] + v
  {
    MapSumPick(m[k := v], k);
    MapSumPick(m, k);
    assert m[k := v] - {k} == m - {k};
  }
}
