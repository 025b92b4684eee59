/** Sums of the counts in a frequency dictionary. Python's `sum(d.values())`
    has no fixed order; here the sum peels off an arbitrary key, and
    `TotalRemove` shows that the key chosen does not matter. */
module Totals {

  ghost function Total(m: map<char, int>): int
    decreases |m|
  {
    if m == map[] then 0
    else
      var k :| k in m;
      assert |m - {k}| < |m| by { assert k !in m - {k} && (m - {k}).Keys < m.Keys; }
      m[k] + Total(m - {k})
  }

  /** Any key can be the one peeled off first. */
  lemma {:induction false} TotalRemove(m: map<char, int>, k: char)
    requires k in m
    ensures Total(m) == m[k] + Total(m - {k})
    decreases |m|
  {
    var j :| j in m && Total(m) == m[j] + Total(m - {j});
    if j != k {
      assert |m - {j}| < |m| by { assert (m - {j}).Keys < m.Keys; }
      assert |m - {k}| < |m| by { assert (m - {k}).Keys < m.Keys; }
      TotalRemove(m - {j}, k);
      TotalRemove(m - {k}, j);
      assert m - {j} - {k} == m - {k} - {j};
    }
  }

  /** Setting one key to `v` changes the total by `v` minus its old value. */
  lemma TotalUpdate(m: map<char, int>, k: char, v: int)
    ensures Total(m[k := v]) == Total(m) - (if k in m then m[k] else 0) + v
  {
    var m' := m[k := v];
    TotalRemove(m', k);
    if k in m {
      TotalRemove(m, k);
      assert m' - {k} == m - {k};
    } else {
      assert m' - {k} == m;
    }
  }
}
