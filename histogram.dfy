/** Counting dictionaries (`d[key] = d.get(key, 0) + 1`) and the sum of their
    counts. */
module Histogram {

  /** `d[key] = d.get(key, 0) + 1`. */
  function Bump<K>(m: map<K, nat>, key: K): (r: map<K, nat>)
    ensures r.Keys == m.Keys + {key}
  {
    m[key := (if key in m then m[key] else 0) + 1]
  }

  /** `sum(d.values())`. */
  ghost function Total<K>(m: map<K, nat>): nat
    decreases |m|
  {
    if |m| == 0 then 0
    else
      var k :| k in m;
      m[k] + Total(m - {k})
  }

  /** Some key is the one the sum takes out first. */
  lemma TotalUnfold<K>(m: map<K, nat>) returns (k: K)
    requires |m| > 0
    ensures k in m && Total(m) == m[k] + Total(m - {k})
  {
    k :| k in m && Total(m) == m[k] + Total(m - {k});
  }

  /** The sum does not depend on which key is taken out first. */
  lemma {:induction false} TotalRemove<K>(m: map<K, nat>, key: K)
    requires key in m
    ensures Total(m) == m[key] + Total(m - {key})
    decreases |m|
  {
    var k := TotalUnfold(m);
    if k != key {
      var a := m - {k};
      var b := m - {key};
      assert |a| < |m| && |b| < |m|;
      TotalRemove(a, key);
      TotalRemove(b, k);
      assert a - {key} == b - {k};
    }
  }

  /** One bump adds exactly one to the total, whether the key was new or not. */
  lemma BumpTotal<K>(m: map<K, nat>, key: K)
    ensures Total(Bump(m, key)) == Total(m) + 1
  {
    var b := Bump(m, key);
    TotalRemove(b, key);
    if key in m {
      TotalRemove(m, key);
      assert b - {key} == m - {key};
    } else {
      assert b - {key} == m;
    }
  }
}
