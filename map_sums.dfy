/**
 * Sums over the values of a dictionary keyed by identifiers. Python's
 * sum(d.values()) and the per-key totals of the report are stated with
 * these; the order in which keys are visited does not matter, which is
 * what SumKeysRemove says.
 */
module MapSums {

  /** The sum of `w(m[k])` over the keys `k` in `ks`. */
  ghost function SumKeys<V>(ks: set<string>, m: map<string, V>, w: V -> nat): nat
    requires ks <= m.Keys
    decreases ks
  {
    if ks == {} then 0
    else
      var k :| k in ks;
      w(m[k]) + SumKeys(ks - {k}, m, w)
  }

  /** The sum of `w(v)` over every value `v` of `m`. */
  ghost function SumBy<V>(m: map<string, V>, w: V -> nat): nat
  {
    SumKeys(m.Keys, m, w)
  }

  /** Any key may be taken out first. */
  lemma {:induction false} SumKeysRemove<V>(ks: set<string>, m: map<string, V>, w: V -> nat, k: string)
    requires ks <= m.Keys && k in ks
    ensures SumKeys(ks, m, w) == w(m[k]) + SumKeys(ks - {k}, m, w)
    decreases ks
  {
    var j :| j in ks && SumKeys(ks, m, w) == w(m[j]) + SumKeys(ks - {j}, m, w);
    if j != k {
      SumKeysRemove(ks - {j}, m, w, k);
      SumKeysRemove(ks - {k}, m, w, j);
      assert ks - {j} - {k} == ks - {k} - {j};
    }
  }

  /** The sum depends only on the weights of the keys summed over. */
  lemma {:induction false} SumKeysAgree<V>(ks: set<string>, m1: map<string, V>, m2: map<string, V>, w: V -> nat)
    requires ks <= m1.Keys && ks <= m2.Keys
    requires forall k :: k in ks ==> w(m1[k]) == w(m2[k])
    ensures SumKeys(ks, m1, w) == SumKeys(ks, m2, w)
    decreases ks
  {
    if ks != {} {
      var k :| k in ks && SumKeys(ks, m1, w) == w(m1[k]) + SumKeys(ks - {k}, m1, w);
      SumKeysRemove(ks, m2, w, k);
      SumKeysAgree(ks - {k}, m1, m2, w);
    }
  }

  /** A sum of zero weights is zero. */
  lemma {:induction false} SumKeysZero<V>(ks: set<string>, m: map<string, V>, w: V -> nat)
    requires ks <= m.Keys
    requires forall k :: k in ks ==> w(m[k]) == 0
    ensures SumKeys(ks, m, w) == 0
    decreases ks
  {
    if ks != {} {
      var k :| k in ks;
      SumKeysRemove(ks, m, w, k);
      SumKeysZero(ks - {k}, m, w);
    }
  }

  lemma SumByRemove<V>(m: map<string, V>, w: V -> nat, k: string)
    requires k in m
    ensures SumBy(m, w) == w(m[k]) + SumBy(m - {k}, w)
  {
    SumKeysRemove(m.Keys, m, w, k);
    assert (m - {k}).Keys == m.Keys - {k};
    SumKeysAgree(m.Keys - {k}, m, m - {k}, w);
  }

  /** Replacing the value of a present key changes the sum by the difference. */
  lemma SumByUpdate<V>(m: map<string, V>, w: V -> nat, k: string, v: V)
    requires k in m
    ensures SumBy(m[k := v], w) + w(m[k]) == SumBy(m, w) + w(v)
  {
    SumByRemove(m, w, k);
    SumByRemove(m[k := v], w, k);
    assert m[k := v] - {k} == m - {k};
  }

  /** Adding a fresh key adds its weight. */
  lemma SumByInsert<V>(m: map<string, V>, w: V -> nat, k: string, v: V)
    requires k !in m
    ensures SumBy(m[k := v], w) == SumBy(m, w) + w(v)
  {
    SumByRemove(m[k := v], w, k);
    assert m[k := v] - {k} == m;
  }

  /** A sum over fewer keys, each weighing no more, is no larger. */
  lemma {:induction false} SumBySubmap<V>(small: map<string, V>, big: map<string, V>, w: V -> nat)
    requires small.Keys <= big.Keys
    requires forall k :: k in small ==> w(small[k]) <= w(big[k])
    ensures SumBy(small, w) <= SumBy(big, w)
    decreases |big|
  {
    if big != map[] {
      var k :| k in big;
      SumByRemove(big, w, k);
      assert |big - {k}| < |big| by {
        assert (big - {k}).Keys == big.Keys - {k};
      }
      if k in small {
        SumByRemove(small, w, k);
        SumBySubmap(small - {k}, big - {k}, w);
      } else {
        assert small - {k} == small;
        SumBySubmap(small, big - {k}, w);
      }
    } else {
      assert small == map[];
    }
  }

  /** The sum of the real values of `m` over the keys in `ks`. */
  ghost function SumRealKeys(ks: set<string>, m: map<string, real>): real
    requires ks <= m.Keys
    decreases ks
  {
    if ks == {} then 0.0
    else
      var k :| k in ks;
      m[k] + SumRealKeys(ks - {k}, m)
  }

  lemma {:induction false} SumRealKeysRemove(ks: set<string>, m: map<string, real>, k: string)
    requires ks <= m.Keys && k in ks
    ensures SumRealKeys(ks, m) == m[k] + SumRealKeys(ks - {k}, m)
    decreases ks
  {
    var j :| j in ks && SumRealKeys(ks, m) == m[j] + SumRealKeys(ks - {j}, m);
    if j != k {
      SumRealKeysRemove(ks - {j}, m, k);
      SumRealKeysRemove(ks - {k}, m, j);
      assert ks - {j} - {k} == ks - {k} - {j};
    }
  }

  /** Scaling every value by `q` scales the sum by `q`. */
  lemma {:induction false} SumRealKeysScaled(ks: set<string>, m: map<string, real>, s: map<string, real>, q: real)
    requires ks <= m.Keys && ks <= s.Keys
    requires forall k :: k in ks ==> s[k] == m[k] * q
    ensures SumRealKeys(ks, s) == SumRealKeys(ks, m) * q
    decreases ks
  {
    if ks != {} {
      var k :| k in ks;
      SumRealKeysRemove(ks, s, k);
      SumRealKeysRemove(ks, m, k);
      SumRealKeysScaled(ks - {k}, m, s, q);
    }
  }

  /** Summing weights as reals gives the natural sum as a real. */
  lemma {:induction false} SumRealKeysOfWeights<V>(ks: set<string>, m: map<string, V>, w: V -> nat, r: map<string, real>)
    requires ks <= m.Keys && ks <= r.Keys
    requires forall k :: k in ks ==> r[k] == w(m[k]) as real
    ensures SumRealKeys(ks, r) == SumKeys(ks, m, w) as real
    decreases ks
  {
    if ks != {} {
      var k :| k in ks;
      SumRealKeysRemove(ks, r, k);
      SumKeysRemove(ks, m, w, k);
      SumRealKeysOfWeights(ks - {k}, m, w, r);
    }
  }
}
