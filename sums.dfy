/**
 * Sums of the values a finite map holds over a set of its keys. These give a
 * meaning, independent of any iteration order, to `sum(d.values())` and to an
 * SQL `SUM` taken over grouped rows.
 */
module Sums {

  /** Some element of a non-empty set. */
  ghost function Pick<K>(ks: set<K>): (k: K)
    requires ks != {}
    ensures k in ks
  {
    var k :| k in ks; k
  }

  /** The sum of `m[k]` over every `k` in `ks`. */
  ghost function SumOver<K>(ks: set<K>, m: map<K, nat>): nat
    requires ks <= m.Keys
    decreases ks
  {
    if ks == {} then 0 else m[Pick(ks)] + SumOver(ks - {Pick(ks)}, m)
  }

  /** Any key may be taken out first: the sum does not depend on the order. */
  lemma {:induction false} SumOverRemove<K>(ks: set<K>, m: map<K, nat>, k: K)
    requires ks <= m.Keys && k in ks
    ensures SumOver(ks, m) == m[k] + SumOver(ks - {k}, m)
    decreases ks
  {
    var j := Pick(ks);
    if k != j {
      SumOverRemove(ks - {j}, m, k);
      SumOverRemove(ks - {k}, m, j);
      assert ks - {j} - {k} == ks - {k} - {j};
    }
  }

  /** Two maps that agree on `ks` have the same sum over `ks`. */
  lemma {:induction false} SumOverAgree<K>(ks: set<K>, m: map<K, nat>, m': map<K, nat>)
    requires ks <= m.Keys && ks <= m'.Keys
    requires forall k :: k in ks ==> m[k] == m'[k]
    ensures SumOver(ks, m) == SumOver(ks, m')
    decreases ks
  {
    if ks != {} {
      SumOverAgree(ks - {Pick(ks)}, m, m');
    }
  }

  /** Adding a key that is not yet summed adds its value. */
  lemma SumOverInsert<K>(ks: set<K>, m: map<K, nat>, k: K)
    requires ks <= m.Keys && k in m && k !in ks
    ensures SumOver(ks + {k}, m) == m[k] + SumOver(ks, m)
  {
    SumOverRemove(ks + {k}, m, k);
    assert ks + {k} - {k} == ks;
  }

  /** Raising the value of one summed key by `d` raises the sum by `d`. */
  lemma SumOverRaise<K>(ks: set<K>, m: map<K, nat>, k: K, d: nat)
    requires ks <= m.Keys && k in ks
    ensures SumOver(ks, m[k := m[k] + d]) == SumOver(ks, m) + d
  {
    var m' := m[k := m[k] + d];
    SumOverRemove(ks, m, k);
    SumOverRemove(ks, m', k);
    SumOverAgree(ks - {k}, m, m');
  }

  /** Python's `sum(d.values())`: visits the entries in some order and adds them up. */
  method SumValues<K>(m: map<K, nat>) returns (s: nat)
    ensures s == SumOver(m.Keys, m)
  {
    s := 0;
    var rest := m.Keys;
    while rest != {}
      invariant rest <= m.Keys
      invariant s + SumOver(rest, m) == SumOver(m.Keys, m)
      decreases rest
    {
      var k :| k in rest;
      SumOverRemove(rest, m, k);
      s := s + m[k];
      rest := rest - {k};
    }
  }
}
