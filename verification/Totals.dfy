/** Sums over the accounts of a map: the specification of every pool aggregate. */
module Totals {
  import opened Machine
  import opened Rounding

  type Amounts = map<Pubkey, int>

  /** The sum of all amounts of the map, in whatever order they are taken. */
  ghost function Total(m: Amounts): int
    decreases |m|
  {
    if m == map[] then
      0
    else
      var k :| k in m;
      m[k] + Total(m - {k})
  }

  lemma {:induction false} TotalRemove(m: Amounts, k: Pubkey)
    requires k in m
    ensures Total(m) == m[k] + Total(m - {k})
    decreases |m|
  {
    var j :| j in m && Total(m) == m[j] + Total(m - {j});
    if j == k {
    } else {
      TotalRemove(m - {j}, k);
      TotalRemove(m - {k}, j);
      assert m - {j} - {k} == m - {k} - {j};
    }
  }

  lemma TotalUpdate(m: Amounts, k: Pubkey, v: int)
    ensures Total(m[k := v]) == Total(m) - (if k in m then m[k] else 0) + v
  {
    var n := m[k := v];
    TotalRemove(n, k);
    if k in m {
      TotalRemove(m, k);
      assert n - {k} == m - {k};
    } else {
      assert n - {k} == m;
    }
  }

  /** The total of a pointwise sum is the sum of the totals. */
  lemma {:induction false} TotalSum(a: Amounts, b: Amounts, c: Amounts)
    requires a.Keys == b.Keys == c.Keys
    requires forall k :: k in c ==> c[k] == a[k] + b[k]
    ensures Total(c) == Total(a) + Total(b)
    decreases |a|
  {
    if c == map[] {
      assert a == map[] && b == map[];
    } else {
      var k :| k in c;
      TotalRemove(a, k);
      TotalRemove(b, k);
      TotalRemove(c, k);
      TotalSum(a - {k}, b - {k}, c - {k});
    }
  }

  /** The total of a scaled map is the scaled total. */
  lemma {:induction false} TotalScaled(f: int, a: Amounts, b: Amounts)
    requires a.Keys == b.Keys
    requires forall k :: k in b ==> b[k] == f * a[k]
    ensures Total(b) == f * Total(a)
    decreases |a|
  {
    if b == map[] {
      assert a == map[];
    } else {
      var k :| k in b;
      var a', b' := a - {k}, b - {k};
      assert Total(a) == a[k] + Total(a') by {
        TotalRemove(a, k);
      }
      assert Total(b) == f * a[k] + Total(b') by {
        TotalRemove(b, k);
      }
      assert Total(b') == f * Total(a') by {
        TotalScaled(f, a', b');
      }
      Distribute(f, a[k], Total(a'));
    }
  }

  lemma {:induction false} TotalMonotone(a: Amounts, b: Amounts)
    requires a.Keys == b.Keys
    requires forall k :: k in a ==> a[k] <= b[k]
    ensures Total(a) <= Total(b)
    decreases |a|
  {
    if a == map[] {
      assert b == map[];
    } else {
      var k :| k in a;
      TotalRemove(a, k);
      TotalRemove(b, k);
      TotalMonotone(a - {k}, b - {k});
    }
  }

  lemma {:induction false} TotalNonNegative(a: Amounts)
    requires forall k :: k in a ==> 0 <= a[k]
    ensures 0 <= Total(a)
    ensures forall k :: k in a ==> a[k] <= Total(a)
    decreases |a|
  {
    if a == map[] {
    } else {
      forall k | k in a
        ensures 0 <= a[k] <= Total(a)
      {
        TotalRemove(a, k);
        TotalNonNegative(a - {k});
      }
      var k :| k in a;
    }
  }

  lemma {:induction false} TotalConstant(c: int, m: Amounts)
    requires forall k :: k in m ==> m[k] == c
    ensures Total(m) == c * |m|
    decreases |m|
  {
    if m == map[] {
    } else {
      var k :| k in m;
      TotalRemove(m, k);
      TotalConstant(c, m - {k});
      Distribute(c, 1, |m| - 1);
    }
  }
}
