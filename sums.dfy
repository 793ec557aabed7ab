/**
 Sums of the values of a finite map keyed by file path: Python's
 `sum(d.values())` over a change-count dictionary (integers) and over an
 entropy dictionary (reals). A map has no order, so each sum peels off one
 key chosen by `PickKey`; the `...Remove` lemmas show that peeling off ANY
 key gives the same value, which is what every other fact here rests on.
 */
module Sums {

  /** Some key of a non-empty map. */
  ghost function PickKey<V>(m: map<string, V>): (k: string)
    requires m.Keys != {}
    ensures k in m
  {
    var k :| k in m.Keys; k
  }

  lemma RemoveShrinks<V>(m: map<string, V>, k: string)
    requires k in m
    ensures |(m - {k}).Keys| < |m.Keys|
  {
    assert (m - {k}).Keys == m.Keys - {k};
  }

  ghost function SumInt(m: map<string, int>): int
    decreases |m.Keys|
  {
    if m.Keys == {} then 0
    else
      var k := PickKey(m);
      RemoveShrinks(m, k);
      m[k] + SumInt(m - {k})
  }

  ghost function SumReal(m: map<string, real>): real
    decreases |m.Keys|
  {
    if m.Keys == {} then 0.0
    else
      var k := PickKey(m);
      RemoveShrinks(m, k);
      m[k] + SumReal(m - {k})
  }

  /** The sum does not depend on which key is taken out first. */
  lemma {:induction false} SumIntRemove(m: map<string, int>, k: string)
    requires k in m
    ensures SumInt(m) == m[k] + SumInt(m - {k})
    decreases |m.Keys|
  {
    var j := PickKey(m);
    if j != k {
      RemoveShrinks(m, j);
      RemoveShrinks(m, k);
      SumIntRemove(m - {j}, k);
      SumIntRemove(m - {k}, j);
      assert m - {j} - {k} == m - {k} - {j};
    }
  }

  lemma {:induction false} SumRealRemove(m: map<string, real>, k: string)
    requires k in m
    ensures SumReal(m) == m[k] + SumReal(m - {k})
    decreases |m.Keys|
  {
    var j := PickKey(m);
    if j != k {
      RemoveShrinks(m, j);
      RemoveShrinks(m, k);
      SumRealRemove(m - {j}, k);
      SumRealRemove(m - {k}, j);
      assert m - {j} - {k} == m - {k} - {j};
    }
  }

  ghost predicate NonNegativeInts(m: map<string, int>)
  {
    forall k :: k in m ==> m[k] >= 0
  }

  ghost predicate NonNegativeReals(m: map<string, real>)
  {
    forall k :: k in m ==> m[k] >= 0.0
  }

  /** With no negative entry, every entry is at most the sum, and the sum is zero exactly when every entry is. */
  lemma {:induction false} SumIntBounds(m: map<string, int>)
    requires NonNegativeInts(m)
    ensures SumInt(m) >= 0
    ensures forall k :: k in m ==> m[k] <= SumInt(m)
    ensures SumInt(m) == 0 <==> forall k :: k in m ==> m[k] == 0
    decreases |m.Keys|
  {
    if m.Keys != {} {
      var j := PickKey(m);
      RemoveShrinks(m, j);
      SumIntBounds(m - {j});
      forall k | k in m && k != j
        ensures m[k] <= SumInt(m - {j})
      {
        assert k in m - {j};
      }
    }
  }

  /** Two distinct non-negative entries together are at most the sum. */
  lemma SumIntAtLeastPair(m: map<string, int>, a: string, b: string)
    requires NonNegativeInts(m)
    requires a in m && b in m && a != b
    ensures m[a] + m[b] <= SumInt(m)
  {
    SumIntRemove(m, a);
    SumIntBounds(m - {a});
    assert b in m - {a};
  }

  /** When only `a` may be non-zero, the sum is `m[a]`. */
  lemma SumIntOnly(m: map<string, int>, a: string)
    requires a in m
    requires forall k :: k in m && k != a ==> m[k] == 0
    ensures SumInt(m) == m[a]
  {
    SumIntRemove(m, a);
    SumIntBounds(m - {a});
  }

  lemma {:induction false} SumRealBounds(m: map<string, real>)
    requires NonNegativeReals(m)
    ensures SumReal(m) >= 0.0
    ensures forall k :: k in m ==> m[k] <= SumReal(m)
    decreases |m.Keys|
  {
    if m.Keys != {} {
      var j := PickKey(m);
      RemoveShrinks(m, j);
      SumRealBounds(m - {j});
      forall k | k in m && k != j
        ensures m[k] <= SumReal(m - {j})
      {
        assert k in m - {j};
      }
    }
  }

  lemma {:induction false} SumRealZero(m: map<string, real>)
    requires forall k :: k in m ==> m[k] == 0.0
    ensures SumReal(m) == 0.0
    decreases |m.Keys|
  {
    if m.Keys != {} {
      var j := PickKey(m);
      RemoveShrinks(m, j);
      SumRealZero(m - {j});
    }
  }

  /** Each value of `m` divided by `d`. */
  ghost function Quotients(m: map<string, int>, d: real): (q: map<string, real>)
    requires d != 0.0
    ensures q.Keys == m.Keys
  {
    map k | k in m :: m[k] as real / d
  }

  lemma QuotientsAdd(a: real, b: real, d: real)
    requires d != 0.0
    ensures a / d + b / d == (a + b) / d
  {
    assert (a / d) * d == a;
    assert (b / d) * d == b;
    assert (a / d + b / d) * d == a + b;
  }

  /** Summing `m[k] / d` over the keys is summing `m[k]` and then dividing by `d`. */
  lemma {:induction false} SumRealOfQuotients(m: map<string, int>, d: real)
    requires d != 0.0
    ensures SumReal(Quotients(m, d)) == SumInt(m) as real / d
    decreases |m.Keys|
  {
    var q := Quotients(m, d);
    if m.Keys != {} {
      var j := PickKey(m);
      RemoveShrinks(m, j);
      SumIntRemove(m, j);
      SumRealRemove(q, j);
      assert q - {j} == Quotients(m - {j}, d);
      SumRealOfQuotients(m - {j}, d);
      var a, b := m[j] as real, SumInt(m - {j}) as real;
      QuotientsAdd(a, b, d);
    } else {
      assert q.Keys == {};
    }
  }

  lemma SumIntPair(a: string, x: int, b: string, y: int)
    requires a != b
    ensures SumInt(map[a := x, b := y]) == x + y
  {
    var m := map[a := x, b := y];
    SumIntRemove(m, a);
    var rest := m - {a};
    assert rest == map[b := y];
    SumIntRemove(rest, b);
    assert rest - {b} == map[];
  }

  lemma SumRealPair(a: string, x: real, b: string, y: real)
    requires a != b
    ensures SumReal(map[a := x, b := y]) == x + y
  {
    var m := map[a := x, b := y];
    SumRealRemove(m, a);
    var rest := m - {a};
    assert rest == map[b := y];
    SumRealRemove(rest, b);
    assert rest - {b} == map[];
  }
}
