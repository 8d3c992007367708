// Equality of numbers with a tolerance, in doubles, and where it is equality.

module JsonNumbers {
  import opened Doubles

  // The tolerance, a double like any other
  const EPSILON: real := Fl(0.000001)

  // json_value_equals on numbers: the difference of two doubles is rounded.
  predicate Near(x: real, y: real) {
    -EPSILON < Fl(x - y) < EPSILON
  }

  lemma NearSymmetric(x: real, y: real)
    ensures Near(x, y) <==> Near(y, x)
  {
    FlOpposite(x - y);
    assert -(x - y) == y - x;
  }

  lemma EpsilonIs()
    ensures 0.0000009999999999999 < EPSILON < 0.0000010000000000001
  {
    FlClose(0.000001);
  }

  // Rounding matters only for differences as close to the tolerance as this.
  lemma NearIf(x: real, y: real)
    requires Distance(x, y) <= 0.000000999999999999
    ensures Near(x, y)
  {
    EpsilonIs();
    FlClose(x - y);
  }

  lemma FarIf(x: real, y: real)
    requires Distance(x, y) >= 0.000001000000000001
    ensures !Near(x, y)
  {
    EpsilonIs();
    FlClose(x - y);
  }

  // ---- Sets of numbers ----

  // Equality tells all numbers of the set apart.
  ghost predicate Separates(s: iset<real>) {
    forall x, y :: x in s && y in s && Near(x, y) ==> x == y
  }

  ghost predicate Transitive(s: iset<real>) {
    forall x, y, z :: x in s && y in s && z in s && Near(x, y) && Near(y, z) ==> Near(x, z)
  }

  lemma SeparatesIsTransitive(s: iset<real>)
    requires Separates(s)
    ensures Transitive(s)
  {
    hide Near;
  }

  ghost function Whole(): iset<real> {
    iset x: real | IsInteger(x)
  }

  // Integers are told apart, however large.
  lemma WholeSeparates()
    ensures Separates(Whole())
  {
    forall x, y | x in Whole() && y in Whole() && Near(x, y) ensures x == y {
      var d := x.Floor - y.Floor;
      assert x - y == d as real;
      if d != 0 {
        FarIf(x, y);
        assert false;
      }
    }
  }

  // ---- Multiples of 1/n ----

  predicate OnGrid(v: real, n: nat, bound: real) {
    -bound <= v <= bound && IsInteger(v * n as real)
  }

  lemma OnGridIs(v: real, n: nat, bound: real)
    ensures OnGrid(v, n, bound) <==> -bound <= v <= bound && IsInteger(v * n as real)
  {
  }

  // The doubles nearest to multiples of 1/n
  ghost function Grid(n: nat, bound: real): iset<real> {
    iset v: real | OnGrid(v, n, bound) :: Fl(v)
  }

  lemma Scales(x: real, y: real, m: real)
    requires m > 0.0
    ensures x < y <==> x * m < y * m
  {
    var d := y - x;
    assert y * m - x * m == d * m;
    if d > 0.0 { assert d * m > 0.0; }
    if d < 0.0 { assert d * m < 0.0; }
  }

  lemma Distributes(x: real, y: real, m: real)
    ensures (x - y) * m == x * m - y * m
  {
  }

  // Two different multiples are at least 1/n apart.
  lemma StepApart(v: real, w: real, m: real, step: real)
    requires IsInteger(v * m) && IsInteger(w * m) && v != w && m > 0.0 && step * m <= 1.0
    ensures Distance(v, w) >= step
  {
    var a, b := (v * m).Floor, (w * m).Floor;
    Distributes(v, w, m);
    Distributes(w, v, m);
    Scales(v, w, m);
    Scales(w, v, m);
    assert v * m == a as real && w * m == b as real && a != b;
    var d := Distance(v, w);
    assert d * m >= 1.0 by { assert a - b >= 1 || b - a >= 1; }
    Scales(d, step, m);
  }

  // Numbers up to the bound keep their distance when they are rounded.
  lemma GridSeparates(n: nat, bound: real, step: real)
    requires n > 0 && bound >= 0.0
    requires step * n as real <= 1.0 && step >= 2.0 * HalfUnit(bound) + 0.000001000000000002
    ensures Separates(Grid(n, bound))
  {
    hide OnGrid, Near;
    forall x, y | x in Grid(n, bound) && y in Grid(n, bound) && Near(x, y) ensures x == y {
      var v: real :| OnGrid(v, n, bound) && x == Fl(v);
      var w: real :| OnGrid(w, n, bound) && y == Fl(w);
      hide Fl;
      if v != w { PairApart(v, w, n, bound, step); }
    }
  }

  lemma PairApart(v: real, w: real, n: nat, bound: real, step: real)
    requires n > 0 && OnGrid(v, n, bound) && OnGrid(w, n, bound) && v != w
    requires step * n as real <= 1.0 && step >= 2.0 * HalfUnit(bound) + 0.000001000000000002
    ensures !Near(Fl(v), Fl(w))
  {
    OnGridIs(v, n, bound);
    OnGridIs(w, n, bound);
    hide *;
    StepApart(v, w, n as real, step);
    RoundedApart(v, w, bound, step);
  }

  lemma RoundedApart(v: real, w: real, bound: real, step: real)
    requires -bound <= v <= bound && -bound <= w <= bound && Distance(v, w) >= step
    requires step >= 2.0 * HalfUnit(bound) + 0.000001000000000002
    ensures !Near(Fl(v), Fl(w))
  {
    hide Fl;
    FlClose(v);
    FlClose(w);
    FarIf(Fl(v), Fl(w));
  }

  lemma CoarseGrid(n: nat, bound: real)
    requires 0 < n <= 500000 && 0.0 <= bound <= 4294967296.0
    ensures Separates(Grid(n, bound))
  {
    var step := 0.000002;
    assert step * n as real <= 1.0;
    GridSeparates(n, bound, step);
  }

  // Up to 4000, six decimals less one millionth of a step are told apart.
  lemma FineGrid(n: nat, bound: real)
    requires 0 < n < 1000000 && 0.0 <= bound <= 4000.0
    ensures Separates(Grid(n, bound))
  {
    var step := 0.000001000001;
    assert step * 999999.0 <= 1.0;
    Below(step, n as real, 999999.0);
    GridSeparates(n, bound, step);
  }

  lemma Below(step: real, m: real, limit: real)
    requires step >= 0.0 && m <= limit && step * limit <= 1.0
    ensures step * m <= 1.0
  {
    assert step * (limit - m) >= 0.0;
  }

  // ---- Where it fails ----

  // A double between 1 and 2
  lemma DoubleIs(v: real, m: int)
    requires 1.0 <= v < 2.0 && -0.5 < v * LEAST - m as real < 0.5
    ensures Fl(v) == m as real / LEAST
  {
    Powers();
    assert Raised(v, 52) == v * LEAST;
    SmallIs(v, 0, 52);
    NearestIs(v * LEAST, m);
  }

  // The doubles nearest to 1.000001 and so on
  lemma NearOne()
    ensures Fl(1.0) == 1.0
    ensures Fl(1.000001) == 4503604130970123.0 / LEAST
    ensures Fl(1.000002) == 4503608634569751.0 / LEAST
    ensures Fl(1.000003) == 4503613138169378.0 / LEAST
    ensures Fl(1.000004) == 4503617641769005.0 / LEAST
  {
    IntegersAreDoubles(1);
    DoubleIs(1.000001, 4503604130970123);
    DoubleIs(1.000002, 4503608634569751);
    DoubleIs(1.000003, 4503613138169378);
    DoubleIs(1.000004, 4503617641769005);
  }

  // One and the next number of six decimals are not told apart.
  lemma OneIsNearNext()
    ensures Near(Fl(1.0), Fl(1.000001)) && Near(Fl(1.000001), Fl(1.0)) && Fl(1.0) != Fl(1.000001)
  {
    hide Fl, Near;
    NearOne();
    NearIf(Fl(1.0), Fl(1.000001));
    NearSymmetric(Fl(1.0), Fl(1.000001));
  }

  // Three numbers of six decimals on which nearness is not transitive
  lemma ToleranceIsNotTransitive() returns (x: real, y: real, z: real)
    ensures x == Fl(1.000002) && y == Fl(1.000003) && z == Fl(1.000004)
    ensures Near(x, y) && Near(y, z) && !Near(x, z)
  {
    x, y, z := Fl(1.000002), Fl(1.000003), Fl(1.000004);
    hide Fl, Near;
    NearOne();
    NearIf(x, y);
    NearIf(y, z);
    FarIf(x, z);
  }

  // The k-th multiple of 1/n
  function Multiple(k: nat, n: nat): real
    requires n > 0
  {
    k as real / n as real
  }

  lemma Quotient(k: real, m: real)
    requires m > 0.0
    ensures k / m * m == k
  {
  }

  lemma MultipleFacts(k: nat, n: nat, bound: real)
    requires n > 1000000 && k <= n && bound >= 2.0
    ensures OnGrid(Multiple(k, n), n, bound) && 0.0 <= Multiple(k, n) <= 1.0
    ensures 0.0 < Multiple(k + 1, n) - Multiple(k, n) < 0.000000999999001
  {
    hide Multiple, OnGrid;
    var m, x, y := n as real, Multiple(k, n), Multiple(k + 1, n);
    MultipleIs(k, n);
    MultipleIs(k + 1, n);
    Ordered(x, y, m, k as real);
    OnGridIs(x, n, bound);
    IntegerIs(x * n as real, k);
  }

  lemma MultipleIs(k: nat, n: nat)
    requires n > 0
    ensures Multiple(k, n) * n as real == k as real
  {
    Quotient(k as real, n as real);
  }

  lemma MultipleEnds(n: nat)
    requires n > 0
    ensures Multiple(0, n) == 0.0 && Multiple(n, n) == 1.0
  {
    var m := n as real;
    Divided(0.0, 0.0, m);
    Divided(1.0, m, m);
  }

  lemma Ordered(x: real, y: real, m: real, k: real)
    requires m >= 1000001.0 && 0.0 <= k <= m && x * m == k && y * m == k + 1.0
    ensures 0.0 <= x <= 1.0 && 0.0 < y - x < 0.000000999999001
  {
    Distributes(y, x, m);
    Scales(0.0, y - x, m);
    Scales(y - x, 0.000000999999001, m);
    Scales(x, 0.0, m);
    Scales(1.0, x, m);
    assert 0.000000999999001 * m >= 0.000000999999001 * 1000001.0;
  }

  // Going up from 0 in steps finer than the tolerance: the last that is near 0
  lemma {:induction false} LastNear(k: nat, n: nat) returns (i: nat)
    requires n > 1000000 && k <= n && Near(0.0, Fl(Multiple(k, n)))
    requires !Near(0.0, Fl(Multiple(n, n)))
    ensures i < n && Near(0.0, Fl(Multiple(i, n))) && !Near(0.0, Fl(Multiple(i + 1, n)))
    decreases n - k
  {
    hide Fl, Near, Multiple;
    if Near(0.0, Fl(Multiple(k + 1, n))) {
      i := LastNear(k + 1, n);
    } else {
      i := k;
    }
  }

  lemma NotTransitiveOnGrid(n: nat, bound: real)
    requires n >= 1000000 && bound >= 2.0
    ensures !Transitive(Grid(n, bound))
  {
    if n == 1000000 {
      var x, y, z := ToleranceIsNotTransitive();
      InGrid(1.000002, n, bound, 1000002);
      InGrid(1.000003, n, bound, 1000003);
      InGrid(1.000004, n, bound, 1000004);
    } else {
      SmallSteps(n, bound);
    }
  }

  lemma InGrid(v: real, n: nat, bound: real, k: int)
    requires -bound <= v <= bound && v * n as real == k as real
    ensures Fl(v) in Grid(n, bound)
  {
    IntegerIs(v * n as real, k);
    assert OnGrid(v, n, bound);
  }

  lemma SmallSteps(n: nat, bound: real)
    requires n > 1000000 && bound >= 2.0
    ensures !Transitive(Grid(n, bound))
  {
    hide Fl, Near, OnGrid, Multiple;
    MultipleEnds(n);
    MultipleFacts(0, n, bound);
    Ends();
    var k := LastNear(0, n);
    MultipleFacts(k, n, bound);
    MultipleFacts(k + 1, n, bound);
    var x, y, z := 0.0, Fl(Multiple(k, n)), Fl(Multiple(k + 1, n));
    assert OnGrid(0.0, n, bound) && Fl(0.0) == 0.0;
    assert x in Grid(n, bound) && y in Grid(n, bound) && z in Grid(n, bound);
    FlClose(Multiple(k, n));
    FlClose(Multiple(k + 1, n));
    if Distance(0.0, y) >= 0.000001000000000001 { FarIf(0.0, y); }
    NearIf(y, z);
  }

  lemma Ends()
    ensures Fl(0.0) == 0.0 && Near(0.0, Fl(0.0)) && Fl(1.0) == 1.0 && !Near(0.0, Fl(1.0))
  {
    hide Fl, Near;
    IntegersAreDoubles(0);
    IntegersAreDoubles(1);
    NearIf(0.0, 0.0);
    FarIf(0.0, 1.0);
  }

  // Equality of doubles nearest to multiples of 1/n, up to any bound from 2 to 4000, is
  // equality exactly for n below a million,
  lemma EqualOnGrid(n: nat, bound: real)
    requires n > 0 && 2.0 <= bound <= 4000.0
    ensures Separates(Grid(n, bound)) <==> n < 1000000
  {
    hide Separates, Transitive, Grid;
    if n < 1000000 {
      FineGrid(n, bound);
    } else {
      NotTransitiveOnGrid(n, bound);
      if Separates(Grid(n, bound)) { SeparatesIsTransitive(Grid(n, bound)); }
    }
  }

  // and transitive exactly there too.
  lemma TransitiveOnGrid(n: nat, bound: real)
    requires n > 0 && 2.0 <= bound <= 4000.0
    ensures Transitive(Grid(n, bound)) <==> n < 1000000
  {
    hide Separates, Transitive, Grid;
    if n < 1000000 {
      FineGrid(n, bound);
      SeparatesIsTransitive(Grid(n, bound));
    } else {
      NotTransitiveOnGrid(n, bound);
    }
  }
}
