// IEEE 754 binary64: the double nearest to a real number, ties to even, down to the
// subnormal ones. Overflow is left to whoever rounds.

module Doubles {
  const LEAST: real := 4503599627370496.0 // 2 to the 52
  const BEYOND: real := 9007199254740992.0 // 2 to the 53
  const DEEPEST: nat := 1074

  // Half a unit in the last place of a normal double, at most
  function HalfUnit(x: real): real {
    x / 9007199254740992.0
  }

  predicate IsInteger(r: real) {
    r == r.Floor as real
  }

  // The nearest integer, ties to even
  function Nearest(x: real): int {
    var f := x.Floor;
    var d := x - f as real;
    if d < 0.5 || (d == 0.5 && f % 2 == 0) then f else f + 1
  }

  // A number of 53 bits and more
  function Large(x: real): real
    requires x >= LEAST
    decreases x.Floor
  {
    if x >= BEYOND then 2.0 * Large(x / 2.0) else Nearest(x) as real
  }

  // A number of at most 53 bits before the point, that has been doubled k times
  function Small(x: real, k: nat): real
    requires 0.0 <= x < BEYOND && k <= DEEPEST
    decreases DEEPEST - k
  {
    if x < LEAST && k < DEEPEST then Small(2.0 * x, k + 1) / 2.0 else Nearest(x) as real
  }

  function Magnitude(x: real): real
    requires x >= 0.0
  {
    if x >= BEYOND then Large(x) else Small(x, 0)
  }

  // The nearest double
  function Fl(x: real): real {
    if x < 0.0 then -Magnitude(-x) else Magnitude(x)
  }

  predicate IsDouble(x: real) {
    Fl(x) == x
  }

  lemma IntegerIs(x: real, n: int)
    requires x == n as real
    ensures IsInteger(x)
  {
  }

  // ---- The nearest integer ----

  lemma NearestClose(x: real)
    ensures x - 0.5 <= Nearest(x) as real <= x + 0.5
    ensures Nearest(x) as real == x - 0.5 || Nearest(x) as real == x + 0.5 ==> Nearest(x) % 2 == 0
  {
  }

  // There is no other one.
  lemma NearestIs(x: real, n: int)
    requires x - 0.5 <= n as real <= x + 0.5
    requires n as real == x - 0.5 || n as real == x + 0.5 ==> n % 2 == 0
    ensures Nearest(x) == n
  {
    var f := x.Floor;
    var d := x - f as real;
    assert (n - f) as real == n as real - f as real;
    assert -0.5 <= (n - f) as real - d <= 0.5;
    assert n == f || n == f + 1;
  }

  lemma NearestOfInteger(x: real)
    requires IsInteger(x)
    ensures Nearest(x) as real == x
  {
  }

  lemma NoneNearer(x: real, n: int)
    ensures Distance(Nearest(x) as real, x) <= Distance(n as real, x)
  {
    var m := Nearest(x);
    NearestClose(x);
    assert (n - m) as real == n as real - m as real;
    if n != m { assert n >= m + 1 || n <= m - 1; }
  }

  function Distance(x: real, y: real): (d: real)
    ensures d >= 0.0
  {
    if x < y then y - x else x - y
  }

  // ---- The error of rounding ----

  // Half the distance between doubles below the normal ones, after k doublings
  function Slack(k: nat): (s: real)
    requires k <= DEEPEST
    ensures 0.0 < s <= 0.5
    decreases DEEPEST - k
  {
    if k == DEEPEST then 0.5 else Slack(k + 1) / 2.0
  }

  lemma {:induction false} SmallClose(x: real, k: nat)
    requires 0.0 <= x < BEYOND && k <= DEEPEST
    ensures Distance(Small(x, k), x) <= HalfUnit(x) + Slack(k)
    decreases DEEPEST - k
  {
    if x < LEAST && k < DEEPEST {
      SmallClose(2.0 * x, k + 1);
    } else {
      NearestClose(x);
      if k < DEEPEST { assert HalfUnit(x) >= 0.5; }
    }
  }

  lemma {:induction false} LargeClose(x: real)
    requires x >= LEAST
    ensures Distance(Large(x), x) <= HalfUnit(x)
    decreases x.Floor
  {
    if x >= BEYOND {
      LargeClose(x / 2.0);
    } else {
      NearestClose(x);
    }
  }

  const TINY: real := 0.000000000000000000000000000001

  lemma SlackTiny()
    ensures Slack(0) <= TINY
  {
    SlackTen(0);
    SlackTen(10);
    SlackTen(20);
    SlackTen(30);
    SlackTen(40);
    SlackTen(50);
    SlackTen(60);
    SlackTen(70);
    SlackTen(80);
    SlackTen(90);
  }

  lemma SlackTen(k: nat)
    requires k + 10 <= DEEPEST
    ensures Slack(k) == Slack(k + 10) / 1024.0
  {
    assert Slack(k) == Slack(k + 1) / 2.0 == Slack(k + 2) / 4.0 == Slack(k + 3) / 8.0;
    assert Slack(k + 3) == Slack(k + 4) / 2.0 == Slack(k + 5) / 4.0 == Slack(k + 6) / 8.0;
    assert Slack(k + 6) == Slack(k + 7) / 2.0 == Slack(k + 8) / 4.0 == Slack(k + 9) / 8.0;
    assert Slack(k + 9) == Slack(k + 10) / 2.0;
  }

  // How far a double can be from the number that is rounded to it
  lemma FlClose(x: real)
    ensures var m := if x < 0.0 then -x else x; Distance(Fl(x), x) <= HalfUnit(m) + TINY
  {
    var m := if x < 0.0 then -x else x;
    SlackTiny();
    if m >= BEYOND { LargeClose(m); } else { SmallClose(m, 0); }
  }

  lemma FlOpposite(x: real)
    ensures Fl(-x) == -Fl(x)
  {
    if x == 0.0 { SmallOfInteger(0.0, 0); }
  }

  // ---- Doubles ----

  lemma {:induction false} SmallOfInteger(x: real, k: nat)
    requires 0.0 <= x < BEYOND && k <= DEEPEST && IsInteger(x)
    ensures Small(x, k) == x
    decreases DEEPEST - k
  {
    if x < LEAST && k < DEEPEST {
      IntegerIs(2.0 * x, 2 * x.Floor);
      SmallOfInteger(2.0 * x, k + 1);
    } else {
      NearestOfInteger(x);
    }
  }

  // Every integer up to 2 to the 53 is a double.
  lemma IntegersAreDoubles(n: int)
    requires -0x20_0000_0000_0000 <= n <= 0x20_0000_0000_0000
    ensures IsDouble(n as real)
  {
    var m := if n < 0 then -n else n;
    IntegerIs(m as real, m);
    if m < 0x20_0000_0000_0000 {
      SmallOfInteger(m as real, 0);
    } else {
      assert Large(BEYOND) == 2.0 * Large(LEAST);
    }
  }

  lemma {:induction false} LargeIsInteger(x: real)
    requires x >= LEAST
    ensures IsInteger(Large(x)) && Large(x) >= LEAST
    decreases x.Floor
  {
    if x >= BEYOND {
      LargeIsInteger(x / 2.0);
      IntegerIs(Large(x), 2 * Large(x / 2.0).Floor);
    } else {
      NearestClose(x);
      IntegerIs(Large(x), Nearest(x));
    }
  }

  lemma {:induction false} SmallTwice(x: real, k: nat)
    requires 0.0 <= x < BEYOND && k <= DEEPEST
    ensures 0.0 <= Small(x, k) <= BEYOND
    ensures Small(x, k) < BEYOND ==> Small(Small(x, k), k) == Small(x, k)
    decreases DEEPEST - k
  {
    if x < LEAST && k < DEEPEST {
      SmallTwice(2.0 * x, k + 1);
    } else {
      NearestClose(x);
      var n := Nearest(x);
      IntegerIs(n as real, n);
      assert 0 <= n <= 0x20_0000_0000_0000;
      if n < 0x20_0000_0000_0000 { SmallOfInteger(n as real, k); }
    }
  }

  lemma {:induction false} LargeTwice(x: real)
    requires x >= LEAST
    ensures Large(x) >= LEAST && Large(Large(x)) == Large(x)
    decreases x.Floor
  {
    if x >= BEYOND {
      LargeTwice(x / 2.0);
    } else {
      NearestClose(x);
      var n := Nearest(x);
      IntegerIs(n as real, n);
      assert 0x10_0000_0000_0000 <= n <= 0x20_0000_0000_0000;
      NearestOfInteger(n as real);
      NearestOfInteger(LEAST);
    }
  }

  // A rounded number is a double.
  lemma FlTwice(x: real)
    ensures IsDouble(Fl(x))
  {
    var m := if x < 0.0 then -x else x;
    MagnitudeTwice(m);
    FlOpposite(Magnitude(m));
    hide Magnitude;
  }

  lemma MagnitudeTwice(m: real)
    requires m >= 0.0
    ensures Magnitude(m) >= 0.0 && Magnitude(Magnitude(m)) == Magnitude(m)
  {
    if m >= BEYOND {
      LargeTwice(m);
      assert Large(m) == 2.0 * Large(m / 2.0);
      LargeTwice(m / 2.0);
    } else {
      SmallTwice(m, 0);
      if Small(m, 0) == BEYOND {
        NearestOfInteger(LEAST);
        assert Large(BEYOND) == 2.0 * Large(LEAST);
      }
    }
  }

  // A double with a part behind the point is below 2 to the 52.
  lemma FractionBelow(x: real)
    requires IsDouble(x) && !IsInteger(x)
    ensures -LEAST < x < LEAST
  {
    var m := if x < 0.0 then -x else x;
    if m >= BEYOND {
      LargeIsInteger(m);
      SignedInteger(x, m);
    } else if m >= LEAST {
      assert Small(m, 0) == Nearest(m) as real;
      IntegerIs(m, Nearest(m));
      SignedInteger(x, m);
    }
  }

  lemma SignedInteger(x: real, m: real)
    requires (x == m || x == -m) && IsInteger(m)
    ensures IsInteger(x)
  {
    if x == -m { IntegerIs(x, -m.Floor); }
  }

  // ---- Doubles between 2 to the 52 - j and 2 to the 53 - j ----

  function Power(j: nat): (p: real)
    ensures p >= 1.0
  {
    if j == 0 then 1.0 else 2.0 * Power(j - 1)
  }

  // From here on a double is infinite.
  const HUGE: real := Power(1024)

  lemma {:induction false} PowerGrows(i: nat, j: nat)
    requires i <= j
    ensures Power(i) <= Power(j)
    decreases j - i
  {
    if i < j { PowerGrows(i + 1, j); }
  }

  lemma {:induction false} PowerSum(i: nat, j: nat)
    ensures Power(i + j) == Power(i) * Power(j)
    decreases i
  {
    if i == 0 {
      assert 1.0 * Power(j) == Power(j);
    } else {
      PowerSum(i - 1, j);
      Associates(2.0, Power(i - 1), Power(j));
    }
  }

  lemma Associates(a: real, b: real, c: real)
    ensures (a * b) * c == a * (b * c)
  {
  }

  lemma {:induction false} PowerIsInteger(j: nat)
    ensures IsInteger(Power(j))
  {
    if j == 0 {
    } else {
      PowerIsInteger(j - 1);
      IntegerIs(Power(j), 2 * Power(j - 1).Floor);
    }
  }

  lemma PowerTen(j: nat)
    ensures Power(j + 10) == 1024.0 * Power(j)
  {
    assert Power(j + 10) == 2.0 * Power(j + 9) == 4.0 * Power(j + 8) == 8.0 * Power(j + 7);
    assert Power(j + 7) == 2.0 * Power(j + 6) == 4.0 * Power(j + 5) == 8.0 * Power(j + 4);
    assert Power(j + 4) == 2.0 * Power(j + 3) == 4.0 * Power(j + 2) == 8.0 * Power(j + 1);
  }

  lemma Powers()
    ensures Power(19) == 524288.0 && Power(20) == 1048576.0 && Power(22) == 4194304.0
    ensures Power(52) == LEAST && Power(53) == BEYOND
  {
    PowerTen(0);
    PowerTen(10);
    assert Power(20) == 2.0 * Power(19) && Power(22) == 2.0 * Power(21) == 4.0 * Power(20);
    PowerTen(20);
    PowerTen(30);
    PowerTen(40);
    assert Power(53) == 2.0 * Power(52) == 4.0 * Power(51) == 8.0 * Power(50);
  }

  // x doubled j times
  function Raised(x: real, j: nat): real {
    x * Power(j)
  }

  function Lowered(x: real, j: nat): real {
    x / Power(j)
  }

  lemma RaisedNext(x: real, j: nat)
    ensures Raised(x, 0) == x == Lowered(x, 0)
    ensures j > 0 ==> Raised(x, j) == Raised(2.0 * x, j - 1)
  {
    if j > 0 {
      var p := Power(j - 1);
      assert x * (2.0 * p) == (2.0 * x) * p;
    }
  }

  lemma RaisedGrows(x: real, j: nat)
    requires x >= 0.0
    ensures Raised(x, j) >= x
  {
    var q := Power(j) - 1.0;
    assert x * q >= 0.0;
    assert x * Power(j) == x + x * q;
  }

  lemma LoweredNext(x: real, j: nat)
    requires j > 0
    ensures Lowered(x, j) == Lowered(x, j - 1) / 2.0
  {
    var p := Power(j - 1);
    var h := x / p / 2.0;
    assert x / p * p == x;
    assert h * (2.0 * p) == x;
    Divided(h, x, 2.0 * p);
  }

  lemma Divided(h: real, n: real, p: real)
    requires p > 0.0 && h * p == n
    ensures n / p == h
  {
    var d := n / p - h;
    assert d * p == n / p * p - h * p == 0.0;
    if d != 0.0 { assert d * p != 0.0; }
  }

  lemma SmallNext(x: real, k: nat)
    requires 0.0 <= 2.0 * x < BEYOND && k < DEEPEST
    ensures Small(x, k) == Small(2.0 * x, k + 1) / 2.0
  {
  }

  // Such a number is rounded after j doublings.
  lemma {:induction false} SmallIs(x: real, k: nat, j: nat)
    requires 0.0 <= x < BEYOND && LEAST <= Raised(x, j) < BEYOND && k + j <= DEEPEST
    ensures Small(x, k) == Lowered(Nearest(Raised(x, j)) as real, j)
    decreases j
  {
    hide Raised, Lowered;
    RaisedNext(x, j);
    if j == 0 {
      RaisedNext(Nearest(x) as real, 0);
    } else {
      hide Small, Nearest;
      RaisedGrows(2.0 * x, j - 1);
      SmallNext(x, k);
      SmallIs(2.0 * x, k + 1, j - 1);
      LoweredNext(Nearest(Raised(x, j)) as real, j);
    }
  }

  // Which j it is
  lemma {:induction false} Binade(x: real, n: nat) returns (j: nat)
    requires 0.0 <= x < BEYOND && Raised(x, n) >= LEAST
    ensures j <= n && LEAST <= Raised(x, j) < BEYOND
    decreases n
  {
    hide Raised;
    RaisedNext(x, n);
    if x >= LEAST {
      j := 0;
    } else {
      var i := Binade(2.0 * x, n - 1);
      j := i + 1;
      RaisedNext(x, j);
    }
  }
}
