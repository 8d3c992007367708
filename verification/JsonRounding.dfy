// The value a text stands for: numbers are printed with six decimals, and read back as the
// nearest doubles.

module JsonRounding {
  import opened Bytes
  import opened Doubles
  import opened JsonNumbers
  import opened JsonText
  import opened JsonValue

  import D = JsonDenotation

  // k units of the sixth decimal
  function Decimal(k: int): real {
    k as real / 1000000.0
  }

  // The number that is read back
  function Rounded(r: real): real {
    var n: int := Millionths(r);
    if IsInteger(r) then r else Fl(Decimal(if r < 0.0 then -n else n))
  }

  ghost predicate HasSixDecimals(r: real) {
    exists k: int :: r == Fl(Decimal(k))
  }

  // ---- What survives ----

  lemma DecimalOpposite(k: int)
    ensures Fl(Decimal(-k)) == -Fl(Decimal(k))
  {
    hide Fl;
    FlOpposite(Decimal(k));
    assert Decimal(-k) == -Decimal(k);
  }

  // A double survives exactly when it is nearest to some decimal number of six places.
  lemma RoundedIs(r: real)
    requires IsDouble(r)
    ensures Rounded(r) == r <==> HasSixDecimals(r)
  {
    hide Fl, IsInteger, Decimal, Millionths, Nearest;
    if IsInteger(r) {
      WholeDecimal(r);
    } else if HasSixDecimals(r) {
      var k: int :| r == Fl(Decimal(k));
      DecimalOpposite(k);
      DecimalOpposite(Millionths(r));
      MillionthsAre(r);
      Opposite(r);
      FlOpposite(r);
      NotZero(r);
      if r < 0.0 { Survives(-r, -k); } else { Survives(r, k); }
    }
  }

  lemma NotZero(r: real)
    requires !IsInteger(r)
    ensures r != 0.0
  {
  }

  lemma WholeDecimal(r: real)
    requires IsInteger(r) && IsDouble(r)
    ensures HasSixDecimals(r)
  {
    hide Fl;
    var k := r.Floor * 1000000;
    assert Decimal(k) == r;
  }

  lemma Opposite(s: real)
    ensures IsInteger(s) <==> IsInteger(-s)
  {
    if IsInteger(s) { IntegerIs(-s, -s.Floor); }
    if IsInteger(-s) { IntegerIs(s, -(-s).Floor); }
  }

  // The millionths of r are the k it came from, or nearer to it.
  lemma Survives(r: real, k: int)
    requires r > 0.0 && IsDouble(r) && !IsInteger(r) && r == Fl(Decimal(k))
    ensures Fl(Decimal(Nearest(r * 1000000.0))) == r
  {
    var x := Decimal(k);
    hide Nearest, IsInteger;
    FractionBelow(r);
    FlClose(x);
    assert k > 0 by { DecimalPositive(r, k); }
    hide Fl;
    if k <= 0x4_0000_0000_0000 {
      NearestIs(r * 1000000.0, k);
    } else {
      SurvivesLarge(r, k);
    }
  }

  lemma DecimalPositive(r: real, k: int)
    requires r > 0.0 && r == Fl(Decimal(k))
    ensures k > 0
  {
    hide Small, Large;
    if k <= 0 {
      DecimalOpposite(-k);
      MagnitudePositive(Decimal(-k));
    }
  }

  lemma MagnitudePositive(x: real)
    requires x >= 0.0
    ensures Fl(x) >= 0.0
  {
    if x >= BEYOND { LargeIsInteger(x); } else { SmallTwice(x, 0); }
  }

  // Doubling keeps order and differences.
  lemma RaisedDistance(x: real, y: real, j: nat)
    ensures Distance(Raised(x, j), Raised(y, j)) == Raised(Distance(x, y), j)
  {
    var p := Power(j);
    Distributes(x, y, p);
    Distributes(y, x, p);
    Scales(x, y, p);
  }

  lemma LoweredBack(x: real, j: nat)
    ensures Raised(Lowered(x, j), j) == x && Lowered(Raised(x, j), j) == x
  {
    var p := Power(j);
    assert x / p * p == x;
    Divided(x, x * p, p);
  }

  lemma RaisedOrder(d: real, e: real, j: nat)
    requires d <= e
    ensures Raised(d, j) <= Raised(e, j)
  {
    assert (e - d) * Power(j) >= 0.0;
  }

  // At the ends of a binade there are integers.
  lemma EndsAreIntegers(j: nat)
    requires j <= 52
    ensures IsInteger(Lowered(LEAST, j)) && IsInteger(Lowered(BEYOND, j))
  {
    hide Power, IsInteger;
    Powers();
    PowerSum(52 - j, j);
    PowerSum(53 - j, j);
    PowerIsInteger(52 - j);
    PowerIsInteger(53 - j);
    Divided(Power(52 - j), LEAST, Power(j));
    Divided(Power(53 - j), BEYOND, Power(j));
  }

  // What is rounded to a double with a part behind the point, doubled j times: next to an
  // integer away from the ends of its binade.
  lemma InBinade(x: real, r: real, n: nat) returns (j: nat, m: int)
    requires 0.0 < x < BEYOND && r == Fl(x) && !IsInteger(r) && n <= 52 && Raised(x, n) >= LEAST
    ensures j <= n && LEAST <= Raised(x, j) < BEYOND && m == Nearest(Raised(x, j))
    ensures LEAST + 1.0 <= m as real <= BEYOND - 1.0 && r == Lowered(m as real, j) && Raised(r, j) == m as real
  {
    hide Power, Raised, Lowered, Nearest, IsInteger, Small;
    j := Binade(x, n);
    m := Nearest(Raised(x, j));
    SmallIs(x, 0, j);
    LoweredBack(m as real, j);
    EndsAreIntegers(j);
    NearestClose(Raised(x, j));
    Inside(m);
  }

  lemma Inside(m: int)
    requires LEAST - 0.5 <= m as real <= BEYOND + 0.5 && m as real != LEAST && m as real != BEYOND
    ensures LEAST + 1.0 <= m as real <= BEYOND - 1.0
  {
    assert m != 0x10_0000_0000_0000 && m != 0x20_0000_0000_0000;
  }

  lemma SurvivesLarge(r: real, k: int)
    requires 0.0 < r < LEAST && !IsInteger(r) && r == Fl(Decimal(k)) && k > 0x4_0000_0000_0000
    ensures Fl(Decimal(Nearest(r * 1000000.0))) == r
  {
    hide Power, Raised, Lowered, IsInteger, Fl, Nearest, Decimal;
    var x, i := Decimal(k), Nearest(r * 1000000.0);
    var y := Decimal(i);
    DecimalLarge(k);
    RoundedBelow(x);
    RaisedTwenty(x);
    var j, m := InBinade(x, r, 22);
    NoneNearer(r * 1000000.0, k);
    NearestClose(r * 1000000.0);
    DecimalDistance(r, k, i);
    RaisedCloser(x, y, r, j);
    RoundsTo(x, y, j, m);
  }

  lemma RoundedBelow(x: real)
    requires x >= 0.0
    ensures Fl(x) < LEAST ==> x < BEYOND
  {
    hide Fl;
    FlClose(x);
  }

  lemma RaisedCloser(x: real, y: real, r: real, j: nat)
    requires Distance(y, r) <= Distance(x, r)
    ensures Distance(Raised(y, j), Raised(r, j)) <= Distance(Raised(x, j), Raised(r, j))
  {
    hide Raised;
    RaisedDistance(x, r, j);
    RaisedDistance(y, r, j);
    RaisedOrder(Distance(y, r), Distance(x, r), j);
  }

  lemma DecimalLarge(k: int)
    ensures k > 0x4_0000_0000_0000 ==> Decimal(k) * 4194304.0 >= LEAST
    ensures k >= 0 ==> Decimal(k) >= 0.0
  {
  }

  lemma DecimalDistance(r: real, k: int, i: int)
    requires Distance(i as real, r * 1000000.0) <= Distance(k as real, r * 1000000.0)
    ensures Distance(Decimal(i), r) <= Distance(Decimal(k), r)
    ensures r > 0.0 && i as real >= r * 1000000.0 - 0.5 ==> i >= 0 && Decimal(i) >= 0.0
  {
  }

  // What is no further from m than a number that is rounded to it, is rounded to it too.
  lemma RoundsTo(x: real, y: real, j: nat, m: int)
    requires j <= 52 && y >= 0.0 && m == Nearest(Raised(x, j)) && LEAST + 1.0 <= m as real <= BEYOND - 1.0
    requires Distance(Raised(y, j), m as real) <= Distance(Raised(x, j), m as real)
    ensures Fl(y) == Lowered(m as real, j)
  {
    hide Power, Raised, Lowered, Nearest, Small;
    NearestClose(Raised(x, j));
    RaisedGrows(y, j);
    SmallIs(y, 0, j);
    NearestIs(Raised(y, j), m);
  }

  lemma RaisedTwenty(x: real)
    ensures Raised(x, 22) == x * 4194304.0 && Raised(x, 20) == x * 1048576.0
  {
    Powers();
  }

  // ---- What does not, is not told apart ----

  // json_value_equals never tells a double from what is read back.
  lemma RoundedNear(r: real)
    requires IsDouble(r)
    ensures Near(r, Rounded(r)) && Near(Rounded(r), r)
  {
    hide Near, Fl, IsInteger, Millionths, Decimal;
    NearSymmetric(r, Rounded(r));
    if IsInteger(r) {
      D.NearItself(r);
    } else {
      var m := if r < 0.0 then -r else r;
      Opposite(r);
      FlOpposite(r);
      NotZero(r);
      NotFar(m);
      DecimalOpposite(Millionths(r));
      MillionthsAre(r);
      NearOpposite(m, Fl(Decimal(Millionths(r))));
    }
  }

  lemma MillionthsAre(r: real)
    ensures Millionths(r) == Nearest((if r < 0.0 then -r else r) * 1000000.0)
  {
  }

  lemma NearOpposite(x: real, y: real)
    ensures Near(-x, -y) <==> Near(x, y)
  {
    FlOpposite(x - y);
    assert -x - -y == -(x - y);
  }

  lemma NotFar(r: real)
    requires r > 0.0 && IsDouble(r) && !IsInteger(r)
    ensures Near(r, Fl(Decimal(Nearest(r * 1000000.0))))
  {
    var x := Decimal(Nearest(r * 1000000.0));
    FractionBelow(r);
    NearestClose(r * 1000000.0);
    hide Near, Fl, Nearest, IsInteger;
    assert Distance(r, x) <= 0.0000005;
    if r <= 4294967296.0 {
      FlClose(x);
      NearIf(r, Fl(x));
    } else {
      NotFarLarge(r, x);
    }
  }

  lemma NotFarLarge(r: real, x: real)
    requires 4294967296.0 < r < LEAST && IsDouble(r) && !IsInteger(r) && Distance(r, x) <= 0.0000005
    ensures Near(r, Fl(x))
  {
    hide Near, Fl, IsInteger, Power, Raised, Lowered, Nearest, Small;
    RaisedTwenty(r);
    var j, m := InBinade(r, r, 20);
    RaisedDistance(r, x, j);
    HalfMillionth(Distance(r, x), j);
    RaisedGrows(x, j);
    var n := Nearest(Raised(x, j));
    NearestClose(Raised(x, j));
    SmallOf(x, j);
    assert (n - m) as real == n as real - m as real;
    if j < 20 {
      assert n == m;
      D.NearItself(r);
    } else {
      assert -1 <= n - m <= 1;
      LoweredDistance(n as real, m as real, j);
      NearIf(r, Fl(x));
    }
  }

  lemma HalfMillionth(d: real, j: nat)
    requires 0.0 <= d <= 0.0000005 && j <= 20
    ensures Raised(d, j) <= 0.53 && (j < 20 ==> Raised(d, j) <= 0.27)
  {
    PowersUpTo(j);
    hide Power;
    var p := Power(j);
    Multiplied(d, p);
    assert Raised(d, j) == d * p;
  }

  lemma Multiplied(d: real, p: real)
    requires 0.0 <= d <= 0.0000005 && 0.0 <= p <= 1048576.0
    ensures d * p <= 0.53 && (p <= 524288.0 ==> d * p <= 0.27)
  {
    assert (0.0000005 - d) * p >= 0.0;
    assert (0.0000005 - d) * p == 0.0000005 * p - d * p;
  }

  lemma SmallOf(x: real, j: nat)
    requires 0.0 <= x < BEYOND && LEAST <= Raised(x, j) < BEYOND && j <= DEEPEST
    ensures Fl(x) == Lowered(Nearest(Raised(x, j)) as real, j)
  {
    hide Small, Raised, Lowered, Nearest;
    SmallIs(x, 0, j);
  }

  lemma LoweredDistance(x: real, y: real, j: nat)
    requires j == 20 && Distance(x, y) <= 1.0
    ensures Distance(Lowered(x, j), Lowered(y, j)) <= 0.00000096
  {
    Powers();
    assert Lowered(x, j) == x / 1048576.0 && Lowered(y, j) == y / 1048576.0;
  }

  lemma PowersUpTo(j: nat)
    requires j <= 20
    ensures j == 20 ==> Power(j) == 1048576.0
    ensures j < 20 ==> Power(j) <= 524288.0
  {
    Powers();
    if j < 20 { PowerGrows(j, 19); }
  }

  function Printed(v: Json): Json
    decreases v, 1
  {
    match v
    case Number(r) => Number(Rounded(r))
    case Array(items) => Array(PrintedItems(items))
    case Object(ms) => Object(PrintedMembers(ms))
    case _ => v
  }

  function PrintedItems(items: seq<Json>): (r: seq<Json>)
    ensures |r| == |items| && forall i :: 0 <= i < |r| ==> r[i] == Printed(items[i])
    decreases items, 0
  {
    seq(|items|, i requires 0 <= i < |items| => Printed(items[i]))
  }

  function PrintedMembers(ms: seq<Member>): (r: seq<Member>)
    ensures |r| == |ms| && forall i :: 0 <= i < |r| ==> r[i] == Member(ms[i].name, Printed(ms[i].value))
    decreases ms, 0
  {
    seq(|ms|, i requires 0 <= i < |ms| => Member(ms[i].name, Printed(ms[i].value)))
  }

  ghost predicate SixDecimals(v: Json) {
    match v
    case Number(r) => HasSixDecimals(r)
    case Array(items) => forall x <- items :: SixDecimals(x)
    case Object(ms) => forall m <- ms :: SixDecimals(m.value)
    case _ => true
  }

  // Nothing is lost exactly when every number is the double nearest to a decimal one with
  // six places.
  lemma {:induction false} PrintedIs(v: Json)
    requires HoldsDoubles(v)
    ensures Printed(v) == v <==> SixDecimals(v)
  {
    match v
    case Number(r) => RoundedIs(r);
    case Array(items) =>
      forall x <- items ensures Printed(x) == x <==> SixDecimals(x) { PrintedIs(x); }
      if SixDecimals(v) {
        assert PrintedItems(items) == items;
      } else {
        var x :| x in items && !SixDecimals(x);
        var i :| 0 <= i < |items| && items[i] == x;
        assert PrintedItems(items)[i] != items[i];
      }
    case Object(ms) =>
      forall m <- ms ensures Printed(m.value) == m.value <==> SixDecimals(m.value) { PrintedIs(m.value); }
      if SixDecimals(v) {
        assert PrintedMembers(ms) == ms;
      } else {
        var m :| m in ms && !SixDecimals(m.value);
        var i :| 0 <= i < |ms| && ms[i] == m;
        assert PrintedMembers(ms)[i] != ms[i];
      }
    case _ =>
  }

  // Even when something is: the library takes both for equal.
  lemma {:induction false} PrintedSame(v: Json)
    requires HoldsDoubles(v) && D.Finite(D.Denote(v))
    ensures D.Same(D.Denote(v), D.Denote(Printed(v))) && D.Same(D.Denote(Printed(v)), D.Denote(v))
    decreases v, 1
  {
    match v
    case Number(r) => RoundedNear(r);
    case Array(items) =>
      var ps := PrintedItems(items);
      forall i | 0 <= i < |items|
        ensures D.Same(D.Denote(items[i]), D.Denote(ps[i])) && D.Same(D.Denote(ps[i]), D.Denote(items[i]))
      {
        assert D.Denote(v).items[i] == D.Denote(items[i]);
        PrintedSame(items[i]);
      }
    case Object(ms) => PrintedFields(ms);
    case _ =>
  }

  lemma {:induction false} PrintedFields(ms: seq<Member>)
    requires (forall m <- ms :: HoldsDoubles(m.value)) && D.Finite(D.DObject(D.Fields(ms)))
    ensures var f, g := D.DObject(D.Fields(ms)), D.DObject(D.Fields(PrintedMembers(ms))); D.Same(f, g) && D.Same(g, f)
    decreases ms, 0
  {
    hide D.Fields, D.Same, D.Finite, D.Denote, Printed, PrintedMembers, HoldsDoubles, Near;
    FieldsLast(ms);
    FieldsLast(PrintedMembers(ms));
    if ms == [] {
      NothingSame();
    } else {
      var rest, last := ms[..|ms| - 1], ms[|ms| - 1];
      var ps := PrintedMembers(ms);
      assert ps[..|ps| - 1] == PrintedMembers(rest);
      var f, g := D.Fields(rest), D.Fields(PrintedMembers(rest));
      var x, y := D.Denote(last.value), D.Denote(Printed(last.value));
      FiniteLess(f, last.name, x);
      PrintedFields(rest);
      SameNames(f, g, last.name);
      if last.name !in f {
        PrintedSame(last.value);
        SameMore(f, g, last.name, x, y);
        SameMore(g, f, last.name, y, x);
      }
    }
  }

  lemma NothingSame()
    ensures D.Same(D.DObject(map[]), D.DObject(map[]))
  {
  }

  lemma FiniteLess(f: map<Text, D.Den>, k: Text, x: D.Den)
    requires D.Finite(D.DObject(if k in f then f else f[k := x]))
    ensures D.Finite(D.DObject(f)) && (k in f || D.Finite(x))
  {
    if k !in f {
      var g := f[k := x];
      assert g[k] == x;
      forall n | n in f ensures D.Finite(f[n]) { assert g[n] == f[n]; }
    }
  }

  lemma SameNames(f: map<Text, D.Den>, g: map<Text, D.Den>, k: Text)
    requires D.Same(D.DObject(f), D.DObject(g))
    ensures k in f <==> k in g
  {
  }

  lemma SameMore(f: map<Text, D.Den>, g: map<Text, D.Den>, k: Text, x: D.Den, y: D.Den)
    requires D.Same(D.DObject(f), D.DObject(g)) && D.Same(x, y)
    ensures D.Same(D.DObject(f[k := x]), D.DObject(g[k := y]))
  {
  }

  // The fields of the members before the last, and the last one if its name is new
  lemma FieldsLast(ms: seq<Member>)
    ensures ms == [] ==> D.Fields(ms) == map[]
    ensures ms != [] ==>
              var rest, last := D.Fields(ms[..|ms| - 1]), ms[|ms| - 1];
              D.Fields(ms) == if last.name in rest then rest else rest[last.name := D.Denote(last.value)]
  {
  }
}
