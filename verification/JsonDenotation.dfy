// What a value denotes when the order of an object's members is left out: equality as
// the library decides it, and the algebra of merge and diff.

module JsonDenotation {
  import opened Bytes
  import opened JsonNumbers
  import opened JsonValue

  datatype Den =
    | DNull
    | DBoolean(b: bool)
    | DNumber(r: real)
    | DNonFinite(what: Special)
    | DString(s: Text)
    | DArray(items: seq<Den>)
    | DObject(fields: map<Text, Den>)

  ghost function Denote(v: Json): Den
    decreases v, 1
  {
    match v
    case Null => DNull
    case Boolean(b) => DBoolean(b)
    case Number(r) => DNumber(r)
    case NonFinite(what) => DNonFinite(what)
    case String(s) => DString(s)
    case Array(items) => DArray(seq(|items|, i requires 0 <= i < |items| => Denote(items[i])))
    case Object(ms) => DObject(Fields(ms))
  }

  // A lookup by name meets the first member of that name.
  ghost function Fields(ms: seq<Member>): map<Text, Den>
    decreases ms, 0
  {
    if ms == [] then map[] else
      var rest, last := Fields(ms[..|ms| - 1]), ms[|ms| - 1];
      if last.name in rest then rest else rest[last.name := Denote(last.value)]
  }

  // ---- Equality ----

  // json_value_equals on what values denote. A difference with an infinity or a NaN is
  // a NaN, which is not below the tolerance.
  ghost predicate Same(a: Den, b: Den) {
    match (a, b)
    case (DNumber(x), DNumber(y)) => Near(x, y)
    case (DNonFinite(_), _) => false
    case (DArray(xs), DArray(ys)) => |xs| == |ys| && forall i :: 0 <= i < |xs| ==> Same(xs[i], ys[i])
    case (DObject(f), DObject(g)) => f.Keys == g.Keys && forall k :: k in f ==> Same(f[k], g[k])
    case _ => a == b
  }

  // No infinity and no NaN
  ghost predicate Finite(d: Den) {
    match d
    case DNonFinite(_) => false
    case DArray(items) => forall i :: 0 <= i < |items| ==> Finite(items[i])
    case DObject(fields) => forall k :: k in fields ==> Finite(fields[k])
    case _ => true
  }

  lemma {:induction false} SameSymmetric(a: Den, b: Den)
    ensures Same(a, b) ==> Same(b, a)
  {
    match (a, b)
    case (DArray(xs), DArray(ys)) =>
      if Same(a, b) {
        forall i | 0 <= i < |xs| ensures Same(ys[i], xs[i]) { SameSymmetric(xs[i], ys[i]); }
      }
    case (DObject(f), DObject(g)) =>
      if Same(a, b) {
        forall k | k in f ensures Same(g[k], f[k]) { SameSymmetric(f[k], g[k]); }
      }
    case (DNumber(x), DNumber(y)) => NearSymmetric(x, y);
    case _ =>
  }

  // A value equals itself exactly when there is no infinity and no NaN in it.
  lemma {:induction false} SameReflexive(a: Den)
    ensures Same(a, a) <==> Finite(a)
  {
    match a
    case DArray(xs) =>
      forall i | 0 <= i < |xs| ensures Same(xs[i], xs[i]) <==> Finite(xs[i]) { SameReflexive(xs[i]); }
    case DObject(f) =>
      forall k | k in f ensures Same(f[k], f[k]) <==> Finite(f[k]) { SameReflexive(f[k]); }
    case DNumber(r) => NearItself(r);
    case _ =>
  }

  // The numbers in d are of the set.
  ghost predicate NumbersIn(d: Den, s: iset<real>) {
    match d
    case DNumber(r) => r in s
    case DArray(items) => forall i :: 0 <= i < |items| ==> NumbersIn(items[i], s)
    case DObject(fields) => forall k :: k in fields ==> NumbersIn(fields[k], s)
    case _ => true
  }

  lemma NearItself(x: real)
    ensures Near(x, x)
  {
    NearIf(x, x);
  }

  lemma {:induction false} SameOn(a: Den, b: Den, s: iset<real>)
    requires Separates(s) && NumbersIn(a, s) && NumbersIn(b, s)
    ensures Same(a, b) <==> a == b && Finite(a)
  {
    hide Near;
    match (a, b)
    case (DNumber(x), DNumber(y)) => NearItself(x);
    case (DArray(xs), DArray(ys)) =>
      if |xs| == |ys| {
        forall i | 0 <= i < |xs| ensures Same(xs[i], ys[i]) <==> xs[i] == ys[i] && Finite(xs[i]) {
          SameOn(xs[i], ys[i], s);
        }
      }
    case (DObject(f), DObject(g)) =>
      if f.Keys == g.Keys {
        forall k | k in f ensures Same(f[k], g[k]) <==> f[k] == g[k] && Finite(f[k]) { SameOn(f[k], g[k], s); }
        if Same(a, b) { assert f == g; }
      }
    case _ =>
  }

  lemma OnNumbers(x: real, y: real, s: iset<real>)
    ensures NumbersIn(DNumber(x), s) <==> x in s
    ensures Same(DNumber(x), DNumber(y)) <==> Near(x, y)
    ensures Finite(DNumber(x))
  {
  }

  ghost predicate DecidesOn(s: iset<real>) {
    forall a, b :: NumbersIn(a, s) && NumbersIn(b, s) ==> (Same(a, b) <==> a == b && Finite(a))
  }

  ghost predicate SameIsTransitiveOn(s: iset<real>) {
    forall a, b, c ::
      (NumbersIn(a, s) && NumbersIn(b, s) && NumbersIn(c, s) && Same(a, b) && Same(b, c)) ==> Same(a, c)
  }

  // Equality decides whether two values denote the same, but for infinities and NaNs,
  // exactly when it tells their numbers apart,
  lemma SameDecidesOn(s: iset<real>)
    ensures DecidesOn(s) <==> Separates(s)
  {
    hide Near, Same, NumbersIn, Finite;
    if Separates(s) {
      forall a, b | NumbersIn(a, s) && NumbersIn(b, s) ensures Same(a, b) <==> a == b && Finite(a) { SameOn(a, b, s); }
    } else {
      var x, y :| x in s && y in s && Near(x, y) && x != y;
      OnNumbers(x, y, s);
      OnNumbers(y, x, s);
      assert !(Same(DNumber(x), DNumber(y)) <==> DNumber(x) == DNumber(y) && Finite(DNumber(x)));
    }
  }

  lemma {:induction false} SameTransitive(a: Den, b: Den, c: Den, s: iset<real>)
    requires Transitive(s) && NumbersIn(a, s) && NumbersIn(b, s) && NumbersIn(c, s)
    requires Same(a, b) && Same(b, c)
    ensures Same(a, c)
  {
    hide Near;
    match (a, b, c)
    case (DArray(xs), DArray(ys), DArray(zs)) =>
      forall i | 0 <= i < |xs| ensures Same(xs[i], zs[i]) { SameTransitive(xs[i], ys[i], zs[i], s); }
    case (DObject(f), DObject(g), DObject(h)) =>
      forall k | k in f ensures Same(f[k], h[k]) { SameTransitive(f[k], g[k], h[k], s); }
    case _ =>
  }

  // and is transitive exactly when it is so on their numbers.
  lemma SameTransitiveOn(s: iset<real>)
    ensures SameIsTransitiveOn(s) <==> Transitive(s)
  {
    hide Near, Same, NumbersIn;
    if Transitive(s) {
      forall a, b, c | NumbersIn(a, s) && NumbersIn(b, s) && NumbersIn(c, s) && Same(a, b) && Same(b, c)
        ensures Same(a, c)
      {
        SameTransitive(a, b, c, s);
      }
    } else {
      var x, y, z :| x in s && y in s && z in s && Near(x, y) && Near(y, z) && !Near(x, z);
      OnNumbers(x, y, s);
      OnNumbers(y, z, s);
      OnNumbers(x, z, s);
      OnNumbers(z, x, s);
      assert Same(DNumber(x), DNumber(y)) && Same(DNumber(y), DNumber(z)) && !Same(DNumber(x), DNumber(z));
    }
  }

  // For the doubles nearest to multiples of 1/n, up to any bound from 2 to 4000: exactly
  // when n is below a million, both
  lemma SameOnGrid(n: nat, bound: real)
    requires n > 0 && 2.0 <= bound <= 4000.0
    ensures DecidesOn(Grid(n, bound)) <==> n < 1000000
    ensures SameIsTransitiveOn(Grid(n, bound)) <==> n < 1000000
  {
    hide *;
    EqualOnGrid(n, bound);
    TransitiveOnGrid(n, bound);
    SameDecidesOn(Grid(n, bound));
    SameTransitiveOn(Grid(n, bound));
  }

  lemma {:induction false} SubsetSize(a: set<Text>, b: set<Text>)
    requires a <= b
    ensures |a| <= |b|
  {
    if a == {} {
    } else {
      var x :| x in a;
      SubsetSize(a - {x}, b - {x});
    }
  }

  lemma SubsetOfSameSize(a: set<Text>, b: set<Text>)
    requires a <= b && |a| == |b|
    ensures a == b
  {
    if !(b <= a) {
      var x :| x in b && x !in a;
      SubsetSize(a, b - {x});
    }
  }
}
