// Merge and diff on what values denote: the exact ones, and the ones the code computes,
// which take numbers closer than the tolerance for equal.

module JsonAlgebra {
  import opened Bytes
  import opened Doubles
  import opened JsonDenotation
  import opened JsonNumbers

  // ---- Merge ----

  // Both objects: key by key. Otherwise an object in a stays, and b replaces the rest.
  ghost function Merge(a: Den, b: Den): Den {
    if a.DObject? && b.DObject? then
      DObject(map k | k in a.fields.Keys + b.fields.Keys ::
        if k !in b.fields then a.fields[k]
        else if k !in a.fields then b.fields[k]
        else Merge(a.fields[k], b.fields[k]))
    else if a.DObject? then a
    else b
  }

  // An object stays against anything that is none, and gives way to nothing; anything else
  // gives way to what is merged into it. Two objects are merged name by name.
  lemma MergeKinds(a: Den, b: Den)
    ensures a.DObject? && !b.DObject? ==> Merge(a, b) == a && NearMerge(a, b) == a
    ensures !a.DObject? ==> Merge(a, b) == b && NearMerge(a, b) == b
    ensures a.DObject? && b.DObject? ==>
              var m := Merge(a, b);
              && m.DObject? && m.fields.Keys == a.fields.Keys + b.fields.Keys
              && (forall k :: k in a.fields && k !in b.fields ==> m.fields[k] == a.fields[k])
              && (forall k :: k !in a.fields && k in b.fields ==> m.fields[k] == b.fields[k])
              && (forall k :: k in a.fields && k in b.fields ==> m.fields[k] == Merge(a.fields[k], b.fields[k]))
  {
  }

  lemma {:induction false} MergeAssociative(a: Den, b: Den, c: Den)
    ensures Merge(Merge(a, b), c) == Merge(a, Merge(b, c))
  {
    if a.DObject? && b.DObject? && c.DObject? {
      var l, r := Merge(Merge(a, b), c), Merge(a, Merge(b, c));
      assert l.fields.Keys == r.fields.Keys;
      forall k | k in l.fields ensures l.fields[k] == r.fields[k] {
        if k in a.fields && k in b.fields && k in c.fields {
          MergeAssociative(a.fields[k], b.fields[k], c.fields[k]);
        }
      }
    }
  }

  lemma {:induction false} MergeSelf(a: Den)
    ensures Merge(a, a) == a
  {
    if a.DObject? {
      forall k | k in a.fields ensures Merge(a.fields[k], a.fields[k]) == a.fields[k] { MergeSelf(a.fields[k]); }
      assert Merge(a, a).fields == a.fields;
    }
  }

  // Merging b once more changes nothing.
  lemma MergeTwice(a: Den, b: Den)
    ensures Merge(Merge(a, b), b) == Merge(a, b)
  {
    MergeAssociative(a, b, b);
    MergeSelf(b);
  }

  lemma MergeEmpty(a: Den)
    requires a.DObject?
    ensures Merge(a, DObject(map[])) == a && Merge(DObject(map[]), a) == a
  {
    assert Merge(a, DObject(map[])).fields == a.fields;
    assert Merge(DObject(map[]), a).fields == a.fields;
  }

  // ---- The code's merge ----

  // json_value_merge leaves a member alone when json_value_equals holds.
  ghost function NearMerge(a: Den, b: Den): Den
    decreases a, 0
  {
    if a.DObject? && b.DObject? then
      DObject(map k | k in a.fields.Keys + b.fields.Keys ::
        if k !in b.fields then a.fields[k]
        else if k !in a.fields then b.fields[k]
        else NearAt(a.fields[k], b.fields[k]))
    else if a.DObject? then a
    else b
  }

  ghost function NearAt(x: Den, y: Den): Den
    decreases x, 1
  {
    if Same(x, y) then x else NearMerge(x, y)
  }

  lemma NearMergeField(a: Den, b: Den, k: Text)
    requires a.DObject? && b.DObject? && (k in a.fields || k in b.fields)
    ensures NearMerge(a, b).DObject? && k in NearMerge(a, b).fields
    ensures NearMerge(a, b).fields[k] ==
      if k !in b.fields then a.fields[k] else if k !in a.fields then b.fields[k] else NearAt(a.fields[k], b.fields[k])
  {
    hide NearAt;
  }

  // Nothing that is compared is taken for equal without being equal.
  ghost predicate Apart(a: Den, b: Den)
    decreases a, 0
  {
    a.DObject? && b.DObject? ==> forall k :: k in a.fields && k in b.fields ==> ApartAt(a.fields[k], b.fields[k])
  }

  ghost predicate ApartAt(x: Den, y: Den)
    decreases x, 1
  {
    (Same(x, y) ==> x == y) && Apart(x, y)
  }

  // Where everything is the same, merging takes over b's value.
  lemma {:induction false} MergeSame(x: Den, y: Den)
    requires Same(x, y)
    ensures Merge(x, y) == y
  {
    if x.DObject? {
      forall k | k in y.fields ensures Merge(x.fields[k], y.fields[k]) == y.fields[k] {
        MergeSame(x.fields[k], y.fields[k]);
      }
      assert Merge(x, y).fields == y.fields;
    }
  }

  lemma {:induction false} ApartSelf(x: Den)
    ensures Apart(x, x)
  {
    if x.DObject? {
      forall k | k in x.fields ensures ApartAt(x.fields[k], x.fields[k]) { ApartSelf(x.fields[k]); }
    }
  }

  lemma NearMergeSame(x: Den, y: Den)
    requires Same(x, y) && x.DObject?
    ensures NearMerge(x, y) == x
  {
    assert NearMerge(x, y).fields == x.fields;
  }

  // The code's merge is the merge exactly when nothing is taken for equal that is not.
  lemma {:induction false} NearMergeIsMerge(a: Den, b: Den)
    ensures NearMerge(a, b) == Merge(a, b) <==> Apart(a, b)
    decreases a, 0
  {
    if a.DObject? && b.DObject? {
      var near, merged := NearMerge(a, b).fields, Merge(a, b).fields;
      assert near.Keys == merged.Keys;
      forall k | k in a.fields && k in b.fields ensures near[k] == merged[k] <==> ApartAt(a.fields[k], b.fields[k]) {
        NearAtIsMerge(a.fields[k], b.fields[k]);
      }
      if Apart(a, b) { assert near == merged; }
    }
  }

  lemma {:induction false} NearAtIsMerge(x: Den, y: Den)
    ensures NearAt(x, y) == Merge(x, y) <==> ApartAt(x, y)
    decreases x, 1
  {
    if Same(x, y) {
      MergeSame(x, y);
      if x == y { ApartSelf(x); }
    } else {
      NearMergeIsMerge(x, y);
    }
  }

  // On numbers that equality tells apart, it always is.
  lemma {:induction false} ApartOn(a: Den, b: Den, s: iset<real>)
    requires Separates(s) && NumbersIn(a, s) && NumbersIn(b, s)
    ensures Apart(a, b)
  {
    if a.DObject? && b.DObject? {
      forall k | k in a.fields && k in b.fields ensures ApartAt(a.fields[k], b.fields[k]) {
        SameOn(a.fields[k], b.fields[k], s);
        ApartOn(a.fields[k], b.fields[k], s);
      }
    }
  }

  // An object with one member
  function One(d: Den): Den {
    DObject(map[[107] := d])
  }

  lemma MergeOne(x: Den, y: Den)
    requires !x.DObject? && !y.DObject?
    ensures NearMerge(One(x), One(y)) == if Same(x, y) then One(x) else One(y)
    ensures Merge(One(x), One(y)) == One(y)
  {
    var k := [107];
    NearMergeField(One(x), One(y), k);
    assert One(x).fields[k] == x && One(y).fields[k] == y;
    assert NearAt(x, y) == if Same(x, y) then x else y;
    assert NearMerge(One(x), One(y)).fields == map[k := if Same(x, y) then x else y];
    assert Merge(One(x), One(y)).fields == map[k := y];
  }

  // Two numbers that the code does not tell apart: a's stays, where b's should be.
  lemma NearIsNotMerge() returns (a: Den, b: Den)
    ensures a == One(DNumber(Fl(1.0))) && b == One(DNumber(Fl(1.000001)))
    ensures NearMerge(a, b) == a && Merge(a, b) == b && a != b && !Apart(a, b)
  {
    hide Fl, Near, NearMerge, Merge, Apart;
    OneIsNearNext();
    var x, y := DNumber(Fl(1.0)), DNumber(Fl(1.000001));
    a, b := One(x), One(y);
    MergeOne(x, y);
    assert a.fields[[107]] != b.fields[[107]];
    NearMergeIsMerge(a, b);
  }

  lemma NearMergeOn(a: Den, b: Den, s: iset<real>)
    requires Separates(s) && NumbersIn(a, s) && NumbersIn(b, s)
    ensures NearMerge(a, b) == Merge(a, b) && NumbersIn(Merge(a, b), s)
  {
    hide NumbersIn, NearMerge, Merge;
    ApartOn(a, b, s);
    NearMergeIsMerge(a, b);
    MergeIn(a, b, s);
  }

  lemma {:induction false} MergeIn(a: Den, b: Den, s: iset<real>)
    requires NumbersIn(a, s) && NumbersIn(b, s)
    ensures NumbersIn(Merge(a, b), s)
  {
    if a.DObject? && b.DObject? {
      forall k | k in a.fields && k in b.fields ensures NumbersIn(Merge(a.fields[k], b.fields[k]), s) {
        MergeIn(a.fields[k], b.fields[k], s);
      }
    }
  }

  lemma OneIn(x: real, s: iset<real>)
    requires x in s
    ensures NumbersIn(One(DNumber(x)), s) && NumbersIn(One(DNull), s)
  {
  }

  ghost predicate MergesOn(s: iset<real>) {
    forall a, b :: NumbersIn(a, s) && NumbersIn(b, s) ==> NearMerge(a, b) == Merge(a, b)
  }

  // The code's merge is the merge, on all values with numbers of a set, exactly when
  // equality tells these numbers apart,
  lemma MergesWhereSeparate(s: iset<real>)
    ensures MergesOn(s) <==> Separates(s)
  {
    hide NearMerge, Merge, NumbersIn, Near, Same;
    if Separates(s) {
      forall a, b | NumbersIn(a, s) && NumbersIn(b, s) ensures NearMerge(a, b) == Merge(a, b) { NearMergeOn(a, b, s); }
    } else {
      var x, y :| x in s && y in s && Near(x, y) && x != y;
      OneIn(x, s);
      OneIn(y, s);
      OnNumbers(x, y, s);
      MergeOne(DNumber(x), DNumber(y));
      assert One(DNumber(x)).fields[[107]] != One(DNumber(y)).fields[[107]];
    }
  }

  ghost predicate Associates(a: Den, b: Den, c: Den) {
    NearMerge(NearMerge(a, b), c) == NearMerge(a, NearMerge(b, c))
  }

  ghost predicate AssociatesOn(s: iset<real>) {
    forall a, b, c :: NumbersIn(a, s) && NumbersIn(b, s) && NumbersIn(c, s) ==> Associates(a, b, c)
  }

  // and is associative on them exactly then too.
  lemma AssociatesWhereSeparate(s: iset<real>)
    ensures AssociatesOn(s) <==> Separates(s)
  {
    hide NearMerge, Merge, NumbersIn, Near, Same;
    if Separates(s) {
      forall a, b, c | NumbersIn(a, s) && NumbersIn(b, s) && NumbersIn(c, s) ensures Associates(a, b, c) {
        NearMergeOn(a, b, s);
        NearMergeOn(b, c, s);
        NearMergeOn(Merge(a, b), c, s);
        NearMergeOn(a, Merge(b, c), s);
        MergeAssociative(a, b, c);
      }
    } else {
      var x, y :| x in s && y in s && Near(x, y) && x != y;
      OneIn(x, s);
      OneIn(y, s);
      OrderMatters(x, y);
      assert !Associates(One(DNumber(x)), One(DNull), One(DNumber(y)));
    }
  }

  // Two numbers that are not told apart, and a null between them
  lemma OrderMatters(x: real, y: real)
    requires Near(x, y) && x != y
    ensures !Associates(One(DNumber(x)), One(DNull), One(DNumber(y)))
  {
    var a, b, c := DNumber(x), DNull, DNumber(y);
    assert Same(a, c) && !Same(a, b) && !Same(b, c);
    hide NearMerge, Merge, Same;
    MergeOne(a, b);
    MergeOne(b, c);
    MergeOne(a, c);
    assert One(a).fields[[107]] != One(c).fields[[107]];
  }

  // So for the doubles nearest to multiples of 1/n, up to any bound from 2 to 4000, exactly
  // when n is below a million,
  lemma MergeOnGrid(n: nat, bound: real)
    requires n > 0 && 2.0 <= bound <= 4000.0
    ensures MergesOn(Grid(n, bound)) <==> n < 1000000
    ensures AssociatesOn(Grid(n, bound)) <==> n < 1000000
  {
    hide *;
    EqualOnGrid(n, bound);
    MergesWhereSeparate(Grid(n, bound));
    AssociatesWhereSeparate(Grid(n, bound));
  }

  // up to 2 to the 32 for n up to half a million, and for all integers.
  lemma MergeOnCoarse(n: nat, bound: real)
    requires 0 < n <= 500000 && 0.0 <= bound <= 4294967296.0
    ensures MergesOn(Grid(n, bound)) && AssociatesOn(Grid(n, bound))
    ensures MergesOn(Whole()) && AssociatesOn(Whole())
  {
    hide *;
    CoarseGrid(n, bound);
    WholeSeparates();
    MergesWhereSeparate(Grid(n, bound));
    AssociatesWhereSeparate(Grid(n, bound));
    MergesWhereSeparate(Whole());
    AssociatesWhereSeparate(Whole());
  }

  lemma {:induction false} NearMergeSelf(y: Den)
    ensures NearMerge(y, y) == y
  {
    if y.DObject? {
      forall k | k in y.fields ensures NearAt(y.fields[k], y.fields[k]) == y.fields[k] { NearMergeSelf(y.fields[k]); }
      assert NearMerge(y, y).fields == y.fields;
    }
  }

  // Merging b once more changes nothing, whatever the numbers.
  lemma {:induction false} NearMergeTwice(a: Den, b: Den)
    ensures NearMerge(NearMerge(a, b), b) == NearMerge(a, b)
    decreases a, 0
  {
    if a.DObject? && b.DObject? {
      var once := NearMerge(a, b);
      forall k | k in once.fields ensures NearMerge(once, b).fields[k] == once.fields[k] {
        NearMergeField(a, b, k);
        NearMergeField(once, b, k);
        if k in b.fields {
          if k in a.fields { NearAtTwice(a.fields[k], b.fields[k]); } else { NearMergeSelf(b.fields[k]); }
        }
      }
      assert NearMerge(once, b).fields == once.fields;
    } else {
      NearMergeSelf(b);
    }
  }

  lemma NearAtTwice(x: Den, y: Den)
    ensures NearAt(NearAt(x, y), y) == NearAt(x, y)
    decreases x, 1
  {
    if !Same(x, y) { NearMergeTwice(x, y); }
  }

  lemma NearMergeEmpty(a: Den)
    requires a.DObject?
    ensures NearMerge(a, DObject(map[])) == a && NearMerge(DObject(map[]), a) == a
  {
    assert NearMerge(a, DObject(map[])).fields == a.fields;
    assert NearMerge(DObject(map[]), a).fields == a.fields;
  }

  // ---- Diff ----

  // What is left of `modified` once every member that equals origin's is taken out.
  ghost function Diff(origin: Den, modified: Den): Den {
    if origin.DObject? && modified.DObject? then
      DObject(map k | k in modified.fields && !(k in origin.fields && origin.fields[k] == modified.fields[k]) ::
        if k in origin.fields then Diff(origin.fields[k], modified.fields[k]) else modified.fields[k])
    else modified
  }

  // The same, by the code's equality
  ghost function NearDiff(origin: Den, modified: Den): Den {
    if origin.DObject? && modified.DObject? then
      DObject(map k | k in modified.fields && !(k in origin.fields && Same(origin.fields[k], modified.fields[k])) ::
        if k in origin.fields then NearDiff(origin.fields[k], modified.fields[k]) else modified.fields[k])
    else modified
  }

  // Whatever is compared is taken for equal exactly when it is equal.
  ghost predicate Told(a: Den, b: Den)
    decreases a, 0
  {
    a.DObject? && b.DObject? ==> forall k :: k in a.fields && k in b.fields ==> ToldAt(a.fields[k], b.fields[k])
  }

  ghost predicate ToldAt(x: Den, y: Den)
    decreases x, 1
  {
    (Same(x, y) <==> x == y) && Told(x, y)
  }

  lemma {:induction false} ToldSelf(x: Den)
    requires Finite(x)
    ensures Told(x, x)
  {
    if x.DObject? {
      forall k | k in x.fields ensures ToldAt(x.fields[k], x.fields[k]) {
        SameReflexive(x.fields[k]);
        ToldSelf(x.fields[k]);
      }
    }
  }

  // On finite values that is what merging asks for.
  lemma {:induction false} ToldIsApart(a: Den, b: Den)
    requires Finite(a) || Finite(b)
    ensures Told(a, b) <==> Apart(a, b)
  {
    if a.DObject? && b.DObject? {
      forall k | k in a.fields && k in b.fields
        ensures ToldAt(a.fields[k], b.fields[k]) <==> ApartAt(a.fields[k], b.fields[k])
      {
        ToldIsApart(a.fields[k], b.fields[k]);
        if a.fields[k] == b.fields[k] { SameReflexive(a.fields[k]); }
      }
    }
  }

  // The code's difference is the difference exactly when everything that is compared is
  // told apart rightly.
  lemma {:induction false} NearDiffIsDiff(o: Den, m: Den)
    ensures NearDiff(o, m) == Diff(o, m) <==> Told(o, m)
  {
    if o.DObject? && m.DObject? {
      var near, diff := NearDiff(o, m).fields, Diff(o, m).fields;
      forall k | k in o.fields && k in m.fields
        ensures (k in near <==> k in diff) && (k in near ==> near[k] == diff[k]) <==> ToldAt(o.fields[k], m.fields[k])
      {
        NearDiffIsDiff(o.fields[k], m.fields[k]);
        if o.fields[k] == m.fields[k] && Same(o.fields[k], m.fields[k]) {
          SameReflexive(o.fields[k]);
          ToldSelf(o.fields[k]);
        }
      }
      if Told(o, m) { assert near == diff; }
    }
  }

  // Merging the difference into the origin is merging the modified value into it: as
  // maps,
  lemma {:induction false} MergeDiff(o: Den, m: Den)
    ensures Merge(o, Diff(o, m)) == Merge(o, m)
  {
    if o.DObject? && m.DObject? {
      var l, r := Merge(o, Diff(o, m)), Merge(o, m);
      assert l.fields.Keys == r.fields.Keys;
      forall k | k in l.fields ensures l.fields[k] == r.fields[k] {
        if k in o.fields && k in m.fields {
          MergeDiff(o.fields[k], m.fields[k]);
          MergeSelf(o.fields[k]);
        }
      }
    }
  }

  // and as the code computes both, whatever the numbers.
  lemma {:induction false} NearMergeDiff(o: Den, m: Den)
    ensures NearMerge(o, NearDiff(o, m)) == NearMerge(o, m)
  {
    if o.DObject? && m.DObject? {
      var d := NearDiff(o, m);
      var l, r := NearMerge(o, d), NearMerge(o, m);
      assert l.fields.Keys == r.fields.Keys;
      forall k | k in l.fields ensures l.fields[k] == r.fields[k] {
        NearMergeField(o, d, k);
        NearMergeField(o, m, k);
        if k in o.fields && k in d.fields {
          NearMergeDiff(o.fields[k], m.fields[k]);
          NearMergeDiffAt(o.fields[k], m.fields[k]);
        }
      }
    }
  }

  lemma NearMergeDiffAt(x: Den, y: Den)
    requires !Same(x, y) && NearMerge(x, NearDiff(x, y)) == NearMerge(x, y)
    ensures NearAt(x, NearDiff(x, y)) == NearAt(x, y)
  {
    if Same(x, NearDiff(x, y)) && x.DObject? { NearMergeSame(x, NearDiff(x, y)); }
  }

  // Nothing is left, at any level, that equals what the origin has there.
  ghost predicate NothingShared(o: Den, d: Den)
    decreases o
  {
    o.DObject? && d.DObject? ==>
      forall k :: k in o.fields && k in d.fields ==>
        !Same(o.fields[k], d.fields[k]) && NothingShared(o.fields[k], d.fields[k])
  }

  lemma {:induction false} DiffSharesNothing(o: Den, m: Den)
    ensures NothingShared(o, NearDiff(o, m))
    ensures !Same(o, m) ==> !Same(o, NearDiff(o, m))
  {
    if o.DObject? && m.DObject? {
      var d := NearDiff(o, m);
      forall k | k in o.fields && k in d.fields
        ensures !Same(o.fields[k], d.fields[k]) && NothingShared(o.fields[k], d.fields[k])
      {
        DiffSharesNothing(o.fields[k], m.fields[k]);
      }
      if o.fields.Keys == {} {
        assert d.fields.Keys == m.fields.Keys;
        assert !Same(o, m) ==> m.fields.Keys != {};
      } else {
        var k :| k in o.fields;
        assert k in d.fields ==> !Same(o.fields[k], d.fields[k]);
      }
    }
  }

  // With nothing to tell them apart, nothing is left.
  lemma DiffOfSame(o: Den, m: Den)
    requires o.DObject? && Same(o, m)
    ensures NearDiff(o, m) == DObject(map[])
  {
    assert NearDiff(o, m).fields == map[];
  }
}
