// What a node's contents say about its members: how its fields follow from its values,
// and what stays when one of them changes.

module JsonReading {
  import opened Bytes
  import opened JsonNodes
  import opened JsonValue

  import D = JsonDenotation
  import S = Sequences
  import T = JsonTable

  lemma WithinGood(v: Value, R: set<object>)
    requires Within(v, R)
    ensures Good(v) && FormOf(v) == FormIn(v, R) && Footprint(v) <= R
    ensures v.Nested? ==> v.o in Footprint(v) && v.o in R && v.o.Valid()
    ensures v.Listed? ==> v.a in Footprint(v) && v.a in R && v.a.Valid()
  {
  }

  // The i-th member of a node
  lemma MemberForm(n: ObjectNode, i: nat)
    requires n.Valid() && i < |n.names|
    ensures i < |n.values| && Good(n.values[i]) && Footprint(n.values[i]) <= n.Repr - {n}
    ensures n.names[i] in n.Forms() && n.Forms()[n.names[i]] == FormOf(n.values[i])
    ensures T.IndexOf(n.names, n.names[i]) == i
  {
    hide FormOf;
    var R := n.Repr - {n};
    assert Within(n.values[i], R);
    WithinGood(n.values[i], R);
    hide Within, FormIn, Good;
    FieldsAt(n.names, n.values, R, i);
    var k := T.IndexOf(n.names, n.names[i]);
  }

  lemma MemberOf(n: ObjectNode, i: nat)
    requires n.Valid() && i < |n.names|
    ensures i < |n.values| && Good(n.values[i]) && Footprint(n.values[i]) <= n.Repr - {n}
    ensures n.names[i] in n.Den() && n.Den()[n.names[i]] == Meaning(n.values[i])
    ensures n.values[i].Nested? ==> n.values[i].o in n.Repr && n.values[i].o.Valid()
    ensures T.IndexOf(n.names, n.names[i]) == i
  {
    hide Meaning, FormOf, Strip, ObjectNode.Forms;
    MemberForm(n, i);
    FormMeaning(n.values[i]);
    WithinGood(n.values[i], n.Repr - {n});
  }

  lemma DenDomain(n: ObjectNode)
    requires n.Valid()
    ensures n.Forms().Keys == n.Den().Keys
    ensures forall k :: k in n.Den() <==> k in n.names
    ensures |n.Den()| == |n.names| == |n.values|
  {
    hide ObjectNode.Den, ObjectNode.Forms, Children;
    forall k ensures (k in n.Forms() <==> k in n.names) && (k in n.Den() <==> k in n.names) { n.DenNames(k); }
    assert n.Den().Keys == set k | k in n.names;
    S.DistinctSize(n.names);
  }

  lemma NestedSmaller(n: ObjectNode, v: Value)
    requires n.Valid() && Footprint(v) <= n.Repr - {n}
    ensures Footprint(v) < n.Repr
  {
  }

  // The i-th item of an array
  lemma ItemForm(n: ArrayNode, i: nat)
    requires n.Valid() && i < |n.items|
    ensures Good(n.items[i]) && Footprint(n.items[i]) <= n.Repr - {n} && n.Forms()[i] == FormOf(n.items[i])
  {
    hide FormOf;
    var R := n.Repr - {n};
    assert Within(n.items[i], R);
    WithinGood(n.items[i], R);
  }

  lemma ItemOf(n: ArrayNode, i: nat)
    requires n.Valid() && i < |n.items|
    ensures Good(n.items[i]) && Footprint(n.items[i]) < n.Repr && n.Dens()[i] == Meaning(n.items[i])
    ensures n in n.Repr
  {
    hide Meaning, FormOf, Strip, ArrayNode.Forms;
    ItemForm(n, i);
    FormMeaning(n.items[i]);
  }

  lemma ItemCount(n: ArrayNode)
    requires n.Valid()
    ensures n in n.Repr && |n.items| <= n.capacity <= ARRAY_MAX_CAPACITY
  {
  }

  lemma CountBound(o: ObjectNode)
    requires o.Valid()
    ensures |o.names| == |o.values| <= o.capacity <= OBJECT_MAX_CAPACITY
    ensures forall i, j :: 0 <= i < j < |o.names| ==> o.names[i] != o.names[j]
  {
  }

  lemma NameAbsent(names: seq<Text>, i: nat)
    requires i < |names| && forall i, j :: 0 <= i < j < |names| ==> names[i] != names[j]
    ensures names[i] !in names[..i]
  {
  }

  lemma OwnsItself(n: ObjectNode)
    requires n.Valid()
    ensures n in n.Repr
  {
  }

  lemma FootprintOf(v: Value)
    requires Good(v)
    ensures v.Nested? ==> Footprint(v) == v.o.Repr && v.o in v.o.Repr && v.o.Valid()
    ensures v.Nested? ==> Meaning(v) == D.DObject(v.o.Den())
    ensures v.Listed? ==> Footprint(v) == v.a.Repr && v.a in v.a.Repr && v.a.Valid()
    ensures v.Leaf? ==> Footprint(v) == {}
    ensures !v.Nested? ==> !Meaning(v).DObject?
  {
  }

  lemma FormIs(v: Value)
    requires Good(v)
    ensures v.Nested? ==> FormOf(v) == FNode(v.o.capacity, v.o.Forms())
    ensures !v.Nested? ==> !FormOf(v).FNode?
    ensures Strip(FormOf(v)) == Meaning(v)
  {
    FormMeaning(v);
  }

  lemma GoodIn(v: Value, R: set<object>)
    requires Good(v) && Footprint(v) <= R
    ensures Within(v, R) && FormIn(v, R) == FormOf(v)
  {
    GoodWithin(v);
    WithinMore(v, Footprint(v), R);
  }

  // A node's i-th member put aside, with the nodes it is made of
  lemma PutAside(names: seq<Text>, vs: seq<Value>, R: set<object>, i: nat)
    requires |names| == |vs| && Children(vs, R) && i < |vs|
    requires forall i, j :: 0 <= i < j < |names| ==> names[i] != names[j]
    ensures var S, ws := R - Footprint(vs[i]), vs[i := Leaf(Null)];
            Children(ws, S) && FieldsOf(names, ws, S) == FieldsOf(names, vs, R)[names[i] := FLeaf(D.DNull)]
  {
    var S, ws := R - Footprint(vs[i]), vs[i := Leaf(Null)];
    forall j | 0 <= j < |vs| && j != i ensures Within(vs[j], S) && FormIn(vs[j], S) == FormIn(vs[j], R) {
      assert Within(vs[j], R);
      WithinGood(vs[j], R);
      GoodIn(vs[j], S);
    }
    hide FormOf, Good;
    assert Children(ws, S);
    var m := FieldsOf(names, vs, R)[names[i] := FLeaf(D.DNull)];
    forall j | 0 <= j < |names| ensures names[j] in m && m[names[j]] == FormIn(ws[j], S) {
      FieldsAt(names, vs, R, j);
    }
    hide Within, FormIn;
    FieldsAre(names, ws, S, m);
  }
}
