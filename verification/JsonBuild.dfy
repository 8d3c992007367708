// The nodes the parser makes of a text: every member and item added in turn, and every
// node trimmed to its count when it is complete.

module JsonBuild {
  import opened Bytes
  import opened JsonNodes
  import opened JsonReading
  import opened JsonValue

  import D = JsonDenotation
  import T = JsonTable

  // Capacities are the counts, at every level.
  ghost predicate Trimmed(f: Form) {
    match f
    case FLeaf(d) => !d.DArray? && !d.DObject?
    case FArray(capacity, items) => capacity == |items| && forall i :: 0 <= i < |items| ==> Trimmed(items[i])
    case FNode(capacity, fields) => capacity == |fields| && forall k :: k in fields ==> Trimmed(fields[k])
  }

  // Any value with distinct names and counts within the caps can be built.
  method Build(v: Json) returns (n: Value)
    requires UniqueNames(v) && WithinCaps(v)
    ensures Good(n) && fresh(Footprint(n)) && Meaning(n) == D.Denote(v) && Trimmed(FormOf(n))
    ensures n.Nested? <==> v.Object?
    decreases v, 1
  {
    match v {
      case Array(items) =>
        var a := BuildArray(items);
        n := Listed(a);
      case Object(ms) =>
        var o := BuildObject(ms);
        n := Nested(o);
      case _ =>
        n := Leaf(v);
    }
  }

  method BuildArray(items: seq<Json>) returns (a: ArrayNode)
    requires |items| <= ARRAY_MAX_CAPACITY && forall x <- items :: UniqueNames(x) && WithinCaps(x)
    ensures a.Valid() && fresh(a.Repr) && D.DArray(a.Dens()) == D.Denote(Array(items))
    ensures Trimmed(FArray(a.capacity, a.Forms()))
    decreases items, 0
  {
    hide ArrayNode.Valid, ArrayNode.Forms, ArrayNode.Dens, Good, Meaning, FormOf, DoubledArray, RoomInArray, Trimmed;
    ghost var ds := D.Denote(Array(items)).items;
    a := new ArrayNode();
    StartsDoubled();
    for i := 0 to |items|
      invariant a.Valid() && fresh(a.Repr) && |a.items| == i && DoubledArray(a.capacity)
      invariant i == 0 ==> a.capacity == 0
      invariant a.Dens() == ds[..i] && forall k :: 0 <= k < i ==> Trimmed(a.Forms()[k])
    {
      assert items[i] in items;
      var n := Build(items[i]);
      ItemCount(a);
      RoomFromDoubled(i, a.capacity);
      var ok := a.Add(n);
      assert ds[..i + 1] == ds[..i] + [ds[i]];
    }
    assert ds[..|items|] == ds;
    var trimmed := a.Trim();
    ItemCount(a);
    AllTrimmed(a.capacity, a.Forms());
  }

  lemma StartsDoubled()
    ensures DoubledArray(0) && T.Doubled(0)
  {
  }

  lemma AllTrimmed(capacity: nat, items: seq<Form>)
    requires capacity == |items| && forall k :: 0 <= k < |items| ==> Trimmed(items[k])
    ensures Trimmed(FArray(capacity, items))
  {
  }

  method BuildObject(ms: seq<Member>) returns (o: ObjectNode)
    requires |ms| <= OBJECT_MAX_CAPACITY && DistinctNames(ms)
    requires forall m <- ms :: UniqueNames(m.value) && WithinCaps(m.value)
    ensures o.Valid() && fresh(o.Repr) && o.Den() == D.Fields(ms)
    ensures Trimmed(FNode(o.capacity, o.Forms()))
    decreases ms, 0
  {
    hide ObjectNode.Valid, ObjectNode.Den, ObjectNode.Forms, Good, Meaning, FormOf, T.Doubled, T.Add, Trimmed, D.Fields;
    o := new ObjectNode();
    StartsDoubled();
    NoFields();
    for i := 0 to |ms|
      invariant o.Valid() && fresh(o.Repr) && T.Doubled(o.capacity) && NamesOf(ms[..i], o.names)
      invariant i == 0 ==> o.capacity == 0
      invariant o.Den() == D.Fields(ms[..i]) && forall k :: k in o.Forms() ==> Trimmed(o.Forms()[k])
    {
      assert ms[i] in ms;
      var n := Build(ms[i].value);
      CountBound(o);
      NewName(ms, i, o.names);
      AddRoom(o, ms[i].name, n);
      var ok := o.Add(ms[i].name, n);
      FieldsNext(ms, i);
    }
    assert ms[..|ms|] == ms;
    var trimmed := o.Trim();
    DenDomain(o);
    FieldsTrimmed(o.capacity, o.Forms());
  }

  ghost predicate NamesOf(ms: seq<Member>, names: seq<Text>) {
    |names| == |ms| && forall i :: 0 <= i < |ms| ==> names[i] == ms[i].name
  }

  lemma NewName(ms: seq<Member>, i: nat, names: seq<Text>)
    requires i < |ms| && DistinctNames(ms) && NamesOf(ms[..i], names)
    ensures ms[i].name !in names && NamesOf(ms[..i + 1], names + [ms[i].name])
  {
  }

  lemma NoFields()
    ensures D.Fields([]) == map[]
  {
  }

  lemma FieldsNext(ms: seq<Member>, i: nat)
    requires i < |ms| && DistinctNames(ms)
    ensures ms[i].name !in D.Fields(ms[..i])
    ensures D.Fields(ms[..i + 1]) == D.Fields(ms[..i])[ms[i].name := D.Denote(ms[i].value)]
  {
    assert ms[..i + 1][..i] == ms[..i];
    FieldsNames(ms[..i], ms[i].name);
  }

  lemma {:induction false} FieldsNames(ms: seq<Member>, name: Text)
    ensures name in D.Fields(ms) ==> exists i :: 0 <= i < |ms| && ms[i].name == name
  {
    if ms == [] {
    } else {
      FieldsNames(ms[..|ms| - 1], name);
    }
  }

  lemma AddRoom(o: ObjectNode, name: Text, v: Value)
    requires o.Valid() && T.Doubled(o.capacity) && name !in o.names && |o.names| < OBJECT_MAX_CAPACITY
    ensures var r := T.Add(o.Contents(), name, v);
            r.Some? && T.Doubled(r.value.capacity) && r.value.names == o.names + [name]
  {
    T.AddFromDoubled(o.Contents(), name, v);
  }

  lemma FieldsTrimmed(capacity: nat, fs: map<Text, Form>)
    requires capacity == |fs.Keys| && forall k :: k in fs ==> Trimmed(fs[k])
    ensures Trimmed(FNode(capacity, fs))
  {
    assert |fs| == |fs.Keys|;
  }
}
