// json_value_equals, on nodes.

module JsonEquals {
  import opened Bytes
  import opened JsonNodes
  import opened JsonNumbers
  import opened JsonReading
  import opened JsonValue

  import D = JsonDenotation

  predicate SameScalar(x: Json, y: Json) {
    match (x, y)
    case (Number(r), Number(s)) => Near(r, s)
    case (NonFinite(_), _) => false
    case _ => x == y
  }

  method EqualValues(a: Value, b: Value) returns (r: bool)
    requires Good(a) && Good(b)
    ensures r <==> D.Same(Meaning(a), Meaning(b))
    decreases Footprint(a), 2
  {
    match (a, b) {
      case (Leaf(x), Leaf(y)) =>
        r := SameScalar(x, y);
      case (Listed(x), Listed(y)) =>
        r := EqualLists(x, y);
      case (Nested(x), Nested(y)) =>
        r := EqualNodes(x, y);
      case _ =>
        r := false;
    }
  }

  ghost predicate Agrees(a: ObjectNode, b: ObjectNode, i: nat)
    requires a.Valid() && b.Valid() && i < |a.names|
    reads a, a.Repr, b, b.Repr
  {
    a.names[i] in a.Den() && a.names[i] in b.Den() && D.Same(a.Den()[a.names[i]], b.Den()[a.names[i]])
  }

  // Only a's names are looked up: with as many names in b, that is enough.
  lemma AgreementIsEquality(a: ObjectNode, b: ObjectNode)
    requires a.Valid() && b.Valid() && |a.names| == |b.names|
    requires forall i :: 0 <= i < |a.names| ==> Agrees(a, b, i)
    ensures D.Same(D.DObject(a.Den()), D.DObject(b.Den()))
  {
    hide ObjectNode.Valid, ObjectNode.Den, ObjectNode.Forms;
    DenDomain(a);
    DenDomain(b);
    forall k | k in a.Den() ensures k in b.Den() && D.Same(a.Den()[k], b.Den()[k]) {
      var i :| 0 <= i < |a.names| && a.names[i] == k;
      assert Agrees(a, b, i);
    }
    D.SubsetOfSameSize(a.Den().Keys, b.Den().Keys);
  }

  lemma EqualityIsAgreement(a: ObjectNode, b: ObjectNode, i: nat)
    requires a.Valid() && b.Valid() && i < |a.names| && D.Same(D.DObject(a.Den()), D.DObject(b.Den()))
    ensures Agrees(a, b, i)
  {
    DenDomain(a);
    assert a.names[i] in a.names;
  }

  method EqualNodes(a: ObjectNode, b: ObjectNode) returns (r: bool)
    requires a.Valid() && b.Valid()
    ensures r <==> D.Same(D.DObject(a.Den()), D.DObject(b.Den()))
    decreases a.Repr, 1
  {
    hide *;
    DenDomain(a);
    DenDomain(b);
    if |a.names| != |b.names| {
      SameCount(a.Den(), b.Den());
      return false;
    }
    for i := 0 to |a.names|
      invariant forall k :: 0 <= k < i ==> Agrees(a, b, k)
    {
      var same := EqualMember(a, b, i);
      if !same {
        if D.Same(D.DObject(a.Den()), D.DObject(b.Den())) { EqualityIsAgreement(a, b, i); }
        return false;
      }
    }
    AgreementIsEquality(a, b);
    r := true;
  }

  // The i-th member of a, and b's value under its name
  method EqualMember(a: ObjectNode, b: ObjectNode, i: nat) returns (r: bool)
    requires a.Valid() && b.Valid() && i < |a.names|
    ensures r <==> Agrees(a, b, i)
    decreases a.Repr, 0
  {
    hide ObjectNode.Valid, ObjectNode.Den, ObjectNode.Forms, Good, Meaning, FormOf, Footprint;
    DenDomain(b);
    MemberOf(a, i);
    NestedSmaller(a, a.values[i]);
    var j := b.Find(a.names[i]);
    if j == |b.names| { return false; }
    MemberOf(b, j);
    r := EqualValues(a.values[i], b.values[j]);
  }

  // Two arrays, item by item
  method EqualLists(a: ArrayNode, b: ArrayNode) returns (r: bool)
    requires a.Valid() && b.Valid()
    ensures r <==> D.Same(D.DArray(a.Dens()), D.DArray(b.Dens()))
    decreases a.Repr, 1
  {
    hide ArrayNode.Valid, ArrayNode.Forms, ArrayNode.Dens, Good, Meaning, Footprint;
    if |a.items| != |b.items| { return false; }
    for i := 0 to |a.items|
      invariant forall k :: 0 <= k < i ==> D.Same(a.Dens()[k], b.Dens()[k])
    {
      ItemOf(a, i);
      ItemOf(b, i);
      var same := EqualValues(a.items[i], b.items[i]);
      if !same { return false; }
    }
    r := true;
  }

  lemma SameCount(f: map<Text, D.Den>, g: map<Text, D.Den>)
    ensures D.Same(D.DObject(f), D.DObject(g)) ==> |f| == |g|
  {
    assert |f| == |f.Keys| && |g| == |g.Keys|;
  }
}
