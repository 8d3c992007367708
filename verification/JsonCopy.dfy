// json_value_deep_copy, on nodes.

module JsonCopy {
  import opened Bytes
  import opened JsonNodes
  import opened JsonReading
  import opened JsonValue

  import D = JsonDenotation
  import JsonEquals
  import T = JsonTable

  // A copy shares no node with the value, denotes the same, and never runs into the
  // capacity cap.
  method DeepCopy(v: Value) returns (c: Value)
    requires Good(v)
    ensures Good(c) && fresh(Footprint(c)) && Meaning(c) == Meaning(v)
    ensures match v
            case Leaf(_) => c == v
            case Listed(a) => c.Listed? && |c.a.items| == |a.items|
            case Nested(o) => c.Nested? && c.o.names == o.names
    decreases Footprint(v), 2
  {
    match v {
      case Leaf(_) => c := v;
      case Listed(a) =>
        var n := CopyList(a);
        c := Listed(n);
      case Nested(o) =>
        var n := CopyNode(o);
        c := Nested(n);
    }
  }

  method CopyNode(o: ObjectNode) returns (n: ObjectNode)
    requires o.Valid()
    ensures n.Valid() && fresh(n.Repr) && n.names == o.names && n.Den() == o.Den()
    decreases o.Repr, 1
  {
    hide ObjectNode.Valid, ObjectNode.Den, ObjectNode.Forms;
    DenDomain(o);
    n := new ObjectNode();
    for i := 0 to |o.names|
      invariant n.Valid() && fresh(n.Repr) && n.names == o.names[..i] && T.Doubled(n.capacity)
      invariant CopiedUpTo(n.Den(), o.Den(), o.names[..i])
    {
      ghost var before := n.Den();
      CopyMember(o, i, n);
      CopiedNext(before, o.Den(), o.names, i);
    }
    assert o.names[..|o.names|] == o.names;
    assert n.Den() == o.Den();
  }

  ghost predicate CopiedUpTo(m: map<Text, D.Den>, all: map<Text, D.Den>, names: seq<Text>) {
    && (forall k :: k in m <==> k in names)
    && (forall k :: k in m ==> k in all && m[k] == all[k])
  }

  lemma CopiedNext(m: map<Text, D.Den>, all: map<Text, D.Den>, names: seq<Text>, i: nat)
    requires i < |names| && CopiedUpTo(m, all, names[..i]) && names[i] in all
    ensures CopiedUpTo(m[names[i] := all[names[i]]], all, names[..i + 1])
  {
    assert names[..i + 1] == names[..i] + [names[i]];
  }

  method CopyMember(o: ObjectNode, i: nat, n: ObjectNode)
    requires o.Valid() && i < |o.names| && n.Valid() && n.Repr !! o.Repr
    requires n.names == o.names[..i] && T.Doubled(n.capacity)
    modifies n
    ensures n.Valid() && fresh(n.Repr - old(n.Repr)) && n.names == o.names[..i + 1] && T.Doubled(n.capacity)
    ensures o.names[i] in o.Den() && n.Den() == old(n.Den())[o.names[i] := o.Den()[o.names[i]]]
    decreases o.Repr, 0
  {
    hide ObjectNode.Valid, ObjectNode.Den, ObjectNode.Forms, Good, Meaning, FormOf, T.IndexOf, T.Add, T.Doubled;
    OwnsItself(n);
    OwnsItself(o);
    CountBound(o);
    MemberOf(o, i);
    NestedSmaller(o, o.values[i]);
    var c := DeepCopy(o.values[i]);
    NameAbsent(o.names, i);
    RoomInCopy(n, o.names[i], c);
    var ok := n.Add(o.names[i], c);
    assert o.names[..i + 1] == o.names[..i] + [o.names[i]];
  }

  lemma RoomInCopy(n: ObjectNode, name: Text, v: Value)
    requires n.Valid() && T.Doubled(n.capacity) && name !in n.names && |n.names| < OBJECT_MAX_CAPACITY
    ensures var r := T.Add(n.Contents(), name, v);
            r.Some? && T.Doubled(r.value.capacity) && r.value.names == n.names + [name]
  {
    T.AddFromDoubled(n.Contents(), name, v);
  }

  // Item by item through json_array_add, which never fails here
  method CopyList(a: ArrayNode) returns (n: ArrayNode)
    requires a.Valid()
    ensures n.Valid() && fresh(n.Repr) && |n.items| == |a.items| && n.Dens() == a.Dens()
    decreases a.Repr, 1
  {
    hide ArrayNode.Valid, ArrayNode.Forms, ArrayNode.Dens;
    n := new ArrayNode();
    for i := 0 to |a.items|
      invariant n.Valid() && fresh(n.Repr) && |n.items| == i && DoubledArray(n.capacity)
      invariant n.Dens() == a.Dens()[..i]
    {
      CopyItem(a, i, n);
    }
    assert a.Dens()[..|a.items|] == a.Dens();
  }

  method CopyItem(a: ArrayNode, i: nat, n: ArrayNode)
    requires a.Valid() && i < |a.items| && n.Valid() && n.Repr !! a.Repr
    requires |n.items| == i && DoubledArray(n.capacity)
    modifies n
    ensures n.Valid() && fresh(n.Repr - old(n.Repr)) && |n.items| == i + 1 && DoubledArray(n.capacity)
    ensures n.Dens() == old(n.Dens()) + [a.Dens()[i]]
    decreases a.Repr, 0
  {
    hide ArrayNode.Valid, ArrayNode.Forms, ArrayNode.Dens, Good, Meaning, FormOf, DoubledArray, RoomInArray;
    ItemCount(a);
    ItemCount(n);
    ItemOf(a, i);
    var c := DeepCopy(a.items[i]);
    RoomFromDoubled(|n.items|, n.capacity);
    var ok := n.Add(c);
  }

  // A copy compares equal, unless there is an infinity or a NaN in it.
  method CopyAndCompare(v: Value) returns (c: Value, equal: bool)
    requires Good(v)
    ensures Good(c) && fresh(Footprint(c)) && Meaning(c) == Meaning(v)
    ensures equal <==> D.Finite(Meaning(v))
  {
    hide *;
    c := DeepCopy(v);
    D.SameReflexive(Meaning(v));
    equal := JsonEquals.EqualValues(v, c);
  }
}
