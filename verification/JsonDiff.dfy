// json_value_diff, on nodes, and what merging a difference does.

module JsonDiff {
  import opened Bytes
  import opened JsonAlgebra
  import opened JsonCopy
  import opened JsonEquals
  import opened JsonMerge
  import opened JsonNodes
  import opened JsonReading
  import opened JsonValue

  import D = JsonDenotation
  import T = JsonTable

  // Diffing the j-th member of d, which is an object itself
  method DiffChild(o: ObjectNode, m: ObjectNode, d: ObjectNode, j: nat)
    requires o.Valid() && m.Valid() && d.Valid() && d.Repr !! o.Repr && d.Repr !! m.Repr
    requires j < |d.names| == |d.values| && d.values[j].Nested?
    requires d.names[j] in d.Den() && d.Den()[d.names[j]] == D.DObject(m.Den())
    modifies d.Repr
    ensures d.Valid() && fresh(d.Repr - old(d.Repr))
    ensures d.Den() == old(d.Den())[old(d.names[j]) := NearDiff(D.DObject(old(o.Den())), D.DObject(old(m.Den())))]
    decreases m.Repr, 3
  {
    hide Children, FieldsOf, Within, FormIn, NearDiff, Strip, StripFields;
    MemberOf(d, j);
    var c := d.values[j].o;
    ghost var names, vs, fs, S := d.names, d.values[j := Leaf(Null)], d.Forms(), d.Repr - {d} - c.Repr;
    PutAside(names, d.values, d.Repr - {d}, j);
    DiffNodes(o, m, c);
    ghost var f := FNode(c.capacity, c.Forms());
    FormIs(Nested(c));
    StripUpdate(fs, names[j], f);
    SetChild(names, vs, S, j, Nested(c));
    d.Repr := {d} + (S + c.Repr);
    assert vs[j := Nested(c)] == d.values && d.Repr - {d} == S + c.Repr;
    assert fs[names[j] := FLeaf(D.DNull)][names[j] := f] == fs[names[j] := f];
  }

  // What the difference holds once the given names have been visited
  ghost function DiffUpTo(o: map<Text, D.Den>, m: map<Text, D.Den>, names: seq<Text>): map<Text, D.Den> {
    map k | k in m && !(k in names && k in o && D.Same(o[k], m[k])) ::
      if k in names && k in o then NearDiff(o[k], m[k]) else m[k]
  }

  // One name more
  ghost function DiffAt(o: map<Text, D.Den>, m: map<Text, D.Den>, d: map<Text, D.Den>, k: Text): map<Text, D.Den>
    requires k in m
  {
    if k !in o then d else if D.Same(o[k], m[k]) then d - {k} else d[k := NearDiff(o[k], m[k])]
  }

  lemma DiffNext(o: map<Text, D.Den>, m: map<Text, D.Den>, names: seq<Text>, i: nat)
    requires i < |names| && names[i] in m && names[i] !in names[..i]
    ensures DiffUpTo(o, m, names[..i + 1]) == DiffAt(o, m, DiffUpTo(o, m, names[..i]), names[i])
    ensures names[i] in DiffUpTo(o, m, names[..i]) && DiffUpTo(o, m, names[..i])[names[i]] == m[names[i]]
  {
    assert names[..i + 1] == names[..i] + [names[i]];
  }

  lemma DiffEnds(o: map<Text, D.Den>, m: map<Text, D.Den>, names: seq<Text>)
    requires forall k :: k in m <==> k in names
    ensures DiffUpTo(o, m, []) == m
    ensures D.DObject(DiffUpTo(o, m, names)) == NearDiff(D.DObject(o), D.DObject(m))
  {
    assert DiffUpTo(o, m, names) == NearDiff(D.DObject(o), D.DObject(m)).fields;
  }

  lemma DiffCases(o: map<Text, D.Den>, m: map<Text, D.Den>, d: map<Text, D.Den>, k: Text)
    requires k in o && k in m && k in d && d[k] == m[k]
    ensures D.Same(o[k], m[k]) ==> DiffAt(o, m, d, k) == d - {k}
    ensures !D.Same(o[k], m[k]) ==> DiffAt(o, m, d, k) == d[k := NearDiff(o[k], m[k])]
    ensures !D.Same(o[k], m[k]) && !(o[k].DObject? && m[k].DObject?) ==> DiffAt(o, m, d, k) == d
  {
    assert d[k := d[k]] == d;
  }

  // One round of the loop: m's i-th name, whose member d still has in full
  method DiffMember(o: ObjectNode, m: ObjectNode, d: ObjectNode, i: nat)
    requires o.Valid() && m.Valid() && d.Valid() && d.Repr !! o.Repr && d.Repr !! m.Repr && i < |m.names|
    requires m.names[i] in m.Den() && m.names[i] in d.Den() && d.Den()[m.names[i]] == m.Den()[m.names[i]]
    modifies d.Repr
    ensures d.Valid() && fresh(d.Repr - old(d.Repr))
    ensures d.Den() == DiffAt(old(o.Den()), old(m.Den()), old(d.Den()), old(m.names[i]))
    decreases m.Repr, 1
  {
    hide ObjectNode.Valid, ObjectNode.Den, ObjectNode.Forms, T.IndexOf, NearDiff;
    DenDomain(o);
    var k := o.Find(m.names[i]);
    if k < |o.names| { DiffShared(o, k, m, i, d); }
  }

  // A name both have
  method DiffShared(o: ObjectNode, k: nat, m: ObjectNode, i: nat, d: ObjectNode)
    requires o.Valid() && m.Valid() && d.Valid() && d.Repr !! o.Repr && d.Repr !! m.Repr
    requires i < |m.names| && k < |o.names| && o.names[k] == m.names[i]
    requires m.names[i] in m.Den() && m.names[i] in d.Den() && d.Den()[m.names[i]] == m.Den()[m.names[i]]
    modifies d.Repr
    ensures d.Valid() && fresh(d.Repr - old(d.Repr))
    ensures old(m.names[i]) in old(o.Den())
    ensures d.Den() == DiffAt(old(o.Den()), old(m.Den()), old(d.Den()), old(m.names[i]))
    decreases m.Repr, 0
  {
    hide ObjectNode.Valid, ObjectNode.Den, ObjectNode.Forms, T.IndexOf, Good, Footprint, Meaning, FormOf;
    hide NearDiff, DiffAt;
    OwnsItself(d);
    DenDomain(d);
    CountBound(o);
    CountBound(m);
    MemberOf(m, i);
    MemberOf(o, k);
    DiffCases(o.Den(), m.Den(), d.Den(), m.names[i]);
    var name, x, y := m.names[i], o.values[k], m.values[i];
    NestedSmaller(m, y);
    var same := EqualValues(x, y);
    if same { Drop(d, name); } else { DiffOther(x, y, name, d); }
  }

  method Drop(d: ObjectNode, name: Text)
    requires d.Valid()
    modifies d
    ensures d.Valid() && d.Repr == old(d.Repr) && d.Den() == old(d.Den()) - {name}
  {
    hide *;
    var removed := d.Remove(name);
  }

  // A name under which the two are not the same: objects are diffed, the rest stays.
  method DiffOther(x: Value, y: Value, name: Text, d: ObjectNode)
    requires Good(x) && Good(y) && d.Valid() && d.Repr !! Footprint(x) && d.Repr !! Footprint(y)
    requires name in d.Den() && d.Den()[name] == Meaning(y)
    modifies d.Repr
    ensures d.Valid() && fresh(d.Repr - old(d.Repr))
    ensures d.Den() == old(d.Den())[name := NearDiff(old(Meaning(x)), old(Meaning(y)))]
    decreases Footprint(y), 4
  {
    hide ObjectNode.Valid, ObjectNode.Den, ObjectNode.Forms, T.IndexOf, Good, Footprint, Meaning, FormOf, NearDiff;
    DenDomain(d);
    FootprintOf(x);
    FootprintOf(y);
    NotBoth(Meaning(x), Meaning(y));
    ghost var before := d.Den();
    if x.Nested? && y.Nested? {
      var j := d.Find(name);
      CountBound(d);
      MemberOf(d, j);
      FootprintOf(d.values[j]);
      DiffChild(x.o, y.o, d, j);
    } else {
      assert before[name := before[name]] == before;
    }
  }

  lemma NotBoth(o: D.Den, m: D.Den)
    ensures !(o.DObject? && m.DObject?) ==> NearDiff(o, m) == m
  {
  }

  // d starts out as a copy of m.
  method DiffNodes(o: ObjectNode, m: ObjectNode, d: ObjectNode)
    requires o.Valid() && m.Valid() && d.Valid() && d.Repr !! o.Repr && d.Repr !! m.Repr && d.Den() == m.Den()
    modifies d.Repr
    ensures d.Valid() && fresh(d.Repr - old(d.Repr))
    ensures D.DObject(d.Den()) == NearDiff(D.DObject(old(o.Den())), D.DObject(old(m.Den())))
    decreases m.Repr, 2
  {
    hide *;
    DenDomain(m);
    CountBound(m);
    OwnsItself(m);
    OwnsItself(o);
    ghost var os, ms := o.Den(), m.Den();
    DiffEnds(os, ms, m.names);
    for i := 0 to |m.names|
      invariant d.Valid() && fresh(d.Repr - old(d.Repr))
      invariant m.Valid() && m.Den() == ms && d.Repr !! m.Repr && m.names == old(m.names) && m.Repr == old(m.Repr)
      invariant o.Valid() && o.Den() == os && d.Repr !! o.Repr && o.Repr == old(o.Repr)
      invariant d.Den() == DiffUpTo(os, ms, m.names[..i])
    {
      NameAbsent(m.names, i);
      DiffNext(os, ms, m.names, i);
      DiffMember(o, m, d, i);
    }
    assert m.names[..|m.names|] == m.names;
  }

  // The difference is what modified has and origin does not.
  method DiffValues(origin: Value, modified: Value, diff: Value) returns (ok: bool)
    requires Good(origin) && Good(modified) && Good(diff) && Meaning(diff) == Meaning(modified)
    requires Footprint(diff) !! Footprint(origin) && Footprint(diff) !! Footprint(modified)
    modifies Footprint(diff)
    ensures Good(diff) && ok == (origin.Nested? && modified.Nested?) && fresh(Footprint(diff) - old(Footprint(diff)))
    ensures Meaning(diff) == if ok then NearDiff(old(Meaning(origin)), old(Meaning(modified))) else old(Meaning(diff))
  {
    hide ObjectNode.Valid, ObjectNode.Den, ObjectNode.Forms, ArrayNode.Valid, ArrayNode.Forms, ArrayNode.Dens, NearDiff;
    if !origin.Nested? || !modified.Nested? { return false; }
    FootprintOf(diff);
    DiffNodes(origin.o, modified.o, diff.o);
    ok := true;
  }

  // A copy of modified, reduced to its difference from origin, holds nothing that
  // origin has too, at any level.
  method DifferenceOf(origin: Value, modified: Value) returns (diff: Value)
    requires Good(origin) && Good(modified) && origin.Nested? && modified.Nested?
    ensures Good(diff) && fresh(Footprint(diff)) && diff.Nested?
    ensures Meaning(diff) == NearDiff(Meaning(origin), Meaning(modified))
    ensures NothingShared(Meaning(origin), Meaning(diff))
  {
    hide NearDiff, NothingShared, ObjectNode.Valid, ObjectNode.Den, ObjectNode.Forms, Good, Meaning, FormOf;
    FootprintOf(origin);
    FootprintOf(modified);
    DiffSharesNothing(Meaning(origin), Meaning(modified));
    diff := DeepCopy(modified);
    var different := DiffValues(origin, modified, diff);
  }

  // Room for the difference is room for all of modified.
  lemma {:induction false} DiffFits(f: Form, m: D.Den)
    requires f.FNode? && m.DObject?
    ensures NearDiff(Strip(f), m).DObject?
    ensures Fits(f, NearDiff(Strip(f), m)) <==> Fits(f, m)
    decreases f, 0
  {
    StripNode(f);
    var o, d := Strip(f), NearDiff(Strip(f), m);
    assert f.fields.Keys + d.fields.Keys == f.fields.Keys + m.fields.Keys;
    forall k | k in f.fields && k in m.fields
      ensures FitsAt(f.fields[k], m.fields[k]) <==> k in d.fields ==> FitsAt(f.fields[k], d.fields[k])
    {
      if k in d.fields { DiffFitsAt(f.fields[k], m.fields[k]); }
    }
  }

  lemma {:induction false} DiffFitsAt(f: Form, m: D.Den)
    requires !D.Same(Strip(f), m)
    ensures FitsAt(f, NearDiff(Strip(f), m)) <==> FitsAt(f, m)
    decreases f, 1
  {
    StripNode(f);
    DiffSharesNothing(Strip(f), m);
    if f.FNode? && m.DObject? { DiffFits(f, m); }
  }

  // Merging the difference into origin succeeds exactly when merging all of modified would.
  // With room at every level both leave the same; without, what is left depends on the
  // order of the members, which a difference does not keep.
  method MergeDifference(origin: Value, modified: Value) returns (ok: bool)
    requires Good(origin) && Good(modified) && origin.Nested? && modified.Nested?
    modifies Footprint(origin)
    ensures Good(origin)
    ensures var f, o, m := old(FormOf(origin)), old(Meaning(origin)), old(Meaning(modified));
            && f.FNode? && o.DObject? && m.DObject?
            && (ok <==> |o.fields.Keys + m.fields.Keys| <= T.Reach(f.capacity))
            && (Meaning(origin) == NearMerge(o, m) <==> Fits(f, m))
  {
    hide *;
    FootprintOf(origin);
    FootprintOf(modified);
    FormIs(origin);
    ghost var f, o, m := FormOf(origin), Meaning(origin), Meaning(modified);
    DifferenceMerges(f, m);
    var diff := DifferenceOf(origin, modified);
    assert FormOf(origin) == f && Meaning(origin) == o && Meaning(diff) == NearDiff(o, m);
    ok := MergeValues(origin, diff);
  }

  // A difference needs the room that all of modified needs, and with it gives the same.
  lemma DifferenceMerges(f: Form, m: D.Den)
    requires f.FNode? && m.DObject?
    ensures var o, d := Strip(f), NearDiff(Strip(f), m);
            && o.DObject? && d.DObject? && o.fields.Keys + d.fields.Keys == o.fields.Keys + m.fields.Keys
            && NearMerge(o, d) == NearMerge(o, m) && (Fits(f, d) <==> Fits(f, m))
  {
    hide NearMerge, NearDiff, Fits, Strip;
    StripNode(f);
    NearMergeDiff(Strip(f), m);
    DiffFits(f, m);
    DiffKeys(Strip(f), m);
  }

  lemma DiffKeys(o: D.Den, m: D.Den)
    requires o.DObject? && m.DObject?
    ensures NearDiff(o, m).DObject? && o.fields.Keys + NearDiff(o, m).fields.Keys == o.fields.Keys + m.fields.Keys
  {
    hide D.Same;
  }
}
