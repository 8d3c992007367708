// json_value_merge, on nodes.

module JsonMerge {
  import opened Bytes
  import opened JsonAlgebra
  import opened JsonCopy
  import opened JsonEquals
  import opened JsonNodes
  import opened JsonReading
  import opened JsonValue

  import D = JsonDenotation
  import T = JsonTable

  // ---- Merge on maps, one name at a time ----

  // The part of m under the given names
  ghost function Part(m: map<Text, D.Den>, names: seq<Text>): map<Text, D.Den> {
    map k | k in m && k in names :: m[k]
  }

  ghost function MergeFields(a: map<Text, D.Den>, b: map<Text, D.Den>): map<Text, D.Den> {
    NearMerge(D.DObject(a), D.DObject(b)).fields
  }

  // What merging leaves under one name
  ghost function MergedAt(a: map<Text, D.Den>, b: map<Text, D.Den>, k: Text): D.Den
    requires k in b
  {
    if k in a then NearAt(a[k], b[k]) else b[k]
  }

  // Whether an object has room to become the merge: for the names of both, and so do
  // the objects inside it that are not the same as what is merged into them.
  ghost predicate Fits(f: Form, d: D.Den)
    requires f.FNode? && d.DObject?
    decreases f, 0
  {
    && |f.fields.Keys + d.fields.Keys| <= T.Reach(f.capacity)
    && forall k :: k in f.fields && k in d.fields ==> FitsAt(f.fields[k], d.fields[k])
  }

  ghost predicate FitsAt(f: Form, d: D.Den)
    decreases f, 1
  {
    f.FNode? && d.DObject? && !D.Same(Strip(f), d) ==> Fits(f, d)
  }

  ghost predicate FitsUnder(fs: map<Text, Form>, b: map<Text, D.Den>, k: Text)
    requires k in b
  {
    k in fs ==> FitsAt(fs[k], b[k])
  }

  // Every object of the value has at most as many members as an add can always
  // make room for.
  const HALF_CAPACITY: nat := OBJECT_MAX_CAPACITY / 2

  ghost predicate Small(d: D.Den) {
    d.DObject? ==> |d.fields| <= HALF_CAPACITY && forall k :: k in d.fields ==> Small(d.fields[k])
  }

  // A small result always has room, whatever the capacities.
  lemma {:induction false} SmallFits(f: Form, d: D.Den)
    requires f.FNode? && d.DObject? && Small(Merge(Strip(f), d))
    ensures Fits(f, d)
  {
    var merged := Merge(Strip(f), d);
    assert merged.fields.Keys == f.fields.Keys + d.fields.Keys;
    assert |merged.fields| == |merged.fields.Keys|;
    forall k | k in f.fields && k in d.fields ensures FitsAt(f.fields[k], d.fields[k]) {
      assert Small(merged.fields[k]);
      if f.fields[k].FNode? && d.fields[k].DObject? { SmallFits(f.fields[k], d.fields[k]); }
    }
  }

  // ---- json_value_merge ----

  // What merging d into an object leaves: the code's merge, exactly when there is room,
  // and the merge exactly when moreover nothing is taken for equal that is not
  ghost predicate MergedInto(f: Form, before: Form, d: D.Den)
    requires before.FNode? && d.DObject?
  {
    && (Strip(f) == NearMerge(Strip(before), d) <==> Fits(before, d))
    && (Strip(f) == Merge(Strip(before), d) <==> Fits(before, d) && Apart(Strip(before), d))
  }

  // Merging into the i-th member of a, which is an object itself
  method MergeChild(a: ObjectNode, i: nat, b: ObjectNode) returns (ok: bool, ghost f: Form)
    requires a.Valid() && b.Valid() && a.Repr !! b.Repr
    requires i < |a.names| == |a.values| && a.values[i].Nested?
    modifies a.Repr
    ensures a.Valid() && fresh(a.Repr - old(a.Repr)) && a.capacity == old(a.capacity)
    ensures old(a.names[i] in a.Forms() && a.Forms()[a.names[i]].FNode?)
    ensures a.Forms() == old(a.Forms())[old(a.names[i]) := f]
    ensures MergedInto(f, old(a.Forms()[a.names[i]]), D.DObject(old(b.Den())))
    decreases b.Repr, 3
  {
    hide Children, FieldsOf, MergeFields, MergedSoFar, Within, FormIn, Merge, NearMerge, Apart, T.Reach, Strip;
    hide StripFields, Fits;
    MemberOf(a, i);
    MemberForm(a, i);
    FormIs(a.values[i]);
    var o := a.values[i].o;
    ghost var names, vs, m, S := a.names, a.values[i := Leaf(Null)], a.Forms(), a.Repr - {a} - o.Repr;
    PutAside(names, a.values, a.Repr - {a}, i);
    ok := MergeNodes(o, b);
    f := FNode(o.capacity, o.Forms());
    FormIs(Nested(o));
    SetChild(names, vs, S, i, Nested(o));
    a.Repr := {a} + (S + o.Repr);
    assert vs[i := Nested(o)] == a.values && a.Repr - {a} == S + o.Repr;
    assert m[names[i] := FLeaf(D.DNull)][names[i] := f] == m[names[i] := f];
  }

  lemma MergeIsObject(a: map<Text, D.Den>, b: map<Text, D.Den>)
    ensures NearMerge(D.DObject(a), D.DObject(b)) == D.DObject(MergeFields(a, b))
    ensures Merge(D.DObject(a), D.DObject(b)).DObject?
    ensures Merge(D.DObject(a), D.DObject(b)).fields.Keys == a.Keys + b.Keys == MergeFields(a, b).Keys
  {
  }

  // Room for one more name
  lemma RoomFor(n: ObjectNode, name: Text, v: Value)
    requires n.Valid() && name !in n.names
    ensures var t := n.Contents(); t.Count() < t.capacity ==>
            T.Add(t, name, v).Some? && T.Add(t, name, v).value.capacity == t.capacity
  {
  }

  // No room, by the number of names
  lemma RoomReached(n: ObjectNode, name: Text, v: Value)
    requires n.Valid() && name !in n.names
    ensures var r := T.Add(n.Contents(), name, v);
            if r.None? then |n.Den()| == T.Reach(n.capacity) else T.Reach(r.value.capacity) == T.Reach(n.capacity)
  {
    DenDomain(n);
    T.AddReaches(n.Contents(), name, v);
  }

  // A name a does not have: the one way to fail
  method MergeAbsent(a: ObjectNode, name: Text, v: Value) returns (ok: bool, ghost f: Form)
    requires a.Valid() && name !in a.names && Good(v) && a.Repr !! Footprint(v)
    modifies a
    ensures a.Valid() && fresh(a.Repr - old(a.Repr))
    ensures ok ==> a.Forms() == old(a.Forms())[name := f] && Strip(f) == old(Meaning(v))
    ensures ok ==> T.Reach(a.capacity) == T.Reach(old(a.capacity))
    ensures !ok ==> a.Forms() == old(a.Forms()) && |a.Den()| == T.Reach(old(a.capacity))
  {
    hide ObjectNode.Valid, ObjectNode.Den, ObjectNode.Forms, Good, Meaning, FormOf, Strip, Footprint, T.Reach, T.Add;
    var c := DeepCopy(v);
    RoomReached(a, name, c);
    FormIs(c);
    f := FormOf(c);
    ok := a.Add(name, c);
  }

  // A name whose value in a is not an object
  method MergeReplace(a: ObjectNode, i: nat, v: Value) returns (ghost f: Form)
    requires a.Valid() && i < |a.names| && Good(v) && a.Repr !! Footprint(v)
    modifies a
    ensures a.Valid() && fresh(a.Repr - old(a.Repr)) && a.capacity == old(a.capacity)
    ensures a.Forms() == old(a.Forms())[old(a.names[i]) := f] && Strip(f) == old(Meaning(v))
  {
    hide *;
    var c := DeepCopy(v);
    FormIs(c);
    f := FormOf(c);
    var added := Exchange(a, i, c);
  }

  // Removed, and added again at the end
  method Exchange(a: ObjectNode, i: nat, c: Value) returns (ok: bool)
    requires a.Valid() && i < |a.names| && Good(c) && a.Repr !! Footprint(c)
    modifies a
    ensures a.Valid() && a.Repr == old(a.Repr) + old(Footprint(c)) && a.capacity == old(a.capacity)
    ensures ok && a.Forms() == old(a.Forms())[old(a.names[i]) := old(FormOf(c))]
  {
    hide *;
    var name := a.names[i];
    CountBound(a);
    Reinserted(a.Forms(), name, FormOf(c));
    RemoveBeside(a, name, c);
    ok := AddInRoom(a, name, c);
  }

  // A removal leaves a value on other nodes as it is.
  method RemoveBeside(a: ObjectNode, name: Text, ghost c: Value)
    requires a.Valid() && name in a.names && Good(c) && a.Repr !! Footprint(c)
    modifies a
    ensures a.Valid() && a.Repr == old(a.Repr) && a.capacity == old(a.capacity)
    ensures name !in a.names && |a.names| == old(|a.names|) - 1 && a.Forms() == old(a.Forms()) - {name}
    ensures Good(c) && Footprint(c) == old(Footprint(c)) && FormOf(c) == old(FormOf(c))
  {
    hide ObjectNode.Valid, ObjectNode.Den, ObjectNode.Forms, Good, Meaning, FormOf, Footprint, T.Remove;
    OwnsItself(a);
    FootprintOf(c);
    DenDomain(a);
    var removed := a.Remove(name);
    DenDomain(a);
  }

  // An add that needs no more capacity
  method AddInRoom(a: ObjectNode, name: Text, c: Value) returns (ok: bool)
    requires a.Valid() && name !in a.names && |a.names| < a.capacity && Good(c) && a.Repr !! Footprint(c)
    modifies a
    ensures a.Valid() && a.Repr == old(a.Repr) + old(Footprint(c)) && a.capacity == old(a.capacity)
    ensures ok && a.Forms() == old(a.Forms())[name := old(FormOf(c))]
  {
    hide ObjectNode.Valid, ObjectNode.Den, ObjectNode.Forms, Good, Meaning, FormOf, Footprint, T.Add;
    RoomFor(a, name, c);
    ok := a.Add(name, c);
  }

  lemma Reinserted(m: map<Text, Form>, name: Text, f: Form)
    ensures (m - {name})[name := f] == m[name := f]
  {
  }

  // The same for a value of any kind
  ghost predicate MergedWith(f: Form, before: Form, d: D.Den) {
    && (Strip(f) == NearAt(Strip(before), d) <==> FitsAt(before, d))
    && (Strip(f) == Merge(Strip(before), d) <==> FitsAt(before, d) && ApartAt(Strip(before), d))
  }

  ghost predicate MergedUnder(f: Form, fs: map<Text, Form>, b: map<Text, D.Den>, k: Text)
    requires k in b
  {
    if k in fs then MergedWith(f, fs[k], b[k]) else Strip(f) == b[k]
  }

  lemma MergeCases(f: Form, before: Form, d: D.Den)
    ensures D.Same(Strip(before), d) ==> MergedWith(before, before, d)
    ensures before.FNode? && !d.DObject? ==> MergedWith(before, before, d)
    ensures !before.FNode? && !Strip(before).DObject? && !D.Same(Strip(before), d) && Strip(f) == d ==>
              MergedWith(f, before, d)
    ensures before.FNode? && d.DObject? && !D.Same(Strip(before), d) && MergedInto(f, before, d) ==>
              MergedWith(f, before, d)
  {
    hide Strip, Fits, Merge, NearMerge, Apart;
    StripNode(before);
    ObjectStays(Strip(before), d);
    if D.Same(Strip(before), d) {
      MergeSame(Strip(before), d);
      if Strip(before) == d { ApartSelf(d); }
    }
  }

  lemma ObjectStays(x: D.Den, y: D.Den)
    ensures !y.DObject? || !x.DObject? ==>
            NearMerge(x, y) == Merge(x, y) == (if x.DObject? then x else y) && Apart(x, y)
    ensures D.Same(x, y) ==> (x.DObject? <==> y.DObject?)
  {
  }

  lemma SameField(fs: map<Text, Form>, k: Text)
    requires k in fs
    ensures fs[k := fs[k]] == fs
  {
  }

  // A name a has: left alone, merged into, or replaced
  method MergePresent(a: ObjectNode, j: nat, v: Value) returns (ghost f: Form)
    requires a.Valid() && j < |a.names| && Good(v) && a.Repr !! Footprint(v)
    modifies a.Repr
    ensures a.Valid() && fresh(a.Repr - old(a.Repr)) && a.capacity == old(a.capacity)
    ensures old(a.names[j]) in old(a.Forms()) && a.Forms() == old(a.Forms())[old(a.names[j]) := f]
    ensures MergedWith(f, old(a.Forms())[old(a.names[j])], old(Meaning(v)))
    decreases Footprint(v), 4
  {
    hide ObjectNode.Valid, ObjectNode.Den, ObjectNode.Forms, MergedWith, Fits, Strip;
    hide T.IndexOf, Good, Footprint, Meaning, FormOf, Merge, NearMerge, Apart;
    OwnsItself(a);
    CountBound(a);
    MemberForm(a, j);
    ghost var fs, name, d := a.Forms(), a.names[j], Meaning(v);
    FootprintOf(a.values[j]);
    FootprintOf(v);
    FormIs(a.values[j]);
    SameField(fs, name);
    f := fs[name];
    var same := EqualValues(a.values[j], v);
    if !same && a.values[j].Nested? && v.Nested? {
      var nested;
      nested, f := MergeChild(a, j, v.o);
    } else if !same && !a.values[j].Nested? {
      f := MergeReplace(a, j, v);
    }
    MergeCases(f, fs[name], d);
  }

  // One round of the loop: b's i-th member merged into a
  method MergeMember(a: ObjectNode, b: ObjectNode, i: nat) returns (ok: bool, ghost f: Form)
    requires a.Valid() && b.Valid() && a.Repr !! b.Repr && i < |b.names|
    modifies a.Repr
    ensures a.Valid() && fresh(a.Repr - old(a.Repr))
    ensures old(b.names[i]) in old(b.Den())
    ensures !ok ==> old(b.names[i]) !in a.Forms() && a.Forms() == old(a.Forms())
    ensures !ok ==> |a.Den()| == T.Reach(old(a.capacity))
    ensures ok ==> a.Forms() == old(a.Forms())[old(b.names[i]) := f] && T.Reach(a.capacity) == T.Reach(old(a.capacity))
    ensures ok ==> MergedUnder(f, old(a.Forms()), old(b.Den()), old(b.names[i]))
    decreases b.Repr, 0
  {
    hide ObjectNode.Valid, ObjectNode.Den, ObjectNode.Forms, MergedWith, Strip;
    hide T.IndexOf, Good, Footprint, Meaning, FormOf, T.Reach;
    OwnsItself(a);
    CountBound(b);
    MemberOf(b, i);
    DenDomain(a);
    var name, v := b.names[i], b.values[i];
    NestedSmaller(b, v);
    var j := a.Find(name);
    if j == |a.names| {
      ok, f := MergeAbsent(a, name, v);
    } else {
      ok := true;
      f := MergePresent(a, j, v);
    }
  }

  // a's members when the given names of b have been merged
  ghost predicate MergedSoFar(now: map<Text, Form>, fs: map<Text, Form>, b: map<Text, D.Den>, names: seq<Text>) {
    && now.Keys == fs.Keys + Part(b, names).Keys
    && (forall k :: k in now && k !in Part(b, names) ==> now[k] == fs[k])
    && (forall k :: k in Part(b, names) ==> MergedUnder(now[k], fs, b, k))
  }

  lemma MergedNext(now: map<Text, Form>, fs: map<Text, Form>, b: map<Text, D.Den>, names: seq<Text>, i: nat, f: Form)
    requires i < |names| && names[i] in b && names[i] !in names[..i] && MergedSoFar(now, fs, b, names[..i])
    requires MergedUnder(f, now, b, names[i])
    ensures MergedSoFar(now[names[i] := f], fs, b, names[..i + 1])
  {
    hide MergedUnder, Part;
    PartNext(b, names, i);
    SameUnder(f, now, fs, b, names[i]);
  }

  lemma PartNext(b: map<Text, D.Den>, names: seq<Text>, i: nat)
    requires i < |names| && names[i] in b && names[i] !in names[..i]
    ensures names[i] !in Part(b, names[..i])
    ensures Part(b, names[..i + 1]) == Part(b, names[..i])[names[i] := b[names[i]]]
  {
    assert names[..i + 1] == names[..i] + [names[i]];
  }

  lemma SameUnder(f: Form, now: map<Text, Form>, fs: map<Text, Form>, b: map<Text, D.Den>, k: Text)
    requires k in b && MergedUnder(f, now, b, k) && (k in now <==> k in fs) && (k in now ==> now[k] == fs[k])
    ensures MergedUnder(f, fs, b, k)
  {
    hide MergedWith, Strip;
  }

  // A name is still missing: fewer names than a and b have together
  lemma MergedCount(now: map<Text, Form>, fs: map<Text, Form>, b: map<Text, D.Den>, names: seq<Text>, k: Text)
    requires MergedSoFar(now, fs, b, names) && k in b && k !in now
    ensures |now.Keys| < |fs.Keys + b.Keys|
    ensures D.DObject(StripFields(now)) != NearMerge(D.DObject(StripFields(fs)), D.DObject(b))
    ensures D.DObject(StripFields(now)) != Merge(D.DObject(StripFields(fs)), D.DObject(b))
  {
    hide MergedUnder, StripFields;
    OneShort(now.Keys, fs.Keys + b.Keys, k);
    StripKeys(now);
    MergeIsObject(StripFields(fs), b);
  }

  lemma OneShort(s: set<Text>, t: set<Text>, k: Text)
    requires s <= t && k in t && k !in s
    ensures |s| < |t|
  {
    D.SubsetSize(s + {k}, t);
  }

  lemma StripKeys(fs: map<Text, Form>)
    ensures StripFields(fs).Keys == fs.Keys
  {
    hide Strip;
  }

  ghost predicate ApartUnder(a: map<Text, D.Den>, b: map<Text, D.Den>, k: Text)
    requires k in b
  {
    k in a ==> ApartAt(a[k], b[k])
  }

  lemma MergedAll(now: map<Text, Form>, fs: map<Text, Form>, b: map<Text, D.Den>, names: seq<Text>)
    requires (forall k :: k in b <==> k in names) && MergedSoFar(now, fs, b, names)
    ensures now.Keys == fs.Keys + b.Keys
    ensures var done, a := D.DObject(StripFields(now)), StripFields(fs);
            && (done == NearMerge(D.DObject(a), D.DObject(b)) <==> forall k :: k in b ==> FitsUnder(fs, b, k))
            && (done == Merge(D.DObject(a), D.DObject(b)) <==>
                forall k :: k in b ==> FitsUnder(fs, b, k) && ApartUnder(a, b, k))
  {
    hide Strip, FitsUnder, ApartUnder, MergedUnder;
    assert Part(b, names) == b;
    var done, a := StripFields(now), StripFields(fs);
    var near, merged := MergeFields(a, b), Merge(D.DObject(a), D.DObject(b)).fields;
    MergeIsObject(a, b);
    forall k | k in b
      ensures k in done && k in near && k in merged
      ensures done[k] == near[k] <==> FitsUnder(fs, b, k)
      ensures done[k] == merged[k] <==> FitsUnder(fs, b, k) && ApartUnder(a, b, k)
    {
      MergedField(a, b, k);
      UnderMeans(now[k], fs, b, k);
    }
    forall k | k in done && k !in b ensures k in near && k in merged && done[k] == near[k] == merged[k] {
      MergedField(a, b, k);
    }
    if forall k :: k in b ==> FitsUnder(fs, b, k) { assert done == near; }
    if forall k :: k in b ==> FitsUnder(fs, b, k) && ApartUnder(a, b, k) { assert done == merged; }
  }

  lemma UnderMeans(f: Form, fs: map<Text, Form>, b: map<Text, D.Den>, k: Text)
    requires k in b && MergedUnder(f, fs, b, k)
    ensures var a := StripFields(fs);
            && (Strip(f) == MergedAt(a, b, k) <==> FitsUnder(fs, b, k))
            && (Strip(f) == (if k in a then Merge(a[k], b[k]) else b[k]) <==>
                FitsUnder(fs, b, k) && ApartUnder(a, b, k))
  {
    hide Strip, FitsAt, ApartAt, Merge, NearAt;
  }

  lemma MergedField(a: map<Text, D.Den>, b: map<Text, D.Den>, k: Text)
    requires k in a || k in b
    ensures k in MergeFields(a, b) && MergeFields(a, b)[k] == if k in b then MergedAt(a, b, k) else a[k]
    ensures var merged := Merge(D.DObject(a), D.DObject(b));
            merged.DObject? && k in merged.fields &&
            merged.fields[k] == if k !in b then a[k] else if k in a then Merge(a[k], b[k]) else b[k]
  {
    hide NearAt;
  }

  // The loop over b's names: all of them, or up to one there is no room for
  method MergeMembers(a: ObjectNode, b: ObjectNode) returns (ok: bool, ghost n: nat)
    requires a.Valid() && b.Valid() && a.Repr !! b.Repr
    modifies a.Repr
    ensures a.Valid() && fresh(a.Repr - old(a.Repr)) && n <= |old(b.names)|
    ensures MergedSoFar(a.Forms(), old(a.Forms()), old(b.Den()), old(b.names)[..n])
    ensures ok ==> n == |old(b.names)| && T.Reach(a.capacity) == T.Reach(old(a.capacity))
    ensures !ok ==> n < |old(b.names)| && old(b.names)[n] !in a.Forms() && |a.Den()| == T.Reach(old(a.capacity))
    decreases b.Repr, 1
  {
    hide *;
    DenDomain(b);
    CountBound(b);
    OwnsItself(b);
    ghost var fs, bs := a.Forms(), b.Den();
    NothingMerged(fs, bs);
    n := 0;
    for i := 0 to |b.names|
      invariant n == i && a.Valid() && fresh(a.Repr - old(a.Repr)) && T.Reach(a.capacity) == T.Reach(old(a.capacity))
      invariant b.Valid() && b.Den() == bs && a.Repr !! b.Repr && b.names == old(b.names) && b.Repr == old(b.Repr)
      invariant MergedSoFar(a.Forms(), fs, bs, b.names[..i])
    {
      NameAbsent(b.names, i);
      ghost var now, f := a.Forms(), FLeaf(D.DNull);
      ok, f := MergeMember(a, b, i);
      if !ok { return; }
      MergedNext(now, fs, bs, b.names, i, f);
      n := n + 1;
    }
    ok := true;
  }

  // Failure is exactly that a cannot hold the names of both. What is left in a is what the
  // code's merge should give, exactly when there is room at every level: a nested merge
  // that fails is not reported. It is the merge of both exactly when, moreover, nothing
  // is taken for equal that is not.
  method MergeNodes(a: ObjectNode, b: ObjectNode) returns (ok: bool)
    requires a.Valid() && b.Valid() && a.Repr !! b.Repr
    modifies a.Repr
    ensures a.Valid() && fresh(a.Repr - old(a.Repr))
    ensures ok <==> |old(a.Den()).Keys + old(b.Den()).Keys| <= T.Reach(old(a.capacity))
    ensures ok ==> a.Den().Keys == old(a.Den()).Keys + old(b.Den()).Keys
    ensures var f, x, y := FNode(old(a.capacity), old(a.Forms())), D.DObject(old(a.Den())), D.DObject(old(b.Den()));
            && (D.DObject(a.Den()) == NearMerge(x, y) <==> Fits(f, y))
            && (D.DObject(a.Den()) == Merge(x, y) <==> Fits(f, y) && Apart(x, y))
    decreases b.Repr, 2
  {
    hide *;
    DenDomain(b);
    DenIs(a);
    ghost var capacity, fs, bs, names := a.capacity, a.Forms(), b.Den(), b.names;
    ghost var n;
    ok, n := MergeMembers(a, b);
    if ok {
      assert names[..n] == names;
      MergeEnds(a, capacity, fs, bs, names);
    } else {
      MergeFails(a, capacity, fs, bs, names[..n], names[n]);
    }
  }

  // Out of room with a name to go
  lemma MergeFails(
      a: ObjectNode, capacity: nat, fs: map<Text, Form>, b: map<Text, D.Den>, names: seq<Text>, k: Text)
    requires a.Valid() && MergedSoFar(a.Forms(), fs, b, names)
    requires k in b && k !in a.Forms() && |a.Den()| == T.Reach(capacity)
    ensures |StripFields(fs).Keys + b.Keys| > T.Reach(capacity) && !Fits(FNode(capacity, fs), D.DObject(b))
    ensures D.DObject(a.Den()) != NearMerge(D.DObject(StripFields(fs)), D.DObject(b))
    ensures D.DObject(a.Den()) != Merge(D.DObject(StripFields(fs)), D.DObject(b))
  {
    hide *;
    DenIs(a);
    StripKeys(fs);
    MergedCount(a.Forms(), fs, b, names, k);
    FitsMeans(capacity, fs, b);
  }

  lemma MergeEnds(a: ObjectNode, capacity: nat, fs: map<Text, Form>, b: map<Text, D.Den>, names: seq<Text>)
    requires a.Valid() && T.Reach(a.capacity) == T.Reach(capacity)
    requires (forall k :: k in b <==> k in names) && MergedSoFar(a.Forms(), fs, b, names)
    ensures |StripFields(fs).Keys + b.Keys| <= T.Reach(capacity) && a.Den().Keys == StripFields(fs).Keys + b.Keys
    ensures var done, x, y, f := D.DObject(a.Den()), D.DObject(StripFields(fs)), D.DObject(b), FNode(capacity, fs);
            && (done == NearMerge(x, y) <==> Fits(f, y))
            && (done == Merge(x, y) <==> Fits(f, y) && Apart(x, y))
  {
    hide *;
    DenIs(a);
    StripKeys(fs);
    MergedAll(a.Forms(), fs, b, names);
    CountReach(a);
    FitsMeans(capacity, fs, b);
    ApartMeans(StripFields(fs), b);
  }

  lemma ApartMeans(a: map<Text, D.Den>, b: map<Text, D.Den>)
    ensures Apart(D.DObject(a), D.DObject(b)) <==> forall k :: k in b ==> ApartUnder(a, b, k)
  {
    hide ApartAt;
  }

  lemma NothingMerged(fs: map<Text, Form>, b: map<Text, D.Den>)
    ensures MergedSoFar(fs, fs, b, [])
  {
  }

  lemma DenIs(n: ObjectNode)
    requires n.Valid()
    ensures n.Den() == StripFields(n.Forms()) && n.Den().Keys == n.Forms().Keys && |n.Den()| == |n.Forms().Keys|
  {
    assert n.Den().Keys == n.Forms().Keys;
    assert |n.Den()| == |n.Den().Keys|;
  }

  lemma FitsMeans(capacity: nat, fs: map<Text, Form>, b: map<Text, D.Den>)
    ensures Fits(FNode(capacity, fs), D.DObject(b)) <==>
            |fs.Keys + b.Keys| <= T.Reach(capacity) && forall k :: k in b ==> FitsUnder(fs, b, k)
  {
    hide FitsAt;
  }

  lemma CountReach(n: ObjectNode)
    requires n.Valid()
    ensures |n.Den()| <= T.Reach(n.capacity)
  {
    DenDomain(n);
  }

  // Success is reported for two objects when a can hold all the names; b is as it was.
  method MergeValues(a: Value, b: Value) returns (ok: bool)
    requires Good(a) && Good(b) && Footprint(a) !! Footprint(b)
    modifies Footprint(a)
    ensures Good(a) && Good(b) && Meaning(b) == old(Meaning(b)) && fresh(Footprint(a) - old(Footprint(a)))
    ensures !(a.Nested? && b.Nested?) ==> !ok && Meaning(a) == old(Meaning(a))
    ensures a.Nested? && b.Nested? ==>
              var f, x, y := old(FormOf(a)), old(Meaning(a)), old(Meaning(b));
              && (ok <==> |x.fields.Keys + y.fields.Keys| <= T.Reach(f.capacity))
              && (Meaning(a) == NearMerge(x, y) <==> Fits(f, y))
              && (Meaning(a) == Merge(x, y) <==> Fits(f, y) && Apart(x, y))
  {
    hide ObjectNode.Valid, ObjectNode.Den, ObjectNode.Forms, ArrayNode.Valid, ArrayNode.Forms, ArrayNode.Dens;
    hide Fits, Merge, NearMerge, Apart, T.Reach;
    if !a.Nested? || !b.Nested? { return false; }
    OwnsItself(b.o);
    ok := MergeNodes(a.o, b.o);
  }
}
