// Objects and arrays as the library holds them: nodes with a capacity, whose values may
// be other nodes, changed in place.

module JsonNodes {
  import opened Bytes
  import opened JsonValue
  import D = JsonDenotation
  import T = JsonTable

  // A value: a scalar, or a node
  datatype Value = Leaf(j: Json) | Listed(a: ArrayNode) | Nested(o: ObjectNode)

  // A value as it is held: what a scalar denotes, and for a node its capacity too, which
  // decides how far it can grow.
  datatype Form =
    | FLeaf(d: D.Den)
    | FArray(capacity: nat, items: seq<Form>)
    | FNode(capacity: nat, fields: map<Text, Form>)

  // What a form denotes
  ghost function Strip(f: Form): D.Den {
    match f
    case FLeaf(d) => d
    case FArray(_, items) => D.DArray(seq(|items|, i requires 0 <= i < |items| => Strip(items[i])))
    case FNode(_, fs) => D.DObject(map k | k in fs :: Strip(fs[k]))
  }

  ghost function StripItems(items: seq<Form>): (ds: seq<D.Den>)
    ensures |ds| == |items|
  {
    seq(|items|, i requires 0 <= i < |items| => Strip(items[i]))
  }

  ghost function StripFields(fs: map<Text, Form>): map<Text, D.Den> {
    map k | k in fs :: Strip(fs[k])
  }

  lemma StripNode(f: Form)
    ensures f.FNode? ==> Strip(f) == D.DObject(StripFields(f.fields))
    ensures f.FArray? ==> Strip(f) == D.DArray(StripItems(f.items))
  {
    if f.FNode? { assert Strip(f).fields == StripFields(f.fields); }
    if f.FArray? { assert Strip(f).items == StripItems(f.items); }
  }

  lemma StripUpdate(fs: map<Text, Form>, k: Text, f: Form)
    ensures StripFields(fs[k := f]) == StripFields(fs)[k := Strip(f)]
  {
    hide Strip;
  }

  lemma StripRemove(fs: map<Text, Form>, k: Text)
    ensures StripFields(fs - {k}) == StripFields(fs) - {k}
  {
    hide Strip;
  }

  lemma StripAppend(fs: seq<Form>, f: Form)
    ensures StripItems(fs + [f]) == StripItems(fs) + [Strip(f)]
  {
    hide Strip;
  }

  // The node of a value itself
  ghost function Root(v: Value): set<object> {
    match v
    case Leaf(_) => {}
    case Listed(a) => {a}
    case Nested(o) => {o}
  }

  // Every node a value is made of
  ghost function Footprint(v: Value): set<object>
    reads if v.Nested? then {v.o} else {}
    reads if v.Listed? then {v.a} else {}
  {
    match v
    case Leaf(_) => {}
    case Listed(a) => a.Repr
    case Nested(o) => o.Repr
  }

  predicate IsScalar(j: Json) {
    !j.Array? && !j.Object?
  }

  ghost predicate Good(v: Value)
    reads if v.Nested? then {v.o} + v.o.Repr else {}
    reads if v.Listed? then {v.a} + v.a.Repr else {}
    decreases Footprint(v), 1
  {
    match v
    case Leaf(j) => IsScalar(j)
    case Listed(a) => a.Valid()
    case Nested(o) => o.Valid()
  }

  ghost function FormOf(v: Value): Form
    requires Good(v)
    reads if v.Nested? then {v.o} + v.o.Repr else {}
    reads if v.Listed? then {v.a} + v.a.Repr else {}
    decreases Footprint(v), 1
  {
    match v
    case Leaf(j) => FLeaf(D.Denote(j))
    case Listed(a) => FArray(a.capacity, a.Forms())
    case Nested(o) => FNode(o.capacity, o.Forms())
  }

  ghost function Meaning(v: Value): D.Den
    requires Good(v)
    reads if v.Nested? then {v.o} + v.o.Repr else {}
    reads if v.Listed? then {v.a} + v.a.Repr else {}
    decreases Footprint(v), 2
  {
    match v
    case Leaf(j) => D.Denote(j)
    case Listed(a) => D.DArray(a.Dens())
    case Nested(o) => D.DObject(o.Den())
  }

  lemma FormMeaning(v: Value)
    requires Good(v)
    ensures Strip(FormOf(v)) == Meaning(v)
  {
    StripNode(FormOf(v));
  }

  // v is a scalar, or a node made of nodes of R only.
  ghost predicate Within(v: Value, R: set<object>)
    reads R
    decreases R, 1
  {
    match v
    case Leaf(j) => IsScalar(j)
    case Listed(a) => a in R && a.Repr <= R && a.Valid()
    case Nested(o) => o in R && o.Repr <= R && o.Valid()
  }

  // The values of a node: all within R, and no node shared between two of them.
  ghost predicate Children(vs: seq<Value>, R: set<object>)
    reads R
    decreases R, 2
  {
    && (forall i :: 0 <= i < |vs| ==> Within(vs[i], R))
    && (forall i, j :: 0 <= i < j < |vs| ==> Footprint(vs[i]) !! Footprint(vs[j]))
  }

  ghost function FormIn(v: Value, R: set<object>): Form
    requires Within(v, R)
    reads R
    decreases R, 1
  {
    match v
    case Leaf(j) => FLeaf(D.Denote(j))
    case Listed(a) => FArray(a.capacity, a.Forms())
    case Nested(o) => FNode(o.capacity, o.Forms())
  }

  ghost function FieldsOf(names: seq<Text>, vs: seq<Value>, R: set<object>): map<Text, Form>
    requires |names| == |vs| && Children(vs, R)
    reads R
    decreases R, 2
  {
    map k | k in names :: FormIn(vs[T.IndexOf(names, k)], R)
  }

  ghost function ItemsOf(vs: seq<Value>, R: set<object>): (fs: seq<Form>)
    requires Children(vs, R)
    reads R
    ensures |fs| == |vs|
    decreases R, 2
  {
    seq(|vs|, i requires 0 <= i < |vs| && Children(vs, R) reads R => FormIn(vs[i], R))
  }

  class ArrayNode {
    var items: seq<Value>
    var capacity: nat
    ghost var Repr: set<object>

    ghost predicate Valid()
      reads this, Repr
      decreases Repr, 0
    {
      this in Repr && |items| <= capacity <= ARRAY_MAX_CAPACITY && Children(items, Repr - {this})
    }

    ghost function Forms(): (fs: seq<Form>)
      requires Valid()
      reads this, Repr
      ensures |fs| == |items|
      decreases Repr, 0
    {
      ItemsOf(items, Repr - {this})
    }

    ghost function Dens(): (ds: seq<D.Den>)
      requires Valid()
      reads this, Repr
      ensures |ds| == |items|
      decreases Repr, 1
    {
      StripItems(Forms())
    }

    constructor ()
      ensures Valid() && fresh(Repr) && Repr == {this} && items == [] && capacity == 0 && Forms() == [] && Dens() == []
    {
      items, capacity := [], 0;
      Repr := {this};
    }

    // json_array_add
    method Add(v: Value) returns (ok: bool)
      requires Valid() && Good(v) && Footprint(v) !! Repr
      modifies this
      ensures ok <==> RoomInArray(old(|items|), old(capacity)).Some?
      ensures items == old(items) + (if ok then [v] else [])
      ensures capacity == if ok then RoomInArray(old(|items|), old(capacity)).value else old(capacity)
      ensures Valid() && Repr == old(Repr) + (if ok then Footprint(v) else {})
      ensures Good(v) && FormOf(v) == old(FormOf(v)) && Meaning(v) == old(Meaning(v))
      ensures Footprint(v) == old(Footprint(v))
      ensures Forms() == old(Forms()) + (if ok then [FormOf(v)] else [])
      ensures Dens() == old(Dens()) + (if ok then [Meaning(v)] else [])
    {
      hide Children, Forms, Dens, Good, Meaning, FormOf, Footprint;
      var room := capacity;
      if |items| >= capacity {
        room := T.Max(capacity * 2, STARTING_CAPACITY);
        if room > ARRAY_MAX_CAPACITY { return false; }
      }
      Append(v, room);
      ok := true;
    }

    // The end of json_array_add: room for one more has been made.
    method Append(v: Value, room: nat)
      requires Valid() && Good(v) && Footprint(v) !! Repr && |items| < room <= ARRAY_MAX_CAPACITY
      modifies this
      ensures items == old(items) + [v] && capacity == room
      ensures Valid() && Repr == old(Repr) + Footprint(v)
      ensures Good(v) && FormOf(v) == old(FormOf(v)) && Meaning(v) == old(Meaning(v))
      ensures Footprint(v) == old(Footprint(v))
      ensures Forms() == old(Forms()) + [FormOf(v)] && Dens() == old(Dens()) + [Meaning(v)]
    {
      hide Children, ItemsOf, Within, StripItems, Strip;
      FormMeaning(v);
      StripAppend(Forms(), FormOf(v));
      ghost var R, S := Repr - {this}, Footprint(v);
      AddItem(items, R, v);
      assert this !in R + S && Root(v) <= S;
      hide Meaning, FormOf, Good;
      items, capacity := items + [v], room;
      Repr := Repr + S;
      assert Repr - {this} == R + S;
    }

    // json_array_resize to the count, when parsing is over
    method Trim() returns (ok: bool)
      requires Valid()
      modifies this
      ensures ok == (old(|items|) > 0) && items == old(items)
      ensures capacity == if ok then |items| else old(capacity)
      ensures Valid() && Repr == old(Repr) && Forms() == old(Forms()) && Dens() == old(Dens())
    {
      hide Children, ItemsOf;
      if |items| == 0 { return false; }
      capacity := |items|;
      ok := true;
    }
  }

  // The capacity json_array_add works with: doubled when full, failing past the cap
  function RoomInArray(count: nat, capacity: nat): Option<nat> {
    if count < capacity then Some(capacity)
    else if T.Max(capacity * 2, STARTING_CAPACITY) > ARRAY_MAX_CAPACITY then None
    else Some(T.Max(capacity * 2, STARTING_CAPACITY))
  }

  // The capacities that doubling from empty passes through
  predicate DoubledArray(capacity: nat) {
    capacity in {0, 15, 30, 60, 120, 240, 480, 960, 1920, 3840, 7680, 15360, 30720, 61440, 122880}
  }

  // From such a capacity an add fails only at the cap: copying an array item by item
  // never runs out of room.
  lemma RoomFromDoubled(count: nat, capacity: nat)
    requires DoubledArray(capacity) && count <= capacity
    ensures RoomInArray(count, capacity).Some? <==> count < ARRAY_MAX_CAPACITY
    ensures RoomInArray(count, capacity).Some? ==> DoubledArray(RoomInArray(count, capacity).value)
  {
  }

  class ObjectNode {
    var names: seq<Text>
    var values: seq<Value>
    var capacity: nat
    ghost var Repr: set<object>

    function Contents(): T.Table<Value>
      reads this
    {
      T.Table(names, values, capacity)
    }

    // Nested nodes belong to this one alone.
    ghost predicate Valid()
      reads this, Repr
      decreases Repr, 0
    {
      this in Repr && Contents().Wellformed() && Children(values, Repr - {this})
    }

    ghost function Forms(): map<Text, Form>
      requires Valid()
      reads this, Repr
      decreases Repr, 0
    {
      FieldsOf(names, values, Repr - {this})
    }

    ghost function Den(): map<Text, D.Den>
      requires Valid()
      reads this, Repr
      decreases Repr, 1
    {
      StripFields(Forms())
    }

    constructor ()
      ensures Valid() && fresh(Repr) && Repr == {this} && Contents() == T.Empty() && Forms() == map[] && Den() == map[]
    {
      names, values, capacity := [], [], 0;
      Repr := {this};
    }

    // json_object_nget_value
    method Find(name: Text) returns (i: nat)
      requires |names| == |values|
      ensures i == T.IndexOf(names, name)
    {
      for k := 0 to |names|
        invariant forall j :: 0 <= j < k ==> names[j] != name
      {
        if names[k] == name { return k; }
      }
      return |names|;
    }

    // json_object_add
    method Add(name: Text, v: Value) returns (ok: bool)
      requires Valid() && Good(v) && Footprint(v) !! Repr
      modifies this
      ensures var r := T.Add(old(Contents()), name, v);
              ok == r.Some? && Contents() == if ok then r.value else old(Contents())
      ensures Valid() && Repr == old(Repr) + (if ok then Footprint(v) else {})
      ensures Good(v) && FormOf(v) == old(FormOf(v)) && Meaning(v) == old(Meaning(v))
      ensures Footprint(v) == old(Footprint(v))
      ensures Forms() == if ok then old(Forms())[name := FormOf(v)] else old(Forms())
      ensures Den() == if ok then old(Den())[name := Meaning(v)] else old(Den())
    {
      hide Children, Forms, Den, Good, Meaning, FormOf, Footprint;
      var i := Find(name);
      if i < |names| { return false; }
      var grown := capacity;
      if |names| >= capacity {
        grown := T.Max(capacity * 2, STARTING_CAPACITY);
        if grown > OBJECT_MAX_CAPACITY { return false; }
      }
      Append(name, v, grown);
      ok := true;
    }

    // The end of json_object_add: room for one more has been made.
    method Append(name: Text, v: Value, room: nat)
      requires Valid() && Good(v) && Footprint(v) !! Repr && name !in names && |names| < room <= OBJECT_MAX_CAPACITY
      modifies this
      ensures names == old(names) + [name] && values == old(values) + [v] && capacity == room
      ensures Valid() && Repr == old(Repr) + Footprint(v)
      ensures Good(v) && FormOf(v) == old(FormOf(v)) && Meaning(v) == old(Meaning(v))
      ensures Footprint(v) == old(Footprint(v))
      ensures Forms() == old(Forms())[name := FormOf(v)] && Den() == old(Den())[name := Meaning(v)]
    {
      hide Children, FieldsOf, Within, StripFields, Strip;
      FormMeaning(v);
      StripUpdate(Forms(), name, FormOf(v));
      ghost var R, S := Repr - {this}, Footprint(v);
      AddChild(names, values, R, name, v);
      assert this !in R + S && Root(v) <= S;
      hide Meaning, FormOf, Good;
      names, values, capacity := names + [name], values + [v], room;
      Repr := Repr + S;
      assert Repr - {this} == R + S;
    }

    // json_object_set_value
    method SetValue(name: Text, v: Value) returns (ok: bool)
      requires Valid() && Good(v) && Footprint(v) !! Repr
      modifies this
      ensures var r := T.Set(old(Contents()), name, v);
              ok == r.Some? && Contents() == if ok then r.value else old(Contents())
      ensures Valid() && Repr == old(Repr) + (if ok then Footprint(v) else {})
      ensures Good(v) && FormOf(v) == old(FormOf(v)) && Meaning(v) == old(Meaning(v))
      ensures Footprint(v) == old(Footprint(v))
      ensures Forms() == if ok then old(Forms())[name := FormOf(v)] else old(Forms())
      ensures Den() == if ok then old(Den())[name := Meaning(v)] else old(Den())
    {
      var i := Find(name);
      if i < |names| {
        Replace(i, v);
        return true;
      }
      ok := Add(name, v);
    }

    method Replace(i: nat, v: Value)
      requires Valid() && Good(v) && Footprint(v) !! Repr && i < |names|
      modifies this
      ensures names == old(names) && values == old(values)[i := v] && capacity == old(capacity)
      ensures Valid() && Repr == old(Repr) + Footprint(v)
      ensures Good(v) && FormOf(v) == old(FormOf(v)) && Meaning(v) == old(Meaning(v))
      ensures Footprint(v) == old(Footprint(v))
      ensures Forms() == old(Forms())[names[i] := FormOf(v)] && Den() == old(Den())[names[i] := Meaning(v)]
    {
      hide Children, FieldsOf, Within, StripFields, Strip;
      FormMeaning(v);
      StripUpdate(Forms(), names[i], FormOf(v));
      ghost var R, S := Repr - {this}, Footprint(v);
      SetChild(names, values, R, i, v);
      assert this !in R + S && Root(v) <= S;
      hide Meaning, FormOf, Good;
      values := values[i := v];
      Repr := Repr + S;
      assert Repr - {this} == R + S;
    }

    // json_object_remove
    method Remove(name: Text) returns (ok: bool)
      requires Valid()
      modifies this
      ensures var r := T.Remove(old(Contents()), name);
              ok == r.Some? && Contents() == if ok then r.value else old(Contents())
      ensures Valid() && Repr == old(Repr)
      ensures ok == (name in old(Den())) && Forms() == old(Forms()) - {name} && Den() == old(Den()) - {name}
      ensures capacity == old(capacity) && |names| == old(|names|) - if ok then 1 else 0
    {
      DenNames(name);
      var i := Find(name);
      ok := i < |names|;
      if ok { RemoveAt(i); }
    }

    // The last member takes the place of the removed one.
    method RemoveAt(i: nat)
      requires Valid() && i < |names|
      modifies this
      ensures names == T.SwapOut(old(names), i) && values == T.SwapOut(old(values), i) && capacity == old(capacity)
      ensures Valid() && Repr == old(Repr)
      ensures Forms() == old(Forms()) - {old(names[i])} && Den() == old(Den()) - {old(names[i])}
    {
      hide Children, FieldsOf, StripFields, Strip;
      StripRemove(Forms(), names[i]);
      RemoveChild(names, values, Repr - {this}, i);
      T.SwapOutDistinct(names, i);
      var last := |names| - 1;
      if i != last {
        names, values := names[i := names[last]], values[i := values[last]];
      }
      names, values := names[..last], values[..last];
      assert names == T.SwapOut(old(names), i) && values == T.SwapOut(old(values), i);
      hide T.SwapOut;
    }

    lemma DenNames(name: Text)
      requires Valid()
      ensures name in Forms() <==> name in names
      ensures name in Den() <==> name in names
      ensures name !in names ==> Forms() - {name} == Forms() && Den() - {name} == Den()
    {
      hide Children;
    }

    // json_object_clear
    method Clear()
      requires Valid()
      modifies this
      ensures Contents() == T.Clear(old(Contents())) && Valid() && Repr == old(Repr) && Forms() == map[] &&
              Den() == map[]
    {
      names, values := [], [];
    }

    // json_object_resize to the count, when parsing is over
    method Trim() returns (ok: bool)
      requires Valid()
      modifies this
      ensures var r := T.Trim(old(Contents()));
              ok == r.Some? && Contents() == if ok then r.value else old(Contents())
      ensures Valid() && Repr == old(Repr) && Forms() == old(Forms()) && Den() == old(Den())
    {
      hide Children, FieldsOf;
      if |names| == 0 { return false; }
      capacity := |names|;
      ok := true;
    }
  }

  // Fields, pinned down by their entries
  lemma FieldsAre(names: seq<Text>, vs: seq<Value>, R: set<object>, m: map<Text, Form>)
    requires |names| == |vs| && Children(vs, R)
    requires forall i :: 0 <= i < |names| ==> names[i] in m && m[names[i]] == FormIn(vs[i], R)
    requires forall k :: k in m ==> k in names
    ensures FieldsOf(names, vs, R) == m
  {
    hide FormIn, Children, Within;
    forall k | k in names ensures k in m && m[k] == FieldsOf(names, vs, R)[k] {
      var i := T.IndexOf(names, k);
    }
  }

  lemma FieldsAt(names: seq<Text>, vs: seq<Value>, R: set<object>, i: nat)
    requires |names| == |vs| && Children(vs, R) && i < |names|
    requires forall i, j :: 0 <= i < j < |names| ==> names[i] != names[j]
    ensures names[i] in FieldsOf(names, vs, R) && FieldsOf(names, vs, R)[names[i]] == FormIn(vs[i], R)
  {
    hide FormIn, Children, Within;
    assert names[i] in names;
    var k := T.IndexOf(names, names[i]);
  }

  lemma WithinMore(v: Value, R: set<object>, S: set<object>)
    requires Within(v, R) && R <= S
    ensures Within(v, S) && FormIn(v, S) == FormIn(v, R)
  {
  }

  lemma GoodWithin(v: Value)
    requires Good(v)
    ensures Within(v, Footprint(v)) && FormIn(v, Footprint(v)) == FormOf(v)
  {
  }

  // One more child, on nodes of its own
  lemma MoreChildren(vs: seq<Value>, R: set<object>, v: Value)
    requires Children(vs, R) && Good(v) && Footprint(v) !! R
    ensures var S := R + Footprint(v);
            && Children(vs + [v], S) && Within(v, S) && FormIn(v, S) == FormOf(v)
            && forall i :: 0 <= i < |vs| ==>
               Within(vs[i], R) && Within(vs[i], S) && FormIn(vs[i], S) == FormIn(vs[i], R)
  {
    var S, ws := R + Footprint(v), vs + [v];
    GoodWithin(v);
    WithinMore(v, Footprint(v), S);
    forall i | 0 <= i < |vs| ensures Within(vs[i], S) && FormIn(vs[i], S) == FormIn(vs[i], R) && Footprint(vs[i]) <= R {
      assert Within(vs[i], R);
      WithinMore(vs[i], R, S);
    }
    hide Within, FormOf, FormIn, Good;
    assert ws[|vs|] == v;
  }

  lemma AddItem(vs: seq<Value>, R: set<object>, v: Value)
    requires Children(vs, R) && Good(v) && Footprint(v) !! R
    ensures var S := R + Footprint(v); Children(vs + [v], S) && ItemsOf(vs + [v], S) == ItemsOf(vs, R) + [FormOf(v)]
  {
    hide Within, FormOf, FormIn, Good, Children;
    MoreChildren(vs, R, v);
    var S, ws := R + Footprint(v), vs + [v];
    assert forall i :: 0 <= i < |ws| ==> ItemsOf(ws, S)[i] == (ItemsOf(vs, R) + [FormOf(v)])[i];
  }

  lemma AddChild(names: seq<Text>, vs: seq<Value>, R: set<object>, name: Text, v: Value)
    requires |names| == |vs| && Children(vs, R) && Good(v) && Footprint(v) !! R
    requires name !in names && forall i, j :: 0 <= i < j < |names| ==> names[i] != names[j]
    ensures var S := R + Footprint(v);
            Children(vs + [v], S) && FieldsOf(names + [name], vs + [v], S) == FieldsOf(names, vs, R)[name := FormOf(v)]
  {
    hide Within, FormOf, FormIn, Good, Children;
    MoreChildren(vs, R, v);
    var S, ws := R + Footprint(v), vs + [v];
    var m := FieldsOf(names, vs, R)[name := FormOf(v)];
    var ns := names + [name];
    forall i | 0 <= i < |ns| ensures ns[i] in m && m[ns[i]] == FormIn(ws[i], S) {
      if i < |names| { FieldsAt(names, vs, R, i); }
    }
    forall k | k in m ensures k in ns {
      if k == name { assert ns[|names|] == k; }
    }
    FieldsAre(ns, ws, S, m);
  }

  lemma SetChild(names: seq<Text>, vs: seq<Value>, R: set<object>, i: nat, v: Value)
    requires |names| == |vs| && Children(vs, R) && Good(v) && Footprint(v) !! R && i < |vs|
    requires forall i, j :: 0 <= i < j < |names| ==> names[i] != names[j]
    ensures var S := R + Footprint(v);
            Children(vs[i := v], S) && FieldsOf(names, vs[i := v], S) == FieldsOf(names, vs, R)[names[i] := FormOf(v)]
  {
    var S, ws := R + Footprint(v), vs[i := v];
    GoodWithin(v);
    WithinMore(v, Footprint(v), S);
    forall j | 0 <= j < |vs| ensures Within(vs[j], S) && FormIn(vs[j], S) == FormIn(vs[j], R) && Footprint(vs[j]) <= R {
      WithinMore(vs[j], R, S);
    }
    hide Within, FormOf, FormIn, Good;
    assert Children(ws, S);
    var m := FieldsOf(names, vs, R)[names[i] := FormOf(v)];
    forall j | 0 <= j < |names| ensures names[j] in m && m[names[j]] == FormIn(ws[j], S) {
      FieldsAt(names, vs, R, j);
    }
    FieldsAre(names, ws, S, m);
  }

  lemma RemoveChild(names: seq<Text>, vs: seq<Value>, R: set<object>, i: nat)
    requires |names| == |vs| && Children(vs, R) && i < |vs|
    requires forall i, j :: 0 <= i < j < |names| ==> names[i] != names[j]
    ensures Children(T.SwapOut(vs, i), R)
    ensures FieldsOf(T.SwapOut(names, i), T.SwapOut(vs, i), R) == FieldsOf(names, vs, R) - {names[i]}
  {
    hide Within, FormIn, T.SwapOut;
    var ns, ws := T.SwapOut(names, i), T.SwapOut(vs, i);
    assert Children(ws, R) by {
      forall j | 0 <= j < |ws| ensures ws[j] == vs[T.Origin(|vs|, i, j)] { T.SwapOutAt(vs, i, j); }
    }
    T.SwapOutDistinct(names, i);
    T.SwapOutMembers(names, i);
    var m := FieldsOf(names, vs, R) - {names[i]};
    forall j | 0 <= j < |ns| ensures ns[j] in m && m[ns[j]] == FormIn(ws[j], R) {
      T.SwapOutAt(names, i, j);
      T.SwapOutAt(vs, i, j);
      assert ns[j] in ns;
      FieldsAt(names, vs, R, T.Origin(|vs|, i, j));
    }
    FieldsAre(ns, ws, R, m);
  }
}
