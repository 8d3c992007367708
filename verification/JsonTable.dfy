// The growable table of names and values behind every object, as functions. The
// class in JsonNodes keeps its fields equal to these.

module JsonTable {
  import opened Bytes
  import opened JsonValue

  datatype Table<+V> = Table(names: seq<Text>, values: seq<V>, capacity: nat) {
    function Count(): nat {
      |names|
    }

    ghost predicate Wellformed() {
      && |names| == |values| <= capacity <= OBJECT_MAX_CAPACITY
      && forall i, j :: 0 <= i < j < |names| ==> names[i] != names[j]
    }
  }

  const EMPTY_CAPACITY: nat := 0

  function Empty<V>(): (t: Table<V>)
    ensures t.Wellformed()
  {
    Table([], [], EMPTY_CAPACITY)
  }

  // The index of a name, or the count when it is absent.
  function IndexOf(names: seq<Text>, name: Text): (i: nat)
    ensures i <= |names|
    ensures i < |names| ==> names[i] == name
    ensures forall j :: 0 <= j < i ==> names[j] != name
    ensures i == |names| <==> name !in names
  {
    if names == [] then 0 else if names[0] == name then 0 else 1 + IndexOf(names[1..], name)
  }

  function Get<V>(t: Table<V>, name: Text): Option<V>
    requires |t.names| == |t.values|
  {
    var i := IndexOf(t.names, name);
    if i < |t.names| then Some(t.values[i]) else None
  }

  // The map a table stands for
  ghost function AsMap<V>(t: Table<V>): (m: map<Text, V>)
    requires t.Wellformed()
    ensures forall i :: 0 <= i < |t.names| ==> t.names[i] in m && m[t.names[i]] == t.values[i]
    ensures forall k :: k in m ==> k in t.names
  {
    map k | k in t.names :: t.values[IndexOf(t.names, k)]
  }

  function Max(a: nat, b: nat): nat {
    if a > b then a else b
  }

  // The capacity json_object_add works with: doubled when full, failing past the cap.
  function Room<V>(t: Table<V>): Option<nat> {
    if t.Count() < t.capacity then Some(t.capacity)
    else if Max(t.capacity * 2, STARTING_CAPACITY) > OBJECT_MAX_CAPACITY then None
    else Some(Max(t.capacity * 2, STARTING_CAPACITY))
  }

  // json_object_add; None is its failure.
  function Add<V>(t: Table<V>, name: Text, value: V): Option<Table<V>> {
    if name in t.names || Room(t).None? then None
    else Some(Table(t.names + [name], t.values + [value], Room(t).value))
  }

  // json_object_set_value
  function Set<V>(t: Table<V>, name: Text, value: V): Option<Table<V>>
    requires |t.names| == |t.values|
  {
    var i := IndexOf(t.names, name);
    if i < |t.names| then Some(Table(t.names, t.values[i := value], t.capacity)) else Add(t, name, value)
  }

  // A sequence without its k-th element, whose place the last one takes.
  function SwapOut<T>(s: seq<T>, k: nat): (r: seq<T>)
    requires k < |s|
    ensures |r| == |s| - 1
    ensures forall i :: 0 <= i < |r| ==> r[i] == if i == k then s[|s| - 1] else s[i]
  {
    s[k := s[|s| - 1]][..|s| - 1]
  }

  // json_object_remove
  function Remove<V>(t: Table<V>, name: Text): Option<Table<V>>
    requires |t.names| == |t.values|
  {
    var i := IndexOf(t.names, name);
    if i == |t.names| then None else Some(Table(SwapOut(t.names, i), SwapOut(t.values, i), t.capacity))
  }

  // json_object_clear
  function Clear<V>(t: Table<V>): Table<V> {
    Table([], [], t.capacity)
  }

  // json_object_resize to the count, as the parser does when an object is complete.
  function Trim<V>(t: Table<V>): Option<Table<V>> {
    if t.Count() == 0 then None else Some(t.(capacity := t.Count()))
  }

  // ---- What the operations mean for the map ----

  lemma MapIs<V>(t: Table<V>, m: map<Text, V>)
    requires t.Wellformed()
    requires forall i :: 0 <= i < |t.names| ==> t.names[i] in m && m[t.names[i]] == t.values[i]
    requires forall k :: k in m ==> k in t.names
    ensures AsMap(t) == m
  {
    forall k | k in m ensures k in AsMap(t) && AsMap(t)[k] == m[k] {
      var i :| 0 <= i < |t.names| && t.names[i] == k;
    }
    forall k | k in AsMap(t) ensures k in m {
      var i :| 0 <= i < |t.names| && t.names[i] == k;
    }
  }

  lemma AddMeaning<V>(t: Table<V>, name: Text, value: V)
    requires t.Wellformed()
    ensures Add(t, name, value).Some? <==>
            name !in t.names && (t.Count() < t.capacity || t.capacity <= OBJECT_MAX_CAPACITY / 2)
    ensures var r := Add(t, name, value);
            r.Some? ==> r.value.Wellformed() && AsMap(r.value) == AsMap(t)[name := value] && name !in AsMap(t)
  {
    if Add(t, name, value).Some? {
      var r := Add(t, name, value).value;
      forall k | k in AsMap(t)[name := value] ensures k in r.names {
        if k == name { assert r.names[|t.names|] == k; } else { assert k in t.names; }
      }
      hide AsMap;
      MapIs(r, AsMap(t)[name := value]);
    }
  }

  lemma SetMeaning<V>(t: Table<V>, name: Text, value: V)
    requires t.Wellformed()
    ensures Set(t, name, value).None? <==> Add(t, name, value).None? && name !in t.names
    ensures var r := Set(t, name, value);
            r.Some? ==> r.value.Wellformed() && AsMap(r.value) == AsMap(t)[name := value]
  {
    if name in t.names {
      hide AsMap;
      MapIs(Set(t, name, value).value, AsMap(t)[name := value]);
    } else {
      AddMeaning(t, name, value);
    }
  }

  lemma AsMapNames<V>(t: Table<V>)
    requires t.Wellformed()
    ensures forall k :: k in AsMap(t) <==> k in t.names
  {
  }

  // Removal swaps the last member in; as a map it takes the name out and nothing else.
  lemma RemoveMeaning<V>(t: Table<V>, name: Text)
    requires t.Wellformed()
    ensures Remove(t, name).Some? <==> name in AsMap(t)
    ensures var r := Remove(t, name);
            r.Some? ==> r.value.Wellformed() && AsMap(r.value) == AsMap(t) - {name} && r.value.Count() + 1 == t.Count()
  {
    hide SwapOut, AsMap;
    var i := IndexOf(t.names, name);
    if i == |t.names| {
      AsMapNames(t);
    } else {
      AsMapNames(t);
      var r := Remove(t, name).value;
      SwapOutDistinct(t.names, i);
      SwapOutMembers(t.names, i);
      var m := AsMap(t) - {name};
      forall j | 0 <= j < |r.names| ensures r.names[j] in m && m[r.names[j]] == r.values[j] {
        assert r.names[j] in r.names;
        SwapOutAt(t.names, i, j);
        SwapOutAt(t.values, i, j);
      }
      MapIs(r, m);
    }
  }

  // Where the j-th element after SwapOut was before
  function Origin(n: nat, k: nat, j: nat): nat
    requires k < n && j < n
  {
    if j == k then n - 1 else j
  }

  lemma SwapOutAt<T>(s: seq<T>, k: nat, j: nat)
    requires k < |s| && j < |s| - 1
    ensures SwapOut(s, k)[j] == s[Origin(|s|, k, j)]
  {
  }

  lemma SwapOutDistinct(s: seq<Text>, k: nat)
    requires k < |s| && forall i, j :: 0 <= i < j < |s| ==> s[i] != s[j]
    ensures forall i, j :: 0 <= i < j < |s| - 1 ==> SwapOut(s, k)[i] != SwapOut(s, k)[j]
  {
  }

  lemma SwapOutMembers(s: seq<Text>, k: nat)
    requires k < |s| && forall i, j :: 0 <= i < j < |s| ==> s[i] != s[j]
    ensures forall x :: x in SwapOut(s, k) <==> x in s && x != s[k]
  {
    var r := SwapOut(s, k);
    forall x | x in s && x != s[k] ensures x in r {
      var j :| 0 <= j < |s| && s[j] == x;
      assert r[if j == |s| - 1 then k else j] == x;
    }
    forall x | x in r ensures x in s && x != s[k] {
      var j :| 0 <= j < |r| && r[j] == x;
      assert x == s[Origin(|s|, k, j)];
    }
  }

  // ---- Any sequence of operations ----

  datatype Operation<+V> =
    | OpAdd(name: Text, value: V)
    | OpSet(name: Text, value: V)
    | OpRemove(name: Text)
    | OpClear
    | OpTrim

  function Apply<V>(t: Table<V>, op: Operation<V>): Option<Table<V>>
    requires |t.names| == |t.values|
  {
    match op
    case OpAdd(n, v) => Add(t, n, v)
    case OpSet(n, v) => Set(t, n, v)
    case OpRemove(n) => Remove(t, n)
    case OpClear => Some(Clear(t))
    case OpTrim => Trim(t)
  }

  // What an operation that succeeds does to the map
  ghost function ApplyMap<V>(m: map<Text, V>, op: Operation<V>): map<Text, V> {
    match op
    case OpAdd(n, v) => m[n := v]
    case OpSet(n, v) => m[n := v]
    case OpRemove(n) => m - {n}
    case OpClear => map[]
    case OpTrim => m
  }

  lemma ApplyRefines<V>(t: Table<V>, op: Operation<V>)
    requires t.Wellformed()
    ensures var r := Apply(t, op); r.Some? ==> r.value.Wellformed() && AsMap(r.value) == ApplyMap(AsMap(t), op)
  {
    match op
    case OpAdd(n, v) => AddMeaning(t, n, v);
    case OpSet(n, v) => SetMeaning(t, n, v);
    case OpRemove(n) => RemoveMeaning(t, n);
    case OpClear =>
    case OpTrim =>
  }

  // A run of operations; one that fails leaves the table as it was.
  ghost function Run<V>(t: Table<V>, ops: seq<Operation<V>>): (after: Table<V>)
    requires t.Wellformed()
    ensures after.Wellformed()
  {
    if ops == [] then t else
      var before := Run(t, ops[..|ops| - 1]);
      ApplyRefines(before, ops[|ops| - 1]);
      var r := Apply(before, ops[|ops| - 1]);
      if r.None? then before else r.value
  }

  // The same run on the map alone
  ghost function RunMap<V>(t: Table<V>, ops: seq<Operation<V>>): map<Text, V>
    requires t.Wellformed()
  {
    if ops == [] then AsMap(t) else
      var m := RunMap(t, ops[..|ops| - 1]);
      if Apply(Run(t, ops[..|ops| - 1]), ops[|ops| - 1]).None? then m else ApplyMap(m, ops[|ops| - 1])
  }

  // After any operations in any order, names are distinct, the count is within the
  // capacity and the capacity within the cap, and the parallel arrays stand for the
  // map the same operations build: a lookup by the i-th name yields the i-th value.
  lemma {:induction false} RunRefines<V>(t: Table<V>, ops: seq<Operation<V>>)
    requires t.Wellformed()
    ensures AsMap(Run(t, ops)) == RunMap(t, ops)
    ensures var after := Run(t, ops);
            forall i :: 0 <= i < after.Count() ==> Get(after, after.names[i]) == Some(after.values[i])
  {
    var after := Run(t, ops);
    forall i | 0 <= i < after.Count() ensures Get(after, after.names[i]) == Some(after.values[i]) {
      var k := IndexOf(after.names, after.names[i]);
    }
    if ops == [] {
    } else {
      RunRefines(t, ops[..|ops| - 1]);
      ApplyRefines(Run(t, ops[..|ops| - 1]), ops[|ops| - 1]);
    }
  }

  // ---- Growing from empty ----

  // The capacities that doubling from empty passes through.
  predicate Doubled(capacity: nat) {
    capacity in {0, 15, 30, 60, 120, 240, 480, 960}
  }

  // From such a capacity an add fails only for a name that is there or at the cap:
  // copying a table member by member never runs out of room.
  lemma AddFromDoubled<V>(t: Table<V>, name: Text, value: V)
    requires t.Wellformed() && Doubled(t.capacity)
    ensures Add(t, name, value).Some? <==> name !in t.names && t.Count() < OBJECT_MAX_CAPACITY
    ensures Add(t, name, value).Some? ==> Doubled(Add(t, name, value).value.capacity)
  {
  }

  // ---- How far a table can grow ----

  // The largest count that adds can reach from a capacity: past half the cap, a
  // capacity does not grow any more.
  function Reach(capacity: nat): (n: nat)
    ensures n >= capacity && n > OBJECT_MAX_CAPACITY / 2
    ensures capacity <= OBJECT_MAX_CAPACITY ==> n <= OBJECT_MAX_CAPACITY
    decreases OBJECT_MAX_CAPACITY - capacity
  {
    if capacity > OBJECT_MAX_CAPACITY / 2 then capacity else Reach(Max(capacity * 2, STARTING_CAPACITY))
  }

  // Adds of new names succeed until that count is reached, and keep it the same.
  lemma AddReaches<V>(t: Table<V>, name: Text, value: V)
    requires t.Wellformed() && name !in t.names
    ensures Add(t, name, value).None? <==> t.Count() == Reach(t.capacity)
    ensures var r := Add(t, name, value); r.Some? ==> Reach(r.value.capacity) == Reach(t.capacity)
  {
  }
}
