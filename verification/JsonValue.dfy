// The values of hpav_test/libjson/parson.c, as trees.

module JsonValue {
  import opened Bytes
  import opened Doubles

  // The limits parson compiles in.
  const STARTING_CAPACITY: nat := 15
  const OBJECT_MAX_CAPACITY: nat := 960
  const ARRAY_MAX_CAPACITY: nat := 122880
  const MAX_NESTING: nat := 19

  datatype Member = Member(name: Text, value: Json)

  datatype Special = PlusInfinity | MinusInfinity | NotANumber

  datatype Json =
    | Null
    | Boolean(b: bool)
    | Number(r: real)
    | NonFinite(what: Special)
    | String(s: Text)
    | Array(items: seq<Json>)
    | Object(members: seq<Member>)

  ghost predicate HasName(ms: seq<Member>, name: Text) {
    exists i :: 0 <= i < |ms| && ms[i].name == name
  }

  ghost predicate DistinctNames(ms: seq<Member>) {
    forall i, j :: 0 <= i < j < |ms| ==> ms[i].name != ms[j].name
  }

  // Names are distinct in every object of the tree: what every operation of
  // the library keeps.
  ghost predicate UniqueNames(v: Json) {
    match v
    case Array(items) => forall x <- items :: UniqueNames(x)
    case Object(ms) => DistinctNames(ms) && forall m <- ms :: UniqueNames(m.value)
    case _ => true
  }

  // Member and item counts are within the capacities in every node.
  ghost predicate WithinCaps(v: Json) {
    match v
    case Array(items) => |items| <= ARRAY_MAX_CAPACITY && forall x <- items :: WithinCaps(x)
    case Object(ms) => |ms| <= OBJECT_MAX_CAPACITY && forall m <- ms :: WithinCaps(m.value)
    case _ => true
  }

  // Numbers are doubles.
  ghost predicate HoldsDoubles(v: Json) {
    match v
    case Number(r) => IsDouble(r) && -HUGE < r < HUGE
    case Array(items) => forall x <- items :: HoldsDoubles(x)
    case Object(ms) => forall m <- ms :: HoldsDoubles(m.value)
    case _ => true
  }

  // A value read at depth `nesting` stays within the parser's nesting limit. An
  // empty container at the last level is still admitted: nothing is read inside it.
  ghost predicate FitsNesting(v: Json, nesting: nat) {
    && nesting <= MAX_NESTING
    && match v
       case Array(items) => forall x <- items :: FitsNesting(x, nesting + 1)
       case Object(ms) => forall m <- ms :: FitsNesting(m.value, nesting + 1)
       case _ => true
  }

  // How many containers the innermost value is in
  ghost function Levels(v: Json): nat {
    match v
    case Array(items) => if items == [] then 0 else 1 + ItemsLevels(items)
    case Object(ms) => if ms == [] then 0 else 1 + MembersLevels(ms)
    case _ => 0
  }

  ghost function ItemsLevels(items: seq<Json>): nat {
    if items == [] then 0 else
      var a, b := Levels(items[0]), ItemsLevels(items[1..]);
      if a > b then a else b
  }

  ghost function MembersLevels(ms: seq<Member>): nat {
    if ms == [] then 0 else
      var a, b := Levels(ms[0].value), MembersLevels(ms[1..]);
      if a > b then a else b
  }

  // The parser's limit in terms of levels: no value is in more than 19 containers.
  lemma {:induction false} FitsLevels(v: Json, nesting: nat)
    ensures FitsNesting(v, nesting) <==> nesting + Levels(v) <= 19
    decreases v, 1
  {
    match v
    case Array(items) =>
      FitsItemsLevels(items, nesting);
      if items != [] { assert items[0] in items; }
    case Object(ms) =>
      FitsMembersLevels(ms, nesting);
      if ms != [] { assert ms[0] in ms; }
    case _ =>
  }

  lemma {:induction false} FitsItemsLevels(items: seq<Json>, nesting: nat)
    ensures nesting < 19 && (forall x <- items :: FitsNesting(x, nesting + 1)) <==>
            nesting + 1 + ItemsLevels(items) <= 19
    decreases items, 0
  {
    if items == [] {
    } else {
      FitsLevels(items[0], nesting + 1);
      FitsItemsLevels(items[1..], nesting);
      assert items[0] in items && forall x <- items[1..] :: x in items;
      assert forall x <- items :: x == items[0] || x in items[1..];
    }
  }

  lemma {:induction false} FitsMembersLevels(ms: seq<Member>, nesting: nat)
    ensures nesting < 19 && (forall m <- ms :: FitsNesting(m.value, nesting + 1)) <==>
            nesting + 1 + MembersLevels(ms) <= 19
    decreases ms, 0
  {
    if ms == [] {
    } else {
      FitsLevels(ms[0].value, nesting + 1);
      FitsMembersLevels(ms[1..], nesting);
      assert ms[0] in ms && forall m <- ms[1..] :: m in ms;
      assert forall m <- ms :: m == ms[0] || m in ms[1..];
    }
  }
}
