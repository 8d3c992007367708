// Management message entries: frames received, grouped by key and put together again
// (HomePlug AV 1.1 section 11.1.7).

module Reassembly {
  import opened Bytes

  type Mac = Text

  // An Ethernet frame, by its addresses and the bytes past the Ethernet header
  datatype Frame = Frame(dst: Mac, src: Mac, mme: Text)

  datatype Packet = Packet(dst: Mac, src: Mac, data: Text)

  const MME_HEADER: nat := 5
  const MTK_MME_HEADER: nat := 8

  // ---- Header fields ----

  // Frames are kept in zeroed buffers: a field past the end of a frame is zero.
  function MmType(f: Frame): nat {
    var low: int, high: int := At(f.mme, 1), At(f.mme, 2);
    low + 256 * high
  }

  function NfFn(f: Frame): Byte {
    At(f.mme, 3)
  }

  // The low four bits: how many fragments there are besides this one
  function NumFragments(f: Frame): nat {
    NfFn(f) % 16
  }

  // The high four bits
  function FragmentNumber(f: Frame): nat {
    NfFn(f) / 16
  }

  function HeaderSize(mmtype: nat): nat {
    if mmtype / 0x2000 == 5 then MTK_MME_HEADER else MME_HEADER
  }

  datatype Key = Key(dst: Mac, src: Mac, mmv: Byte, mmtype: nat, fmsn: Byte)

  function KeyOf(f: Frame): Key {
    Key(f.dst, f.src, At(f.mme, 0), MmType(f), At(f.mme, 4))
  }

  // ---- Groups ----

  // The frames of one key, in order of arrival
  function Select(frames: seq<Frame>, k: Key): (s: seq<Frame>)
    ensures forall f <- s :: f in frames && KeyOf(f) == k
  {
    if frames == [] then [] else
      var rest, f := Select(frames[..|frames| - 1], k), frames[|frames| - 1];
      if KeyOf(f) == k then rest + [f] else rest
  }

  // The keys, in order of first arrival
  function Keys(frames: seq<Frame>): seq<Key> {
    if frames == [] then [] else
      var rest, k := Keys(frames[..|frames| - 1]), KeyOf(frames[|frames| - 1]);
      if k in rest then rest else rest + [k]
  }

  // Every frame with its key, and no two groups with the same one
  ghost predicate Grouped(groups: seq<seq<Frame>>, frames: seq<Frame>) {
    && |groups| == |Keys(frames)|
    && forall i :: 0 <= i < |groups| ==> groups[i] == Select(frames, Keys(frames)[i])
  }

  lemma {:induction false} KeysOfFrames(frames: seq<Frame>)
    ensures forall k :: k in Keys(frames) <==> exists f :: f in frames && KeyOf(f) == k
    ensures forall i, j :: 0 <= i < j < |Keys(frames)| ==> Keys(frames)[i] != Keys(frames)[j]
  {
    if frames == [] {
    } else {
      var rest, last := frames[..|frames| - 1], frames[|frames| - 1];
      KeysOfFrames(rest);
      assert frames == rest + [last];
      forall k ensures k in Keys(frames) <==> exists f :: f in frames && KeyOf(f) == k {
        if k in Keys(rest) {
          var f :| f in rest && KeyOf(f) == k;
          assert f in frames;
        }
        if k == KeyOf(last) { assert last in frames; }
      }
    }
  }

  lemma {:induction false} SelectEmpty(frames: seq<Frame>, k: Key)
    ensures Select(frames, k) == [] <==> k !in Keys(frames)
  {
    if frames == [] {
    } else {
      SelectEmpty(frames[..|frames| - 1], k);
    }
  }

  lemma SelectNext(frames: seq<Frame>, f: Frame, k: Key)
    ensures Select(frames + [f], k) == if KeyOf(f) == k then Select(frames, k) + [f] else Select(frames, k)
  {
    assert (frames + [f])[..|frames|] == frames;
  }

  lemma KeysNext(frames: seq<Frame>, f: Frame)
    ensures Keys(frames + [f]) == if KeyOf(f) in Keys(frames) then Keys(frames) else Keys(frames) + [KeyOf(f)]
  {
    assert (frames + [f])[..|frames|] == frames;
  }

  // hpav_defrag_add_to_group_list: every group is looked at, by its first frame.
  method AddToGroupList(groups: seq<seq<Frame>>, f: Frame, ghost frames: seq<Frame>) returns (more: seq<seq<Frame>>)
    requires Grouped(groups, frames)
    ensures Grouped(more, frames + [f])
  {
    hide Keys, Select, KeyOf;
    KeysOfFrames(frames);
    KeysNext(frames, f);
    ghost var keys := Keys(frames);
    var found := |groups|;
    var i := 0;
    while i < |groups|
      invariant 0 <= i <= |groups|
      invariant forall j :: 0 <= j < i ==> (keys[j] == KeyOf(f) <==> j == found)
      invariant found == |groups| || 0 <= found < i
    {
      SelectEmpty(frames, keys[i]);
      if groups[i] != [] && KeyOf(groups[i][0]) == KeyOf(f) { found := i; }
      i := i + 1;
    }
    forall k ensures Select(frames + [f], k) == if KeyOf(f) == k then Select(frames, k) + [f] else Select(frames, k) {
      SelectNext(frames, f, k);
    }
    if found == |groups| {
      SelectEmpty(frames, KeyOf(f));
      more := groups + [[f]];
    } else {
      more := groups[found := groups[found] + [f]];
    }
  }

  // ---- One group ----

  // All fragments are there, in order.
  ghost predicate Complete(group: seq<Frame>) {
    && |group| > 0 && |group| == NumFragments(group[0]) + 1
    && forall i :: 0 <= i < |group| ==> FragmentNumber(group[i]) == i
  }

  // What the fragments carry past a header of h bytes
  function Carried(group: seq<Frame>, h: nat): Text
    requires forall f <- group :: |f.mme| >= h
  {
    if group == [] then [] else Carried(group[..|group| - 1], h) + group[|group| - 1].mme[h..]
  }

  // Every fragment after the first holds the header that it repeats.
  ghost predicate HoldHeaders(group: seq<Frame>)
    requires |group| > 0
  {
    forall f <- group[1..] :: |f.mme| >= HeaderSize(MmType(group[0]))
  }

  // The first frame as it is, and what the others carry
  function Joined(group: seq<Frame>): Packet
    requires |group| > 0 && HoldHeaders(group)
  {
    Packet(group[0].dst, group[0].src, group[0].mme + Carried(group[1..], HeaderSize(MmType(group[0]))))
  }

  // A packet, the null pointer, or a copy of a negative number of bytes
  datatype Result = Whole(packet: Packet) | Missing | Crash

  ghost function ResultOf(group: seq<Frame>): Result
    requires |group| > 0
  {
    if !Complete(group) then Missing else if !HoldHeaders(group) then Crash else Whole(Joined(group))
  }

  // hpav_defrag_grouped_frames
  method DefragGroup(group: seq<Frame>) returns (r: Result)
    requires |group| > 0
    ensures r == ResultOf(group)
  {
    var expected := NumFragments(group[0]);
    var total := 0;
    while total < |group|
      invariant 0 <= total <= |group|
      invariant forall i :: 0 <= i < total ==> FragmentNumber(group[i]) == i
    {
      if FragmentNumber(group[total]) != total { return Missing; }
      total := total + 1;
    }
    if expected + 1 != total { return Missing; }
    var data := Assemble(group, HeaderSize(MmType(group[0])));
    if data.None? { return Crash; }
    r := Whole(Packet(group[0].dst, group[0].src, data.value));
  }

  // One pass adds up the size, a second fills a buffer of that size to its end. A size
  // below zero wraps, but then a copy fails.
  method Assemble(group: seq<Frame>, h: nat) returns (data: Option<Text>)
    requires |group| > 0
    ensures data.Some? <==> forall f <- group[1..] :: |f.mme| >= h
    ensures data.Some? ==> data.value == group[0].mme + Carried(group[1..], h)
  {
    hide Carried;
    ghost var rest := group[1..];
    CarriedNone(h);
    var size: int := 0;
    var i := 0;
    while i < |group|
      invariant 0 <= i <= |group|
      invariant i == 0 ==> size == 0
      invariant i > 0 && AllHold(rest[..i - 1], h) ==> size == |group[0].mme| - h + |Carried(rest[..i - 1], h)|
    {
      if i > 0 { CarriedNext(rest, i - 1, h); }
      size := size + (|group[i].mme| - h);
      i := i + 1;
    }
    size := size + h;
    assert rest[..|rest|] == rest;
    var buffer := new Byte[if size < 0 then 0 else size](_ => 0);
    var ok := Fill(buffer, group, h);
    data := if ok then Some(buffer[..]) else None;
  }

  ghost predicate AllHold(group: seq<Frame>, h: nat) {
    forall f <- group :: |f.mme| >= h
  }

  // False is a copy that fails: of a negative size, or past the end of the buffer.
  method Fill(buffer: array<Byte>, group: seq<Frame>, h: nat) returns (ok: bool)
    requires |group| > 0
    requires AllHold(group[1..], h) ==> buffer.Length == |group[0].mme| + |Carried(group[1..], h)|
    modifies buffer
    ensures ok <==> AllHold(group[1..], h)
    ensures ok ==> buffer[..] == group[0].mme + Carried(group[1..], h)
  {
    hide Carried;
    ghost var rest := group[1..];
    CarriedNone(h);
    var at: nat := 0;
    var i := 0;
    while i < |group|
      invariant 0 <= i <= |group| && at <= buffer.Length
      invariant i == 0 ==> at == 0
      invariant i > 0 ==> AllHold(rest[..i - 1], h) && buffer[..at] == group[0].mme + Carried(rest[..i - 1], h)
    {
      // The first frame with its header, the others past it
      var start := if i == 0 then 0 else h;
      if |group[i].mme| < start {
        assert group[i] == rest[i - 1];
        return false;
      }
      assert i > 0 ==> group[i] == rest[i - 1];
      if i > 0 { CarriedNext(rest, i - 1, h); }
      if AllHold(rest, h) { CarriedGrows(rest, i, h); }
      if at + |group[i].mme[start..]| > buffer.Length { return false; }
      at := Put(buffer, at, group[i].mme[start..]);
      i := i + 1;
    }
    assert rest[..|rest|] == rest;
    assert buffer[..at] == buffer[..];
    ok := true;
  }

  lemma CarriedNone(h: nat)
    ensures Carried([], h) == []
  {
  }

  // memcpy to a moving place in a buffer
  method Put(buffer: array<Byte>, at: nat, piece: Text) returns (next: nat)
    requires at + |piece| <= buffer.Length
    modifies buffer
    ensures next == at + |piece| && buffer[..next] == old(buffer[..at]) + piece
  {
    forall j | 0 <= j < |piece| { buffer[at + j] := piece[j]; }
    next := at + |piece|;
  }

  lemma CarriedNext(group: seq<Frame>, i: nat, h: nat)
    requires i < |group|
    ensures AllHold(group[..i + 1], h) <==> AllHold(group[..i], h) && |group[i].mme| >= h
    ensures AllHold(group[..i + 1], h) ==> Carried(group[..i + 1], h) == Carried(group[..i], h) + group[i].mme[h..]
  {
    assert group[..i + 1][..i] == group[..i];
    assert group[..i + 1] == group[..i] + [group[i]];
  }

  lemma {:induction false} CarriedGrows(group: seq<Frame>, i: nat, h: nat)
    requires i <= |group| && AllHold(group, h)
    ensures |Carried(group[..i], h)| <= |Carried(group, h)|
    decreases |group| - i
  {
    if i < |group| {
      CarriedNext(group, i, h);
      CarriedGrows(group, i + 1, h);
    } else {
      assert group[..i] == group;
    }
  }

  // ---- All groups ----

  // A null packet in the middle of the chain is written through: a fault, like the copy
  // that fails.
  datatype Outcome = Packets(chain: seq<Packet>) | Fault

  // What each group gives, in order
  ghost function Results(frames: seq<Frame>): (rs: seq<Result>)
    ensures |rs| == |Keys(frames)|
  {
    seq(|Keys(frames)|, i requires 0 <= i < |Keys(frames)| => ResultAt(frames, i))
  }

  ghost function ResultAt(frames: seq<Frame>, i: nat): Result
    requires i < |Keys(frames)|
  {
    SelectEmpty(frames, Keys(frames)[i]);
    ResultOf(Select(frames, Keys(frames)[i]))
  }

  function Wholes(rs: seq<Result>): seq<Packet> {
    if rs == [] then [] else
      var rest, last := Wholes(rs[..|rs| - 1]), rs[|rs| - 1];
      if last.Whole? then rest + [last.packet] else rest
  }

  // A failed group comes after a good one, and is not the last; or a copy fails.
  ghost predicate Breaks(rs: seq<Result>) {
    || (exists i, j :: 0 <= i < j < |rs| - 1 && rs[i].Whole? && rs[j].Missing?)
    || exists i :: 0 <= i < |rs| && rs[i].Crash?
  }

  lemma WholesNext(rs: seq<Result>, i: nat)
    requires i < |rs|
    ensures Wholes(rs[..i + 1]) == if rs[i].Whole? then Wholes(rs[..i]) + [rs[i].packet] else Wholes(rs[..i])
  {
    assert rs[..i + 1][..i] == rs[..i];
  }

  lemma {:induction false} WholesEmpty(rs: seq<Result>)
    ensures Wholes(rs) == [] <==> forall i :: 0 <= i < |rs| ==> !rs[i].Whole?
  {
    if rs == [] {
    } else {
      WholesEmpty(rs[..|rs| - 1]);
    }
  }

  lemma NoWholes()
    ensures Wholes([]) == []
  {
  }

  // The first loop of hpav_defrag_frames
  method GroupFrames(frames: seq<Frame>) returns (groups: seq<seq<Frame>>)
    ensures Grouped(groups, frames)
  {
    groups := [];
    var n := 0;
    while n < |frames|
      invariant 0 <= n <= |frames|
      invariant Grouped(groups, frames[..n])
    {
      groups := AddToGroupList(groups, frames[n], frames[..n]);
      assert frames[..n] + [frames[n]] == frames[..n + 1];
      n := n + 1;
    }
    assert frames[..n] == frames;
  }

  lemma GroupResults(groups: seq<seq<Frame>>, frames: seq<Frame>)
    requires Grouped(groups, frames)
    ensures |groups| == |Results(frames)|
    ensures forall i :: 0 <= i < |groups| ==> |groups[i]| > 0 && ResultOf(groups[i]) == Results(frames)[i]
  {
    hide Select, Keys, ResultOf;
    forall i | 0 <= i < |groups| ensures |groups[i]| > 0 && ResultOf(groups[i]) == Results(frames)[i] {
      SelectEmpty(frames, Keys(frames)[i]);
      assert Results(frames)[i] == ResultAt(frames, i);
    }
  }

  // hpav_defrag_frames
  method DefragFrames(frames: seq<Frame>) returns (o: Outcome)
    ensures o == if Breaks(Results(frames)) then Fault else Packets(Wholes(Results(frames)))
  {
    hide Select, Keys, ResultOf, Wholes, Results;
    var groups := GroupFrames(frames);
    GroupResults(groups, frames);
    ghost var rs := Results(frames);
    var chain: seq<Packet> := [];
    var last := Missing;
    var i := 0;
    NoWholes();
    while i < |groups|
      invariant 0 <= i <= |groups|
      invariant chain == Wholes(rs[..i])
      invariant i > 0 ==> last == rs[i - 1]
      invariant forall j :: 0 <= j < i ==> !rs[j].Crash?
      invariant forall j, k :: 0 <= j < k < i - 1 ==> !(rs[j].Whole? && rs[k].Missing?)
    {
      var r := DefragGroup(groups[i]);
      if r.Crash? { return Fault; }
      WholesEmpty(rs[..i]);
      WholesNext(rs, i);
      if chain != [] && last.Missing? {
        ghost var j :| 0 <= j < i && rs[j].Whole?;
        assert 0 <= j < i - 1 < |rs| - 1;
        return Fault;
      }
      if r.Whole? { chain := chain + [r.packet]; }
      last := r;
      i := i + 1;
    }
    assert rs[..i] == rs;
    o := Packets(chain);
  }

  // ---- A fault on three ordinary frames ----

  // A header only, of a type that is not vendor-specific
  function Bare(dst: Mac, src: Mac, numFragments: Byte, fmsn: Byte): Frame {
    Frame(dst, src, [1, 0x06, 0x60, numFragments, fmsn])
  }

  // A whole message, one that lacks its second fragment, and another whole message: the
  // null packet of the second is written through.
  method MissingBetween(dst: Mac, src: Mac) returns (o: Outcome)
    ensures o == Fault
  {
    var frames := [Bare(dst, src, 0, 0), Bare(dst, src, 1, 1), Bare(dst, src, 0, 2)];
    ThreeGroups(dst, src);
    o := DefragFrames(frames);
  }

  // Two fragments of a vendor-specific message, too short for its header
  method ShortFragment(dst: Mac, src: Mac) returns (o: Outcome)
    ensures o == Fault
  {
    var f, g := Frame(dst, src, [1, 0, 0xA0, 1, 0]), Frame(dst, src, [1, 0, 0xA0, 17, 0]);
    OneGroup(f, g);
    o := DefragFrames([f, g]);
  }

  lemma OneGroup(f: Frame, g: Frame)
    requires KeyOf(f) == KeyOf(g)
    ensures var rs := Results([f, g]); rs == [ResultOf([f, g])]
  {
    hide KeyOf, ResultOf;
    var k := KeyOf(f);
    assert [] + [f] == [f] && [f] + [g] == [f, g];
    KeysNext([], f);
    KeysNext([f], g);
    SelectNext([], f, k);
    SelectNext([f], g, k);
    assert Keys([]) == [] && Select([], k) == [];
  }

  lemma ThreeGroups(dst: Mac, src: Mac)
    ensures var frames := [Bare(dst, src, 0, 0), Bare(dst, src, 1, 1), Bare(dst, src, 0, 2)];
            var rs := Results(frames);
            |rs| == 3 && rs[0].Whole? && rs[1].Missing? && rs[2].Whole? && Breaks(rs)
  {
    hide Keys, Select, KeyOf, ResultOf, Bare;
    var f, g, h := Bare(dst, src, 0, 0), Bare(dst, src, 1, 1), Bare(dst, src, 0, 2);
    BareFrames(dst, src);
    KeysThree(f, g, h);
    SelectThree(f, g, h);
    var rs := Results([f, g, h]);
    assert rs[0] == ResultOf([f]) && rs[1] == ResultOf([g]) && rs[2] == ResultOf([h]);
  }

  lemma BareFrames(dst: Mac, src: Mac)
    ensures var f, g, h := Bare(dst, src, 0, 0), Bare(dst, src, 1, 1), Bare(dst, src, 0, 2);
            && KeyOf(f) != KeyOf(g) && KeyOf(f) != KeyOf(h) && KeyOf(g) != KeyOf(h)
            && ResultOf([f]).Whole? && ResultOf([g]).Missing? && ResultOf([h]).Whole?
  {
    var f, g, h := Bare(dst, src, 0, 0), Bare(dst, src, 1, 1), Bare(dst, src, 0, 2);
    assert KeyOf(f).fmsn == 0 && KeyOf(g).fmsn == 1 && KeyOf(h).fmsn == 2;
    assert NumFragments(f) == 0 && NumFragments(g) == 1 && NumFragments(h) == 0;
    assert FragmentNumber(f) == 0 && FragmentNumber(h) == 0;
  }

  lemma KeysThree(f: Frame, g: Frame, h: Frame)
    requires KeyOf(f) != KeyOf(g) && KeyOf(f) != KeyOf(h) && KeyOf(g) != KeyOf(h)
    ensures Keys([f, g, h]) == [KeyOf(f), KeyOf(g), KeyOf(h)]
  {
    assert [] + [f] == [f] && [f] + [g] == [f, g] && [f, g] + [h] == [f, g, h];
    KeysNext([], f);
    KeysNext([f], g);
    KeysNext([f, g], h);
    assert Keys([]) == [];
  }

  lemma SelectThree(f: Frame, g: Frame, h: Frame)
    requires KeyOf(f) != KeyOf(g) && KeyOf(f) != KeyOf(h) && KeyOf(g) != KeyOf(h)
    ensures Select([f, g, h], KeyOf(f)) == [f]
    ensures Select([f, g, h], KeyOf(g)) == [g]
    ensures Select([f, g, h], KeyOf(h)) == [h]
  {
    assert [] + [f] == [f] && [f] + [g] == [f, g] && [f, g] + [h] == [f, g, h];
    forall k | k in {KeyOf(f), KeyOf(g), KeyOf(h)}
      ensures Select([f, g, h], k) == if k == KeyOf(f) then [f] else if k == KeyOf(g) then [g] else [h]
    {
      SelectNext([], f, k);
      SelectNext([f], g, k);
      SelectNext([f, g], h, k);
      assert Select([], k) == [];
    }
  }
}
