// From the wire to whole messages: what the capture callback keeps, and why fragments
// that arrive interleaved come out as the messages they were cut from.

module MmeReceive {
  import opened Bytes
  import opened Reassembly

  import S = Sequences

  const BROADCAST: Mac := [0xFF, 0xFF, 0xFF, 0xFF, 0xFF, 0xFF]
  const UINT: nat := 0x1_0000_0000

  // ---- rx_callback ----

  // A frame that holds a header: the callback reads it before it copies the frame.
  type Wire = f: Frame | |f.mme| >= MME_HEADER witness Frame([], [], NO_MME)

  const NO_MME: Text := [0, 0, 0, 0, 0]

  // What a capture is for: addresses, type (0 takes any) and number of frames
  datatype Wish = Wish(src: Mac, sta: Mac, mmtype: nat, expected: nat)

  predicate Wanted(w: Wish, f: Wire) {
    f.dst == w.src && (MmType(f) == w.mmtype || w.mmtype == 0)
  }

  // The frames among the traffic that are for us
  function Taken(w: Wish, traffic: seq<Wire>): seq<Wire> {
    if traffic == [] then [] else
      var rest, f := Taken(w, traffic[..|traffic| - 1]), traffic[|traffic| - 1];
      if Wanted(w, f) then rest + [f] else rest
  }

  lemma TakenNext(w: Wish, traffic: seq<Wire>, f: Wire)
    ensures Taken(w, traffic + [f]) == if Wanted(w, f) then Taken(w, traffic) + [f] else Taken(w, traffic)
  {
    assert (traffic + [f])[..|traffic|] == traffic;
  }

  // A count that wraps has reached e with the next frame when it reaches it now or did before.
  lemma CountNext(n: nat, e: nat)
    requires e < UINT
    ensures (n % UINT + 1) % UINT == (n + 1) % UINT
    ensures n + 1 >= e <==> n >= e || (n + 1) % UINT >= e
  {
  }

  class Callback {
    const wish: Wish
    var rxFrames: seq<Wire>
    var latestFrame: Option<Wire>
    var received: nat
    var fn: nat
    var stop: bool

    // The state after the given traffic. Without a type, only the latest frame is kept.
    ghost predicate Saw(traffic: seq<Wire>)
      reads this
    {
      var t := Taken(wish, traffic);
      && rxFrames == (if wish.mmtype != 0 || t == [] then t else [t[|t| - 1]])
      && latestFrame == (if t == [] then None else Some(t[|t| - 1]))
      && received == |t| % UINT
      && fn == (if t == [] then 0 else NumFragments(t[|t| - 1]))
      && (stop <==> wish.sta != BROADCAST && wish.expected != 0 && |t| >= wish.expected)
    }

    constructor (w: Wish)
      ensures wish == w && Saw([])
    {
      wish := w;
      rxFrames, latestFrame, received, fn, stop := [], None, 0, 0, false;
    }

    method RxCallback(f: Wire, ghost traffic: seq<Wire>)
      requires Saw(traffic) && wish.expected < UINT
      modifies this
      ensures Saw(traffic + [f])
    {
      hide Taken, MmType, NumFragments;
      TakenNext(wish, traffic, f);
      CountNext(|Taken(wish, traffic)|, wish.expected);
      if f.dst == wish.src && (MmType(f) == wish.mmtype || wish.mmtype == 0) {
        if latestFrame.Some? && wish.mmtype != 0 {
          rxFrames := rxFrames + [f];
        } else {
          rxFrames := [f];
        }
        latestFrame := Some(f);
        fn := NumFragments(f);
        received := (received + 1) % UINT;
        if wish.sta != BROADCAST && wish.expected != 0 && received >= wish.expected {
          stop := true;
        }
      }
    }
  }

  // ---- Fragmentation ----

  datatype Message = Message(dst: Mac, src: Mac, mmv: Byte, mmtype: nat, fmsn: Byte, oui: Text, pieces: seq<Text>)

  // One to sixteen pieces; a vendor-specific type has an identifier of three bytes in its
  // header.
  predicate Sendable(m: Message) {
    && m.mmtype < 0x10000 && 1 <= |m.pieces| <= 16
    && |m.oui| == if 0xA000 <= m.mmtype < 0xC000 then 3 else 0
  }

  // What the library takes for the size of the header
  lemma HeaderHolds(m: Message)
    requires Sendable(m)
    ensures HeaderSize(m.mmtype) == 5 + |m.oui|
  {
  }

  // hpav_setup_mme_header: the number of further fragments below, this one's above
  function Header(mmv: Byte, mmtype: nat, numFragments: nat, fragment: nat, fmsn: Byte): (h: Text)
    ensures |h| == MME_HEADER
  {
    [mmv, LowByte(mmtype), LowByte(mmtype / 256), LowByte(numFragments % 16 + fragment * 16 % 256), fmsn]
  }

  function Fragment(m: Message, i: nat): Frame
    requires Sendable(m) && i < |m.pieces|
  {
    Frame(m.dst, m.src, Header(m.mmv, m.mmtype, |m.pieces| - 1, i, m.fmsn) + m.oui + m.pieces[i])
  }

  function Fragments(m: Message): (fs: seq<Frame>)
    requires Sendable(m)
    ensures |fs| == |m.pieces|
  {
    seq(|m.pieces|, i requires 0 <= i < |m.pieces| => Fragment(m, i))
  }

  // The message in one packet: its header once, and all it carries
  function Assembled(m: Message): Packet
    requires Sendable(m)
  {
    Packet(m.dst, m.src, Header(m.mmv, m.mmtype, |m.pieces| - 1, 0, m.fmsn) + m.oui + S.Concat(m.pieces))
  }

  function MessageKey(m: Message): Key {
    Key(m.dst, m.src, m.mmv, m.mmtype, m.fmsn)
  }

  lemma FragmentFields(m: Message, i: nat)
    requires Sendable(m) && i < |m.pieces|
    ensures var f := Fragment(m, i);
            && KeyOf(f) == MessageKey(m) && NumFragments(f) == |m.pieces| - 1 && FragmentNumber(f) == i
            && |f.mme| >= HeaderSize(m.mmtype) && f.mme[HeaderSize(m.mmtype)..] == m.pieces[i]
            && f.mme[..HeaderSize(m.mmtype)] == Header(m.mmv, m.mmtype, |m.pieces| - 1, i, m.fmsn) + m.oui
  {
    var h, f := Header(m.mmv, m.mmtype, |m.pieces| - 1, i, m.fmsn), Fragment(m, i);
    HeaderHolds(m);
    HeaderFields(m.mmv, m.mmtype, |m.pieces| - 1, i, m.fmsn);
    assert f.mme == h + (m.oui + m.pieces[i]);
    assert forall j :: 0 <= j < MME_HEADER ==> f.mme[j] == h[j];
    assert f.mme[..HeaderSize(m.mmtype)] == h + m.oui;
    hide Header, Fragment, HeaderSize;
  }

  lemma HeaderFields(mmv: Byte, mmtype: nat, numFragments: nat, fragment: nat, fmsn: Byte)
    requires mmtype < 0x10000 && numFragments < 16 && fragment < 16
    ensures var h := Header(mmv, mmtype, numFragments, fragment, fmsn);
            var low: int, high: int := h[1], h[2];
            && h[0] == mmv && low + 256 * high == mmtype && h[4] == fmsn
            && h[3] % 16 == numFragments && h[3] / 16 == fragment
  {
  }

  // What the first n fragments after the first one carry
  lemma {:induction false} CarriedPieces(m: Message, n: nat)
    requires Sendable(m) && n < |m.pieces|
    ensures var rest, h := Fragments(m)[1..], HeaderSize(m.mmtype);
            AllHold(rest, h) && AllHold(rest[..n], h) && Carried(rest[..n], h) == S.Concat(m.pieces[1..][..n])
  {
    var rest := Fragments(m)[1..];
    forall i | 0 <= i < |rest| ensures |rest[i].mme| >= HeaderSize(m.mmtype) { FragmentFields(m, i + 1); }
    if n == 0 {
    } else {
      CarriedPieces(m, n - 1);
      FragmentFields(m, n);
      CarriedNext(rest, n - 1, HeaderSize(m.mmtype));
      assert m.pieces[1..][..n][..n - 1] == m.pieces[1..][..n - 1];
    }
  }

  // Reassembly undoes fragmentation.
  lemma FragmentsJoin(m: Message)
    requires Sendable(m)
    ensures Complete(Fragments(m)) && ResultOf(Fragments(m)) == Whole(Assembled(m))
  {
    hide Carried, S.Concat, Header, HeaderSize, MmType, NumFragments, FragmentNumber;
    var fs, n, h := Fragments(m), |m.pieces|, HeaderSize(m.mmtype);
    forall i | 0 <= i < n ensures FragmentNumber(fs[i]) == i { FragmentFields(m, i); }
    FragmentFields(m, 0);
    assert KeyOf(fs[0]) == MessageKey(m);
    CarriedPieces(m, n - 1);
    assert fs[1..][..n - 1] == fs[1..] && m.pieces[1..][..n - 1] == m.pieces[1..];
    S.ConcatFront(m.pieces);
    assert fs[0].mme == fs[0].mme[..h] + fs[0].mme[h..];
  }

  // ---- Interleaved messages ----

  ghost predicate DistinctKeys(ms: seq<Message>) {
    forall i, j :: 0 <= i < j < |ms| ==> MessageKey(ms[i]) != MessageKey(ms[j])
  }

  // The frames are the fragments of the messages, each message's own in order.
  ghost predicate Interleaves(frames: seq<Frame>, ms: seq<Message>) {
    && (forall m <- ms :: Sendable(m) && Select(frames, MessageKey(m)) == Fragments(m))
    && (forall f <- frames :: exists m :: m in ms && MessageKey(m) == KeyOf(f))
  }

  // The same messages, in the order in which their first fragments arrive
  ghost predicate ArrivalOrder(frames: seq<Frame>, ms: seq<Message>, arrived: seq<Message>) {
    && |arrived| == |ms| == |Keys(frames)|
    && (forall m <- ms :: m in arrived)
    && (forall i :: 0 <= i < |arrived| ==> arrived[i] in ms && MessageKey(arrived[i]) == Keys(frames)[i])
  }

  // Keys come in the order of their first frames.
  lemma {:induction false} FirstArrivals(frames: seq<Frame>, i: nat, j: nat) returns (p: nat)
    requires i < j < |Keys(frames)|
    ensures p < |frames| && KeyOf(frames[p]) == Keys(frames)[i]
    ensures forall q :: 0 <= q <= p ==> KeyOf(frames[q]) != Keys(frames)[j]
  {
    var rest := frames[..|frames| - 1];
    KeysOfFrames(rest);
    if j < |Keys(rest)| {
      p := FirstArrivals(rest, i, j);
      assert forall q :: 0 <= q <= p ==> frames[q] == rest[q];
    } else {
      assert Keys(rest)[i] in Keys(rest);
      var f :| f in rest && KeyOf(f) == Keys(rest)[i];
      p :| 0 <= p < |rest| && rest[p] == f;
      forall q | 0 <= q <= p ensures KeyOf(frames[q]) != Keys(frames)[j] {
        assert rest[q] in rest && frames[q] == rest[q];
        assert KeyOf(rest[q]) in Keys(rest);
      }
    }
  }

  ghost predicate HasKey(ms: seq<Message>, k: Key) {
    exists m :: m in ms && MessageKey(m) == k
  }

  lemma KeyHasMessage(frames: seq<Frame>, ms: seq<Message>, k: Key)
    requires Interleaves(frames, ms) && k in Keys(frames)
    ensures HasKey(ms, k)
  {
    KeysOfFrames(frames);
    var f :| f in frames && KeyOf(f) == k;
  }

  // The keys of the frames are those of the messages, as many of them.
  lemma SameKeys(frames: seq<Frame>, ms: seq<Message>)
    requires DistinctKeys(ms) && Interleaves(frames, ms)
    ensures |Keys(frames)| == |ms| && forall m <- ms :: MessageKey(m) in Keys(frames)
  {
    var keys := Keys(frames);
    KeysOfFrames(frames);
    forall m | m in ms ensures MessageKey(m) in keys {
      SelectEmpty(frames, MessageKey(m));
      assert |Fragments(m)| > 0;
    }
    var own := seq(|ms|, i requires 0 <= i < |ms| => MessageKey(ms[i]));
    forall k ensures k in keys <==> k in own {
      if k in keys {
        KeyHasMessage(frames, ms, k);
        var m :| m in ms && MessageKey(m) == k;
        var j :| 0 <= j < |ms| && ms[j] == m;
        assert own[j] == k;
      }
    }
    S.SameLength(keys, own);
  }

  // Every group is whole, and gives back its message.
  lemma EveryMessage(frames: seq<Frame>, ms: seq<Message>, arrived: seq<Message>)
    requires Interleaves(frames, ms) && ArrivalOrder(frames, ms, arrived)
    ensures !Breaks(Results(frames))
    ensures |arrived| == |Wholes(Results(frames))|
    ensures forall i :: 0 <= i < |arrived| ==>
            Sendable(arrived[i]) && Wholes(Results(frames))[i] == Assembled(arrived[i])
  {
    hide Keys, Select, Complete, ResultOf;
    var rs := Results(frames);
    forall i | 0 <= i < |rs| ensures Sendable(arrived[i]) && rs[i] == Whole(Assembled(arrived[i])) {
      FragmentsJoin(arrived[i]);
    }
    AllWholes(rs);
  }

  lemma {:induction false} AllWholes(rs: seq<Result>)
    requires forall i :: 0 <= i < |rs| ==> rs[i].Whole?
    ensures |Wholes(rs)| == |rs| && forall i :: 0 <= i < |rs| ==> Wholes(rs)[i] == rs[i].packet
  {
    if rs == [] {
    } else {
      AllWholes(rs[..|rs| - 1]);
    }
  }

  // From any traffic whose wanted frames interleave the fragments of some messages,
  // the callback and the defragmentation give exactly these messages.
  method ReceiveTaken(w: Wish, traffic: seq<Wire>, ghost ms: seq<Message>, ghost arrived: seq<Message>)
      returns (chain: seq<Packet>)
    requires 0 < w.mmtype && w.expected < UINT
    requires DistinctKeys(ms) && Interleaves(Taken(w, traffic), ms)
    requires ArrivalOrder(Taken(w, traffic), ms, arrived)
    ensures |chain| == |arrived|
    ensures forall i :: 0 <= i < |chain| ==> Sendable(arrived[i]) && chain[i] == Assembled(arrived[i])
  {
    hide Taken, Interleaves, ArrivalOrder;
    var c := new Callback(w);
    for i := 0 to |traffic|
      invariant fresh(c) && c.wish == w && c.Saw(traffic[..i])
    {
      assert traffic[..i] + [traffic[i]] == traffic[..i + 1];
      c.RxCallback(traffic[i], traffic[..i]);
    }
    assert traffic[..|traffic|] == traffic;
    EveryMessage(c.rxFrames, ms, arrived);
    var o := DefragFrames(c.rxFrames);
    chain := o.chain;
  }

  // ---- The traffic, frame by frame ----

  // The frames that belong to the j-th message, in order. A negative owner is none.
  function Owned(traffic: seq<Frame>, owner: seq<int>, j: int): seq<Frame>
    requires |owner| == |traffic|
  {
    if traffic == [] then [] else
      var n := |traffic| - 1;
      var rest := Owned(traffic[..n], owner[..n], j);
      if owner[n] == j then rest + [traffic[n]] else rest
  }

  // The messages in the order of their first frames
  function Order(owner: seq<int>): (order: seq<nat>)
    ensures forall j :: j in order <==> 0 <= j && j in owner
  {
    if owner == [] then [] else
      var n := |owner| - 1;
      var rest := Order(owner[..n]);
      assert owner == owner[..n] + [owner[n]];
      if owner[n] < 0 || owner[n] in rest then rest else rest + [owner[n]]
  }

  // Every frame of the traffic belongs to a message, or has another destination or type.
  ghost predicate Mixed(w: Wish, traffic: seq<Wire>, owner: seq<int>, ms: seq<Message>) {
    && |owner| == |traffic|
    && (forall i :: 0 <= i < |owner| ==> owner[i] < |ms|)
    && (forall i :: 0 <= i < |owner| && owner[i] < 0 ==> traffic[i].dst != w.src || MmType(traffic[i]) != w.mmtype)
    && (forall j :: 0 <= j < |ms| ==>
          && Sendable(ms[j]) && ms[j].dst == w.src && ms[j].mmtype == w.mmtype
          && Owned(traffic, owner, j) == Fragments(ms[j]))
  }

  lemma {:induction false} OwnedFrame(traffic: seq<Frame>, owner: seq<int>, i: nat)
    requires |owner| == |traffic| && i < |traffic|
    ensures traffic[i] in Owned(traffic, owner, owner[i])
  {
    var n := |traffic| - 1;
    if i < n { OwnedFrame(traffic[..n], owner[..n], i); }
  }

  // A frame that belongs to a message has its destination, its type and its key.
  lemma OwnerFields(w: Wish, traffic: seq<Wire>, owner: seq<int>, ms: seq<Message>, i: nat)
    requires Mixed(w, traffic, owner, ms) && i < |traffic|
    ensures owner[i] < 0 ==> w.mmtype == 0 || !Wanted(w, traffic[i])
    ensures owner[i] >= 0 ==> Wanted(w, traffic[i]) && KeyOf(traffic[i]) == MessageKey(ms[owner[i]])
  {
    if owner[i] >= 0 {
      var m := ms[owner[i]];
      OwnedFrame(traffic, owner, i);
      var k :| 0 <= k < |m.pieces| && Fragments(m)[k] == traffic[i];
      FragmentFields(m, k);
      assert KeyOf(traffic[i]).mmtype == m.mmtype;
    }
  }

  ghost predicate Below(order: seq<nat>, n: nat) {
    forall i :: 0 <= i < |order| ==> order[i] < n
  }

  lemma OrderBelow(owner: seq<int>, n: nat)
    requires forall i :: 0 <= i < |owner| ==> owner[i] < n
    ensures Below(Order(owner), n)
  {
    hide Order;
    forall i | 0 <= i < |Order(owner)| ensures Order(owner)[i] < n {
      assert Order(owner)[i] in owner;
    }
  }

  function KeysOf(order: seq<nat>, ms: seq<Message>): (keys: seq<Key>)
    requires Below(order, |ms|)
    ensures |keys| == |order| && forall i :: 0 <= i < |keys| ==> keys[i] == MessageKey(ms[order[i]])
  {
    seq(|order|, i requires 0 <= i < |order| => MessageKey(ms[order[i]]))
  }

  // Each frame that is wanted has an owner, and its key.
  ghost predicate Owns(w: Wish, traffic: seq<Wire>, owner: seq<int>, ms: seq<Message>) {
    && |owner| == |traffic| && DistinctKeys(ms)
    && (forall i :: 0 <= i < |owner| ==> owner[i] < |ms|)
    && (forall i :: 0 <= i < |owner| && owner[i] < 0 ==> !Wanted(w, traffic[i]))
    && (forall i :: 0 <= i < |owner| && owner[i] >= 0 ==>
          Wanted(w, traffic[i]) && KeyOf(traffic[i]) == MessageKey(ms[owner[i]]))
  }

  // What is taken for the key of a message is what belongs to it.
  lemma {:induction false} TakenIsOwned(w: Wish, traffic: seq<Wire>, owner: seq<int>, ms: seq<Message>, j: nat)
    requires Owns(w, traffic, owner, ms) && j < |ms|
    ensures Select(Taken(w, traffic), MessageKey(ms[j])) == Owned(traffic, owner, j)
  {
    hide Wanted, KeyOf, MessageKey, Owned, Taken, Select, DistinctKeys;
    if traffic == [] {
      NothingTaken(w);
    } else {
      var n := |traffic| - 1;
      TakenIsOwned(w, traffic[..n], owner[..n], ms, j);
      OwnedNext(traffic, owner);
      assert traffic == traffic[..n] + [traffic[n]];
      TakenNext(w, traffic[..n], traffic[n]);
      SelectNext(Taken(w, traffic[..n]), traffic[n], MessageKey(ms[j]));
      if owner[n] >= 0 { OneKey(ms, owner[n], j); }
    }
  }

  // The groups come in the order of their owners.
  lemma {:induction false} KeysAreOwners(w: Wish, traffic: seq<Wire>, owner: seq<int>, ms: seq<Message>)
    requires Owns(w, traffic, owner, ms)
    ensures Below(Order(owner), |ms|) && Keys(Taken(w, traffic)) == KeysOf(Order(owner), ms)
  {
    hide Wanted, KeyOf, MessageKey, Order, Taken, Keys, DistinctKeys;
    OrderBelow(owner, |ms|);
    if traffic == [] {
      NothingTaken(w);
    } else {
      var n := |traffic| - 1;
      KeysAreOwners(w, traffic[..n], owner[..n], ms);
      OwnedNext(traffic, owner);
      assert traffic == traffic[..n] + [traffic[n]];
      TakenNext(w, traffic[..n], traffic[n]);
      if owner[n] >= 0 {
        KeysNext(Taken(w, traffic[..n]), traffic[n]);
        KnownKey(Order(owner[..n]), ms, owner[n]);
      }
    }
  }

  lemma NothingTaken(w: Wish)
    ensures Taken(w, []) == [] && Keys([]) == [] && Order([]) == []
    ensures forall k :: Select([], k) == []
    ensures forall j :: Owned([], [], j) == []
  {
  }

  lemma OwnedNext(traffic: seq<Frame>, owner: seq<int>)
    requires |owner| == |traffic| > 0
    ensures var n := |traffic| - 1;
            && (forall j :: Owned(traffic, owner, j) ==
                  if owner[n] == j then Owned(traffic[..n], owner[..n], j) + [traffic[n]]
                  else Owned(traffic[..n], owner[..n], j))
            && Order(owner) == (if owner[n] < 0 || owner[n] in Order(owner[..n]) then Order(owner[..n])
                                else Order(owner[..n]) + [owner[n]])
  {
  }

  lemma OneKey(ms: seq<Message>, i: nat, j: nat)
    requires DistinctKeys(ms) && i < |ms| && j < |ms|
    ensures MessageKey(ms[i]) == MessageKey(ms[j]) <==> i == j
  {
  }

  lemma KnownKey(order: seq<nat>, ms: seq<Message>, j: nat)
    requires DistinctKeys(ms) && j < |ms| && Below(order, |ms|)
    ensures Below(order + [j], |ms|)
    ensures MessageKey(ms[j]) in KeysOf(order, ms) <==> j in order
    ensures KeysOf(order + [j], ms) == KeysOf(order, ms) + [MessageKey(ms[j])]
  {
    hide MessageKey;
    if MessageKey(ms[j]) in KeysOf(order, ms) {
      var i :| 0 <= i < |order| && KeysOf(order, ms)[i] == MessageKey(ms[j]);
      OneKey(ms, order[i], j);
    }
    if j in order {
      var i :| 0 <= i < |order| && order[i] == j;
      assert KeysOf(order, ms)[i] == MessageKey(ms[j]);
    }
  }

  // From any traffic that mixes the fragments of messages, each message's own in order,
  // with frames of another destination or type: the messages themselves, each once, in the
  // order in which their first fragments arrive.
  method Receive(w: Wish, traffic: seq<Wire>, ghost owner: seq<int>, ghost ms: seq<Message>)
      returns (chain: seq<Packet>)
    requires 0 < w.mmtype && w.expected < UINT
    requires DistinctKeys(ms) && Mixed(w, traffic, owner, ms)
    ensures |chain| == |Order(owner)| == |ms|
    ensures forall i :: 0 <= i < |chain| ==>
              var j := Order(owner)[i]; j < |ms| && Sendable(ms[j]) && chain[i] == Assembled(ms[j])
  {
    hide Taken, Interleaves, ArrivalOrder, Wanted, KeyOf, Keys, Select, Assembled, Order, Owned;
    ghost var arrived := MixedArrives(w, traffic, owner, ms);
    chain := ReceiveTaken(w, traffic, ms, arrived);
  }

  lemma MixedArrives(w: Wish, traffic: seq<Wire>, owner: seq<int>, ms: seq<Message>) returns (arrived: seq<Message>)
    requires 0 < w.mmtype && DistinctKeys(ms) && Mixed(w, traffic, owner, ms)
    ensures Interleaves(Taken(w, traffic), ms) && ArrivalOrder(Taken(w, traffic), ms, arrived)
    ensures |arrived| == |Order(owner)| == |ms|
    ensures forall i :: 0 <= i < |arrived| ==> Order(owner)[i] < |ms| && arrived[i] == ms[Order(owner)[i]]
  {
    hide Wanted, KeyOf, Keys, Select, MessageKey, Owned, Taken, DistinctKeys, Order, Sendable;
    forall i | 0 <= i < |traffic|
      ensures owner[i] < 0 ==> !Wanted(w, traffic[i])
      ensures owner[i] >= 0 ==> Wanted(w, traffic[i]) && KeyOf(traffic[i]) == MessageKey(ms[owner[i]])
    {
      OwnerFields(w, traffic, owner, ms, i);
    }
    KeysAreOwners(w, traffic, owner, ms);
    forall j | 0 <= j < |ms| ensures Select(Taken(w, traffic), MessageKey(ms[j])) == Owned(traffic, owner, j) {
      TakenIsOwned(w, traffic, owner, ms, j);
    }
    var order, frames := Order(owner), Taken(w, traffic);
    KeysOfFrames(frames);
    forall f | f in frames ensures exists m :: m in ms && MessageKey(m) == KeyOf(f) {
      assert KeyOf(f) in Keys(frames);
      var i :| 0 <= i < |order| && KeysOf(order, ms)[i] == KeyOf(f);
      assert ms[order[i]] in ms;
    }
    assert Interleaves(frames, ms);
    arrived := seq(|order|, i requires 0 <= i < |order| => ms[order[i]]);
    InOrder(frames, ms, order, arrived);
  }

  lemma InOrder(frames: seq<Frame>, ms: seq<Message>, order: seq<nat>, arrived: seq<Message>)
    requires DistinctKeys(ms) && Interleaves(frames, ms) && Below(order, |ms|) && Keys(frames) == KeysOf(order, ms)
    requires |arrived| == |order| && forall i :: 0 <= i < |order| ==> arrived[i] == ms[order[i]]
    ensures ArrivalOrder(frames, ms, arrived) && |arrived| == |ms|
  {
    hide Keys, Select, MessageKey, DistinctKeys, Sendable, Fragments;
    forall m | m in ms ensures m in arrived {
      var j :| 0 <= j < |ms| && ms[j] == m;
      assert ms[j] in ms;
      Arrives(frames, ms, order, j);
      var i :| 0 <= i < |order| && order[i] == j;
      assert arrived[i] == m;
    }
    SameKeys(frames, ms);
  }

  lemma Arrives(frames: seq<Frame>, ms: seq<Message>, order: seq<nat>, j: nat)
    requires j < |ms| && DistinctKeys(ms) && Below(order, |ms|) && Keys(frames) == KeysOf(order, ms)
    requires Sendable(ms[j]) && Select(frames, MessageKey(ms[j])) == Fragments(ms[j])
    ensures j in order
  {
    hide Keys, Select, MessageKey;
    assert |Fragments(ms[j])| > 0;
    SelectEmpty(frames, MessageKey(ms[j]));
    KnownKey(order, ms, j);
  }
}
