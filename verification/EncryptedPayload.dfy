// An Ethernet frame carried inside an encrypted management message, out and back.

module EncryptedPayload {
  import opened Bytes
  import R = Reassembly

  const ETH_HEADER: nat := 14
  const MAX_PAYLOAD: nat := 1500
  const MIN_FRAME: nat := 60
  const UNENCRYPTED: nat := 24
  const BLOCK: nat := 16
  const USHORT: nat := 0x1_0000

  const WITH_DAK: Byte := 0
  const WITH_NMK: Byte := 1
  const NO_KEY: Byte := 15

  // AES in CBC mode, by what is needed of it: on whole blocks, decryption undoes
  // encryption under the same key and initialization vector.
  datatype Cipher = Cipher(encrypt: (Text, Text, Text) -> Text, decrypt: (Text, Text, Text) -> Text)

  ghost predicate Undoes(c: Cipher) {
    forall key, iv, data :: |data| % BLOCK == 0 ==>
      |c.encrypt(key, iv, data)| == |data| && c.decrypt(key, iv, c.encrypt(key, iv, data)) == data
  }

  datatype Ind = Ind(peks: Byte, avln: Byte, pid: Byte, prn: nat, pmn: Byte, iv: Text, mmeLength: nat, data: Text)

  function Ushort(n: nat): Text {
    [LowByte(n), LowByte(n / 256)]
  }

  function ReadUshort(t: Text, p: nat): nat {
    var low: int, high: int := At(t, p), At(t, p + 1);
    low + 256 * high
  }

  // ---- Frames ----

  // hpav_build_frames: one frame, zeros up to the least size, or nothing when the
  // packet would need fragments
  function BuildFrame(p: R.Packet, minSize: nat): Option<Text> {
    if |p.data| > MAX_PAYLOAD then None else
      var frame := p.dst + p.src + [0x88, 0xE1] + p.data;
      Some(frame + seq(if |frame| < minSize then minSize - |frame| else 0, _ => 0))
  }

  // The frame as the receiver reads it
  function Received(frame: Text): R.Frame
    requires |frame| >= ETH_HEADER
  {
    R.Frame(frame[..6], frame[6..12], frame[ETH_HEADER..])
  }

  // ---- Encryption ----

  const IV: Text := [0xFE, 0xDC, 0xBA, 0x98, 0x76, 0x54, 0x32, 0x10, 0xFE, 0xDC, 0xBA, 0x98, 0x76, 0x54, 0x32, 0x10]

  // To a multiple of the block size
  function PaddingSize(total: nat): (n: nat)
    ensures (total + n) % BLOCK == 0 && n < BLOCK
  {
    (BLOCK - total % BLOCK) % BLOCK
  }

  function TotalSize(filler: nat, frame: nat): (n: nat)
    ensures n == (filler + frame + 9 + 15) / 16 * 16
  {
    var total := filler + frame + 9;
    total + PaddingSize(total)
  }

  // Filler, frame, checksum, three fields of the frame, padding, size of the filler
  ghost predicate PlainText(t: Text, filler: Text, frame: Text) {
    && |filler| < BLOCK && |t| == TotalSize(|filler|, |frame|)
    && Here(t, |filler|, frame)
    && t[|t| - 1] == |filler|
  }

  // hpav_encrypt_with_dak up to the encryption: the buffer is filled part by part. The
  // random bytes and the checksum are given.
  method FillBuffer(frame: Text, filler: Text, padding: Text, crc: Text, pid: Byte, prn: nat, pmn: Byte)
      returns (t: Text)
    requires |filler| < BLOCK && |crc| == 4 && |padding| == PaddingSize(|filler| + |frame| + 9)
    ensures PlainText(t, filler, frame)
    ensures t[..|filler|] == filler
    ensures t[|filler| + |frame|..] == crc + [pid] + Ushort(prn) + [pmn] + padding + [|filler|]
  {
    var buffer := new Byte[TotalSize(|filler|, |frame|)](_ => 0);
    var at := R.Put(buffer, 0, filler);
    at := R.Put(buffer, at, frame);
    assert buffer[..at] == filler + frame;
    ghost var back := crc + [pid] + Ushort(prn) + [pmn] + padding + [|filler|];
    at := FillBack(buffer, at, crc, pid, prn, pmn, padding, |filler|);
    assert buffer[..at] == buffer[..] == filler + frame + back;
    t := buffer[..];
  }

  // What follows the frame
  method FillBack(buffer: array<Byte>, start: nat, crc: Text, pid: Byte, prn: nat, pmn: Byte, padding: Text,
      filler: Byte)
      returns (at: nat)
    requires start + |crc| + 5 + |padding| <= buffer.Length
    modifies buffer
    ensures at == start + |crc| + 5 + |padding|
    ensures buffer[..at] == old(buffer[..start]) + (crc + [pid] + Ushort(prn) + [pmn] + padding + [filler])
  {
    ghost var front := buffer[..start];
    at := R.Put(buffer, start, crc);
    at := R.Put(buffer, at, [pid]);
    assert buffer[..at] == front + (crc + [pid]);
    at := R.Put(buffer, at, Ushort(prn));
    assert buffer[..at] == front + (crc + [pid] + Ushort(prn));
    at := R.Put(buffer, at, [pmn]);
    assert buffer[..at] == front + (crc + [pid] + Ushort(prn) + [pmn]);
    at := R.Put(buffer, at, padding);
    assert buffer[..at] == front + (crc + [pid] + Ushort(prn) + [pmn] + padding);
    at := R.Put(buffer, at, [filler]);
  }

  // What stands behind the frame in a plain text: checksum, the three fields that a
  // CM_SET_KEY.REQ has from its 29th byte on, padding, size of the filler
  ghost predicate Closed(t: Text, filler: Text, frame: Text, crc: Text, padding: Text) {
    && |t| >= |filler| + |frame|
    && t[..|filler| + |frame|] == filler + frame
    && t[|filler| + |frame|..] ==
       crc + [At(frame, 28), At(frame, 29), At(frame, 30), At(frame, 31)] + padding + [|filler| % 256]
  }

  // hpav_encrypt_with_dak
  method EncryptWithDak(c: Cipher, dak: Text, frame: Text, filler: Text, padding: Text, crc: Text) returns (ind: Ind)
    requires |filler| < BLOCK && |crc| == 4 && |padding| == PaddingSize(|filler| + |frame| + 9)
    ensures exists plain :: PlainText(plain, filler, frame) && Closed(plain, filler, frame, crc, padding) &&
              ind.data == c.encrypt(dak, ind.iv, plain)
    ensures ind.peks == 0 && ind.avln == 0 && ind.mmeLength == |frame| % 65536
    ensures ind.pid == At(frame, 28) && ind.pmn == At(frame, 31)
    ensures ind.prn == At(frame, 29) as int + 256 * At(frame, 30)
    ensures ind.iv ==
            [0xFE, 0xDC, 0xBA, 0x98, 0x76, 0x54, 0x32, 0x10, 0xFE, 0xDC, 0xBA, 0x98, 0x76, 0x54, 0x32, 0x10]
  {
    var pid, prn, pmn := At(frame, 28), ReadUshort(frame, 29), At(frame, 31);
    var t := FillBuffer(frame, filler, padding, crc, pid, prn, pmn);
    ind := Ind(WITH_DAK, 0, pid, prn, pmn, IV, |frame| % USHORT, c.encrypt(dak, IV, t));
    assert t[..|filler| + |frame|] == filler + frame;
    assert Ushort(prn) == [At(frame, 29), At(frame, 30)];
    assert [pid] + [At(frame, 29), At(frame, 30)] + [pmn] ==
           [At(frame, 28), At(frame, 29), At(frame, 30), At(frame, 31)];
    var back := crc + ([pid] + Ushort(prn) + [pmn]) + padding + [|filler|];
    assert t[|filler| + |frame|..] == back;
    assert Closed(t, filler, frame, crc, padding);
  }

  // ---- The message around it ----

  const HEADER: Text := [1, 0x06, 0x60, 0, 0]

  // hpav_encode_cm_encrypted_payload_ind
  function Encode(dst: R.Mac, src: R.Mac, ind: Ind): R.Packet {
    R.Packet(dst, src, HEADER +
      ([ind.peks, ind.avln, ind.pid] + Ushort(ind.prn) + [ind.pmn] + ind.iv + Ushort(ind.mmeLength)) + ind.data)
  }

  // hpav_decode_cm_encrypted_payload_ind: past the header, the fields and the rest
  function Decode(data: Text): Ind
    requires |data| >= R.MME_HEADER + UNENCRYPTED
  {
    var t := data[R.MME_HEADER..];
    Ind(t[0], t[1], t[2], ReadUshort(t, 3), t[5], t[6..22], ReadUshort(t, 22), t[UNENCRYPTED..])
  }

  lemma UshortRead(n: nat, t: Text, p: nat)
    requires n < USHORT && Here(t, p, Ushort(n))
    ensures ReadUshort(t, p) == n
  {
    HereAt(t, p, Ushort(n), 0);
    HereAt(t, p, Ushort(n), 1);
  }

  lemma DecodeEncode(dst: R.Mac, src: R.Mac, ind: Ind)
    requires ind.prn < USHORT && ind.mmeLength < USHORT && |ind.iv| == 16
    ensures Decode(Encode(dst, src, ind).data) == ind
  {
    var fields := [ind.peks, ind.avln, ind.pid] + Ushort(ind.prn) + [ind.pmn] + ind.iv + Ushort(ind.mmeLength);
    var data := Encode(dst, src, ind).data;
    var t := data[R.MME_HEADER..];
    assert t == fields + ind.data;
    assert t[3..5] == Ushort(ind.prn) && t[22..24] == Ushort(ind.mmeLength) && t[6..22] == ind.iv;
    UshortRead(ind.prn, t, 3);
    UshortRead(ind.mmeLength, t, 22);
  }

  // ---- Decryption ----

  // The frame inside a decrypted payload: the last byte says where it starts. None is a
  // copy from outside the payload.
  function Extract(plain: Text, length: nat): Option<Text> {
    if plain == [] then None else
      var start: int := plain[|plain| - 1];
      if start + length > |plain| then None else Some(plain[start..start + length])
  }

  // hpav_decrypt: by what the message says of the key. None, as well, for any other key.
  function Decrypt(c: Cipher, dak: Text, nmk: Text, ind: Ind): Option<Text> {
    if ind.peks == WITH_DAK then Extract(c.decrypt(dak, ind.iv, ind.data), ind.mmeLength)
    else if ind.peks == WITH_NMK then Extract(c.decrypt(nmk, ind.iv, ind.data), ind.mmeLength)
    else if ind.peks == NO_KEY then Extract(ind.data, ind.mmeLength)
    else None
  }

  // A frame anywhere in a plain text whose last byte says what is before it
  ghost predicate Holds(plain: Text, before: Text, frame: Text, after: Text) {
    plain == before + frame + after && plain != [] && plain[|plain| - 1] == |before|
  }

  lemma ExtractHeld(plain: Text, before: Text, frame: Text, after: Text)
    requires Holds(plain, before, frame, after)
    ensures Extract(plain, |frame|) == Some(frame)
  {
  }

  // Nothing but such a frame is extracted.
  lemma ExtractOnly(plain: Text, frame: Text)
    requires Extract(plain, |frame|) == Some(frame)
    ensures exists before, after :: Holds(plain, before, frame, after)
  {
    var start: int := plain[|plain| - 1];
    assert plain == plain[..start] + frame + plain[start + |frame|..];
    assert Holds(plain, plain[..start], frame, plain[start + |frame|..]);
  }

  lemma ExtractPlain(t: Text, filler: Text, frame: Text)
    requires PlainText(t, filler, frame)
    ensures t != [] && |t| % 16 == 0
    ensures Holds(t, t[..|filler|], frame, t[|filler| + |frame|..])
  {
  }

  // A message sealed with the key of the device, with the key of the network, or not at
  // all gives its frame, whatever the other key. Any other kind gives none.
  lemma DecryptsBy(c: Cipher, dak: Text, nmk: Text, ind: Ind, plain: Text, before: Text, frame: Text, after: Text)
    requires Undoes(c) && Holds(plain, before, frame, after) && ind.mmeLength == |frame|
    ensures ind.peks == 0 && |plain| % 16 == 0 && ind.data == c.encrypt(dak, ind.iv, plain) ==>
              Decrypt(c, dak, nmk, ind) == Some(frame)
    ensures ind.peks == 1 && |plain| % 16 == 0 && ind.data == c.encrypt(nmk, ind.iv, plain) ==>
              Decrypt(c, dak, nmk, ind) == Some(frame)
    ensures ind.peks == 15 && ind.data == plain ==> Decrypt(c, dak, nmk, ind) == Some(frame)
    ensures ind.peks !in {0, 1, 15} ==> Decrypt(c, dak, nmk, ind) == None
  {
    ExtractHeld(plain, before, frame, after);
    hide Extract, Holds;
  }

  // ---- There and back ----

  // What the receiver makes of a frame on the wire
  method ReceiveInd(wire: Text) returns (ind: Option<Ind>)
    requires |wire| >= ETH_HEADER
    ensures var f := Received(wire);
            ind == if R.NfFn(f) == 0 && |f.mme| >= R.MME_HEADER + UNENCRYPTED then Some(Decode(f.mme)) else None
  {
    var f := Received(wire);
    SingleFrame(f);
    var o := R.DefragFrames([f]);
    if o.chain == [] || |o.chain[0].data| < R.MME_HEADER + UNENCRYPTED { return None; }
    ind := Some(Decode(o.chain[0].data));
  }

  // One frame is a group of its own.
  lemma SingleFrame(f: R.Frame)
    ensures var rs := R.Results([f]);
            !R.Breaks(rs) && R.Wholes(rs) == if R.NfFn(f) == 0 then [R.Packet(f.dst, f.src, f.mme)] else []
  {
    var k := R.KeyOf(f);
    R.SelectNext([], f, k);
    R.KeysNext([], f);
    assert [] + [f] == [f];
    assert R.Select([f], k) == [f] && R.Keys([f]) == [k];
    assert R.Complete([f]) <==> R.NfFn(f) == 0;
    assert [f][1..] == [] && f.mme + [] == f.mme;
    var rs := R.Results([f]);
    assert rs == [R.ResultAt([f], 0)];
    R.WholesNext(rs, 0);
    assert rs[..1] == rs && rs[..0] == [];
  }

  // For every frame, filler and key: the round trip gives the frame back, exactly when
  // the encrypted message fits one Ethernet payload. Zeros to the least frame size are
  // never added, so the last byte is still the size of the filler.
  method Exchange(c: Cipher, dst: R.Mac, src: R.Mac, dak: Text, nmk: Text, frame: Text, filler: Text,
      padding: Text, crc: Text)
      returns (back: Option<Text>)
    requires Undoes(c) && |dst| == 6 && |src| == 6 && ETH_HEADER <= |frame| <= ETH_HEADER + MAX_PAYLOAD
    requires |filler| < BLOCK && |crc| == 4 && |padding| == PaddingSize(|filler| + |frame| + 9)
    ensures back == if 29 + (|filler| + |frame| + 24) / 16 * 16 <= 1500 then Some(frame) else None
  {
    hide Encode, Decode, Received, BuildFrame, Extract, PlainText, Decrypt, Closed, Holds;
    hide R.NfFn, R.MmType, At, PaddingSize;
    var ind := EncryptWithDak(c, dak, frame, filler, padding, crc);
    ghost var plain :| PlainText(plain, filler, frame) && ind.data == c.encrypt(dak, ind.iv, plain);
    var packet := Encode(dst, src, ind);
    var wire := BuildFrame(packet, MIN_FRAME);
    EncodedHeader(dst, src, ind);
    Sizes(plain, filler, frame);
    FitsOne(packet, MIN_FRAME);
    if wire.None? { return None; }
    NotPadded(packet, MIN_FRAME);
    var received := ReceiveInd(wire.value);
    DecodeEncode(dst, src, ind);
    back := Decrypt(c, dak, nmk, received.value);
    ExtractPlain(plain, filler, frame);
    DecryptsBy(c, dak, nmk, ind, plain, plain[..|filler|], frame, plain[|filler| + |frame|..]);
  }

  lemma Sizes(t: Text, filler: Text, frame: Text)
    requires PlainText(t, filler, frame) && |frame| >= ETH_HEADER
    ensures |t| == TotalSize(|filler|, |frame|) >= 32
  {
  }

  lemma FitsOne(p: R.Packet, minSize: nat)
    ensures BuildFrame(p, minSize).Some? <==> |p.data| <= MAX_PAYLOAD
  {
  }

  lemma EncodedHeader(dst: R.Mac, src: R.Mac, ind: Ind)
    ensures var p := Encode(dst, src, ind);
            p.dst == dst && p.src == src && |p.data| == R.MME_HEADER + 8 + |ind.iv| + |ind.data| &&
            |p.data| >= R.MME_HEADER && R.NfFn(R.Frame(dst, src, p.data)) == 0
    ensures var f := R.Frame(dst, src, Encode(dst, src, ind).data);
            At(f.mme, 0) == 1 && R.MmType(f) == 0x6006 && At(f.mme, 4) == 0
  {
    var data := Encode(dst, src, ind).data;
    assert data[0] == HEADER[0] && data[1] == HEADER[1] && data[2] == HEADER[2];
    assert data[3] == HEADER[3] && data[4] == HEADER[4];
  }

  // Where each field stands, byte by byte
  lemma EncodedFields(dst: R.Mac, src: R.Mac, ind: Ind)
    requires |ind.iv| == 16 && ind.prn < 65536 && ind.mmeLength < 65536
    ensures var t := Encode(dst, src, ind).data;
            && |t| == 29 + |ind.data| && t[5] == ind.peks && t[6] == ind.avln && t[7] == ind.pid
            && t[8] as int + 256 * t[9] as int == ind.prn && t[10] == ind.pmn && t[11..27] == ind.iv
            && t[27] as int + 256 * t[28] as int == ind.mmeLength && t[29..] == ind.data
  {
    var t := Encode(dst, src, ind).data;
    var start := HEADER + [ind.peks, ind.avln, ind.pid] + Ushort(ind.prn) + [ind.pmn];
    assert t == start + ind.iv + Ushort(ind.mmeLength) + ind.data;
    assert t[..11] == start;
    assert t[..11][8..10] == Ushort(ind.prn) && t[27..29] == Ushort(ind.mmeLength);
  }

  // A cipher of that kind exists.
  lemma SomeCipher()
    ensures exists c :: Undoes(c)
  {
    var c := Cipher((key, iv, data) => data, (key, iv, data) => data);
    assert Undoes(c);
  }

  // A frame has the type of a management message, and zeros up to the least size.
  lemma FrameIs(p: R.Packet, minSize: nat)
    requires |p.dst| == 6 && |p.src| == 6
    ensures BuildFrame(p, minSize).Some? <==> |p.data| <= 1500
    ensures BuildFrame(p, minSize).Some? ==>
              var w := BuildFrame(p, minSize).value;
              && |w| == (if 14 + |p.data| < minSize then minSize else 14 + |p.data|)
              && w[..6] == p.dst && w[6..12] == p.src && w[12..14] == [0x88, 0xE1] && w[14..14 + |p.data|] == p.data
              && forall i :: 14 + |p.data| <= i < |w| ==> w[i] == 0
  {
  }

  // A packet that is long enough is framed as it is.
  lemma NotPadded(p: R.Packet, minSize: nat)
    requires |p.dst| == 6 && |p.src| == 6 && |p.data| <= MAX_PAYLOAD
    requires |p.data| + ETH_HEADER >= minSize
    ensures BuildFrame(p, minSize).Some?
    ensures var w := BuildFrame(p, minSize).value;
            |w| == ETH_HEADER + |p.data| && Received(w) == R.Frame(p.dst, p.src, p.data)
  {
    var w := p.dst + p.src + [0x88, 0xE1] + p.data;
    assert w + seq(0, _ => 0) == w;
    assert w[..6] == p.dst && w[6..12] == p.src && w[ETH_HEADER..] == p.data;
  }
}
