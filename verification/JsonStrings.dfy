// String literals: what process_string makes of any literal RFC 8259 section 7
// allows, against UTF-8 as RFC 3629 section 3 defines it.

module JsonStrings {
  import opened Bytes
  import opened JsonText
  import opened JsonGrammar

  // ---- UTF-8 ----

  predicate Scalar(cp: nat) {
    cp < 0x110000 && !(0xD800 <= cp <= 0xDFFF)
  }

  predicate Scalars(cps: seq<nat>) {
    forall i :: 0 <= i < |cps| ==> Scalar(cps[i])
  }

  function Encode(cps: seq<nat>): Text
    requires Scalars(cps)
  {
    if cps == [] then [] else
      assert Scalar(cps[0]);
      Utf8(cps[0]) + Encode(cps[1..])
  }

  predicate IsContinuation(b: Byte) {
    b / 64 == 2
  }

  // num_bytes_in_utf8_sequence
  function SequenceLength(b: Byte): nat {
    if b == 0xC0 || b == 0xC1 || b > 0xF4 || IsContinuation(b) then 0
    else if b / 128 == 0 then 1
    else if b / 32 == 6 then 2
    else if b / 16 == 14 then 3
    else if b / 8 == 30 then 4
    else 0
  }

  // verify_utf8_sequence: the length of a valid sequence at p and its code point.
  function VerifySequence(s: Text, p: nat): Option<(nat, nat)> {
    VerifyBytes(At(s, p), At(s, p + 1), At(s, p + 2), At(s, p + 3))
  }

  function VerifyBytes(b0: Byte, b1: Byte, b2: Byte, b3: Byte): Option<(nat, nat)> {
    var len := SequenceLength(b0);
    var cp :=
      if len == 1 then Some(b0 as nat)
      else if len == 2 && IsContinuation(b1) then Some(b0 % 32 * 64 + b1 % 64)
      else if len == 3 && IsContinuation(b1) && IsContinuation(b2) then
        Some((b0 % 16 * 64 + b1 % 64) * 64 + b2 % 64)
      else if len == 4 && IsContinuation(b1) && IsContinuation(b2) && IsContinuation(b3) then
        Some(((b0 % 8 * 64 + b1 % 64) * 64 + b2 % 64) * 64 + b3 % 64)
      else None;
    if cp.None? then None
    else if (cp.value < 0x80 && len > 1) || (cp.value < 0x800 && len > 2) || (cp.value < 0x10000 && len > 3) then None
    else if cp.value > 0x10FFFF then None
    else if 0xD800 <= cp.value <= 0xDFFF then None
    else Some((len, cp.value))
  }

  // is_valid_utf8, keeping the code points it passes over.
  function Decode(s: Text, p: nat): Option<seq<nat>>
    requires p <= |s|
    decreases |s| - p
  {
    if p == |s| then Some([]) else
      var v := VerifySequence(s, p);
      if v.None? || v.value.0 == 0 || p + v.value.0 > |s| then None else
        var rest := Decode(s, p + v.value.0);
        if rest.None? then None else Some([v.value.1] + rest.value)
  }

  lemma Group64(q: nat, r: nat)
    requires r < 64
    ensures (q * 64 + r) / 64 == q && (q * 64 + r) % 64 == r
  {
  }

  lemma Shifts(cp: nat)
    ensures cp / 4096 == cp / 64 / 64 && cp / 262144 == cp / 64 / 64 / 64
    ensures cp == cp / 64 * 64 + cp % 64
  {
  }

  lemma Groups(a: nat, b: nat, c: nat, d: nat, cp: nat)
    requires b < 64 && c < 64 && d < 64 && cp == ((a * 64 + b) * 64 + c) * 64 + d
    ensures cp % 64 == d && cp / 64 == (a * 64 + b) * 64 + c && cp / 64 % 64 == c
    ensures cp / 4096 == a * 64 + b && cp / 4096 % 64 == b && cp / 262144 == a
  {
    Shifts(cp);
    Group64((a * 64 + b) * 64 + c, d);
    Group64(a * 64 + b, c);
    Group64(a, b);
  }

  // A code point taken apart by its shifts: the converse of Groups.
  lemma Parts(cp: nat) returns (a: nat, b: nat, c: nat, d: nat)
    requires cp < 0x110000
    ensures a < 5 && b < 64 && c < 64 && d < 64 && cp == ((a * 64 + b) * 64 + c) * 64 + d
    ensures cp < 0x10000 ==> a == 0 && b < 16
    ensures cp < 0x800 ==> a == 0 && b == 0 && c < 32
    ensures cp < 0x80 ==> cp == c * 64 + d
  {
    a, b, c, d := cp / 64 / 64 / 64, cp / 64 / 64 % 64, cp / 64 % 64, cp % 64;
  }

  lemma Utf8Parts(cp: nat, a: nat, b: nat, c: nat, d: nat)
    requires cp < 0x110000 && a < 5 && b < 64 && c < 64 && d < 64 && cp == ((a * 64 + b) * 64 + c) * 64 + d
    ensures 0x80 <= cp < 0x800 ==> Utf8(cp) == [0xC0 + c, 0x80 + d]
    ensures 0x800 <= cp < 0x10000 ==> Utf8(cp) == [0xE0 + b, 0x80 + c, 0x80 + d]
    ensures 0x10000 <= cp ==> Utf8(cp) == [0xF0 + a, 0x80 + b, 0x80 + c, 0x80 + d]
  {
    Groups(a, b, c, d, cp);
  }

  lemma BytesOfUtf8(cp: nat, b1: Byte, b2: Byte, b3: Byte)
    requires Scalar(cp)
    requires var u := Utf8(cp); (|u| > 1 ==> u[1] == b1) && (|u| > 2 ==> u[2] == b2) && (|u| > 3 ==> u[3] == b3)
    ensures VerifyBytes(Utf8(cp)[0], b1, b2, b3) == Some((|Utf8(cp)|, cp))
  {
    if cp >= 0x80 {
      var a, b, c, d := Parts(cp);
      Utf8Parts(cp, a, b, c, d);
      var b0 := Utf8(cp)[0];
      if cp < 0x800 {
        LeadByte(b0, 2, c);
        TrailByte(b1, d);
      } else if cp < 0x10000 {
        LeadByte(b0, 3, b);
        TrailByte(b1, c);
        TrailByte(b2, d);
      } else {
        LeadByte(b0, 4, a);
        TrailByte(b1, b);
        TrailByte(b2, c);
        TrailByte(b3, d);
      }
      hide SequenceLength, IsContinuation, Utf8;
    }
  }

  lemma LeadByte(b: Byte, len: nat, payload: nat)
    requires len == 2 ==> 2 <= payload < 32 && b == 0xC0 + payload
    requires len == 3 ==> payload < 16 && b == 0xE0 + payload
    requires len == 4 ==> payload < 5 && b == 0xF0 + payload
    requires 2 <= len <= 4
    ensures SequenceLength(b) == len
    ensures len == 2 ==> b % 32 == payload
    ensures len == 3 ==> b % 16 == payload
    ensures len == 4 ==> b % 8 == payload
  {
  }

  lemma TrailByte(b: Byte, payload: nat)
    requires payload < 64 && b == 0x80 + payload
    ensures IsContinuation(b) && b % 64 == payload
  {
  }

  lemma VerifiedBytes(b0: Byte, b1: Byte, b2: Byte, b3: Byte)
    requires VerifyBytes(b0, b1, b2, b3).Some?
    ensures var (len, cp) := VerifyBytes(b0, b1, b2, b3).value;
            Scalar(cp) && 1 <= len <= 4 && Utf8(cp) == [b0, b1, b2, b3][..len]
  {
    var (len, cp) := VerifyBytes(b0, b1, b2, b3).value;
    if len == 2 {
      assert b0 == 0xC0 + b0 % 32 && b1 == 0x80 + b1 % 64;
      hide IsContinuation;
      Utf8Parts(cp, 0, 0, b0 % 32, b1 % 64);
    } else if len == 3 {
      assert b0 == 0xE0 + b0 % 16 && b1 == 0x80 + b1 % 64 && b2 == 0x80 + b2 % 64;
      Utf8Parts(cp, 0, b0 % 16, b1 % 64, b2 % 64);
    } else if len == 4 {
      assert b0 == 0xF0 + b0 % 8 && b1 == 0x80 + b1 % 64 && b2 == 0x80 + b2 % 64 && b3 == 0x80 + b3 % 64;
      Utf8Parts(cp, b0 % 8, b1 % 64, b2 % 64, b3 % 64);
    }
  }

  lemma Utf8Verifies(cp: nat, s: Text, p: nat)
    requires Scalar(cp) && Here(s, p, Utf8(cp))
    ensures VerifySequence(s, p) == Some((|Utf8(cp)|, cp))
  {
    hide Utf8, VerifyBytes;
    HereAt(s, p, Utf8(cp), 0);
    if |Utf8(cp)| > 1 { HereAt(s, p, Utf8(cp), 1); }
    if |Utf8(cp)| > 2 { HereAt(s, p, Utf8(cp), 2); }
    if |Utf8(cp)| > 3 { HereAt(s, p, Utf8(cp), 3); }
    BytesOfUtf8(cp, At(s, p + 1), At(s, p + 2), At(s, p + 3));
  }

  lemma VerifiedIsUtf8(s: Text, p: nat)
    requires VerifySequence(s, p).Some? && p < |s| && 0 !in s
    ensures var (len, cp) := VerifySequence(s, p).value;
            Scalar(cp) && 1 <= len && p + len <= |s| && s[p..p + len] == Utf8(cp)
  {
    VerifiedBytes(At(s, p), At(s, p + 1), At(s, p + 2), At(s, p + 3));
  }

  lemma DecodeStep(s: Text, p: nat, len: nat, cp: nat, rest: seq<nat>)
    requires p < |s| && VerifySequence(s, p) == Some((len, cp)) && 1 <= len && p + len <= |s|
    requires Decode(s, p + len) == Some(rest)
    ensures Decode(s, p) == Some([cp] + rest)
  {
    hide VerifySequence;
  }

  // The validator accepts exactly the encodings of sequences of scalar values.
  lemma {:induction false} DecodeEncode(cps: seq<nat>, s: Text, p: nat)
    requires Scalars(cps) && Here(s, p, Encode(cps)) && p + |Encode(cps)| == |s|
    ensures Decode(s, p) == Some(cps)
    decreases |cps|
  {
    hide Utf8, VerifySequence, Here;
    if cps == [] {
      assert Decode(s, p) == Some([]);
    } else {
      hide Decode;
      var u, rest := Utf8(cps[0]), Encode(cps[1..]);
      assert Encode(cps) == u + rest;
      HereSplit(s, p, u, rest);
      Utf8Verifies(cps[0], s, p);
      DecodeEncode(cps[1..], s, p + |u|);
      hide Encode, Scalars;
      DecodeStep(s, p, |u|, cps[0], cps[1..]);
      assert cps == [cps[0]] + cps[1..];
    }
  }

  lemma {:induction false} EncodeDecode(s: Text, p: nat)
    requires p <= |s| && 0 !in s && Decode(s, p).Some?
    ensures var cps := Decode(s, p).value;
            (forall i :: 0 <= i < |cps| ==> Scalar(cps[i])) && Encode(cps) == s[p..]
    decreases |s| - p
  {
    hide Utf8, VerifySequence, Scalar;
    if p == |s| {
      assert s[p..] == [];
    } else {
      VerifiedIsUtf8(s, p);
      var (len, cp) := VerifySequence(s, p).value;
      EncodeDecode(s, p + len);
      EncodeOneMore(cp, Decode(s, p + len).value);
      assert s[p..] == s[p..p + len] + s[p + len..];
    }
  }

  lemma EncodeOneMore(cp: nat, rest: seq<nat>)
    requires Scalar(cp) && Scalars(rest)
    ensures Scalars([cp] + rest) && Encode([cp] + rest) == Utf8(cp) + Encode(rest)
  {
    hide Utf8;
    assert ([cp] + rest)[1..] == rest;
  }

  ghost predicate IsUtf8(s: Text) {
    exists cps :: Scalars(cps) && Encode(cps) == s
  }

  lemma DecodesUtf8(s: Text)
    requires 0 !in s
    ensures Decode(s, 0).Some? <==> IsUtf8(s)
  {
    hide Decode, Encode;
    if Decode(s, 0).Some? {
      EncodeDecode(s, 0);
      assert s[0..] == s;
    }
    if IsUtf8(s) {
      var cps :| Scalars(cps) && Encode(cps) == s;
      assert s[0..|s|] == s;
      DecodeEncode(cps, s, 0);
    }
  }

  // is_valid_utf8, on a C string, accepts exactly UTF-8.
  method IsValidUtf8(s: Text) returns (ok: bool)
    requires 0 !in s
    ensures ok <==> IsUtf8(s)
  {
    hide Encode, VerifySequence;
    DecodesUtf8(s);
    var p := 0;
    while p < |s|
      invariant p <= |s|
      invariant Decode(s, 0).Some? <==> Decode(s, p).Some?
      decreases |s| - p
    {
      var v := VerifySequence(s, p);
      if v.None? { return false; }
      VerifiedIsUtf8(s, p);
      p := p + v.value.0;
    }
    ok := true;
  }

  // ---- Literals ----

  const LOWER: string := "0123456789abcdef"
  const UPPER: string := "0123456789ABCDEF"

  // The hexadecimal digits of RFC 8259 section 7, in either case
  predicate IsHexDigit(c: Byte, d: nat) {
    d < 16 && (c as char == LOWER[d] || c as char == UPPER[d])
  }

  lemma HexDigits(c: Byte, d: nat)
    ensures IsHexDigit(c, d) <==> IsHex(c) && HexValue(c) == d
  {
    assert LOWER[..10] == UPPER[..10] == "0123456789";
    assert LOWER[10..] == "abcdef" && UPPER[10..] == "ABCDEF";
    if d < 10 { assert LOWER[d] == LOWER[..10][d] && UPPER[d] == UPPER[..10][d]; }
  }

  lemma HexSpelled(h: Text, a: nat, b: nat, c: nat, d: nat)
    requires |h| == 4 && IsHexDigit(h[0], a) && IsHexDigit(h[1], b) && IsHexDigit(h[2], c) && IsHexDigit(h[3], d)
    ensures IsHex4(h) && Hex4(h, 0) == 16 * (16 * (16 * a + b) + c) + d
  {
    HexDigits(h[0], a);
    HexDigits(h[1], b);
    HexDigits(h[2], c);
    HexDigits(h[3], d);
    hide IsHexDigit, HexValue, IsHex;
  }

  // One character of a literal: itself, a short escape, or one or two \u escapes
  // with the hexadecimal digits as written.
  datatype Char =
    | Raw(cp: nat)
    | Short(letter: Byte)
    | Unicode(hex: Text)
    | Pair(high: Text, low: Text)

  predicate IsHex4(h: Text) {
    |h| == 4 && FourHex(h, 0)
  }

  // The character a short escape stands for (RFC 8259 section 7).
  function ShortCodePoint(letter: Byte): Option<nat> {
    if letter == 34 || letter == 92 || letter == 47 then Some(letter)
    else if letter == 98 then Some(8)
    else if letter == 102 then Some(12)
    else if letter == 110 then Some(10)
    else if letter == 114 then Some(13)
    else if letter == 116 then Some(9)
    else None
  }

  predicate Legal(c: Char) {
    match c
    case Raw(cp) => Scalar(cp) && cp >= 0x20 && cp != QUOTE && cp != BACKSLASH
    case Short(letter) => ShortCodePoint(letter).Some?
    case Unicode(h) => IsHex4(h) && Scalar(Hex4(h, 0)) && Hex4(h, 0) != 0
    case Pair(h, l) => IsHex4(h) && IsHex4(l) && 0xD800 <= Hex4(h, 0) < 0xDC00 && 0xDC00 <= Hex4(l, 0) < 0xE000
  }

  function CodePoint(c: Char): (cp: nat)
    requires Legal(c)
    ensures Scalar(cp) && cp != 0
  {
    match c
    case Raw(cp) => cp
    case Short(letter) => ShortCodePoint(letter).value
    case Unicode(h) => Hex4(h, 0)
    case Pair(h, l) => 0x10000 + (Hex4(h, 0) - 0xD800) * 0x400 + (Hex4(l, 0) - 0xDC00)
  }

  function Spelling(c: Char): Text
    requires Legal(c)
  {
    match c
    case Raw(cp) => Utf8(cp)
    case Short(letter) => [BACKSLASH, letter]
    case Unicode(h) => [BACKSLASH, 117] + h
    case Pair(h, l) => [BACKSLASH, 117] + h + [BACKSLASH, 117] + l
  }

  function Literal(cs: seq<Char>): Text
    requires forall i :: 0 <= i < |cs| ==> Legal(cs[i])
  {
    if cs == [] then [] else Spelling(cs[0]) + Literal(cs[1..])
  }

  function CodePoints(cs: seq<Char>): (cps: seq<nat>)
    requires forall i :: 0 <= i < |cs| ==> Legal(cs[i])
    ensures |cps| == |cs| && forall i :: 0 <= i < |cps| ==> Scalar(cps[i]) && cps[i] == CodePoint(cs[i])
  {
    seq(|cs|, i requires 0 <= i < |cs| => CodePoint(cs[i]))
  }

  lemma Hex4Moved(h: Text, t: Text, p: nat)
    requires IsHex4(h) && Here(t, p, h)
    ensures FourHex(t, p) && Hex4(t, p) == Hex4(h, 0) && p + 4 <= |t|
  {
    HereAt(t, p, h, 0);
    HereAt(t, p, h, 1);
    HereAt(t, p, h, 2);
    HereAt(t, p, h, 3);
  }

  function Prepend(u: Text, rest: Option<Text>): Option<Text> {
    if rest.None? then None else Some(u + rest.value)
  }

  lemma UnescapeUnit(t: Text, p: nat, end: nat, u: Text, q: nat)
    requires p < |t| && p < end && t[p] != 0 && Unit(t, p) == Ok(u, q)
    ensures Unescape(t, p, end) == Prepend(u, Unescape(t, q, end))
  {
    hide Unit;
  }

  lemma PrependTwice(u: Text, v: Text, rest: Option<Text>)
    ensures Prepend(u, Prepend(v, rest)) == Prepend(u + v, rest) && Prepend([], rest) == rest
  {
    if rest.Some? { assert u + (v + rest.value) == u + v + rest.value && [] + rest.value == rest.value; }
  }

  lemma RawUnit(s: Text, t: Text, p: nat)
    requires Here(t, p, s) && s != [] && s[0] >= 0x20 && s[0] != BACKSLASH
    ensures p < |t| && t[p] == s[0] && Unit(t, p) == Ok([s[0]], p + 1) && Here(t, p + 1, s[1..])
  {
    HereAt(t, p, s, 0);
    assert s == [s[0]] + s[1..];
    HereSplit(t, p, [s[0]], s[1..]);
  }

  lemma {:induction false} UnescapeRaw(s: Text, t: Text, p: nat, end: nat)
    requires Here(t, p, s) && p + |s| <= end
    requires forall i :: 0 <= i < |s| ==> s[i] >= 0x20 && s[i] != BACKSLASH
    ensures Unescape(t, p, end) == Prepend(s, Unescape(t, p + |s|, end))
    decreases |s|
  {
    hide Unescape, Unit, Here, Prepend;
    var rest := Unescape(t, p + |s|, end);
    if s == [] {
      PrependTwice([], [], rest);
    } else {
      RawUnit(s, t, p);
      UnescapeUnit(t, p, end, [s[0]], p + 1);
      UnescapeRaw(s[1..], t, p + 1, end);
      PrependTwice([s[0]], s[1..], rest);
      assert [s[0]] + s[1..] == s;
    }
  }

  lemma RawUtf8(cp: nat)
    requires Legal(Raw(cp))
    ensures forall i :: 0 <= i < |Utf8(cp)| ==> Utf8(cp)[i] >= 0x20 && Utf8(cp)[i] != BACKSLASH && Utf8(cp)[i] != QUOTE
  {
  }

  lemma NonZeroUtf8(cp: nat)
    requires cp != 0 && cp < 0x110000
    ensures 0 !in Utf8(cp)
  {
  }

  // A \u escape, or a pair of them, is one unit of process_string's loop.
  lemma UnicodeUnit(c: Char, t: Text, p: nat)
    requires Legal(c) && (c.Unicode? || c.Pair?) && Here(t, p, Spelling(c))
    ensures p < |t| && t[p] != 0 && Unit(t, p) == Ok(Utf8(CodePoint(c)), p + |Spelling(c)|)
  {
    hide Utf8, Here, Unit, CodePoint, Hex4, FourHex;
    match c
    case Unicode(h) =>
      HereSplit(t, p, [BACKSLASH, 117], h);
      HereAt(t, p, [BACKSLASH, 117], 0);
      HereAt(t, p, [BACKSLASH, 117], 1);
      Hex4Moved(h, t, p + 2);
      SingleUnit(h, t, p);
    case Pair(h, l) =>
      assert Spelling(c) == [BACKSLASH, 117] + (h + ([BACKSLASH, 117] + l));
      HereSplit(t, p, [BACKSLASH, 117], h + ([BACKSLASH, 117] + l));
      HereSplit(t, p + 2, h, [BACKSLASH, 117] + l);
      HereSplit(t, p + 6, [BACKSLASH, 117], l);
      HereAt(t, p, [BACKSLASH, 117], 0);
      HereAt(t, p, [BACKSLASH, 117], 1);
      HereAt(t, p + 6, [BACKSLASH, 117], 0);
      HereAt(t, p + 6, [BACKSLASH, 117], 1);
      Hex4Moved(l, t, p + 8);
      PairUnit(h, l, t, p);
  }

  lemma SingleUnit(h: Text, t: Text, p: nat)
    requires Legal(Unicode(h)) && p + 6 <= |t| && Here(t, p + 2, h)
    requires t[p] == BACKSLASH && t[p + 1] == 117
    ensures Unit(t, p) == Ok(Utf8(CodePoint(Unicode(h))), p + 6)
  {
    Hex4Moved(h, t, p + 2);
    hide Utf8, Here, Hex4, FourHex;
  }

  lemma PairUnit(h: Text, l: Text, t: Text, p: nat)
    requires Legal(Pair(h, l)) && p + 12 <= |t|
    requires Here(t, p + 2, h) && Here(t, p + 8, l)
    requires t[p] == BACKSLASH && t[p + 1] == 117 && t[p + 6] == BACKSLASH && t[p + 7] == 117
    ensures Unit(t, p) == Ok(Utf8(CodePoint(Pair(h, l))), p + 12)
  {
    Hex4Moved(h, t, p + 2);
    Hex4Moved(l, t, p + 8);
    hide Utf8, Here, Hex4, FourHex;
  }

  lemma UnescapeChar(c: Char, t: Text, p: nat, end: nat)
    requires Legal(c) && Here(t, p, Spelling(c)) && p + |Spelling(c)| <= end
    ensures Unescape(t, p, end) == Prepend(Utf8(CodePoint(c)), Unescape(t, p + |Spelling(c)|, end))
  {
    hide Unescape, Unit, Prepend, Here, Utf8;
    match c
    case Raw(cp) =>
      RawUtf8(cp);
      UnescapeRaw(Utf8(cp), t, p, end);
    case Short(letter) =>
      ShortUnit(letter, t, p);
      UnescapeUnit(t, p, end, Utf8(CodePoint(c)), p + 2);
    case _ =>
      UnicodeUnit(c, t, p);
      UnescapeUnit(t, p, end, Utf8(CodePoint(c)), p + |Spelling(c)|);
  }

  lemma ShortUnit(letter: Byte, t: Text, p: nat)
    requires Legal(Short(letter)) && Here(t, p, Spelling(Short(letter)))
    ensures p < |t| && t[p] != 0 && Unit(t, p) == Ok(Utf8(CodePoint(Short(letter))), p + 2)
  {
    HereAt(t, p, Spelling(Short(letter)), 0);
    HereAt(t, p, Spelling(Short(letter)), 1);
  }

  lemma EncodeNonZero(cps: seq<nat>)
    requires Scalars(cps) && 0 !in cps
    ensures 0 !in Encode(cps)
  {
    if cps != [] { NonZeroUtf8(cps[0]); }
  }

  lemma UnescapeEnd(t: Text, p: nat)
    ensures Unescape(t, p, p) == Some([])
  {
  }

  lemma {:induction false} UnescapeLiteral(cs: seq<Char>, t: Text, p: nat)
    requires (forall i :: 0 <= i < |cs| ==> Legal(cs[i])) && Here(t, p, Literal(cs))
    ensures Unescape(t, p, p + |Literal(cs)|) == Some(Encode(CodePoints(cs)))
    decreases |cs|
  {
    hide Unescape, Spelling, CodePoint, Utf8, Legal, Here;
    UnescapeEnd(t, p);
    if cs == [] {
    } else {
      var s := Spelling(cs[0]);
      HereSplit(t, p, s, Literal(cs[1..]));
      UnescapeChar(cs[0], t, p, p + |Literal(cs)|);
      UnescapeLiteral(cs[1..], t, p + |s|);
      assert CodePoints(cs)[1..] == CodePoints(cs[1..]);
    }
  }

  // skip_quotes passes over one character of a literal without seeing its end.
  lemma LiteralEndChar(c: Char, t: Text, p: nat)
    requires Legal(c) && Here(t, p, Spelling(c))
    ensures p + |Spelling(c)| <= |t| && LiteralEnd(t, p) == LiteralEnd(t, p + |Spelling(c)|)
  {
    match c
    case Raw(cp) =>
      RawUtf8(cp);
      LiteralEndRaw(Utf8(cp), t, p);
    case Short(letter) =>
      HereAt(t, p, Spelling(c), 0);
      HereAt(t, p, Spelling(c), 1);
    case Unicode(h) =>
      HereSplit(t, p, [BACKSLASH, 117], h);
      LiteralEndHex(h, t, p);
    case Pair(h, l) =>
      assert Spelling(c) == [BACKSLASH, 117] + (h + ([BACKSLASH, 117] + l));
      HereSplit(t, p, [BACKSLASH, 117], h + ([BACKSLASH, 117] + l));
      HereSplit(t, p + 2, h, [BACKSLASH, 117] + l);
      HereSplit(t, p + 6, [BACKSLASH, 117], l);
      LiteralEndHex(h, t, p);
      LiteralEndHex(l, t, p + 6);
  }

  lemma LiteralEndHex(h: Text, t: Text, p: nat)
    requires IsHex4(h) && Here(t, p, [BACKSLASH, 117]) && Here(t, p + 2, h)
    ensures p + 6 <= |t| && LiteralEnd(t, p) == LiteralEnd(t, p + 6)
  {
    HereAt(t, p, [BACKSLASH, 117], 0);
    HereAt(t, p, [BACKSLASH, 117], 1);
    assert LiteralEnd(t, p) == LiteralEnd(t, p + 2);
    forall i | 0 <= i < |h| ensures h[i] >= 0x20 && h[i] != BACKSLASH && h[i] != QUOTE {
      assert FourHex(h, 0) && At(h, i) == h[i];
      assert i == 0 || i == 1 || i == 2 || i == 3;
    }
    LiteralEndRaw(h, t, p + 2);
  }

  lemma {:induction false} LiteralEndRaw(s: Text, t: Text, p: nat)
    requires Here(t, p, s)
    requires forall i :: 0 <= i < |s| ==> s[i] >= 0x20 && s[i] != BACKSLASH && s[i] != QUOTE
    ensures LiteralEnd(t, p) == LiteralEnd(t, p + |s|)
    decreases |s|
  {
    if s == [] {
    } else {
      HereAt(t, p, s, 0);
      assert s == [s[0]] + s[1..];
      HereSplit(t, p, [s[0]], s[1..]);
      LiteralEndRaw(s[1..], t, p + 1);
    }
  }

  lemma LiteralEndQuote(t: Text, p: nat)
    requires Here(t, p, [QUOTE])
    ensures LiteralEnd(t, p) == p + 1
  {
    HereAt(t, p, [QUOTE], 0);
  }

  lemma {:induction false} LiteralEndLiteral(cs: seq<Char>, t: Text, p: nat)
    requires (forall i :: 0 <= i < |cs| ==> Legal(cs[i])) && Here(t, p, Literal(cs) + [QUOTE])
    ensures LiteralEnd(t, p) == p + |Literal(cs)| + 1
    decreases |cs|
  {
    hide LiteralEnd, Spelling, Legal, Here;
    if cs == [] {
      assert [] + [QUOTE] == [QUOTE];
      LiteralEndQuote(t, p);
    } else {
      var s := Spelling(cs[0]);
      assert Literal(cs) + [QUOTE] == s + (Literal(cs[1..]) + [QUOTE]);
      HereSplit(t, p, s, Literal(cs[1..]) + [QUOTE]);
      LiteralEndChar(cs[0], t, p);
      LiteralEndLiteral(cs[1..], t, p + |s|);
    }
  }

  // Every literal RFC 8259 allows, other than one with \u0000, is read as the UTF-8
  // of its characters, and the library's own validator accepts what was read.
  lemma LiteralMeansItsCodePoints(cs: seq<Char>, t: Text, p: nat)
    requires (forall i :: 0 <= i < |cs| ==> Legal(cs[i])) && |t| < SIZE_MAX_PLUS_1
    requires Here(t, p, [QUOTE] + (Literal(cs) + [QUOTE]))
    ensures p < |t| && QuotedString(t, p) == (Some(Encode(CodePoints(cs))), p + |Literal(cs)| + 2)
    ensures Decode(Encode(CodePoints(cs)), 0) == Some(CodePoints(cs))
  {
    hide Here, LiteralEnd, Unescape, Literal, Legal, CodePoints, Encode, Decode;
    var cps := CodePoints(cs);
    HereSplit(t, p, [QUOTE], Literal(cs) + [QUOTE]);
    HereSplit(t, p + 1, Literal(cs), [QUOTE]);
    LiteralEndLiteral(cs, t, p + 1);
    UnescapeLiteral(cs, t, p + 1);
    EncodeNonZero(cps);
    HereAll(Encode(cps));
    QuotedStringIs(t, p, |Literal(cs)|, Encode(cps));
    DecodeEncode(cps, Encode(cps), 0);
  }

  lemma HereAll(s: Text)
    ensures Here(s, 0, s)
  {
    assert s[0..0 + |s|] == s;
  }

  lemma QuotedStringIs(t: Text, p: nat, len: nat, s: Text)
    requires p + len + 2 <= |t| < SIZE_MAX_PLUS_1 && LiteralEnd(t, p + 1) == p + len + 2
    requires Unescape(t, p + 1, p + 1 + len) == Some(s) && 0 !in s
    ensures QuotedString(t, p) == (Some(s), p + len + 2)
  {
    hide LiteralEnd, Unescape;
    assert len % SIZE_MAX_PLUS_1 == len;
    UpToNulIs(s);
  }

  lemma UpToNulIs(s: Text)
    requires 0 !in s
    ensures UpToNul(s) == s
  {
  }

  // ---- The output buffer ----

  lemma {:induction false} PastHex(t: Text, p: nat, n: nat)
    requires p <= |t| && forall i :: p <= i < p + n ==> IsHex(At(t, i))
    ensures p + n <= |t| && LiteralEnd(t, p) == LiteralEnd(t, p + n)
    decreases n
  {
    if n == 0 {
    } else {
      assert IsHex(At(t, p));
      PastHex(t, p + 1, n - 1);
    }
  }

  // A unit that process_string reads inside a literal, closed or not, stays inside it.
  lemma UnitInside(t: Text, p: nat)
    requires p < |t| && t[p] != QUOTE && t[p] != 0 && Unit(t, p).Ok?
    ensures var u, q := Unit(t, p).value, Unit(t, p).next;
            q <= LiteralEnd(t, q) == LiteralEnd(t, p) && |u| <= q - p - (if t[p] == BACKSLASH then 1 else 0)
    ensures t[p] != BACKSLASH ==> Unit(t, p).next == p + 1
  {
    hide UnicodeEscape;
    if t[p] == BACKSLASH && At(t, p + 1) == 117 {
      assert LiteralEnd(t, p) == LiteralEnd(t, p + 2);
      UnicodeInside(t, p);
    }
  }

  lemma UnicodeInside(t: Text, p: nat)
    requires p < |t| && UnicodeEscape(t, p + 1).Ok?
    ensures p + 2 <= UnicodeEscape(t, p + 1).next <= |t|
    ensures LiteralEnd(t, p + 2) == LiteralEnd(t, UnicodeEscape(t, p + 1).next)
  {
    hide Utf8, Hex4, LiteralEnd;
    PastHex(t, p + 2, 4);
    if UnicodeEscape(t, p + 1).next != p + 6 {
      EscapeSkipped(t, p + 6);
      PastHex(t, p + 8, 4);
    }
  }

  lemma EscapeSkipped(t: Text, p: nat)
    requires At(t, p) == BACKSLASH && At(t, p + 1) != 0
    ensures p + 2 <= |t| && LiteralEnd(t, p) == LiteralEnd(t, p + 2)
  {
  }

  // What process_string has written when its loop ends, whether or not it fails
  function Output(t: Text, p: nat, end: nat): Text
    decreases |t| - p
  {
    if At(t, p) == 0 || p >= end then [] else
      match Unit(t, p)
      case Fail => []
      case Ok(u, q) => u + Output(t, q, end)
  }

  lemma {:induction false} OutputIs(t: Text, p: nat, end: nat)
    ensures Unescape(t, p, end).Some? ==> Output(t, p, end) == Unescape(t, p, end).value
    decreases |t| - p
  {
    hide Unit;
    if At(t, p) != 0 && p < end && Unit(t, p).Ok? { OutputIs(t, Unit(t, p).next, end); }
  }

  lemma {:induction false} OutputBound(t: Text, p: nat, end: nat)
    requires p <= |t| && p <= end && end + 1 == LiteralEnd(t, p)
    ensures |Output(t, p, end)| <= end - p
    decreases |t| - p
  {
    hide Unit;
    if At(t, p) != 0 && p < end && Unit(t, p).Ok? {
      UnitInside(t, p);
      var q := Unit(t, p).next;
      if q <= end { OutputBound(t, q, end); }
    }
  }

  // The size get_quoted_string has process_string allocate, for the literal that starts
  // at p: both its computations are in size_t.
  function OutputSize(t: Text, p: nat): nat
    requires p < |t|
  {
    ((LiteralEnd(t, p + 1) - p - 2) % SIZE_MAX_PLUS_1 + 1) % SIZE_MAX_PLUS_1
  }

  // The output and its terminator fit for every literal, closed or not and legal or not,
  // but one: a quote with nothing after it, whose length wraps and whose buffer is empty.
  lemma OutputFits(t: Text, p: nat)
    requires p < |t| < SIZE_MAX_PLUS_1
    ensures var len := (LiteralEnd(t, p + 1) - p - 2) % SIZE_MAX_PLUS_1;
            var out := Output(t, p + 1, p + 1 + len);
            && (|out| + 1 <= OutputSize(t, p) <==> At(t, p + 1) != 0)
            && (At(t, p + 1) == 0 ==> OutputSize(t, p) == 0 && out == [])
            && (Unescape(t, p + 1, p + 1 + len).Some? ==> out == Unescape(t, p + 1, p + 1 + len).value)
  {
    hide LiteralEnd, Output, Unescape;
    var q := LiteralEnd(t, p + 1);
    var len := (q - p - 2) % SIZE_MAX_PLUS_1;
    LengthWraps(q - p - 2);
    OutputIs(t, p + 1, p + 1 + len);
    EndsLater(t, p + 1, p + 1 + len);
    if At(t, p + 1) != 0 { OutputBound(t, p + 1, q - 1); }
  }

  lemma LengthWraps(n: int)
    requires -1 <= n < SIZE_MAX_PLUS_1 - 1
    ensures n % SIZE_MAX_PLUS_1 == if n < 0 then SIZE_MAX_PLUS_1 - 1 else n
    ensures (n % SIZE_MAX_PLUS_1 + 1) % SIZE_MAX_PLUS_1 == n + 1
  {
  }

  lemma EndsLater(t: Text, p: nat, end: nat)
    requires p <= |t|
    ensures if At(t, p) == 0 then LiteralEnd(t, p) == p && Output(t, p, end) == [] else LiteralEnd(t, p) > p
  {
  }
}
