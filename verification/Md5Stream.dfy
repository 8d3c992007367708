// MD5 over a message that arrives in pieces: what the context remembers between
// calls, and the digest it ends with.

module Md5Stream {
  import opened Md5Block
  import opened Md5Words
  import opened Octets

  import S = Sequences

  type Word = n: int | 0 <= n < 0x1_0000_0000

  const WORD: nat := 0x1_0000_0000
  const LONG: nat := 0x1_0000_0000_0000_0000

  // ---- RFC 1321 sections 3.1 to 3.5 ----

  function Initial(): Words {
    Words(0x67452301, 0xefcdab89, 0x98badcfe, 0x10325476)
  }

  function Zeros(n: nat): (z: seq<Octet>)
    ensures |z| == n
  {
    seq(n, _ => 0)
  }

  function LowOctet(n: nat): Octet {
    (n % 256) as Octet
  }

  // The k low-order bytes of n, the lowest first
  function LittleEndian(n: nat, k: nat): (s: seq<Octet>)
    ensures |s| == k
  {
    if k == 0 then [] else [LowOctet(n)] + LittleEndian(n / 256, k - 1)
  }

  // As few zeros as bring the length to 56 modulo 64
  function PaddingZeros(length: nat): (z: nat)
    ensures (length + 1 + z) % BLOCK == 56 && z < BLOCK
  {
    (55 - length) % BLOCK
  }

  // A one bit, zeros, and the length in bits modulo 2^64
  function Padding(length: nat): (s: seq<Octet>)
    ensures Whole(length + |s|)
  {
    [0x80] + Zeros(PaddingZeros(length)) + LittleEndian(8 * length % LONG, 8)
  }

  function WordBytes(w: bv32): seq<Octet> {
    [(w & 0xff) as Octet, ((w >> 8) & 0xff) as Octet, ((w >> 16) & 0xff) as Octet, ((w >> 24) & 0xff) as Octet]
  }

  function DigestOf(w: Words): seq<Octet> {
    WordBytes(w.a) + WordBytes(w.b) + WordBytes(w.c) + WordBytes(w.d)
  }

  function Digest(message: seq<Octet>): seq<Octet> {
    DigestOf(RfcBlocks(Initial(), message + Padding(|message|)))
  }

  lemma WordBytesDecode(w: bv32)
    ensures WordAt(WordBytes(w), 0) == w
  {
  }

  // A digest determines the four words it was made of.
  lemma DigestIsInjective(v: Words, w: Words)
    requires DigestOf(v) == DigestOf(w)
    ensures v == w
  {
    hide WordBytes, WordAt;
    DigestParts(v);
    DigestParts(w);
    WordBytesDecode(v.a);
    WordBytesDecode(v.b);
    WordBytesDecode(v.c);
    WordBytesDecode(v.d);
    WordBytesDecode(w.a);
    WordBytesDecode(w.b);
    WordBytesDecode(w.c);
    WordBytesDecode(w.d);
  }

  lemma DigestParts(w: Words)
    ensures var d := DigestOf(w);
            && |d| == 16 && d[..4] == WordBytes(w.a) && d[4..8] == WordBytes(w.b)
            && d[8..12] == WordBytes(w.c) && d[12..] == WordBytes(w.d)
  {
  }

  // The padding is the shortest: fewer zeros do not reach 56 modulo 64.
  lemma PaddingIsShortest(length: nat, z: nat)
    requires (length + 1 + z) % BLOCK == BLOCK - 8
    ensures PaddingZeros(length) <= z
  {
  }

  // No whole number of blocks below the padded length has room for a one bit and the
  // length.
  lemma PaddedIsShortest(m: seq<Octet>, n: nat)
    requires Whole(n) && n >= |m| + 9
    ensures |m + Padding(|m|)| <= n
  {
    var z := n - |m| - 9;
    PaddingIsShortest(|m|, z);
  }

  // The number whose bytes, the lowest first, these are
  function NumberOf(s: seq<Octet>): nat {
    if s == [] then 0 else s[0] as int + 256 * NumberOf(s[1..])
  }

  function PowerOf256(k: nat): nat {
    if k == 0 then 1 else 256 * PowerOf256(k - 1)
  }

  lemma {:induction false} LittleEndianDecodes(n: nat, k: nat)
    requires n < PowerOf256(k)
    ensures NumberOf(LittleEndian(n, k)) == n
  {
    if k == 0 {
    } else {
      LittleEndianDecodes(n / 256, k - 1);
      LowOctetIs(n);
      assert LittleEndian(n, k)[1..] == LittleEndian(n / 256, k - 1);
    }
  }

  lemma LowOctetIs(n: nat)
    ensures LowOctet(n) as int == n % 256
  {
    OctetIs(n % 256);
  }

  // Messages of less than 2 to the 61 bytes are told apart by their padded forms.
  lemma PaddingIsInjective(m: seq<Octet>, n: seq<Octet>)
    requires |m| < LONG / 8 && |n| < LONG / 8 && m + Padding(|m|) == n + Padding(|n|)
    ensures m == n
  {
    hide NumberOf, LittleEndian, PaddingZeros;
    PaddedLength(m);
    PaddedLength(n);
    var p := m + Padding(|m|);
    assert |m| == |n|;
    assert p[..|m|] == m && p[..|n|] == n;
  }

  // The last eight bytes give the length back.
  lemma PaddedLength(m: seq<Octet>)
    requires |m| < LONG / 8
    ensures var p := m + Padding(|m|); |p| >= 8 && NumberOf(p[|p| - 8..]) == 8 * |m|
  {
    hide NumberOf, LittleEndian;
    var p, length := m + Padding(|m|), LittleEndian(8 * |m| % LONG, 8);
    assert p == (m + ([0x80] + Zeros(PaddingZeros(|m|)))) + length;
    assert p[|p| - 8..] == length;
    EightBytes();
    LittleEndianDecodes(8 * |m|, 8);
  }

  lemma EightBytes()
    ensures PowerOf256(8) == LONG
  {
    assert PowerOf256(8) == 256 * PowerOf256(7) == 65536 * PowerOf256(6) == 16777216 * PowerOf256(5);
    assert PowerOf256(5) == 256 * PowerOf256(4) == 65536 * PowerOf256(3) == 16777216 * PowerOf256(2);
    assert PowerOf256(2) == 256 * PowerOf256(1) == 65536 * PowerOf256(0);
  }

  // ---- What a context holds of a message ----

  // The whole blocks are in the words, and the rest is the tail.
  ghost predicate Absorbed(m: seq<Octet>, w: Words, tail: seq<Octet>) {
    && |tail| < BLOCK && |tail| <= |m| && Whole(|m| - |tail|)
    && m[|m| - |tail|..] == tail
    && w == RfcBlocks(Initial(), m[..|m| - |tail|])
  }

  lemma AbsorbBlocks(m: seq<Octet>, w: Words, tail: seq<Octet>, x: seq<Octet>)
    requires Absorbed(m, w, tail) && Whole(|tail + x|)
    ensures Absorbed(m + x, RfcBlocks(w, tail + x), [])
  {
    hide RfcBlocks, Initial, Whole;
    var whole := m[..|m| - |tail|];
    assert m + x == whole + (tail + x);
    WholeSum(|whole|, |tail + x|);
    BlocksAppend(Initial(), whole, tail + x);
    AbsorbedWhole(m + x, RfcBlocks(w, tail + x));
  }

  lemma AbsorbedWhole(m: seq<Octet>, w: Words)
    requires Whole(|m|) && w == RfcBlocks(Initial(), m)
    ensures Absorbed(m, w, [])
  {
    hide RfcBlocks, Initial, Whole;
    assert m[..|m|] == m;
  }

  lemma AbsorbTail(m: seq<Octet>, w: Words, tail: seq<Octet>, x: seq<Octet>)
    requires Absorbed(m, w, tail) && |tail| + |x| < BLOCK
    ensures Absorbed(m + x, w, tail + x)
  {
    var k := |m| - |tail|;
    assert (m + x)[..k] == m[..k];
    assert (m + x)[k..] == tail + x;
  }

  // The bit counter, in two words
  ghost predicate Counted(length: nat, bitsLow: Word, bitsHigh: Word) {
    bitsHigh * WORD + bitsLow == 8 * length % LONG
  }

  // Adding to it with a carry
  function CountLow(bitsLow: Word, len: nat): Word {
    (bitsLow + len % WORD * 8 % WORD) % WORD
  }

  function CountHigh(bitsLow: Word, bitsHigh: Word, len: nat): Word {
    var carried := if CountLow(bitsLow, len) < bitsLow then (bitsHigh + 1) % WORD else bitsHigh;
    (carried + len / 0x2000_0000) % WORD
  }

  lemma CountMore(length: nat, bitsLow: Word, bitsHigh: Word, len: nat)
    requires Counted(length, bitsLow, bitsHigh)
    ensures Counted(length + len, CountLow(bitsLow, len), CountHigh(bitsLow, bitsHigh, len))
  {
    var q, r := len / 0x2000_0000, len % 0x2000_0000;
    EightTimes(len);
    var carry := if bitsLow + 8 * r >= WORD then 1 else 0;
    var high := bitsHigh + carry + q;
    CountSums(bitsLow, bitsHigh, len, 8 * r, q);
    var t := 8 * length / LONG;
    assert high * WORD + CountLow(bitsLow, len) == 8 * (length + len) - t * LONG;
    hide CountLow, CountHigh;
    Wraps(high, CountLow(bitsLow, len), 8 * (length + len), t);
  }

  // The sums in terms of the low 29 bits of the length and the rest
  lemma CountSums(bitsLow: Word, bitsHigh: Word, len: nat, low: nat, q: nat)
    requires low == len % WORD * 8 % WORD && q == len / 0x2000_0000
    ensures var carry := if bitsLow + low >= WORD then 1 else 0;
            && CountLow(bitsLow, len) == bitsLow + low - carry * WORD
            && CountHigh(bitsLow, bitsHigh, len) == (bitsHigh + carry + q) % WORD
  {
  }

  lemma EightTimes(len: nat)
    ensures len % WORD * 8 % WORD == 8 * (len % 0x2000_0000)
    ensures 8 * len == len / 0x2000_0000 * WORD + 8 * (len % 0x2000_0000)
  {
    var m := len % WORD;
    assert len == len / WORD * WORD + m;
    assert m == m / 0x2000_0000 * 0x2000_0000 + m % 0x2000_0000;
    assert m % 0x2000_0000 == len % 0x2000_0000;
  }

  lemma Wraps(high: nat, low: Word, n: nat, t: nat)
    requires high * WORD + low == n - t * LONG
    ensures high % WORD * WORD + low == n % LONG
  {
    var w := high / WORD;
    assert high % WORD * WORD + low == n - (t + w) * LONG;
    assert 0 <= high % WORD * WORD + low < LONG;
  }

  function Power256(k: nat): nat {
    if k == 0 then 1 else 256 * Power256(k - 1)
  }

  lemma SameLowOctet(n: nat, low: nat, up: nat)
    requires n == 256 * up + low
    ensures LowOctet(n) == LowOctet(low) && n / 256 == up + low / 256
  {
    assert n % 256 == low % 256;
  }

  lemma {:induction false} LittleEndianSplit(low: nat, high: nat, k: nat, j: nat)
    requires low < Power256(k)
    ensures LittleEndian(high * Power256(k) + low, k + j) == LittleEndian(low, k) + LittleEndian(high, j)
  {
    hide LowOctet;
    if k == 0 {
    } else {
      var n, up := high * Power256(k) + low, high * Power256(k - 1);
      assert high * Power256(k) == 256 * up by {
        var p := Power256(k - 1);
        assert high * (256 * p) == 256 * (high * p);
      }
      SameLowOctet(n, low, up);
      LittleEndianSplit(low / 256, high, k - 1, j);
    }
  }

  lemma BytesOfCount(bitsLow: Word, bitsHigh: Word)
    ensures LittleEndian(bitsHigh * WORD + bitsLow, 8) == LittleEndian(bitsLow, 4) + LittleEndian(bitsHigh, 4)
  {
    assert Power256(4) == WORD;
    LittleEndianSplit(bitsLow, bitsHigh, 4, 4);
  }

  // ---- The code ----

  class Context {
    var A: bv32
    var B: bv32
    var C: bv32
    var D: bv32
    var bitsLow: Word
    var bitsHigh: Word
    const data: array<Octet>
    var num: nat

    function State(): Words
      reads this
    {
      Words(A, B, C, D)
    }

    // All of m is in the words and the buffer.
    ghost predicate Buffers(m: seq<Octet>)
      reads this, data
    {
      data.Length == BLOCK && num < BLOCK && Absorbed(m, State(), data[..num])
    }

    // The context stands for the message m.
    ghost predicate Holds(m: seq<Octet>)
      reads this, data
    {
      Buffers(m) && Counted(|m|, bitsLow, bitsHigh)
    }

    // MD5_Init
    constructor ()
      ensures fresh(data) && Holds([])
    {
      A, B, C, D := 0x67452301, 0xefcdab89, 0x98badcfe, 0x10325476;
      bitsLow, bitsHigh, num := 0, 0, 0;
      data := new Octet[BLOCK](_ => 0);
    }

    // md5_block_data_order
    method BlockDataOrder(p: seq<Octet>, count: nat)
      requires |p| == BLOCK * count
      modifies this`A, this`B, this`C, this`D
      ensures State() == RfcBlocks(old(State()), p)
    {
      hide RfcBlock, RfcBlocks, LowWords, Wide;
      var a, b, c, d := Wide(A), Wide(B), Wide(C), Wide(D);
      Widened(A, B, C, D);
      NoBlocks(State());
      for i := 0 to count
        invariant LowWords(a, b, c, d) == State() == RfcBlocks(old(State()), p[..BLOCK * i])
      {
        OneBlock(old(State()), p, i);
        a, b, c, d := TakeBlock(p[BLOCK * i..BLOCK * i + BLOCK], a, b, c, d);
      }
      assert p[..BLOCK * count] == p;
    }

    // One round of its loop
    method TakeBlock(block: seq<Octet>, a0: bv64, b0: bv64, c0: bv64, d0: bv64)
        returns (a: bv64, b: bv64, c: bv64, d: bv64)
      requires |block| == BLOCK && LowWords(a0, b0, c0, d0) == State()
      modifies this`A, this`B, this`C, this`D
      ensures LowWords(a, b, c, d) == State() == RfcBlock(old(State()), block)
    {
      hide RfcBlock, RfcBlocks, RfcSteps, LowWords, Wide, Accumulate;
      a, b, c, d := Compress(block, a0, b0, c0, d0);
      BlockIs(State(), block, a, b, c, d);
      A, B, C, D := Accumulate(A, a), Accumulate(B, b), Accumulate(C, c), Accumulate(D, d);
      a, b, c, d := Wide(A), Wide(B), Wide(C), Wide(D);
      Widened(A, B, C, D);
    }

    // memcpy into the buffer
    method Copy(at: nat, src: seq<Octet>)
      requires data.Length == BLOCK && at + |src| <= BLOCK
      modifies data
      ensures data[..at + |src|] == old(data[..at]) + src
    {
      for i := 0 to |src|
        invariant data[..at + i] == old(data[..at]) + src[..i]
      {
        data[at + i] := src[i];
      }
    }

    // memset of the buffer from an index on
    method Clear(from: nat, to: nat)
      requires data.Length == BLOCK && from <= to <= BLOCK
      modifies data
      ensures data[..to] == old(data[..from]) + Zeros(to - from)
      ensures data[to..] == old(data[to..])
    {
      for i := from to to
        invariant data[..i] == old(data[..from]) + Zeros(i - from)
        invariant data[to..] == old(data[to..])
      {
        data[i] := 0;
      }
    }

    // MD5_Update: the context stands for the longer message.
    method Update(input: seq<Octet>, ghost m: seq<Octet>)
      requires Holds(m) && |input| < LONG
      modifies this, data
      ensures Holds(m + input)
    {
      hide RfcBlocks, Absorbed, CountLow, CountHigh, Counted;
      if |input| == 0 {
        assert m + input == m;
        return;
      }
      CountMore(|m|, bitsLow, bitsHigh, |input|);
      bitsHigh, bitsLow := CountHigh(bitsLow, bitsHigh, |input|), CountLow(bitsLow, |input|);
      var pos := 0;
      if num != 0 {
        if |input| >= BLOCK || |input| + num >= BLOCK {
          pos := BLOCK - num;
          TopUp(input[..pos], m);
        } else {
          AbsorbTail(m, State(), data[..num], input);
          Copy(num, input);
          num := num + |input|;
          return;
        }
      }
      assert m + input[..0] == m;
      Rest(input[pos..], m + input[..pos]);
      assert m + input == m + input[..pos] + input[pos..];
    }

    // What completes a block that was started
    method TopUp(x: seq<Octet>, ghost m: seq<Octet>)
      requires Buffers(m) && num + |x| == BLOCK
      modifies this`A, this`B, this`C, this`D, this`num, data
      ensures Buffers(m + x) && num == 0
    {
      hide RfcBlocks, Absorbed;
      AbsorbBlocks(m, State(), data[..num], x);
      Copy(num, x);
      assert data[..] == data[..num + |x|];
      BlockDataOrder(data[..], 1);
      num := 0;
      assert data[..0] == [];
      Clear(0, BLOCK);
      assert data[..0] == [];
    }

    // Whole blocks straight from the input, and the rest into the buffer
    method Rest(input: seq<Octet>, ghost m: seq<Octet>)
      requires Buffers(m) && num == 0
      modifies this`A, this`B, this`C, this`D, this`num, data
      ensures Buffers(m + input)
    {
      hide RfcBlocks, Absorbed, Whole;
      var n := |input| / BLOCK;
      var whole, rest := input[..BLOCK * n], input[BLOCK * n..];
      assert data[..0] == [] && [] + whole == whole && [] + rest == rest && m + whole + rest == m + input;
      WholeTimes(n);
      AbsorbBlocks(m, State(), [], whole);
      NoBlocks(State());
      if n > 0 { BlockDataOrder(whole, n); }
      AbsorbTail(m + whole, State(), [], rest);
      if |rest| != 0 {
        num := |rest|;
        Copy(0, rest);
      }
    }

    // MD5_Final: the digest of the message.
    method Final(ghost m: seq<Octet>) returns (md: seq<Octet>)
      requires Holds(m)
      modifies this, data
      ensures md == Digest(m) && num == 0
    {
      hide RfcBlocks, Absorbed, DigestOf, Padding;
      FinalPieces(m, State(), data[..num]);
      Pad(|m|);
      num := 0;
      Clear(0, BLOCK);
      md := DigestOf(State());
    }

    // The padding fills the buffer once, or twice when the length no longer fits.
    method Pad(ghost length: nat)
      requires data.Length == BLOCK && num < BLOCK && num <= length && Whole(length - num)
      requires Counted(length, bitsLow, bitsHigh)
      modifies this`A, this`B, this`C, this`D, data
      ensures Whole(num + |Padding(length)|) && State() == RfcBlocks(old(State()), old(data[..num]) + Padding(length))
    {
      hide RfcBlocks, Whole, Padding, Counted, LittleEndian;
      PaddingParts(length, num, bitsLow, bitsHigh);
      ghost var w, tail, count := State(), data[..num], LittleEndian(bitsLow, 4) + LittleEndian(bitsHigh, 4);
      data[num] := 0x80;
      var n := num + 1;
      assert data[..n] == tail + [0x80];
      if n > BLOCK - 8 {
        Clear(n, BLOCK);
        n := 0;
        assert data[..] == data[..BLOCK];
        ghost var first := data[..];
        BlockDataOrder(data[..], 1);
        ghost var last := Zeros(BLOCK - 8) + count;
        TwoBlocks(num);
        assert tail + Padding(length) == first + last;
        OneWhole(first, last);
        BlocksAppend(w, first, last);
        assert data[..0] + Zeros(BLOCK - 8) + count == last;
        LastBlock(n);
      } else {
        LastBlock(n);
        assert tail + Padding(length) == tail + [0x80] + Zeros(BLOCK - 8 - n) + count;
      }
    }

    // From the n-th byte on, zeros and the length
    method LastBlock(n: nat)
      requires data.Length == BLOCK && n <= BLOCK - 8
      modifies this`A, this`B, this`C, this`D, data
      ensures State() == RfcBlocks(old(State()), old(data[..n]) + Zeros(BLOCK - 8 - n) +
              (LittleEndian(bitsLow, 4) + LittleEndian(bitsHigh, 4)))
    {
      hide RfcBlocks, LittleEndian;
      Clear(n, BLOCK - 8);
      Copy(BLOCK - 8, LittleEndian(bitsLow, 4));
      Copy(BLOCK - 4, LittleEndian(bitsHigh, 4));
      assert data[..] == data[..BLOCK];
      assert data[..] == old(data[..n]) + Zeros(BLOCK - 8 - n) + (LittleEndian(bitsLow, 4) + LittleEndian(bitsHigh, 4));
      BlockDataOrder(data[..], 1);
    }
  }

  lemma OneWhole(x: seq<Octet>, y: seq<Octet>)
    requires |x| == |y| == BLOCK
    ensures Whole(|x|) && Whole(|y|)
  {
  }

  lemma TwoBlocks(n: nat)
    requires BLOCK - 8 <= n < BLOCK
    ensures Zeros(2 * BLOCK - 9 - n) == Zeros(BLOCK - 1 - n) + Zeros(BLOCK - 8)
  {
  }

  lemma FinalPieces(m: seq<Octet>, w: Words, tail: seq<Octet>)
    requires Absorbed(m, w, tail)
    ensures |tail| <= |m| && Whole(|m| - |tail|) && Whole(|tail| + |Padding(|m|)|)
    ensures Digest(m) == DigestOf(RfcBlocks(w, tail + Padding(|m|)))
  {
    hide RfcBlocks, DigestOf, Padding;
    var p := Padding(|m|);
    WholePadding(|m|, |tail|, |p|);
    AbsorbBlocks(m, w, tail, p);
    assert (m + p)[..|m + p|] == m + p;
  }

  lemma WholePadding(length: nat, tail: nat, p: nat)
    requires tail <= length && Whole(length - tail) && Whole(length + p)
    ensures Whole(tail + p)
  {
  }

  // The padding of a message whose tail has n bytes
  lemma PaddingParts(length: nat, n: nat, bitsLow: Word, bitsHigh: Word)
    requires n < BLOCK && n <= length && Whole(length - n) && Counted(length, bitsLow, bitsHigh)
    ensures var z := if n < BLOCK - 8 then BLOCK - 9 - n else 2 * BLOCK - 9 - n;
            Padding(length) == [0x80] + Zeros(z) + (LittleEndian(bitsLow, 4) + LittleEndian(bitsHigh, 4))
    ensures Whole(n + |Padding(length)|)
  {
    hide LittleEndian, PaddingZeros;
    BytesOfCount(bitsLow, bitsHigh);
    ZerosNeeded(length, n);
  }

  lemma ZerosNeeded(length: nat, n: nat)
    requires n < BLOCK && n <= length && Whole(length - n)
    ensures PaddingZeros(length) == if n < BLOCK - 8 then BLOCK - 9 - n else 2 * BLOCK - 9 - n
  {
  }

  // A word back in a register
  function Wide(A: bv32): bv64 {
    A as bv64
  }

  // A register added into a word, which keeps the low 32 bits
  function Accumulate(A: bv32, a: bv64): bv32 {
    Low(Add64(A as bv64, a))
  }

  lemma AccumulateIs(A: bv32, a: bv64)
    ensures Accumulate(A, a) == Add32(A, Low(a))
  {
    hide Low, Add64, Add32;
    LowWide(A);
    LowSum(A as bv64, a);
  }

  lemma BlockIs(w: Words, block: seq<Octet>, a: bv64, b: bv64, c: bv64, d: bv64)
    requires |block| == BLOCK && LowWords(a, b, c, d) == RfcSteps(w, block, 64)
    ensures RfcBlock(w, block) == Words(Accumulate(w.a, a), Accumulate(w.b, b), Accumulate(w.c, c), Accumulate(w.d, d))
  {
    hide Low, Add32, Accumulate, RfcSteps;
    AccumulateIs(w.a, a);
    AccumulateIs(w.b, b);
    AccumulateIs(w.c, c);
    AccumulateIs(w.d, d);
  }

  lemma LowOfWide(A: bv32)
    ensures Low(Wide(A)) == A
  {
    hide Low;
    LowWide(A);
  }

  lemma Widened(A: bv32, B: bv32, C: bv32, D: bv32)
    ensures LowWords(Wide(A), Wide(B), Wide(C), Wide(D)) == Words(A, B, C, D)
  {
    hide Low, Wide;
    LowOfWide(A);
    LowOfWide(B);
    LowOfWide(C);
    LowOfWide(D);
  }

  lemma WholeTimes(n: nat)
    ensures Whole(BLOCK * n)
  {
  }

  lemma NoBlocks(w: Words)
    ensures RfcBlocks(w, []) == w
  {
  }

  lemma OneBlock(w: Words, p: seq<Octet>, i: nat)
    requires BLOCK * i + BLOCK <= |p|
    ensures RfcBlocks(w, p[..BLOCK * (i + 1)]) ==
            RfcBlock(RfcBlocks(w, p[..BLOCK * i]), p[BLOCK * i..BLOCK * i + BLOCK])
  {
    hide RfcBlock;
    var q := p[..BLOCK * (i + 1)];
    assert q[..BLOCK * i] == p[..BLOCK * i] && q[BLOCK * i..] == p[BLOCK * i..BLOCK * i + BLOCK];
  }

  // MD5(): the whole message at once
  method Md5(d: seq<Octet>) returns (md: seq<Octet>)
    requires |d| < LONG
    ensures md == Digest(d)
  {
    hide Digest;
    var c := new Context();
    c.Update(d, []);
    assert [] + d == d;
    md := c.Final(d);
  }

  // However the message is cut, empty pieces included, the digest is that of the
  // whole message.
  method Md5OfPieces(pieces: seq<seq<Octet>>) returns (md: seq<Octet>)
    requires forall p <- pieces :: |p| < LONG
    ensures md == Digest(S.Concat(pieces))
  {
    hide Digest;
    var c := new Context();
    for i := 0 to |pieces|
      invariant c.Holds(S.Concat(pieces[..i])) && fresh(c) && fresh(c.data)
    {
      assert pieces[..i + 1][..i] == pieces[..i] && pieces[i] in pieces;
      c.Update(pieces[i], S.Concat(pieces[..i]));
    }
    assert pieces[..|pieces|] == pieces;
    md := c.Final(S.Concat(pieces));
  }
}
