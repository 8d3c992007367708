// The 64 operations on a block of 64 bytes, and whole blocks in order.

module Md5Block {
  import opened Md5Words
  import opened Octets

  const BLOCK: nat := 64

  // ---- RFC 1321 section 3.4 ----

  datatype Words = Words(a: bv32, b: bv32, c: bv32, d: bv32)

  // Which word of the block the i-th operation takes
  function WordIndex(i: nat): (k: nat)
    requires i < 64
    ensures k < 16
  {
    if i < 16 then i
    else if i < 32 then (5 * i + 1) % 16
    else if i < 48 then (3 * i + 5) % 16
    else 7 * i % 16
  }

  // How far it rotates: four amounts a round, in turn
  function ShiftOf(i: nat): (s: bv6)
    requires i < 64
    ensures 0 < s < 32
  {
    var round, turn := i / 16, i % 4;
    if round == 0 then if turn == 0 then 7 else if turn == 1 then 12 else if turn == 2 then 17 else 22
    else if round == 1 then if turn == 0 then 5 else if turn == 1 then 9 else if turn == 2 then 14 else 20
    else if round == 2 then if turn == 0 then 4 else if turn == 1 then 11 else if turn == 2 then 16 else 23
    else if turn == 0 then 6 else if turn == 1 then 10 else if turn == 2 then 15 else 21
  }

  // The constants T[1] to T[64] of both
  function T(i: nat): bv32 {
    if i < 16 then FirstT(i) else if i < 32 then SecondT(i - 16) else if i < 48 then ThirdT(i - 32) else FourthT(i - 48)
  }

  function FirstT(i: nat): bv32 {
    match i
    case 0 => 0xd76aa478
    case 1 => 0xe8c7b756
    case 2 => 0x242070db
    case 3 => 0xc1bdceee
    case 4 => 0xf57c0faf
    case 5 => 0x4787c62a
    case 6 => 0xa8304613
    case 7 => 0xfd469501
    case 8 => 0x698098d8
    case 9 => 0x8b44f7af
    case 10 => 0xffff5bb1
    case 11 => 0x895cd7be
    case 12 => 0x6b901122
    case 13 => 0xfd987193
    case 14 => 0xa679438e
    case _ => 0x49b40821
  }

  function SecondT(i: nat): bv32 {
    match i
    case 0 => 0xf61e2562
    case 1 => 0xc040b340
    case 2 => 0x265e5a51
    case 3 => 0xe9b6c7aa
    case 4 => 0xd62f105d
    case 5 => 0x02441453
    case 6 => 0xd8a1e681
    case 7 => 0xe7d3fbc8
    case 8 => 0x21e1cde6
    case 9 => 0xc33707d6
    case 10 => 0xf4d50d87
    case 11 => 0x455a14ed
    case 12 => 0xa9e3e905
    case 13 => 0xfcefa3f8
    case 14 => 0x676f02d9
    case _ => 0x8d2a4c8a
  }

  function ThirdT(i: nat): bv32 {
    match i
    case 0 => 0xfffa3942
    case 1 => 0x8771f681
    case 2 => 0x6d9d6122
    case 3 => 0xfde5380c
    case 4 => 0xa4beea44
    case 5 => 0x4bdecfa9
    case 6 => 0xf6bb4b60
    case 7 => 0xbebfbc70
    case 8 => 0x289b7ec6
    case 9 => 0xeaa127fa
    case 10 => 0xd4ef3085
    case 11 => 0x04881d05
    case 12 => 0xd9d4d039
    case 13 => 0xe6db99e5
    case 14 => 0x1fa27cf8
    case _ => 0xc4ac5665
  }

  function FourthT(i: nat): bv32 {
    match i
    case 0 => 0xf4292244
    case 1 => 0x432aff97
    case 2 => 0xab9423a7
    case 3 => 0xfc93a039
    case 4 => 0x655b59c3
    case 5 => 0x8f0ccc92
    case 6 => 0xffeff47d
    case 7 => 0x85845dd1
    case 8 => 0x6fa87e4f
    case 9 => 0xfe2ce6e0
    case 10 => 0xa3014314
    case 11 => 0x4e0811a1
    case 12 => 0xf7537e82
    case 13 => 0xbd3af235
    case 14 => 0x2ad7d2bb
    case _ => 0xeb86d391
  }

  // A word, low-order byte first
  function WordAt(block: seq<Octet>, j: nat): bv32
    requires 4 * j + 4 <= |block|
  {
    (block[4 * j] as bv32) | ((block[4 * j + 1] as bv32) << 8) | ((block[4 * j + 2] as bv32) << 16) |
      ((block[4 * j + 3] as bv32) << 24)
  }

  // The i-th of the 64 operations sets the first word; the next one sets the word
  // before it, so the words move up by one place.
  function RfcStep(w: Words, block: seq<Octet>, i: nat): Words
    requires |block| == BLOCK && i < 64
  {
    Words(w.d, Operation(i / 16, w.a, w.b, w.c, w.d, WordAt(block, WordIndex(i)), ShiftOf(i), T(i)), w.b, w.c)
  }

  function RfcSteps(w: Words, block: seq<Octet>, n: nat): Words
    requires |block| == BLOCK && n <= 64
  {
    if n == 0 then w else RfcStep(RfcSteps(w, block, n - 1), block, n - 1)
  }

  function RfcBlock(w: Words, block: seq<Octet>): Words
    requires |block| == BLOCK
  {
    var r := RfcSteps(w, block, 64);
    Words(Add32(w.a, r.a), Add32(w.b, r.b), Add32(w.c, r.c), Add32(w.d, r.d))
  }

  // A number of bytes that makes whole blocks
  predicate Whole(n: nat) {
    n % BLOCK == 0
  }

  lemma WholeSum(j: nat, k: nat)
    requires Whole(j) && Whole(k)
    ensures Whole(j + k)
  {
  }

  // Whole blocks, in order
  function RfcBlocks(w: Words, data: seq<Octet>): Words
    requires Whole(|data|)
    decreases |data|
  {
    if data == [] then w else RfcBlock(RfcBlocks(w, data[..|data| - BLOCK]), data[|data| - BLOCK..])
  }

  lemma {:induction false} BlocksAppend(w: Words, x: seq<Octet>, y: seq<Octet>)
    requires Whole(|x|) && Whole(|y|)
    ensures RfcBlocks(w, x + y) == RfcBlocks(RfcBlocks(w, x), y)
    decreases |y|
  {
    hide RfcBlock;
    WholeSum(|x|, |y|);
    if y == [] {
      assert x + y == x;
    } else {
      var k := |y| - BLOCK;
      BlocksAppend(w, x, y[..k]);
      assert (x + y)[..|x| + k] == x + y[..k];
      assert (x + y)[|x| + k..] == y[k..];
    }
  }

  // ---- The code ----

  // HOST_c2l in portable C
  function HostWord(block: seq<Octet>, j: nat): bv64
    requires 4 * j + 4 <= |block|
  {
    (block[4 * j] as bv64) | ((block[4 * j + 1] as bv64) << 8) | ((block[4 * j + 2] as bv64) << 16) |
      ((block[4 * j + 3] as bv64) << 24)
  }

  // One line of the unrolled loop: the word and the rotation it names
  datatype Line = Line(k: nat, s: bv6)

  function LineAt(i: nat): Line {
    match i
    case 0 => Line(0, 7)
    case 1 => Line(1, 12)
    case 2 => Line(2, 17)
    case 3 => Line(3, 22)
    case 4 => Line(4, 7)
    case 5 => Line(5, 12)
    case 6 => Line(6, 17)
    case 7 => Line(7, 22)
    case 8 => Line(8, 7)
    case 9 => Line(9, 12)
    case 10 => Line(10, 17)
    case 11 => Line(11, 22)
    case 12 => Line(12, 7)
    case 13 => Line(13, 12)
    case 14 => Line(14, 17)
    case 15 => Line(15, 22)
    case 16 => Line(1, 5)
    case 17 => Line(6, 9)
    case 18 => Line(11, 14)
    case 19 => Line(0, 20)
    case 20 => Line(5, 5)
    case 21 => Line(10, 9)
    case 22 => Line(15, 14)
    case 23 => Line(4, 20)
    case 24 => Line(9, 5)
    case 25 => Line(14, 9)
    case 26 => Line(3, 14)
    case 27 => Line(8, 20)
    case 28 => Line(13, 5)
    case 29 => Line(2, 9)
    case 30 => Line(7, 14)
    case 31 => Line(12, 20)
    case 32 => Line(5, 4)
    case 33 => Line(8, 11)
    case 34 => Line(11, 16)
    case 35 => Line(14, 23)
    case 36 => Line(1, 4)
    case 37 => Line(4, 11)
    case 38 => Line(7, 16)
    case 39 => Line(10, 23)
    case 40 => Line(13, 4)
    case 41 => Line(0, 11)
    case 42 => Line(3, 16)
    case 43 => Line(6, 23)
    case 44 => Line(9, 4)
    case 45 => Line(12, 11)
    case 46 => Line(15, 16)
    case 47 => Line(2, 23)
    case 48 => Line(0, 6)
    case 49 => Line(7, 10)
    case 50 => Line(14, 15)
    case 51 => Line(5, 21)
    case 52 => Line(12, 6)
    case 53 => Line(3, 10)
    case 54 => Line(10, 15)
    case 55 => Line(1, 21)
    case 56 => Line(8, 6)
    case 57 => Line(15, 10)
    case 58 => Line(6, 15)
    case 59 => Line(13, 21)
    case 60 => Line(4, 6)
    case 61 => Line(11, 10)
    case 62 => Line(2, 15)
    case _ => Line(9, 21)
  }

  // Every line names the word and the rotation of the RFC's formulas.
  lemma LineOf(i: nat)
    requires i < 64
    ensures LineAt(i) == Line(WordIndex(i), ShiftOf(i))
  {
    hide *;
    if i < 16 { Lines0(i); } else if i < 32 { Lines1(i); } else if i < 48 { Lines2(i); } else { Lines3(i); }
  }

  lemma Lines0(i: nat)
    requires i < 16
    ensures LineAt(i) == Line(WordIndex(i), ShiftOf(i))
  {
  }

  lemma Lines1(i: nat)
    requires 16 <= i < 32
    ensures LineAt(i) == Line(WordIndex(i), ShiftOf(i))
  {
  }

  lemma Lines2(i: nat)
    requires 32 <= i < 48
    ensures LineAt(i) == Line(WordIndex(i), ShiftOf(i))
  {
  }

  lemma Lines3(i: nat)
    requires 48 <= i < 64
    ensures LineAt(i) == Line(WordIndex(i), ShiftOf(i))
  {
  }

  lemma LowWord(block: seq<Octet>, j: nat)
    requires 4 * j + 4 <= |block|
    ensures Low(HostWord(block, j)) == WordAt(block, j)
  {
  }

  lemma LowWide(x: bv32)
    ensures Low(x as bv64) == x
  {
  }

  // One line of the unrolled loop, on registers of 64 bits
  function CodeStep(block: seq<Octet>, i: nat, a: bv64, b: bv64, c: bv64, d: bv64): bv64
    requires |block| == BLOCK && i < 64
  {
    LineOf(i);
    R(i / 16, a, b, c, d, HostWord(block, LineAt(i).k), LineAt(i).s, T(i) as bv64)
  }

  function LowWords(a: bv64, b: bv64, c: bv64, d: bv64): Words {
    Words(Low(a), Low(b), Low(c), Low(d))
  }

  // After every step, what the step set agrees with the RFC in its low 32 bits.
  lemma StepAgrees(block: seq<Octet>, i: nat, a: bv64, b: bv64, c: bv64, d: bv64)
    requires |block| == BLOCK && i < 64
    ensures RfcStep(LowWords(a, b, c, d), block, i) == LowWords(d, CodeStep(block, i, a, b, c, d), b, c)
  {
    hide Low, R, Operation, HostWord, WordAt, LineAt, WordIndex, ShiftOf;
    LineOf(i);
    var k := WordIndex(i);
    LowStep(i / 16, a, b, c, d, HostWord(block, k), ShiftOf(i), T(i) as bv64);
    LowWord(block, k);
    LowWide(T(i));
  }

  // The 64 lines, four at a time: the registers take turns.
  method Compress(block: seq<Octet>, a: bv64, b: bv64, c: bv64, d: bv64) returns (A: bv64, B: bv64, C: bv64, D: bv64)
    requires |block| == BLOCK
    ensures LowWords(A, B, C, D) == RfcSteps(LowWords(a, b, c, d), block, 64)
  {
    hide LowWords, CodeStep, RfcStep;
    A, B, C, D := a, b, c, d;
    for i := 0 to 16
      invariant LowWords(A, B, C, D) == RfcSteps(LowWords(a, b, c, d), block, 4 * i)
    {
      StepAgrees(block, 4 * i, A, B, C, D);
      A := CodeStep(block, 4 * i, A, B, C, D);
      StepAgrees(block, 4 * i + 1, D, A, B, C);
      D := CodeStep(block, 4 * i + 1, D, A, B, C);
      StepAgrees(block, 4 * i + 2, C, D, A, B);
      C := CodeStep(block, 4 * i + 2, C, D, A, B);
      StepAgrees(block, 4 * i + 3, B, C, D, A);
      B := CodeStep(block, 4 * i + 3, B, C, D, A);
      FourSteps(LowWords(a, b, c, d), block, 4 * i);
    }
  }

  lemma FourSteps(w: Words, block: seq<Octet>, n: nat)
    requires |block| == BLOCK && n + 4 <= 64
    ensures RfcSteps(w, block, n + 4) ==
            RfcStep(RfcStep(RfcStep(RfcStep(
              RfcSteps(w, block, n), block, n), block, n + 1), block, n + 2), block, n + 3)
  {
    hide RfcStep;
    assert RfcSteps(w, block, n + 1) == RfcStep(RfcSteps(w, block, n), block, n);
    assert RfcSteps(w, block, n + 2) == RfcStep(RfcSteps(w, block, n + 1), block, n + 1);
    assert RfcSteps(w, block, n + 3) == RfcStep(RfcSteps(w, block, n + 2), block, n + 2);
  }
}
