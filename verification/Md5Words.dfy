// Words of 32 bits kept in registers of 64: what the low 32 bits of each operation
// are, when nothing is masked in between.

module Md5Words {

  function Low(x: bv64): bv32 {
    (x & 0xffffffff) as bv32
  }

  // Unsigned addition wraps around. It is named so that sums stay whole in proofs.
  function Add64(x: bv64, y: bv64): bv64 {
    x + y
  }

  function Add32(x: bv32, y: bv32): bv32 {
    x + y
  }

  // ---- RFC 1321 section 3.4 ----

  // The auxiliary functions
  function RfcF(x: bv32, y: bv32, z: bv32): bv32 {
    (x & y) | (!x & z)
  }

  function RfcG(x: bv32, y: bv32, z: bv32): bv32 {
    (x & z) | (y & !z)
  }

  function RfcH(x: bv32, y: bv32, z: bv32): bv32 {
    x ^ y ^ z
  }

  function RfcI(x: bv32, y: bv32, z: bv32): bv32 {
    y ^ (x | !z)
  }

  function Auxiliary(round: nat, x: bv32, y: bv32, z: bv32): bv32 {
    if round == 0 then RfcF(x, y, z)
    else if round == 1 then RfcG(x, y, z)
    else if round == 2 then RfcH(x, y, z)
    else RfcI(x, y, z)
  }

  // X <<< s
  function RotateWord(x: bv32, s: bv6): bv32
    requires s < 32
  {
    (x << s) | (x >> (32 - s))
  }

  // b plus the sum of a, the auxiliary function, X[k] and T[i], rotated
  function Operation(round: nat, a: bv32, b: bv32, c: bv32, d: bv32, x: bv32, s: bv6, t: bv32): bv32
    requires s < 32
  {
    Add32(RotateWord(Add32(a, Add32(Add32(x, t), Auxiliary(round, b, c, d))), s), b)
  }

  // ---- The code's macros ----

  function F(b: bv64, c: bv64, d: bv64): bv64 {
    ((c ^ d) & b) ^ d
  }

  function G(b: bv64, c: bv64, d: bv64): bv64 {
    ((b ^ c) & d) ^ c
  }

  function H(b: bv64, c: bv64, d: bv64): bv64 {
    b ^ c ^ d
  }

  function I(b: bv64, c: bv64, d: bv64): bv64 {
    (!d | b) ^ c
  }

  function Mix(round: nat, b: bv64, c: bv64, d: bv64): bv64 {
    if round == 0 then F(b, c, d)
    else if round == 1 then G(b, c, d)
    else if round == 2 then H(b, c, d)
    else I(b, c, d)
  }

  // ROTATE in portable C: the bits above the low 32 are not cleared.
  function Rotate(a: bv64, n: bv6): bv64
    requires 0 < n < 32
  {
    (a << n) | ((a & 0xffffffff) >> (32 - n))
  }

  // R0 to R3: what they leave in their first register
  function R(round: nat, a: bv64, b: bv64, c: bv64, d: bv64, k: bv64, s: bv6, t: bv64): bv64
    requires 0 < s < 32
  {
    Add64(Rotate(Add64(a, Add64(Add64(k, t), Mix(round, b, c, d))), s), b)
  }

  // ---- Agreement in the low 32 bits ----

  lemma LowIs(x: bv64)
    ensures Low(x) == (x & 0xffffffff) as bv32
  {
  }

  lemma AddLow(x: bv64, y: bv64, s: bv64)
    requires s == x + y
    ensures Add32((x & 0xffffffff) as bv32, (y & 0xffffffff) as bv32) == (s & 0xffffffff) as bv32
  {
    assert ((x + y) & 0xffffffff) as bv32 == ((x & 0xffffffff) as bv32) + ((y & 0xffffffff) as bv32);
  }

  lemma Add64Is(x: bv64, y: bv64)
    ensures Add64(x, y) == x + y
  {
  }

  lemma LowSum(x: bv64, y: bv64)
    ensures Low(Add64(x, y)) == Add32(Low(x), Low(y))
  {
    hide *;
    var s := Add64(x, y);
    Add64Is(x, y);
    LowIs(x);
    LowIs(y);
    LowIs(s);
    AddLow(x, y, s);
  }

  lemma FBits(b: bv64, c: bv64, d: bv64, r: bv64, x: bv32, y: bv32, z: bv32, w: bv32)
    requires x == (b & 0xffffffff) as bv32 && y == (c & 0xffffffff) as bv32 && z == (d & 0xffffffff) as bv32
    requires r == ((c ^ d) & b) ^ d && w == (r & 0xffffffff) as bv32
    ensures w == (x & y) | (!x & z)
  {
  }

  lemma HBits(b: bv64, c: bv64, d: bv64, r: bv64, x: bv32, y: bv32, z: bv32, w: bv32)
    requires x == (b & 0xffffffff) as bv32 && y == (c & 0xffffffff) as bv32 && z == (d & 0xffffffff) as bv32
    requires r == b ^ c ^ d && w == (r & 0xffffffff) as bv32
    ensures w == x ^ y ^ z
  {
  }

  lemma IBits(b: bv64, c: bv64, d: bv64, r: bv64, x: bv32, y: bv32, z: bv32, w: bv32)
    requires x == (b & 0xffffffff) as bv32 && y == (c & 0xffffffff) as bv32 && z == (d & 0xffffffff) as bv32
    requires r == (!d | b) ^ c && w == (r & 0xffffffff) as bv32
    ensures w == y ^ (x | !z)
  {
  }

  lemma FIs(b: bv64, c: bv64, d: bv64, x: bv32, y: bv32, z: bv32)
    ensures F(b, c, d) == ((c ^ d) & b) ^ d && RfcF(x, y, z) == (x & y) | (!x & z)
  {
  }

  lemma GIs(b: bv64, c: bv64, d: bv64, x: bv32, y: bv32, z: bv32)
    ensures G(b, c, d) == ((b ^ c) & d) ^ c && RfcG(x, y, z) == (z & x) | (!z & y)
  {
  }

  lemma HIs(b: bv64, c: bv64, d: bv64, x: bv32, y: bv32, z: bv32)
    ensures H(b, c, d) == b ^ c ^ d && RfcH(x, y, z) == x ^ y ^ z
  {
  }

  lemma IIs(b: bv64, c: bv64, d: bv64, x: bv32, y: bv32, z: bv32)
    ensures I(b, c, d) == (!d | b) ^ c && RfcI(x, y, z) == y ^ (x | !z)
  {
  }

  lemma LowF(b: bv64, c: bv64, d: bv64)
    ensures Low(F(b, c, d)) == RfcF(Low(b), Low(c), Low(d))
  {
    hide *;
    LowIs(b);
    LowIs(c);
    LowIs(d);
    LowIs(F(b, c, d));
    FIs(b, c, d, Low(b), Low(c), Low(d));
    FBits(b, c, d, F(b, c, d), Low(b), Low(c), Low(d), Low(F(b, c, d)));
  }

  lemma LowG(b: bv64, c: bv64, d: bv64)
    ensures Low(G(b, c, d)) == RfcG(Low(b), Low(c), Low(d))
  {
    hide *;
    LowIs(b);
    LowIs(c);
    LowIs(d);
    LowIs(G(b, c, d));
    GIs(b, c, d, Low(b), Low(c), Low(d));
    FBits(d, b, c, G(b, c, d), Low(d), Low(b), Low(c), Low(G(b, c, d)));
  }

  lemma LowH(b: bv64, c: bv64, d: bv64)
    ensures Low(H(b, c, d)) == RfcH(Low(b), Low(c), Low(d))
  {
    hide *;
    LowIs(b);
    LowIs(c);
    LowIs(d);
    LowIs(H(b, c, d));
    HIs(b, c, d, Low(b), Low(c), Low(d));
    HBits(b, c, d, H(b, c, d), Low(b), Low(c), Low(d), Low(H(b, c, d)));
  }

  lemma LowI(b: bv64, c: bv64, d: bv64)
    ensures Low(I(b, c, d)) == RfcI(Low(b), Low(c), Low(d))
  {
    hide *;
    LowIs(b);
    LowIs(c);
    LowIs(d);
    LowIs(I(b, c, d));
    IIs(b, c, d, Low(b), Low(c), Low(d));
    IBits(b, c, d, I(b, c, d), Low(b), Low(c), Low(d), Low(I(b, c, d)));
  }

  lemma LowMix(round: nat, b: bv64, c: bv64, d: bv64)
    ensures Low(Mix(round, b, c, d)) == Auxiliary(round, Low(b), Low(c), Low(d))
  {
    hide Low, F, G, H, I, RfcF, RfcG, RfcH, RfcI;
    LowF(b, c, d);
    LowG(b, c, d);
    LowH(b, c, d);
    LowI(b, c, d);
  }

  lemma LowRotate(a: bv64, n: bv6)
    requires 0 < n < 32
    ensures Low(Rotate(a, n)) == RotateWord(Low(a), n)
  {
  }

  lemma LowStep(round: nat, a: bv64, b: bv64, c: bv64, d: bv64, k: bv64, s: bv6, t: bv64)
    requires 0 < s < 32
    ensures Low(R(round, a, b, c, d, k, s, t)) == Operation(round, Low(a), Low(b), Low(c), Low(d), Low(k), s, Low(t))
  {
    hide Low, Mix, Rotate, RotateWord, Auxiliary, Add64, Add32;
    var f := Mix(round, b, c, d);
    var sum := Add64(a, Add64(Add64(k, t), f));
    LowMix(round, b, c, d);
    LowRotate(sum, s);
    LowSum(k, t);
    LowSum(Add64(k, t), f);
    LowSum(a, Add64(Add64(k, t), f));
    LowSum(Rotate(sum, s), b);
  }
}
