// Bytes, C strings and the option type shared by every module.

module Bytes {
  type Byte = x: int | 0 <= x < 256

  type Text = seq<Byte>

  datatype Option<+T> = None | Some(value: T)

  function LowByte(n: nat): Byte {
    n % 256
  }

  // Reads the character at p. A C string ends in a NUL, so every read at or
  // past the end of the text yields 0.
  function At(t: Text, p: nat): Byte {
    if p < |t| then t[p] else 0
  }

  // The bytes of s stand in t from position p on.
  ghost predicate Here(t: Text, p: nat, s: Text) {
    p + |s| <= |t| && t[p..p + |s|] == s
  }

  lemma HereSplit(t: Text, p: nat, a: Text, b: Text)
    requires Here(t, p, a + b)
    ensures Here(t, p, a) && Here(t, p + |a|, b) && p + |a| + |b| <= |t|
  {
    assert t[p..p + |a|] == (a + b)[..|a|];
    assert t[p + |a|..p + |a| + |b|] == (a + b)[|a|..];
  }

  lemma HereAt(t: Text, p: nat, s: Text, i: nat)
    requires Here(t, p, s) && i < |s|
    ensures At(t, p + i) == s[i] && p + i < |t|
  {
    assert t[p..p + |s|][i] == s[i];
  }
}
