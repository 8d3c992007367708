// The run-length decoder of a tone map: nibbles 0 to 8 name a modulation, nibbles 9 to
// 15 say how long it lasts.

module Tonemap {
  import opened Bytes

  const LIST_SIZE: nat := 4097

  type Nibble = x: int | 0 <= x < 16

  // ---- The decoder as a machine over nibbles ----

  // -1 stands for none.
  datatype Machine = Machine(modulation: int, rle: int, out: Text)

  function RleLen(x: int, y: int): int {
    (x - 8) * 7 + (y - 9) + 3
  }

  // An unsigned char holds the modulation.
  function Stored(modulation: int): Byte {
    modulation % 256
  }

  function Times(b: Byte, n: int): (t: Text)
    ensures |t| == if n > 0 then n else 0
    ensures forall i :: 0 <= i < |t| ==> t[i] == b
  {
    if n <= 0 then [] else Times(b, n - 1) + [b]
  }

  function Step(s: Machine, x: Nibble): Machine {
    if x <= 8 then
      if s.modulation == -1 then s.(modulation := x)
      else if s.rle == -1 then Machine(x, -1, s.out + Times(Stored(s.modulation), 1))
      else Machine(x, -1, s.out + Times(Stored(s.modulation), RleLen(8, s.rle)))
    else if s.rle == -1 then s.(rle := x)
    else Machine(-1, -1, s.out + Times(Stored(s.modulation), RleLen(x, s.rle)))
  }

  // The last nibble, when there is half a byte: what is pending is not flushed first.
  function Last(s: Machine, x: Nibble): Text {
    if x <= 8 then s.out + [x]
    else if s.rle == -1 then s.out + Times(Stored(s.modulation), RleLen(8, x))
    else s.out + Times(Stored(s.modulation), RleLen(x, s.rle))
  }

  function Feed(xs: seq<Nibble>): Machine {
    if xs == [] then Machine(-1, -1, []) else Step(Feed(xs[..|xs| - 1]), xs[|xs| - 1])
  }

  function Low(b: Byte): Nibble {
    b % 16
  }

  function High(b: Byte): Nibble {
    b / 16
  }

  // The nibbles of whole bytes, the low one first
  function Nibbles(bytes: Text): (xs: seq<Nibble>)
    ensures |xs| == 2 * |bytes|
  {
    if bytes == [] then [] else
      var b := bytes[|bytes| - 1];
      Nibbles(bytes[..|bytes| - 1]) + [Low(b), High(b)]
  }

  function Decoded(bitfield: Text, bits: nat): Text
    requires (bits + 7) / 8 <= |bitfield|
  {
    var s := Feed(Nibbles(bitfield[..bits / 8]));
    if bits % 8 == 0 then s.out else Last(s, Low(bitfield[bits / 8]))
  }

  lemma FeedNext(xs: seq<Nibble>, x: Nibble)
    ensures Feed(xs + [x]) == Step(Feed(xs), x)
    ensures |Feed(xs).out| <= |Feed(xs + [x]).out|
  {
    assert (xs + [x])[..|xs|] == xs;
  }

  // ---- Runs ----

  datatype Run = Run(modulation: nat, length: nat)

  predicate Encodable(r: Run) {
    r.modulation <= 8 && (r.length == 1 || 3 <= r.length <= 58)
  }

  predicate AllEncodable(runs: seq<Run>) {
    forall i :: 0 <= i < |runs| ==> Encodable(runs[i])
  }

  // The modulation, then no, one or two nibbles for the length
  function Code(r: Run): seq<Nibble>
    requires Encodable(r)
  {
    if r.length == 1 then [r.modulation]
    else if r.length <= 9 then [r.modulation, r.length + 6]
    else [r.modulation, 9 + (r.length - 3) % 7, 8 + (r.length - 3) / 7]
  }

  function Encoded(runs: seq<Run>): seq<Nibble>
    requires AllEncodable(runs)
  {
    if runs == [] then [] else Encoded(runs[..|runs| - 1]) + Code(runs[|runs| - 1])
  }

  function Expanded(runs: seq<Run>): Text
    requires AllEncodable(runs)
  {
    if runs == [] then [] else
      var r := runs[|runs| - 1];
      Expanded(runs[..|runs| - 1]) + Times(r.modulation, r.length)
  }

  // The list once what is pending is written
  function Flushed(s: Machine): Text {
    if s.modulation == -1 then s.out
    else s.out + Times(Stored(s.modulation), if s.rle == -1 then 1 else RleLen(8, s.rle))
  }

  // What a run leaves: nothing pending after two length nibbles, else the run itself
  function After(out: Text, r: Run): Machine
    requires Encodable(r)
  {
    if r.length >= 10 then Machine(-1, -1, out + Times(r.modulation, r.length))
    else Machine(r.modulation, if r.length == 1 then -1 else r.length + 6, out)
  }

  lemma FeedTwo(e: seq<Nibble>, a: Nibble, b: Nibble)
    ensures Feed(e + [a, b]) == Step(Step(Feed(e), a), b)
  {
    hide Feed, Step;
    FeedNext(e, a);
    FeedNext(e + [a], b);
    assert e + [a, b] == (e + [a]) + [b];
  }

  lemma FeedThree(e: seq<Nibble>, a: Nibble, b: Nibble, c: Nibble)
    ensures Feed(e + [a, b, c]) == Step(Step(Step(Feed(e), a), b), c)
  {
    hide Feed, Step;
    FeedTwo(e, a, b);
    FeedNext(e + [a, b], c);
    assert e + [a, b, c] == (e + [a, b]) + [c];
  }

  // A modulation flushes what is pending.
  lemma StepModulation(s: Machine, x: Nibble)
    requires x <= 8 && (s.modulation != -1 || s.rle == -1)
    ensures Step(s, x) == Machine(x, -1, Flushed(s))
  {
    hide Times;
  }

  // The length nibbles of a run that has just begun
  lemma StepsLength(out: Text, r: Run)
    requires Encodable(r)
    ensures r.length == 1 ==> Machine(r.modulation, -1, out) == After(out, r)
    ensures 3 <= r.length <= 9 ==> Step(Machine(r.modulation, -1, out), r.length + 6) == After(out, r)
    ensures r.length >= 10 ==>
              var x, y := 9 + (r.length - 3) % 7, 8 + (r.length - 3) / 7;
              9 <= x < 16 && 9 <= y < 16 && Step(Step(Machine(r.modulation, -1, out), x), y) == After(out, r)
  {
    hide Times;
    if r.length >= 10 { LongLength(r.length); }
  }

  lemma LongLength(n: nat)
    requires 10 <= n <= 58
    ensures var x, y := 9 + (n - 3) % 7, 8 + (n - 3) / 7;
            9 <= x < 16 && 9 <= y < 16 && RleLen(y, x) == n
  {
  }

  lemma FeedRun(e: seq<Nibble>, r: Run)
    requires Encodable(r) && (Feed(e).modulation != -1 || Feed(e).rle == -1)
    ensures Feed(e + Code(r)) == After(Flushed(Feed(e)), r)
  {
    var c := Code(r);
    StepModulation(Feed(e), c[0]);
    StepsLength(Flushed(Feed(e)), r);
    hide Feed, Times, Step, After, Flushed;
    if |c| == 1 {
      FeedNext(e, c[0]);
    } else if |c| == 2 {
      FeedTwo(e, c[0], c[1]);
    } else {
      FeedThree(e, c[0], c[1], c[2]);
    }
  }

  lemma {:induction false} AfterRuns(runs: seq<Run>)
    requires AllEncodable(runs)
    ensures Flushed(Feed(Encoded(runs))) == Expanded(runs)
    ensures var s := Feed(Encoded(runs)); s.modulation != -1 || s.rle == -1
    ensures runs != [] ==> Feed(Encoded(runs)) == After(Expanded(runs[..|runs| - 1]), runs[|runs| - 1])
  {
    hide Feed, Flushed, Code, After;
    NothingFed();
    if runs == [] {
    } else {
      var rest, last := runs[..|runs| - 1], runs[|runs| - 1];
      AfterRuns(rest);
      FeedRun(Encoded(rest), last);
      FlushedAfter(Expanded(rest), last);
    }
  }

  lemma NothingFed()
    ensures Feed([]) == Machine(-1, -1, []) && Flushed(Machine(-1, -1, [])) == []
  {
  }

  lemma FlushedAfter(out: Text, r: Run)
    requires Encodable(r)
    ensures Flushed(After(out, r)) == out + Times(r.modulation, r.length)
    ensures var s := After(out, r); s.modulation != -1 || s.rle == -1
  {
  }

  // ---- Whole bytes and half a byte ----

  // Two nibbles a byte, the first one low; half a byte at the end with zeros above
  function Packed(xs: seq<Nibble>): (bytes: Text)
    ensures |bytes| == (|xs| + 1) / 2
  {
    if xs == [] then []
    else if |xs| % 2 == 1 then Packed(xs[..|xs| - 1]) + [xs[|xs| - 1]]
    else Packed(xs[..|xs| - 2]) + [xs[|xs| - 2] + 16 * xs[|xs| - 1]]
  }

  lemma NibblesNext(bytes: Text, a: Nibble, b: Nibble)
    ensures Nibbles(bytes + [a + 16 * b]) == Nibbles(bytes) + [a, b]
  {
    var c: Byte := a + 16 * b;
    assert (bytes + [c])[..|bytes|] == bytes;
    assert Low(c) == a && High(c) == b;
  }

  lemma {:induction false} NibblesPacked(xs: seq<Nibble>)
    ensures |xs| % 2 == 0 ==> Nibbles(Packed(xs)) == xs
    ensures |xs| % 2 == 1 ==>
            Nibbles(Packed(xs)[..|xs| / 2]) == xs[..|xs| - 1] && Low(Packed(xs)[|xs| / 2]) == xs[|xs| - 1]
    decreases |xs|
  {
    hide Nibbles, Packed, Low;
    if xs == [] {
      NoNibbles();
    } else if |xs| % 2 == 1 {
      NibblesPacked(xs[..|xs| - 1]);
      PackedHalf(xs);
    } else {
      var rest, a, b := xs[..|xs| - 2], xs[|xs| - 2], xs[|xs| - 1];
      NibblesPacked(rest);
      NibblesNext(Packed(rest), a, b);
      PackedPair(xs);
      assert xs == rest + [a, b];
    }
  }

  lemma PackedHalf(xs: seq<Nibble>)
    requires |xs| % 2 == 1
    ensures Packed(xs)[..|xs| / 2] == Packed(xs[..|xs| - 1]) && Low(Packed(xs)[|xs| / 2]) == xs[|xs| - 1]
  {
  }

  lemma PackedPair(xs: seq<Nibble>)
    requires xs != [] && |xs| % 2 == 0
    ensures var a: int, b: int := xs[|xs| - 2], xs[|xs| - 1]; Packed(xs) == Packed(xs[..|xs| - 2]) + [a + 16 * b]
  {
  }

  lemma NoNibbles()
    ensures Nibbles([]) == [] == Packed([])
  {
  }

  // The runs that come out as they went in: with whole bytes, nothing may be pending at
  // the end; with half a byte, nothing may be pending before a last modulation.
  predicate Kept(runs: seq<Run>)
    requires AllEncodable(runs)
  {
    var n := |runs|;
    n == 0 || (
      if |Encoded(runs)| % 2 == 0 then runs[n - 1].length >= 10
      else runs[n - 1].length > 1 || n == 1 || runs[n - 2].length >= 10)
  }

  // Without a flush at the end, the whole list is out only after two length nibbles.
  lemma OutAfterRuns(runs: seq<Run>)
    requires AllEncodable(runs)
    ensures Feed(Encoded(runs)).out == Expanded(runs) <==> runs == [] || runs[|runs| - 1].length >= 10
  {
    AfterRuns(runs);
    hide Feed, Encoded, Times;
    if runs == [] {
      NothingFed();
    } else {
      var rest, r := runs[..|runs| - 1], runs[|runs| - 1];
      assert |Expanded(runs)| == |Expanded(rest)| + r.length;
    }
  }

  // The last nibble of a run, read as half a byte
  lemma LastOfRun(e: seq<Nibble>, r: Run)
    requires Encodable(r) && (Feed(e).modulation != -1 || Feed(e).rle == -1)
    ensures var n := |Code(r)|;
            Last(Feed(e + Code(r)[..n - 1]), Code(r)[n - 1]) ==
            (if n == 1 then Feed(e).out else Flushed(Feed(e))) + Times(r.modulation, r.length)
  {
    hide Feed, Times, Flushed, After, Stored;
    var c := Code(r);
    TimesOne(r.modulation);
    if |c| == 1 {
      assert e + c[..0] == e;
    } else {
      var front, x := e + c[..|c| - 1], c[|c| - 1];
      assert e + c == front + [x];
      FeedRun(e, r);
      FlushedAfter(Flushed(Feed(e)), r);
      FeedNext(front, x);
      FrontOfRun(e, r);
      LastIsFlushed(Feed(front), x);
    }
  }

  // Half a byte that ends a length is read like the nibble it is.
  lemma LastIsFlushed(s: Machine, x: Nibble)
    requires x > 8 && s.modulation != -1
    ensures Last(s, x) == Flushed(Step(s, x))
  {
    hide Times;
  }

  lemma FrontOfRun(e: seq<Nibble>, r: Run)
    requires Encodable(r) && r.length > 1 && (Feed(e).modulation != -1 || Feed(e).rle == -1)
    ensures Feed(e + Code(r)[..|Code(r)| - 1]).modulation != -1
  {
    hide Feed, Times;
    var c := Code(r);
    if |c| == 2 {
      FeedNext(e, c[0]);
      assert c[..1] == [c[0]];
    } else {
      FeedTwo(e, c[0], c[1]);
      assert c[..2] == [c[0], c[1]];
    }
  }

  lemma TimesOne(b: Byte)
    ensures Times(b, 1) == [b]
  {
    assert Times(b, 0) == [];
  }

  lemma LastNibble(runs: seq<Run>)
    requires AllEncodable(runs) && |Encoded(runs)| % 2 == 1
    ensures var xs := Encoded(runs);
            Last(Feed(xs[..|xs| - 1]), xs[|xs| - 1]) == Expanded(runs) <==> Kept(runs)
  {
    hide Feed, Flushed, Times, Last;
    var xs, rest, r := Encoded(runs), runs[..|runs| - 1], runs[|runs| - 1];
    var e, c := Encoded(rest), Code(r);
    AfterRuns(rest);
    OutAfterRuns(rest);
    LastOfRun(e, r);
    assert xs[..|xs| - 1] == e + c[..|c| - 1];
    Cancel(Feed(e).out, Expanded(rest), Times(r.modulation, r.length));
  }

  lemma Cancel(a: Text, b: Text, c: Text)
    ensures a + c == b + c <==> a == b
  {
    if a + c == b + c {
      assert |a| == |b|;
      assert (a + c)[..|a|] == a && (b + c)[..|b|] == b;
    }
  }

  lemma HalfBytes(n: nat)
    ensures 4 * n / 8 == n / 2 && (4 * n % 8 == 0 <==> n % 2 == 0) && (4 * n + 7) / 8 == (n + 1) / 2
  {
  }

  // The decoder gives back the expansion for exactly those.
  lemma DecodesExactly(runs: seq<Run>)
    requires AllEncodable(runs)
    ensures Decoded(Packed(Encoded(runs)), 4 * |Encoded(runs)|) == Expanded(runs) <==> Kept(runs)
  {
    hide Feed, Times, Last, Nibbles, Packed;
    var xs := Encoded(runs);
    NibblesPacked(xs);
    HalfBytes(|xs|);
    hide Encoded;
    if |xs| % 2 == 0 {
      OutAfterRuns(runs);
      assert Packed(xs)[..|xs| / 2] == Packed(xs);
    } else {
      LastNibble(runs);
    }
  }

  // ---- The code ----

  // The inner loop: one modulation, repeated
  method Repeat(list: array<Byte>, m: nat, modulation: int, rle: int) returns (next: nat)
    requires m + |Times(Stored(modulation), rle)| <= list.Length
    modifies list
    ensures next == m + |Times(Stored(modulation), rle)|
    ensures list[..next] == old(list[..m]) + Times(Stored(modulation), rle) && list[next..] == old(list[next..])
  {
    next := m;
    var k := 0;
    while k < rle
      invariant 0 <= k && (k <= rle || k == 0)
      invariant next == m + k && list[..next] == old(list[..m]) + Times(Stored(modulation), k)
      invariant list[next..] == old(list[next..])
    {
      list[next] := Stored(modulation);
      assert list[..next + 1] == list[..next] + [Stored(modulation)];
      k, next := k + 1, next + 1;
    }
  }

  // One nibble of a whole byte
  method Take(list: array<Byte>, modulation: int, rle: int, m: nat, x: Nibble)
      returns (modulation': int, rle': int, m': nat)
    requires m <= list.Length && |Step(Machine(modulation, rle, list[..m]), x).out| <= list.Length
    modifies list
    ensures m' <= list.Length &&
            Machine(modulation', rle', list[..m']) == Step(old(Machine(modulation, rle, list[..m])), x)
    ensures m' >= m && list[m'..] == old(list[m'..])
  {
    hide Times;
    modulation', rle', m' := modulation, rle, m;
    if x <= 8 {
      if modulation != -1 {
        if rle == -1 {
          TimesOne(Stored(modulation));
          list[m'] := Stored(modulation);
          m' := m' + 1;
        } else {
          m' := Repeat(list, m, modulation, RleLen(8, rle));
          rle' := -1;
        }
      }
      modulation' := x;
    } else if rle == -1 {
      rle' := x;
    } else {
      m' := Repeat(list, m, modulation, RleLen(x, rle));
      modulation', rle' := -1, -1;
    }
  }

  lemma {:induction false} FeedGrows(xs: seq<Nibble>, n: nat)
    requires n <= |xs|
    ensures |Feed(xs[..n]).out| <= |Feed(xs).out|
    decreases |xs| - n
  {
    if n < |xs| {
      FeedNext(xs[..n], xs[n]);
      assert xs[..n + 1] == xs[..n] + [xs[n]];
      FeedGrows(xs, n + 1);
    } else {
      assert xs[..n] == xs;
    }
  }

  lemma NibblesPrefix(bytes: Text, i: nat)
    requires i < |bytes|
    ensures Nibbles(bytes[..i + 1]) == Nibbles(bytes[..i]) + [Low(bytes[i]), High(bytes[i])]
  {
    assert bytes[..i + 1][..i] == bytes[..i];
  }

  lemma {:induction false} NibblesStart(bytes: Text, i: nat)
    requires i <= |bytes|
    ensures Nibbles(bytes)[..2 * i] == Nibbles(bytes[..i])
    decreases |bytes| - i
  {
    if i < |bytes| {
      NibblesStart(bytes, i + 1);
      NibblesPrefix(bytes, i);
      assert Nibbles(bytes)[..2 * i] == Nibbles(bytes)[..2 * (i + 1)][..2 * i];
    } else {
      assert bytes[..i] == bytes;
    }
  }

  // The decoding part of hpav_dump_tonemap, on the memory from the start of the list on.
  // Nothing stops it at the end of the list.
  method DecodeTonemap(list: array<Byte>, bitfield: Text, bits: nat) returns (m: nat)
    requires (bits + 7) / 8 <= |bitfield| && |Decoded(bitfield, bits)| <= list.Length
    modifies list
    ensures m <= list.Length && list[..m] == Decoded(bitfield, bits) && list[m..] == old(list[m..])
  {
    hide Times, Step, Nibbles, Last, Feed, Low, High;
    m := 0;
    var modulation, rle := -1, -1;
    ghost var bytes := bitfield[..bits / 8];
    NothingFed();
    NoNibbles();
    FeedBound(bitfield, bits);
    for i := 0 to bits / 8
      invariant m <= list.Length && Machine(modulation, rle, list[..m]) == Feed(Nibbles(bytes[..i]))
      invariant list[m..] == old(list[m..])
    {
      var low, high := Low(bitfield[i]), High(bitfield[i]);
      TwoNibbles(bytes, i);
      modulation, rle, m := Take(list, modulation, rle, m, low);
      modulation, rle, m := Take(list, modulation, rle, m, high);
    }
    assert bytes[..bits / 8] == bytes;
    if bits % 8 != 0 {
      m := TakeLast(list, modulation, rle, m, Low(bitfield[bits / 8]));
    }
  }

  // Room for both nibbles of a byte
  lemma TwoNibbles(bytes: Text, i: nat)
    requires i < |bytes|
    ensures var s, low, high := Feed(Nibbles(bytes[..i])), Low(bytes[i]), High(bytes[i]);
            && |Step(s, low).out| <= |Feed(Nibbles(bytes)).out| &&
               |Step(Step(s, low), high).out| <= |Feed(Nibbles(bytes)).out|
            && Feed(Nibbles(bytes[..i + 1])) == Step(Step(s, low), high)
  {
    hide Feed, Step, Nibbles, Low, High;
    var xs, low, high := Nibbles(bytes), Low(bytes[i]), High(bytes[i]);
    NibblesPrefix(bytes, i);
    NibblesStart(bytes, i);
    NibblesStart(bytes, i + 1);
    FeedNext(xs[..2 * i], low);
    FeedTwo(xs[..2 * i], low, high);
    assert xs[..2 * i] + [low] == xs[..2 * i + 1];
    FeedGrows(xs, 2 * i + 1);
    FeedGrows(xs, 2 * i + 2);
  }

  lemma FeedBound(bitfield: Text, bits: nat)
    requires (bits + 7) / 8 <= |bitfield|
    ensures |Feed(Nibbles(bitfield[..bits / 8])).out| <= |Decoded(bitfield, bits)|
  {
  }

  // Half a byte
  method TakeLast(list: array<Byte>, modulation: int, rle: int, m: nat, x: Nibble) returns (m': nat)
    requires m <= list.Length && |Last(Machine(modulation, rle, list[..m]), x)| <= list.Length
    modifies list
    ensures m' <= list.Length && list[..m'] == Last(old(Machine(modulation, rle, list[..m])), x)
    ensures m' >= m && list[m'..] == old(list[m'..])
  {
    hide Times;
    if x <= 8 {
      list[m] := x;
      m' := m + 1;
    } else {
      m' := Repeat(list, m, modulation, if rle == -1 then RleLen(8, x) else RleLen(x, rle));
    }
  }

  // From runs to the list and back: the packed nibbles of any runs whose decoding fits the
  // list are decoded to the expansion of the runs for exactly the kept ones.
  method DecodeRuns(runs: seq<Run>) returns (list: array<Byte>, m: nat)
    requires AllEncodable(runs) && |Decoded(Packed(Encoded(runs)), 4 * |Encoded(runs)|)| <= LIST_SIZE
    ensures fresh(list) && list.Length == LIST_SIZE && m <= LIST_SIZE
    ensures list[..m] == Expanded(runs) <==> Kept(runs)
  {
    hide Decoded, Packed, Encoded, Expanded, Kept;
    PackedRuns(runs);
    list := new Byte[LIST_SIZE](_ => 0);
    m := DecodeTonemap(list, Packed(Encoded(runs)), 4 * |Encoded(runs)|);
  }

  lemma PackedRuns(runs: seq<Run>)
    requires AllEncodable(runs)
    ensures var xs := Encoded(runs);
            && (4 * |xs| + 7) / 8 <= |Packed(xs)|
            && (Decoded(Packed(xs), 4 * |xs|) == Expanded(runs) <==> Kept(runs))
  {
    hide Decoded, Packed, Encoded, Expanded, Kept;
    NibblesPacked(Encoded(runs));
    HalfBytes(|Encoded(runs)|);
    DecodesExactly(runs);
  }

  // 71 runs of 58 places are more than the list has: the last 21 are written past its end.
  method WritesPast() returns (memory: array<Byte>, m: nat)
    ensures m == 71 * 58 == LIST_SIZE + 21 && memory.Length == m && forall i :: 0 <= i < m ==> memory[i] == 8
  {
    hide Decoded, Packed, Encoded, Expanded, Kept;
    var runs := Longest(71);
    PackedRuns(runs);
    LongestExpands(71);
    memory := new Byte[71 * 58](_ => 0);
    m := DecodeTonemap(memory, Packed(Encoded(runs)), 4 * |Encoded(runs)|);
    assert memory[..m] == memory[..];
    forall i | 0 <= i < m ensures memory[i] == 8 { assert memory[i] == memory[..m][i]; }
  }

  function Longest(n: nat): (runs: seq<Run>)
    ensures |runs| == n && AllEncodable(runs) && forall i :: 0 <= i < n ==> runs[i] == Run(8, 58)
  {
    seq(n, _ => Run(8, 58))
  }

  lemma {:induction false} LongestExpands(n: nat)
    ensures Kept(Longest(n)) && |Expanded(Longest(n))| == 58 * n
    ensures forall i :: 0 <= i < 58 * n ==> Expanded(Longest(n))[i] == 8
  {
    if n == 0 {
    } else {
      LongestExpands(n - 1);
      assert Longest(n)[..n - 1] == Longest(n - 1);
    }
  }
}
