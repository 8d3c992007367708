// Every number in a text is read as the value its digits spell.

module JsonNumerals {
  import opened Bytes
  import opened Doubles
  import opened JsonGrammar
  import opened JsonRoundTrip
  import opened JsonSyntax
  import opened JsonText
  import opened JsonValue

  // ---- Digits ----

  // The digits of a number in a text
  ghost predicate DigitsHere(t: Text, p: nat, ds: seq<Digit>) {
    p + |ds| <= |t| && forall i :: 0 <= i < |ds| ==> t[p + i] == DigitByte(ds[i])
  }

  lemma HereDigitsText(t: Text, p: nat, ds: seq<Digit>)
    requires Here(t, p, DigitsText(ds))
    ensures DigitsHere(t, p, ds)
  {
    var s := DigitsText(ds);
    forall i | 0 <= i < |ds| ensures t[p + i] == DigitByte(ds[i]) { HereAt(t, p, s, i); }
  }

  lemma {:induction false} PositionalLast(ds: seq<Digit>)
    requires ds != []
    ensures Positional(ds) == 10 * Positional(ds[..|ds| - 1]) + ds[|ds| - 1]
  {
    var n := |ds| - 1;
    if n == 0 {
      assert ds[1..] == [] && ds[..0] == [];
    } else {
      PositionalLast(ds[1..]);
      assert ds[1..][..n - 1] == ds[..n][1..];
      Shifted(ds[0], n, Positional(ds[..n][1..]));
    }
  }

  lemma Shifted(d: Digit, n: nat, rest: nat)
    requires n > 0
    ensures d * Ten(n) + 10 * rest == 10 * (d * Ten(n - 1) + rest)
  {
  }

  lemma {:induction false} DigitsAre(t: Text, p: nat, ds: seq<Digit>)
    requires DigitsHere(t, p, ds)
    ensures forall i :: p <= i < p + |ds| ==> IsDigit(t[i])
    ensures DigitsValue(t[p..p + |ds|]) == Positional(ds)
  {
    forall i | p <= i < p + |ds| ensures IsDigit(t[i]) { assert t[p + (i - p)] == DigitByte(ds[i - p]); }
    var n := |ds|;
    if n == 0 {
      assert t[p..p] == [];
    } else {
      DigitsAre(t, p, ds[..n - 1]);
      PositionalLast(ds);
      assert t[p..p + n][..n - 1] == t[p..p + n - 1];
      assert t[p..p + n][n - 1] == DigitByte(ds[n - 1]);
    }
  }

  lemma {:induction false} ScaleUp(x: real, k: nat)
    ensures Scale(x, k) == x * Ten(k) as real
    decreases k
  {
    if k == 0 {
    } else {
      ScaleUp(x * 10.0, k - 1);
      TenNext(x, k);
    }
  }

  lemma TenNext(x: real, k: nat)
    requires k > 0
    ensures (x * 10.0) * Ten(k - 1) as real == x * Ten(k) as real
  {
    var t := Ten(k - 1) as real;
    assert Ten(k) as real == 10.0 * t;
    assert (x * 10.0) * t == x * (10.0 * t);
  }

  lemma {:induction false} ScaleDown(x: real, k: nat)
    ensures Scale(x, 0 - k) == x / Ten(k) as real
    decreases k
  {
    if k == 0 {
    } else {
      ScaleDown(x / 10.0, k - 1);
      TenDivided(x, k);
    }
  }

  lemma TenDivided(x: real, k: nat)
    requires k > 0
    ensures x / 10.0 / Ten(k - 1) as real == x / Ten(k) as real
  {
    var t := Ten(k - 1) as real;
    var q := x / 10.0 / t;
    assert q * t == x / 10.0;
    assert Ten(k) as real == 10.0 * t;
    assert q * (10.0 * t) == x;
    Divided(q, x, 10.0 * t);
  }

  // ---- Numbers ----

  // Where the parts of a number end
  datatype Parts = Parts(start: nat, dot: nat, e: nat, x: nat, end: nat)

  function PartsOf(n: Numeral, p: nat): Parts {
    var start := if n.negative then p + 1 else p;
    var dot := start + |n.whole|;
    var e := if n.dot then dot + 1 + |n.fraction| else dot;
    var x := if n.exponent.None? then e else e + 1 + |n.exponent.value.sign|;
    Parts(start, dot, e, x, if n.exponent.None? then e else x + |n.exponent.value.digits|)
  }

  // A number in a text, part by part
  ghost predicate NumeralHere(t: Text, p: nat, n: Numeral) {
    var q := PartsOf(n, p);
    && q.end <= |t| && (if n.negative then At(t, p) == 45 else At(t, p) != 45)
    && DigitsHere(t, q.start, n.whole)
    && (n.dot ==> At(t, q.dot) == 46 && DigitsHere(t, q.dot + 1, n.fraction))
    && (n.exponent.Some? ==>
          var e := n.exponent.value;
          && At(t, q.e) == e.letter && (|e.sign| == 1 ==> At(t, q.e + 1) == e.sign[0])
          && DigitsHere(t, q.x, e.digits))
  }

  lemma NumeralParts(t: Text, p: nat, n: Numeral)
    requires IsNumeral(n) && Here(t, p, NumeralText(n))
    ensures NumeralHere(t, p, n) && PartsOf(n, p).end == p + |NumeralText(n)|
  {
    hide Here, DigitsText, FractionText, ExponentText, NumeralText, DigitsHere;
    var q := PartsOf(n, p);
    NumeralSplit(t, p, n);
    HereDigitsText(t, q.start, n.whole);
    FractionParts(t, q.dot, n.dot, n.fraction);
    ExponentParts(t, q.e, n.exponent);
  }

  lemma NumeralSplit(t: Text, p: nat, n: Numeral)
    requires IsNumeral(n) && Here(t, p, NumeralText(n))
    ensures var q := PartsOf(n, p);
            && Here(t, q.start, DigitsText(n.whole)) && Here(t, q.dot, FractionText(n.dot, n.fraction))
            && Here(t, q.e, ExponentText(n.exponent)) && q.end == p + |NumeralText(n)| <= |t|
            && if n.negative then At(t, p) == 45 else At(t, p) != 45
  {
    hide Here, DigitsText, FractionText, ExponentText, IsNumeral;
    var q := PartsOf(n, p);
    var sign: Text := if n.negative then [45] else [];
    var whole, fraction, exponent := DigitsText(n.whole), FractionText(n.dot, n.fraction), ExponentText(n.exponent);
    HereFits(t, p, NumeralText(n));
    NumeralSign(t, p, n);
    PartLengths(n);
    HereSplit(t, p, sign, whole + (fraction + exponent));
    HereSplit(t, q.start, whole, fraction + exponent);
    HereSplit(t, q.dot, fraction, exponent);
  }

  lemma NumeralSign(t: Text, p: nat, n: Numeral)
    requires IsNumeral(n) && Here(t, p, NumeralText(n))
    ensures if n.negative then At(t, p) == 45 else At(t, p) != 45
  {
    hide Here, DigitsText, FractionText, ExponentText;
    PartLengths(n);
    HereAt(t, p, NumeralText(n), 0);
  }

  lemma HereFits(t: Text, p: nat, s: Text)
    requires Here(t, p, s)
    ensures p + |s| <= |t|
  {
  }

  lemma PartLengths(n: Numeral)
    ensures |DigitsText(n.whole)| == |n.whole| && (n.whole != [] ==> DigitsText(n.whole)[0] != 45)
    ensures |FractionText(n.dot, n.fraction)| == if n.dot then 1 + |n.fraction| else 0
    ensures |ExponentText(n.exponent)| ==
            if n.exponent.None? then 0 else 1 + |n.exponent.value.sign| + |n.exponent.value.digits|
  {
  }

  lemma FractionParts(t: Text, p: nat, dot: bool, fraction: seq<Digit>)
    requires Here(t, p, FractionText(dot, fraction))
    ensures dot ==> At(t, p) == 46 && DigitsHere(t, p + 1, fraction)
  {
    hide Here;
    if dot {
      HereSplit(t, p, [46], DigitsText(fraction));
      HereAt(t, p, [46], 0);
      HereDigitsText(t, p + 1, fraction);
    }
  }

  lemma ExponentParts(t: Text, p: nat, exponent: Option<Exponent>)
    requires Here(t, p, ExponentText(exponent)) && (exponent.Some? ==> LegalExponent(exponent.value))
    ensures exponent.Some? ==>
              var e := exponent.value;
              && At(t, p) == e.letter && (|e.sign| == 1 ==> At(t, p + 1) == e.sign[0])
              && DigitsHere(t, p + 1 + |e.sign|, e.digits)
  {
    hide Here;
    if exponent.Some? {
      var e := exponent.value;
      HereSplit(t, p, [e.letter], e.sign + DigitsText(e.digits));
      HereAt(t, p, [e.letter], 0);
      HereSplit(t, p + 1, e.sign, DigitsText(e.digits));
      if |e.sign| == 1 { HereAt(t, p + 1, e.sign, 0); }
      HereDigitsText(t, p + 1 + |e.sign|, e.digits);
    }
  }

  lemma DigitsStop(t: Text, p: nat, ds: seq<Digit>)
    requires DigitsHere(t, p, ds) && !IsDigit(At(t, p + |ds|))
    ensures DigitsEnd(t, p) == p + |ds| && DigitsValue(t[p..p + |ds|]) == Positional(ds)
    ensures ds != [] ==> IsDigit(At(t, p))
  {
    DigitsAre(t, p, ds);
    DigitsEndAt(t, p, p + |ds|);
  }

  // What strtod has read before an exponent
  function Mantissa(whole: nat, fraction: nat, places: nat): real {
    if places == 0 then whole as real else whole as real + Scale(fraction as real, 0 - places)
  }

  // What strtod finds of a number, up to an exponent
  ghost predicate Found(t: Text, p: nat, q: Parts, whole: nat, dot: bool, fraction: nat, places: nat) {
    && p <= q.start <= q.dot <= q.e <= q.end <= |t| && q.start == (if At(t, p) == MINUS then p + 1 else p)
    && DigitsEnd(t, q.start) == q.dot && (q.start < q.dot || places > 0)
    && (forall i :: q.start <= i < q.dot ==> IsDigit(t[i])) && DigitsValue(t[q.start..q.dot]) == whole
    && (At(t, q.dot) == DOT <==> dot)
    && (!dot ==> q.e == q.dot && places == 0)
    && (dot ==>
          && q.e == q.dot + 1 + places && DigitsEnd(t, q.dot + 1) == q.e
          && (forall i :: q.dot < i < q.e ==> IsDigit(t[i])) && DigitsValue(t[q.dot + 1..q.e]) == fraction
          && (places == 0 ==> fraction == 0))
  }

  ghost predicate FoundNumeral(t: Text, p: nat, n: Numeral) {
    Found(t, p, PartsOf(n, p), Positional(n.whole), n.dot, Positional(n.fraction), |n.fraction|)
  }

  lemma FindsDigits(t: Text, p: nat, n: Numeral)
    requires IsNumeral(n) && NumeralHere(t, p, n) && !GoesOn(n, t, PartsOf(n, p).end)
    ensures FoundNumeral(t, p, n)
  {
    hide DigitsEnd, DigitsValue, Positional, DigitsHere;
    var q := PartsOf(n, p);
    DigitsStop(t, q.start, n.whole);
    if n.dot { DigitsStop(t, q.dot + 1, n.fraction); }
    NoDigits();
  }

  lemma NoDigits()
    ensures Positional([]) == 0
  {
  }

  lemma FindsExponent(t: Text, p: nat, n: Numeral)
    requires IsNumeral(n) && NumeralHere(t, p, n) && !GoesOn(n, t, PartsOf(n, p).end)
    ensures var q := PartsOf(n, p);
            && q.end <= |t| && (n.negative <==> At(t, p) == MINUS)
            && (n.exponent.None? ==> q.end == q.e && !ExponentAt(t, q.e))
            && (n.exponent.Some? ==>
                  && (At(t, q.e) == 101 || At(t, q.e) == 69)
                  && q.x == (if At(t, q.e + 1) == 43 || At(t, q.e + 1) == MINUS then q.e + 2 else q.e + 1)
                  && (At(t, q.e + 1) == MINUS <==> n.exponent.value.sign == [45])
                  && DigitsEnd(t, q.x) == q.end > q.x
                  && (forall i :: q.x <= i < q.end ==> IsDigit(t[i]))
                  && DigitsValue(t[q.x..q.end]) == Positional(n.exponent.value.digits))
  {
    hide DigitsEnd, DigitsValue, Positional, DigitsHere;
    var q := PartsOf(n, p);
    if n.exponent.Some? { DigitsStop(t, q.x, n.exponent.value.digits); }
  }

  lemma StrtodNumeral(t: Text, p: nat, n: Numeral)
    requires IsNumeral(n) && NumeralHere(t, p, n) && !GoesOn(n, t, PartsOf(n, p).end)
    ensures Strtod(t, p) == (PartsOf(n, p).end, NumeralValue(n))
  {
    hide *;
    FindsDigits(t, p, n);
    FindsExponent(t, p, n);
    NumeralIs(n);
    StrtodOf(t, p, n);
  }

  lemma StrtodOf(t: Text, p: nat, n: Numeral)
    requires FoundNumeral(t, p, n)
    requires var q := PartsOf(n, p);
            && q.end <= |t| && (n.negative <==> At(t, p) == MINUS)
            && (n.exponent.None? ==> q.end == q.e && !ExponentAt(t, q.e))
            && (n.exponent.Some? ==>
                  && (At(t, q.e) == 101 || At(t, q.e) == 69)
                  && q.x == (if At(t, q.e + 1) == 43 || At(t, q.e + 1) == MINUS then q.e + 2 else q.e + 1)
                  && (At(t, q.e + 1) == MINUS <==> n.exponent.value.sign == [45])
                  && DigitsEnd(t, q.x) == q.end > q.x
                  && (forall i :: q.x <= i < q.end ==> IsDigit(t[i]))
                  && DigitsValue(t[q.x..q.end]) == Positional(n.exponent.value.digits))
    ensures Strtod(t, p) == (PartsOf(n, p).end, LibraryValue(n))
  {
    hide Strtod, PartsOf, Found, Positional, Scale, Mantissa, DigitsEnd, DigitsValue;
    var q := PartsOf(n, p);
    var whole, fraction := Positional(n.whole), Positional(n.fraction);
    if n.exponent.None? {
      StrtodPlain(t, p, q, whole, n.dot, fraction, |n.fraction|);
    } else {
      StrtodPower(t, p, q, whole, n.dot, fraction, |n.fraction|, Positional(n.exponent.value.digits));
    }
  }

  lemma StrtodPlain(t: Text, p: nat, q: Parts, whole: nat, dot: bool, fraction: nat, places: nat)
    requires Found(t, p, q, whole, dot, fraction, places) && q.end == q.e && !ExponentAt(t, q.e)
    ensures var m := Mantissa(whole, fraction, places);
            Strtod(t, p) == (q.end, if At(t, p) == MINUS then -m else m)
  {
    hide DigitsValue, Scale;
    NoPlaces(Mantissa(whole, fraction, places));
    NoPlaces(0.0);
  }

  lemma StrtodPower(t: Text, p: nat, q: Parts, whole: nat, dot: bool, fraction: nat, places: nat, e: nat)
    requires Found(t, p, q, whole, dot, fraction, places) && (At(t, q.e) == 101 || At(t, q.e) == 69)
    requires q.x == if At(t, q.e + 1) == 43 || At(t, q.e + 1) == MINUS then q.e + 2 else q.e + 1
    requires DigitsEnd(t, q.x) == q.end > q.x
    requires (forall i :: q.x <= i < q.end ==> IsDigit(t[i])) && DigitsValue(t[q.x..q.end]) == e
    ensures var m := Scale(Mantissa(whole, fraction, places), if At(t, q.e + 1) == MINUS then 0 - e else e);
            Strtod(t, p) == (q.end, if At(t, p) == MINUS then -m else m)
  {
    hide DigitsEnd, DigitsValue, Scale;
    NoPlaces(0.0);
  }

  // The value, with the library's scaling
  function LibraryValue(n: Numeral): real {
    var m := Mantissa(Positional(n.whole), Positional(n.fraction), |n.fraction|);
    var v :=
      if n.exponent.None? then m
      else
        var e := Positional(n.exponent.value.digits);
        Scale(m, if n.exponent.value.sign == [45] then 0 - e else e);
    if n.negative then -v else v
  }

  lemma NumeralIs(n: Numeral)
    ensures NumeralValue(n) == LibraryValue(n)
  {
    hide Positional, Ten, Scale;
    NoFraction();
    ScaleDown(Positional(n.fraction) as real, |n.fraction|);
    var m := Mantissa(Positional(n.whole), Positional(n.fraction), |n.fraction|);
    if n.exponent.Some? {
      ScaleUp(m, Positional(n.exponent.value.digits));
      ScaleDown(m, Positional(n.exponent.value.digits));
    }
  }

  lemma NoFraction()
    ensures Positional([]) as real / Ten(0) as real == 0.0
  {
  }

  lemma NumeralRead(t: Text, p: nat, n: Numeral)
    requires IsNumeral(n) && Here(t, p, NumeralText(n)) && !GoesOn(n, t, p + |NumeralText(n)|)
    ensures ParseNumber(t, p) ==
            if Refused(n) then Fail else Ok(AsDouble(NumeralValue(n)), p + |NumeralText(n)|)
  {
    hide Here, Strtod, NumeralText, NumeralValue, AsDouble, NonFiniteWord;
    NumeralParts(t, p, n);
    StrtodNumeral(t, p, n);
    FirstDigits(t, p, n);
  }

  // A number is decimal, whatever strtod made of it, but for some that begin with a zero.
  lemma FirstDigits(t: Text, p: nat, n: Numeral)
    requires IsNumeral(n) && NumeralHere(t, p, n) && !GoesOn(n, t, PartsOf(n, p).end)
    ensures IsDecimal(t, p, PartsOf(n, p).end - p) <==> !Refused(n)
    ensures !HexNumber(t, p) && NonFiniteWord(t, p).None?
  {
    hide NonFiniteWord;
    var q := PartsOf(n, p);
    if n.whole != [] { assert t[q.start + 0] == DigitByte(n.whole[0]); }
    if |n.whole| > 1 { assert t[q.start + 1] == DigitByte(n.whole[1]); }
    NoLetter(t, p);
  }

  lemma NoLetter(t: Text, p: nat)
    requires p <= |t|
    requires var c := At(t, if At(t, p) == MINUS then p + 1 else p); c < 65
    ensures NonFiniteWord(t, p).None?
  {
    var s := if At(t, p) == MINUS then p + 1 else p;
    assert INF[0] == 105 && NAN[0] == 110;
    assert !Spelled(t, s, INF) && !Spelled(t, s, NAN);
  }

  // ---- Words ----

  lemma WordHere(t: Text, p: nat, w: Text, small: Text)
    requires Here(t, p, w) && IsWord(w, small) && !HasX(small)
    requires forall i :: 0 <= i < |small| ==> 97 <= small[i] <= 122
    ensures Spelled(t, p, small) && !HasX(w)
  {
    forall i | 0 <= i < |small| ensures t[p + i] == small[i] || t[p + i] == small[i] - 32 { HereAt(t, p, w, i); }
    forall i | 0 <= i < |w| ensures w[i] != 120 && w[i] != 88 { assert small[i] in small; }
  }

  lemma NotBoth(t: Text, p: nat)
    ensures !(Spelled(t, p, INF) && Spelled(t, p, NAN))
  {
    assert INF[0] == 105 && NAN[0] == 110;
  }

  lemma LongerWord(t: Text, q: nat)
    ensures Spelled(t, q, INITY) <==> q + 5 <= |t| && IsWord(t[q..q + 5], INITY)
  {
    if q + 5 <= |t| {
      var w := t[q..q + 5];
      assert w[0] == t[q] && w[1] == t[q + 1] && w[2] == t[q + 2] && w[3] == t[q + 3] && w[4] == t[q + 4];
    }
  }

  lemma LongInfinity(t: Text, p: nat, w: Text)
    requires Here(t, p, w) && IsWord(w, [105, 110, 102, 105, 110, 105, 116, 121])
    ensures Spelled(t, p, INF) && Spelled(t, p + 3, INITY) && !HasX(w)
  {
    hide Here, Spelled;
    var long: Text := [105, 110, 102, 105, 110, 105, 116, 121];
    assert long[..3] == INF && long[3..] == INITY;
    assert IsWord(w[..3], long[..3]) && IsWord(w[3..], long[3..]);
    assert w == w[..3] + w[3..];
    HereSplit(t, p, w[..3], w[3..]);
    assert !HasX(INF) && !HasX(INITY) && IsWord(w[..3], INF) && IsWord(w[3..], INITY);
    WordHere(t, p, w[..3], INF);
    WordHere(t, p + 3, w[3..], INITY);
  }

  // Where strtod finds the end of the word
  lemma InfinityEnds(t: Text, p: nat, w: InfinityWord)
    requires Here(t, p, w) && !Continued(MinusInfinityWord(w), t, p + |w|)
    ensures Spelled(t, p, INF) && |w| == (if Spelled(t, p + 3, INITY) then 8 else 3) && !HasX(w)
  {
    assert !HasX(INF);
    hide Spelled, HasX, Here;
    if |w| == 3 {
      WordHere(t, p, w, INF);
      LongerWord(t, p + 3);
    } else {
      LongInfinity(t, p, w);
    }
  }

  lemma InfinityRead(t: Text, p: nat, w: InfinityWord)
    requires Here(t, p, [45] + w) && !Continued(MinusInfinityWord(w), t, p + 1 + |w|)
    ensures ParseNumber(t, p) == Ok(NonFinite(MinusInfinity), p + 1 + |w|)
  {
    hide Here, Spelled, IsInfinity, Continued;
    HereSplit(t, p, [45], w);
    HereAt(t, p, [45], 0);
    InfinityEnds(t, p + 1, w);
    WholeWord(t, p, [45] + w);
    assert !HasX([45] + w);
    hide HasX;
  }

  lemma {:induction false} NanEndAt(t: Text, p: nat, q: nat)
    requires p <= q <= |t| && !IsNanCharacter(At(t, q))
    requires forall i :: p <= i < q ==> IsNanCharacter(t[i])
    ensures NanCharactersEnd(t, p) == q
    decreases q - p
  {
    if p < q { NanEndAt(t, p + 1, q); }
  }

  lemma NanTailEnd(t: Text, p: nat, cs: Text)
    requires Here(t, p, cs) && IsNanTail(cs) && !IsNanCharacter(At(t, p + |cs|))
    ensures NanCharactersEnd(t, p) == p + |cs|
  {
    hide NanCharactersEnd;
    forall i | p <= i < p + |cs| ensures IsNanCharacter(t[i]) {
      HereAt(t, p, cs, i - p);
      assert cs[i - p] in cs;
    }
    NanEndAt(t, p, p + |cs|);
  }

  lemma {:induction false} NanCharacters(t: Text, p: nat)
    requires p <= |t|
    ensures IsNanTail(t[p..NanCharactersEnd(t, p)])
    decreases |t| - p
  {
    if p < |t| && IsNanCharacter(t[p]) {
      NanCharacters(t, p + 1);
      assert t[p..NanCharactersEnd(t, p)] == [t[p]] + t[p + 1..NanCharactersEnd(t, p)];
    }
  }

  lemma NanRead(t: Text, p: nat, w: NanWord, tail: Option<NanTail>)
    requires Here(t, p, [45] + (w + TailText(tail))) && !Continued(MinusNan(w, tail), t, p + 4 + |TailText(tail)|)
    ensures ParseNumber(t, p) ==
            if tail.Some? && (120 in tail.value || 88 in tail.value) then Fail
            else Ok(NonFinite(NotANumber), p + 4 + |TailText(tail)|)
  {
    hide Here, NonFiniteWord, Continued, HasX;
    NanFound(t, p, w, tail);
    HereSplit(t, p, [45], w + TailText(tail));
    HereAt(t, p, [45], 0);
    HereSplit(t, p + 1, w, TailText(tail));
    WholeWord(t, p, [45] + (w + TailText(tail)));
    XInTail(t, p + 1, w, tail);
  }

  lemma NanFound(t: Text, p: nat, w: NanWord, tail: Option<NanTail>)
    requires Here(t, p, [45] + (w + TailText(tail))) && !Continued(MinusNan(w, tail), t, p + 4 + |TailText(tail)|)
    ensures p <= |t| && NonFiniteWord(t, p) == Some((p + 4 + |TailText(tail)|, true))
  {
    hide Here, Spelled, NanCharactersEnd, Continued;
    HereSplit(t, p, [45], w + TailText(tail));
    HereAt(t, p, [45], 0);
    HereSplit(t, p + 1, w, TailText(tail));
    WordHere(t, p + 1, w, NAN);
    NotBoth(t, p + 1);
    NanEnds(t, p + 4, w, tail);
  }

  lemma WholeWord(t: Text, p: nat, s: Text)
    requires Here(t, p, s)
    ensures p + |s| <= |t| && t[p..p + |s|] == s
  {
  }

  lemma XInTail(t: Text, p: nat, w: NanWord, tail: Option<NanTail>)
    requires Here(t, p, w)
    ensures HasX([45] + (w + TailText(tail))) <==> tail.Some? && (120 in tail.value || 88 in tail.value)
  {
    WordHere(t, p, w, NAN);
  }

  // Where strtod finds the end of what is behind the word
  lemma NanEnds(t: Text, p: nat, w: NanWord, tail: Option<NanTail>)
    requires p <= |t| && Here(t, p, TailText(tail)) && !Continued(MinusNan(w, tail), t, p + |TailText(tail)|)
    ensures tail.None? ==> !(At(t, p) == 40 && At(t, NanCharactersEnd(t, p + 1)) == 41)
    ensures tail.Some? ==>
              && At(t, p) == 40 && NanCharactersEnd(t, p + 1) == p + 1 + |tail.value|
              && At(t, p + 1 + |tail.value|) == 41
  {
    hide NanCharactersEnd;
    match tail
    case Some(cs) =>
      HereSplit(t, p, [40], cs + [41]);
      HereAt(t, p, [40], 0);
      HereSplit(t, p + 1, cs, [41]);
      HereAt(t, p + 1 + |cs|, [41], 0);
      NanTailEnd(t, p + 1, cs);
    case None =>
      TailFound(t, p);
  }

  lemma TailFound(t: Text, p: nat)
    requires p <= |t|
    ensures At(t, p) == 40 && At(t, NanCharactersEnd(t, p + 1)) == 41 ==>
              exists cs: NanTail :: Here(t, p, [40] + (cs + [41])) && p + 2 + |cs| == NanCharactersEnd(t, p + 1) + 1
  {
    if At(t, p) == 40 {
      NanCharacters(t, p + 1);
      var q := NanCharactersEnd(t, p + 1);
      if At(t, q) == 41 {
        var cs := t[p + 1..q];
        assert t[p..q + 1] == [40] + (cs + [41]);
        assert Here(t, p, [40] + (cs + [41]));
      }
    }
  }
}
