// Whatever the parser accepts is one of the texts of JsonSyntax, so that these are exactly
// what it accepts.

module JsonFinding {
  import opened Bytes
  import opened JsonGrammar
  import opened JsonNumerals
  import opened JsonSyntax

  import S = JsonStrings

  lemma Join(t: Text, p: nat, a: Text, b: Text)
    requires Here(t, p, a) && Here(t, p + |a|, b)
    ensures Here(t, p, a + b)
  {
    assert t[p..p + |a| + |b|] == t[p..p + |a|] + t[p + |a|..p + |a| + |b|];
  }

  lemma Slice(t: Text, p: nat, q: nat)
    requires p <= q <= |t|
    ensures Here(t, p, t[p..q])
  {
  }

  lemma OneByte(t: Text, p: nat)
    requires p < |t|
    ensures Here(t, p, [t[p]])
  {
  }

  // ---- White space ----

  lemma {:induction false} FindsGap(t: Text, p: nat) returns (gap: Gap)
    requires p <= |t|
    ensures Here(t, p, gap) && p + |gap| == SkipSpaces(t, p)
    decreases |t| - p
  {
    if p < |t| && IsSpace(t[p]) {
      var rest := FindsGap(t, p + 1);
      gap := [t[p]] + rest;
      OneByte(t, p);
      Join(t, p, [t[p]], rest);
    } else {
      gap := [];
    }
  }

  // ---- Numbers and words ----

  lemma {:induction false} FindsDigits(t: Text, p: nat) returns (ds: seq<Digit>)
    requires p <= |t|
    ensures Here(t, p, DigitsText(ds)) && p + |ds| == DigitsEnd(t, p)
    decreases |t| - p
  {
    if p < |t| && IsDigit(t[p]) {
      var rest := FindsDigits(t, p + 1);
      ds := [t[p] - 48] + rest;
      OneByte(t, p);
      Join(t, p, [t[p]], DigitsText(rest));
      assert DigitsText(ds) == [t[p]] + DigitsText(rest);
    } else {
      ds := [];
    }
  }

  lemma FindsFraction(t: Text, p: nat) returns (dot: bool, fraction: seq<Digit>)
    requires p <= |t|
    ensures Here(t, p, FractionText(dot, fraction)) && (fraction != [] ==> dot) && (dot <==> At(t, p) == 46)
    ensures p + |FractionText(dot, fraction)| == if dot then DigitsEnd(t, p + 1) else p
  {
    dot, fraction := At(t, p) == 46, [];
    if dot {
      fraction := FindsDigits(t, p + 1);
      OneByte(t, p);
      Join(t, p, [46], DigitsText(fraction));
    }
  }

  lemma FindsExponent(t: Text, p: nat) returns (e: Option<Exponent>)
    requires p <= |t|
    ensures Here(t, p, ExponentText(e)) && (e.Some? ==> LegalExponent(e.value))
    ensures e.None? ==> !ExponentAt(t, p)
    ensures e.Some? ==> !DigitAt(t, p + |ExponentText(e)|)
  {
    hide Here, DigitsText, DigitsEnd;
    Nothing(t, p);
    e := None;
    if ExponentAt(t, p) {
      Nothing(t, p + 1);
      var signed := At(t, p + 1) == 43 || At(t, p + 1) == 45;
      var sign: Text := if signed then [t[p + 1]] else [];
      var x := p + 1 + |sign|;
      var digits := FindsDigits(t, x);
      DigitsEndIs(t, x);
      if signed { OneByte(t, p + 1); }
      e := ExponentJoin(t, p, sign, digits);
    }
  }

  lemma Nothing(t: Text, p: nat)
    requires p <= |t|
    ensures Here(t, p, [])
  {
  }

  lemma ExponentJoin(t: Text, p: nat, sign: Text, digits: seq<Digit>) returns (e: Option<Exponent>)
    requires (At(t, p) == 101 || At(t, p) == 69) && (sign == [] || sign == [43] || sign == [45]) && digits != []
    requires Here(t, p + 1, sign) && Here(t, p + 1 + |sign|, DigitsText(digits))
    ensures e.Some? && LegalExponent(e.value) && Here(t, p, ExponentText(e))
    ensures |ExponentText(e)| == 1 + |sign| + |digits|
  {
    hide Here, DigitsText;
    e := Some(Exponent(t[p], sign, digits));
    OneByte(t, p);
    Join(t, p + 1, sign, DigitsText(digits));
    Join(t, p, [t[p]], sign + DigitsText(digits));
  }

  // A minus with nothing behind it that strtod would read
  ghost predicate BareMinus(t: Text, p: nat) {
    && At(t, p) == 45 && !DigitAt(t, p + 1) && !(At(t, p + 1) == 46 && DigitAt(t, p + 2))
    && !(p + 4 <= |t| && (IsWord(t[p + 1..p + 4], [105, 110, 102]) || IsWord(t[p + 1..p + 4], [110, 97, 110])))
  }

  lemma FindsNumeral(t: Text, p: nat) returns (n: Numeral)
    requires p <= |t| && (At(t, p) == 45 || DigitAt(t, p))
    requires !HexNumber(t, p)
    requires var s := if At(t, p) == 45 then p + 1 else p; DigitAt(t, s) || (At(t, s) == 46 && DigitAt(t, s + 1))
    ensures IsNumeral(n) && Here(t, p, NumeralText(n)) && !GoesOn(n, t, p + |NumeralText(n)|)
  {
    hide Here, DigitsText, FractionText, ExponentText, ExponentAt, DigitsEnd;
    var s := if At(t, p) == 45 then p + 1 else p;
    var whole := FindsDigits(t, s);
    var d := s + |whole|;
    DigitsEndIs(t, s);
    var dot, fraction := FindsFraction(t, d);
    if dot { DigitsEndIs(t, d + 1); }
    var f := d + |FractionText(dot, fraction)|;
    FractionSize(dot, fraction);
    var exponent := FindsExponent(t, f);
    n := Numeral(At(t, p) == 45, whole, dot, fraction, exponent);
    PartLengths(n);
    NumeralJoin(t, p, n);
    assert f + |ExponentText(exponent)| == p + |NumeralText(n)|;
    hide NumeralText, HexNumber;
    if exponent.None? && !dot && whole == [0] { HexEnd(t, p, n); }
  }

  lemma FractionSize(dot: bool, fraction: seq<Digit>)
    ensures |FractionText(dot, fraction)| == if dot then 1 + |fraction| else 0
  {
  }

  lemma DigitsEndIs(t: Text, p: nat)
    requires p <= |t|
    ensures !DigitAt(t, DigitsEnd(t, p)) && (DigitAt(t, p) <==> DigitsEnd(t, p) > p)
  {
  }

  lemma NumeralJoin(t: Text, p: nat, n: Numeral)
    requires (if n.negative then At(t, p) == 45 else At(t, p) != 45) && p <= |t|
    requires var s := if n.negative then p + 1 else p;
             var d := s + |n.whole|;
             && Here(t, s, DigitsText(n.whole)) && Here(t, d, FractionText(n.dot, n.fraction))
             && Here(t, d + |FractionText(n.dot, n.fraction)|, ExponentText(n.exponent))
    ensures Here(t, p, NumeralText(n))
  {
    hide Here, DigitsText, FractionText, ExponentText;
    var sign: Text := if n.negative then [45] else [];
    var whole, fraction, exponent := DigitsText(n.whole), FractionText(n.dot, n.fraction), ExponentText(n.exponent);
    PartLengths(n);
    Nothing(t, p);
    if n.negative { OneByte(t, p); }
    Join(t, p + |sign| + |whole|, fraction, exponent);
    Join(t, p + |sign|, whole, fraction + exponent);
    Join(t, p, sign, whole + (fraction + exponent));
  }

  lemma HexEnd(t: Text, p: nat, n: Numeral)
    requires Here(t, p, NumeralText(n)) && !HexNumber(t, p) && (n.negative <==> At(t, p) == 45)
    requires n.exponent.None? && !n.dot && n.whole == [0]
    ensures var q := p + |NumeralText(n)|;
            !((At(t, q) == 120 || At(t, q) == 88) && (HexAt(t, q + 1) || (At(t, q + 1) == 46 && HexAt(t, q + 2))))
  {
    assert DigitsText([0]) == [48] && NumeralText(n) == (if n.negative then [45, 48] else [48]);
    HereAt(t, p, NumeralText(n), |NumeralText(n)| - 1);
  }

  lemma FindsInfinity(t: Text, p: nat) returns (w: InfinityWord)
    requires Spelled(t, p, INF)
    ensures Here(t, p, w) && !Continued(MinusInfinityWord(w), t, p + |w|)
  {
    hide Spelled;
    FindsWord(t, p, INF);
    LongerWord(t, p + 3);
    if Spelled(t, p + 3, INITY) {
      var long: Text := [105, 110, 102, 105, 110, 105, 116, 121];
      assert long == INF + INITY;
      FindsWord(t, p + 3, INITY);
      assert t[p..p + 8] == t[p..p + 3] + t[p + 3..p + 8];
      Concatenated(t[p..p + 3], INF, t[p + 3..p + 8], INITY);
      w := t[p..p + 8];
    } else {
      w := t[p..p + 3];
    }
  }

  lemma FindsWord(t: Text, p: nat, small: Text)
    requires forall i :: 0 <= i < |small| ==> 97 <= small[i] <= 122
    ensures Spelled(t, p, small) ==> p + |small| <= |t| && IsWord(t[p..p + |small|], small)
  {
    if p + |small| <= |t| {
      var w := t[p..p + |small|];
      assert forall i :: 0 <= i < |small| ==> w[i] == t[p + i];
    }
  }

  lemma Concatenated(a: Text, x: Text, b: Text, y: Text)
    requires IsWord(a, x) && IsWord(b, y)
    ensures IsWord(a + b, x + y)
  {
  }

  lemma FindsNan(t: Text, p: nat) returns (w: NanWord, tail: Option<NanTail>)
    requires Spelled(t, p, NAN)
    ensures Here(t, p, w + TailText(tail)) && !Continued(MinusNan(w, tail), t, p + |w| + |TailText(tail)|)
  {
    hide Here, Spelled, NanCharactersEnd;
    FindsWord(t, p, NAN);
    w, tail := t[p..p + 3], None;
    Slice(t, p, p + 3);
    Nothing(t, p + 3);
    if cs: NanTail :| Here(t, p + 3, [40] + (cs + [41])) {
      tail := Some(cs);
    }
    Join(t, p, w, TailText(tail));
  }

  // What strtod reads: a number, a word, or nothing after a minus
  lemma FindsFigure(t: Text, p: nat) returns (x: Node)
    requires p <= |t| && (At(t, p) == 45 || DigitAt(t, p)) && ParseNumber(t, p).Ok? && !BareMinus(t, p)
    ensures (x.NumberOf? || x.MinusInfinityWord? || x.MinusNan?) && Here(t, p, Spell(x))
    ensures !Continued(x, t, p + |Spell(x)|)
  {
    hide Here, Spelled, Strtod, AsDouble, GoesOn, NumeralText, TailText, IsDecimal;
    var s := if At(t, p) == 45 then p + 1 else p;
    if Spelled(t, s, INF) {
      InfinityStarts(t, p);
      var w := FindsInfinity(t, s);
      x := MinusInfinityWord(w);
      OneByte(t, p);
      Join(t, p, [45], w);
    } else if Spelled(t, s, NAN) {
      InfinityStarts(t, p);
      var w, tail := FindsNan(t, s);
      x := MinusNan(w, tail);
      OneByte(t, p);
      Join(t, p, [45], w + TailText(tail));
    } else {
      NoWordAt(t, s);
      var n := FindsNumeral(t, p);
      x := NumberOf(n);
    }
  }

  lemma InfinityStarts(t: Text, p: nat)
    requires var s := if At(t, p) == 45 then p + 1 else p; Spelled(t, s, INF) || Spelled(t, s, NAN)
    requires At(t, p) == 45 || DigitAt(t, p)
    ensures At(t, p) == 45
  {
    assert INF[0] == 105 && NAN[0] == 110;
  }

  lemma NoWordAt(t: Text, s: nat)
    requires !Spelled(t, s, INF) && !Spelled(t, s, NAN)
    ensures !(s + 3 <= |t| && (IsWord(t[s..s + 3], [105, 110, 102]) || IsWord(t[s..s + 3], [110, 97, 110])))
  {
    if s + 3 <= |t| {
      var w := t[s..s + 3];
      assert forall i :: 0 <= i < 3 ==> w[i] == t[s + i];
    }
  }

  // ---- Strings ----

  // From inside a literal: there is a quote that closes it.
  ghost predicate Closes(t: Text, p: nat)
    decreases |t| - p
  {
    p < |t| && t[p] != 0 &&
    (t[p] == 34 || if t[p] == 92 then At(t, p + 1) != 0 && Closes(t, p + 2) else Closes(t, p + 1))
  }

  lemma {:induction false} ClosedEnd(t: Text, p: nat)
    requires p <= |t|
    ensures Closes(t, p) ==> p < LiteralEnd(t, p) <= |t| && t[LiteralEnd(t, p) - 1] == 34
    ensures !Closes(t, p) ==> At(t, LiteralEnd(t, p)) == 0
    decreases |t| - p
  {
    if p < |t| && t[p] != 0 && t[p] != 34 {
      if t[p] != 92 {
        ClosedEnd(t, p + 1);
      } else if At(t, p + 1) != 0 {
        ClosedEnd(t, p + 2);
      }
    }
  }

  lemma {:induction false} HexCloses(t: Text, p: nat, n: nat)
    requires forall i :: p <= i < p + n ==> IsHex(At(t, i))
    ensures Closes(t, p) ==> Closes(t, p + n)
    decreases n
  {
    if n > 0 {
      assert IsHex(At(t, p));
      HexCloses(t, p + 1, n - 1);
    }
  }

  lemma FindsHex(t: Text, p: nat) returns (h: Text)
    requires FourHex(t, p)
    ensures Here(t, p, h) && S.IsHex4(h) && Hex4(h, 0) == Hex4(t, p) && |h| == 4
    ensures Closes(t, p) ==> Closes(t, p + 4)
  {
    h := t[p..p + 4];
    assert h[0] == t[p] && h[1] == t[p + 1] && h[2] == t[p + 2] && h[3] == t[p + 3];
    HexCloses(t, p, 4);
  }

  lemma ZeroHex(h: Text)
    requires S.IsHex4(h) && Hex4(h, 0) == 0
    ensures h == [48, 48, 48, 48]
  {
  }

  // What one round of process_string takes
  lemma FindsPiece(t: Text, p: nat) returns (x: Piece)
    requires p < |t| && t[p] != 0 && t[p] != 34 && Unit(t, p).Ok?
    ensures Here(t, p, PieceText(x)) && p + |PieceText(x)| == Unit(t, p).next
    ensures Closes(t, p) ==> Closes(t, Unit(t, p).next)
  {
    hide Here, Utf8;
    OneByte(t, p);
    if t[p] != 92 {
      x := Stray(t[p]);
    } else {
      OneByte(t, p + 1);
      Join(t, p, [92], [t[p + 1]]);
      if t[p + 1] == 117 {
        x := FindsUnicode(t, p);
      } else {
        x := One(S.Short(t[p + 1]));
        assert [92] + [t[p + 1]] == [92, t[p + 1]];
      }
    }
  }

  lemma FindsUnicode(t: Text, p: nat) returns (x: Piece)
    requires At(t, p) == 92 && At(t, p + 1) == 117 && Here(t, p, [92] + [117]) && UnicodeEscape(t, p + 1).Ok?
    ensures Here(t, p, PieceText(x)) && p + |PieceText(x)| == UnicodeEscape(t, p + 1).next
    ensures Closes(t, p) ==> Closes(t, UnicodeEscape(t, p + 1).next)
  {
    hide Here, Utf8, Closes, Hex4, FourHex, S.CodePoint;
    assert [92] + [117] == [92, 117];
    var h := FindsHex(t, p + 2);
    EscapeCloses(t, p);
    Join(t, p, [92, 117], h);
    if UnicodeEscape(t, p + 1).next == p + 6 {
      if Hex4(t, p + 2) == 0 {
        ZeroHex(h);
        assert [92, 117] + h == [92, 117, 48, 48, 48, 48];
        x := Nul;
      } else {
        x := One(S.Unicode(h));
      }
    } else {
      var l := FindsHex(t, p + 8);
      EscapeCloses(t, p + 6);
      OneByte(t, p + 6);
      OneByte(t, p + 7);
      Join(t, p + 6, [92], [117]);
      Join(t, p + 6, [92, 117], l);
      Join(t, p, [92, 117] + h, [92, 117] + l);
      assert [92, 117] + h + ([92, 117] + l) == [92, 117] + h + [92, 117] + l;
      x := One(S.Pair(h, l));
    }
  }

  lemma EscapeCloses(t: Text, p: nat)
    requires At(t, p) == 92 && At(t, p + 1) == 117
    ensures Closes(t, p) ==> Closes(t, p + 2)
  {
  }

  lemma {:induction false} FindsPieces(t: Text, p: nat, end: nat) returns (ps: seq<Piece>)
    requires p <= |t| && Closes(t, p) && LiteralEnd(t, p) == end + 1 && Unescape(t, p, end).Some?
    ensures Here(t, p, PiecesText(ps) + [34]) && p + |PiecesText(ps)| == end
    decreases |t| - p
  {
    hide Here, Unit, PieceText;
    if t[p] == 34 {
      ps := [];
      OneByte(t, p);
      assert [] + [34] == [34];
    } else {
      StepInside(t, p, end);
      var x := FindsPiece(t, p);
      var q := p + |PieceText(x)|;
      var rest := FindsPieces(t, q, end);
      ps := [x] + rest;
      Join(t, p, PieceText(x), PiecesText(rest) + [34]);
      assert PiecesText(ps) + [34] == PieceText(x) + (PiecesText(rest) + [34]);
    }
  }

  lemma StepInside(t: Text, p: nat, end: nat)
    requires p <= |t| && Closes(t, p) && t[p] != 34 && LiteralEnd(t, p) == end + 1 && Unescape(t, p, end).Some?
    ensures Unit(t, p).Ok? && Unescape(t, Unit(t, p).next, end).Some?
    ensures p < Unit(t, p).next && LiteralEnd(t, Unit(t, p).next) == end + 1
  {
    hide Unit, LiteralEnd, Closes;
    ClosedEnd(t, p);
    NotYet(t, p);
    S.UnitInside(t, p);
  }

  lemma NotYet(t: Text, p: nat)
    requires Closes(t, p) && t[p] != 34
    ensures p < |t| && t[p] != 0 && p + 1 < LiteralEnd(t, p)
  {
    if t[p] != 92 { ClosedEnd(t, p + 1); } else { ClosedEnd(t, p + 2); }
  }

  // A literal that is closed, whatever it opens with
  lemma FindsQuoted(t: Text, p: nat) returns (ps: seq<Piece>)
    requires p < |t| < SIZE_MAX_PLUS_1 && QuotedString(t, p).0.Some? && Closes(t, p + 1)
    ensures Here(t, p, Quoted(t[p], ps)) && p + |Quoted(t[p], ps)| == QuotedString(t, p).1
  {
    hide Here, Unescape, LiteralEnd, Closes;
    ClosedEnd(t, p + 1);
    var end := LiteralEnd(t, p + 1) - 1;
    assert (end - p - 1) % SIZE_MAX_PLUS_1 == end - p - 1;
    ps := FindsPieces(t, p + 1, end);
    OneByte(t, p);
    Join(t, p, [t[p]], PiecesText(ps) + [34]);
  }
}
