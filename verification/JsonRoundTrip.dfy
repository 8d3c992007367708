// Parsing what the serializer wrote gives the value back, and stops at its end.

module JsonRoundTrip {
  import opened Bytes
  import opened Doubles
  import opened JsonGrammar
  import opened JsonRounding
  import opened JsonText
  import opened JsonValue

  import S = JsonStrings

  // ---- Strings ----

  // Bytes the parser takes back: no control characters other than \b \t \n \f \r.
  predicate PrintableByte(c: Byte) {
    c >= 0x20 || 8 <= c <= 10 || 12 <= c <= 13
  }

  predicate Printable(s: Text) {
    forall i :: 0 <= i < |s| ==> PrintableByte(s[i])
  }

  lemma UnitOfEscape(c: Byte, t: Text, p: nat)
    requires c != 0 && Here(t, p, EscapeByte(c))
    ensures p < |t| && t[p] != 0
    ensures Unit(t, p) == if PrintableByte(c) then Ok([c], p + |EscapeByte(c)|) else Fail
  {
    HereAt(t, p, EscapeByte(c), 0);
    if |EscapeByte(c)| == 2 { HereAt(t, p, EscapeByte(c), 1); }
  }

  lemma UnescapeFails(t: Text, p: nat, end: nat)
    requires p < |t| && p < end && t[p] != 0 && Unit(t, p).Fail?
    ensures Unescape(t, p, end) == None
  {
  }

  lemma LiteralEndByte(c: Byte, t: Text, p: nat)
    requires c != 0 && Here(t, p, EscapeByte(c))
    ensures p + |EscapeByte(c)| <= |t| && LiteralEnd(t, p) == LiteralEnd(t, p + |EscapeByte(c)|)
  {
    HereAt(t, p, EscapeByte(c), 0);
    if |EscapeByte(c)| == 2 { HereAt(t, p, EscapeByte(c), 1); }
  }

  // skip_quotes runs over the escaped string to the closing quote.
  lemma {:induction false} LiteralEndEscaped(s: Text, t: Text, p: nat)
    requires 0 !in s && Here(t, p, Escaped(s) + [QUOTE])
    ensures LiteralEnd(t, p) == p + |Escaped(s)| + 1
    decreases |s|
  {
    hide LiteralEnd, EscapeByte, Here;
    if s == [] {
      assert [] + [QUOTE] == [QUOTE];
      S.LiteralEndQuote(t, p);
    } else {
      var e := EscapeByte(s[0]);
      assert Escaped(s) + [QUOTE] == e + (Escaped(s[1..]) + [QUOTE]);
      HereSplit(t, p, e, Escaped(s[1..]) + [QUOTE]);
      LiteralEndByte(s[0], t, p);
      LiteralEndEscaped(s[1..], t, p + |e|);
    }
  }

  // process_string inverts json_serialize_string on printable strings, and rejects
  // what the serializer wrote for every other string.
  lemma {:induction false} UnescapeEscaped(s: Text, t: Text, p: nat)
    requires 0 !in s && Here(t, p, Escaped(s))
    ensures Unescape(t, p, p + |Escaped(s)|) == if Printable(s) then Some(s) else None
    decreases |s|
  {
    hide Unescape, Unit, Here, EscapeByte, Printable, PrintableByte;
    S.UnescapeEnd(t, p);
    PrintableParts(s);
    if s == [] {
    } else {
      var e, end := EscapeByte(s[0]), p + |Escaped(s)|;
      HereSplit(t, p, e, Escaped(s[1..]));
      UnitOfEscape(s[0], t, p);
      UnescapeEscaped(s[1..], t, p + |e|);
      if PrintableByte(s[0]) {
        S.UnescapeUnit(t, p, end, [s[0]], p + |e|);
        assert s == [s[0]] + s[1..];
      } else {
        UnescapeFails(t, p, end);
      }
    }
  }

  lemma PrintableParts(s: Text)
    ensures s == [] ==> Printable(s)
    ensures s != [] ==> (Printable(s) <==> PrintableByte(s[0]) && Printable(s[1..]))
  {
    assert forall i :: 0 < i < |s| ==> s[i] == s[1..][i - 1];
  }

  lemma ClosedLiteral(t: Text, p: nat, q: nat)
    requires p + 2 <= q <= |t| < SIZE_MAX_PLUS_1 && LiteralEnd(t, p + 1) == q
    ensures QuotedString(t, p) == (ProcessString(t, p + 1, q - p - 2), q)
  {
    hide LiteralEnd, ProcessString;
    assert (q - p - 2) % SIZE_MAX_PLUS_1 == q - p - 2;
  }

  lemma QuotedStringText(s: Text, t: Text, p: nat)
    requires 0 !in s && |t| < SIZE_MAX_PLUS_1 && Here(t, p, StringText(s))
    ensures p < |t| && QuotedString(t, p) == (if Printable(s) then Some(s) else None, p + |StringText(s)|)
  {
    hide Here, LiteralEnd, Unescape, Escaped, Printable, QuotedString;
    var e := Escaped(s);
    assert StringText(s) == [QUOTE] + (e + [QUOTE]);
    HereSplit(t, p, [QUOTE], e + [QUOTE]);
    LiteralEndEscaped(s, t, p + 1);
    HereSplit(t, p + 1, e, [QUOTE]);
    UnescapeEscaped(s, t, p + 1);
    ClosedLiteral(t, p, p + |e| + 2);
    S.UpToNulIs(s);
  }

  // ---- Numbers ----

  // A character that would make a number before it go on.
  predicate ContinuesNumber(c: Byte) {
    IsDigit(c) || c == DOT || c == 101 || c == 69 || c == 120 || c == 88
  }

  // A character that would make -inf or -nan before it go on.
  predicate ContinuesWord(c: Byte) {
    c == 73 || c == 105 || c == 40
  }

  predicate Continues(v: Json, c: Byte) {
    (v.Number? && ContinuesNumber(c)) || (v.NonFinite? && ContinuesWord(c))
  }

  lemma {:induction false} DigitsEndAt(t: Text, p: nat, q: nat)
    requires p <= q <= |t| && !IsDigit(At(t, q))
    requires forall i :: p <= i < q ==> IsDigit(t[i])
    ensures DigitsEnd(t, p) == q
    decreases q - p
  {
    if p < q { DigitsEndAt(t, p + 1, q); }
  }

  lemma {:induction false} DigitsValueDigits(n: nat)
    ensures DigitsValue(Digits(n)) == n
  {
    var d := Digits(n);
    if n < 10 {
      assert d[..|d| - 1] == [];
    } else {
      DigitsValueDigits(n / 10);
      assert d[..|d| - 1] == Digits(n / 10);
    }
  }

  lemma {:induction false} LeadingDigit(n: nat)
    ensures Digits(n)[0] == ZERO <==> n == 0
    ensures n < 10 <==> |Digits(n)| == 1
  {
    if n >= 10 { LeadingDigit(n / 10); }
  }

  // strtod reads a run of digits, and nothing after it.
  lemma StrtodDigits(t: Text, p: nat, s: nat, q: nat)
    requires p <= s < q <= |t| && s == (if At(t, p) == MINUS then p + 1 else p)
    requires !ContinuesNumber(At(t, q)) && forall i :: s <= i < q ==> IsDigit(t[i])
    ensures Strtod(t, p) == (q, if s > p then -(DigitsValue(t[s..q]) as real) else DigitsValue(t[s..q]) as real)
  {
    DigitsEndAt(t, s, q);
  }

  // strtod reads digits, a point and six digits, and nothing after them.
  lemma StrtodDecimals(t: Text, p: nat, s: nat, d: nat)
    requires p <= s < d && d + 7 <= |t| && s == (if At(t, p) == MINUS then p + 1 else p)
    requires forall i :: s <= i < d ==> IsDigit(t[i])
    requires t[d] == DOT && (forall i :: d < i < d + 7 ==> IsDigit(t[i])) && !ContinuesNumber(At(t, d + 7))
    ensures var x := DigitsValue(t[s..d]) as real + DigitsValue(t[d + 1..d + 7]) as real / 1000000.0;
            Strtod(t, p) == (d + 7, if s > p then -x else x)
  {
    hide DigitsValue, Scale;
    DigitsEndAt(t, s, d);
    DigitsEndAt(t, d + 1, d + 7);
    var f := DigitsValue(t[d + 1..d + 7]) as real;
    SixPlaces(f);
    NoPlaces(DigitsValue(t[s..d]) as real + f / 1000000.0);
  }

  lemma SixPlaces(x: real)
    ensures Scale(x, -6) == x / 1000000.0
  {
    assert Scale(x, -6) == x / 10.0 / 10.0 / 10.0 / 10.0 / 10.0 / 10.0;
  }

  lemma NoPlaces(x: real)
    ensures Scale(x, 0) == x
  {
  }

  lemma DecimalsValue(f: nat)
    requires f < 1000000
    ensures DigitsValue(Decimals(f)) == f
  {
    hide DigitsValue;
    var d := Decimals(f);
    DigitsValueFront(d, 0);
    DigitsValueFront(d, 1);
    DigitsValueFront(d, 2);
    DigitsValueFront(d, 3);
    DigitsValueFront(d, 4);
    DigitsValueFront(d, 5);
    assert d[..6] == d;
  }

  lemma HereDecimals(t: Text, p: nat, f: nat)
    requires f < 1000000 && Here(t, p, Decimals(f))
    ensures p + 6 <= |t| && (forall i :: p <= i < p + 6 ==> IsDigit(t[i])) && DigitsValue(t[p..p + 6]) == f
  {
    hide Decimals;
    assert t[p..p + 6] == Decimals(f);
    forall i | p <= i < p + 6 ensures IsDigit(t[i]) { HereAt(t, p, Decimals(f), i - p); }
    DecimalsValue(f);
  }

  lemma DigitsValueFront(d: Text, i: nat)
    requires i < |d| && forall i :: 0 <= i < |d| ==> IsDigit(d[i])
    ensures DigitsValue(d[..i + 1]) == 10 * DigitsValue(d[..i]) + (d[i] as int - 48)
    ensures DigitsValue(d[..0]) == 0
  {
    assert d[..i + 1][..i] == d[..i];
  }

  // No leading zero but before a point, so the token is decimal and not hexadecimal.
  lemma PlainDecimal(n: nat, t: Text, p: nat, s: nat, length: nat)
    requires p <= s == (if At(t, p) == MINUS then p + 1 else p) && Here(t, s, Digits(n))
    requires var q := s + |Digits(n)|;
             if p + length == q then !ContinuesNumber(At(t, q)) else p + length > q && At(t, q) == DOT
    ensures IsDecimal(t, p, length) && !HexNumber(t, p) && NonFiniteWord(t, p).None?
  {
    var d := Digits(n);
    LeadingDigit(n);
    HereAt(t, s, d, 0);
    if |d| > 1 { HereAt(t, s, d, 1); }
    DigitStartsNoWord(t, p);
  }

  lemma DigitStartsNoWord(t: Text, p: nat)
    requires p <= |t| && IsDigit(At(t, if At(t, p) == MINUS then p + 1 else p))
    ensures NonFiniteWord(t, p).None?
  {
    var s := if At(t, p) == MINUS then p + 1 else p;
    DigitIsNoLetter(t, s, INF);
    DigitIsNoLetter(t, s, NAN);
  }

  lemma DigitIsNoLetter(t: Text, p: nat, word: Text)
    requires IsDigit(At(t, p)) && word != [] && forall i :: 0 <= i < |word| ==> 97 <= word[i] <= 122
    ensures !Spelled(t, p, word)
  {
    assert word[0] >= 97;
  }

  lemma HereDigits(t: Text, s: nat, n: nat)
    requires Here(t, s, Digits(n))
    ensures s + |Digits(n)| <= |t| && (forall i :: s <= i < s + |Digits(n)| ==> IsDigit(t[i])) &&
            DigitsValue(t[s..s + |Digits(n)|]) == n
    ensures At(t, s) == Digits(n)[0]
  {
    var d := Digits(n);
    assert t[s..s + |d|] == d;
    forall i | s <= i < s + |d| ensures IsDigit(t[i]) { HereAt(t, s, d, i - s); }
    DigitsValueDigits(n);
  }

  lemma StrtodInteger(n: int, t: Text, p: nat)
    requires Here(t, p, IntegerText(n)) && !ContinuesNumber(At(t, p + |IntegerText(n)|))
    ensures Strtod(t, p) == (p + |IntegerText(n)|, n as real)
  {
    hide Here, Strtod, Digits, DigitsValue;
    if n < 0 {
      HereSplit(t, p, [MINUS], Digits(-n));
      HereAt(t, p, [MINUS], 0);
      HereDigits(t, p + 1, -n);
      StrtodDigits(t, p, p + 1, p + |IntegerText(n)|);
    } else {
      HereDigits(t, p, n);
      StrtodDigits(t, p, p, p + |IntegerText(n)|);
    }
  }

  lemma IntegerRead(n: int, t: Text, p: nat)
    requires Here(t, p, IntegerText(n)) && !ContinuesNumber(At(t, p + |IntegerText(n)|))
    ensures ParseNumber(t, p) == Ok(AsDouble(n as real), p + |IntegerText(n)|)
  {
    hide Here, Strtod, Digits, IsDecimal, HexNumber, NonFiniteWord, ContinuesNumber, AsDouble;
    StrtodInteger(n, t, p);
    var m := if n < 0 then -n else n;
    if n < 0 {
      HereSplit(t, p, [MINUS], Digits(m));
      HereAt(t, p, [MINUS], 0);
      PlainDecimal(m, t, p, p + 1, |IntegerText(n)|);
    } else {
      HereDigits(t, p, m);
      PlainDecimal(m, t, p, p, |IntegerText(n)|);
    }
  }

  // A magnitude with six decimals, after the sign
  lemma FixedRead(n: nat, t: Text, p: nat, s: nat)
    requires p <= s <= |t| && s == (if At(t, p) == MINUS then p + 1 else p)
    requires Here(t, s, Digits(n / 1000000) + ([DOT] + Decimals(n % 1000000)))
    requires !ContinuesNumber(At(t, s + |Digits(n / 1000000)| + 7))
    ensures var x, q := n as real / 1000000.0, s + |Digits(n / 1000000)| + 7;
            ParseNumber(t, p) == Ok(AsDouble(if s > p then -x else x), q)
  {
    hide Here, AsDouble, Strtod, Digits, IsDecimal, HexNumber, NonFiniteWord, ContinuesNumber, Decimals, DigitsValue;
    var whole, part := n / 1000000, n % 1000000;
    var d := s + |Digits(whole)|;
    HereSplit(t, s, Digits(whole), [DOT] + Decimals(part));
    HereSplit(t, d, [DOT], Decimals(part));
    HereAt(t, d, [DOT], 0);
    HereDigits(t, s, whole);
    HereDecimals(t, d + 1, part);
    StrtodDecimals(t, p, s, d);
    PlainDecimal(whole, t, p, s, d + 7 - p);
    MillionthsSplit(n);
  }

  lemma MillionthsSplit(n: nat)
    ensures (n / 1000000) as real + (n % 1000000) as real / 1000000.0 == n as real / 1000000.0
  {
    var whole, part := n / 1000000, n % 1000000;
    assert n as real == whole as real * 1000000.0 + part as real;
  }

  // The range of printf's %lld
  const LONG_LONG: real := 9223372036854775808.0

  // No number in the range of a 64-bit integer overflows.
  lemma InRange(x: real)
    requires -LONG_LONG <= x <= LONG_LONG
    ensures AsDouble(x) == Number(Fl(x)) && -HUGE < Fl(x) < HUGE
  {
    hide Fl;
    FlClose(x);
    hide Power;
    Powers();
    PowerGrows(53, 64);
    PowerSum(53, 11);
    PowerTen(1);
    PowerOne();
    PowerGrows(64, 1024);
  }

  lemma PowerOne()
    ensures Power(1) == 2.0 && Power(11) == 2048.0
  {
    PowerTen(1);
  }

  lemma RoundedInRange(r: real)
    requires IsDouble(r) && -LONG_LONG <= r < LONG_LONG
    ensures HoldsDoubles(Number(Rounded(r)))
    ensures var n: int := Millionths(r);
            !IsInteger(r) ==> AsDouble(Decimal(if r < 0.0 then -n else n)) == Number(Rounded(r))
    ensures IsInteger(r) ==> AsDouble(r) == Number(Rounded(r))
  {
    hide Fl, IsInteger, AsDouble;
    var n: int := Millionths(r);
    if IsInteger(r) {
      InRange(r);
    } else {
      hide Nearest;
      NearestClose((if r < 0.0 then -r else r) * 1000000.0);
      FractionBelow(r);
      var x := Decimal(if r < 0.0 then -n else n);
      InRange(x);
      FlTwice(x);
    }
  }

  // What is printed for a number is read back, and the read stops at its end.
  lemma NumberRead(r: real, t: Text, p: nat)
    requires IsDouble(r) && -LONG_LONG <= r < LONG_LONG
    requires Here(t, p, NumberText(r)) && !ContinuesNumber(At(t, p + |NumberText(r)|))
    ensures ParseNumber(t, p) == Ok(Number(Rounded(r)), p + |NumberText(r)|)
  {
    hide *;
    RoundedInRange(r);
    NumberTextIs(r);
    var n := Millionths(r);
    if IsInteger(r) {
      IntegerIs(r, r.Floor);
      IntegerRead(r.Floor, t, p);
    } else if r < 0.0 {
      NegativeRead(n, t, p);
    } else {
      PositiveRead(n, t, p);
    }
  }

  // A magnitude with six decimals
  function FixedMagnitude(n: nat): Text {
    Digits(n / 1000000) + ([DOT] + Decimals(n % 1000000))
  }

  lemma NumberTextIs(r: real)
    ensures var n: int := Millionths(r);
            NumberText(r) == if IsInteger(r) then IntegerText(r.Floor)
                             else if r < 0.0 then [MINUS] + FixedMagnitude(n) else FixedMagnitude(n)
    ensures IsInteger(r) ==> r == r.Floor as real
  {
    hide Digits, Decimals, Millionths;
    var text := FixedMagnitude(Millionths(r));
    assert [] + text == text;
  }

  lemma NegativeRead(n: nat, t: Text, p: nat)
    requires var text := [MINUS] + FixedMagnitude(n); Here(t, p, text) && !ContinuesNumber(At(t, p + |text|))
    ensures var k: int := n; ParseNumber(t, p) == Ok(AsDouble(Decimal(-k)), p + |[MINUS] + FixedMagnitude(n)|)
  {
    hide Here, ParseNumber, Digits, Decimals, ContinuesNumber, AsDouble;
    HereSplit(t, p, [MINUS], FixedMagnitude(n));
    HereAt(t, p, [MINUS], 0);
    FixedRead(n, t, p, p + 1);
    var k: int := n;
    assert Decimal(-k) == -(n as real / 1000000.0);
  }

  lemma PositiveRead(n: nat, t: Text, p: nat)
    requires Here(t, p, FixedMagnitude(n)) && !ContinuesNumber(At(t, p + |FixedMagnitude(n)|))
    ensures ParseNumber(t, p) == Ok(AsDouble(Decimal(n)), p + |FixedMagnitude(n)|)
  {
    hide Here, ParseNumber, Digits, Decimals, ContinuesNumber, AsDouble;
    NoSign(t, p, n / 1000000, [DOT] + Decimals(n % 1000000));
    FixedRead(n, t, p, p);
  }

  lemma NoSign(t: Text, p: nat, n: nat, rest: Text)
    requires Here(t, p, Digits(n) + rest)
    ensures p <= |t| && At(t, p) != MINUS
  {
    HereSplit(t, p, Digits(n), rest);
    HereAt(t, p, Digits(n), 0);
  }

  // The words with a sign
  lemma WordRead(what: Special, t: Text, p: nat)
    requires !what.PlusInfinity?
    requires Here(t, p, NonFiniteText(what)) && !ContinuesWord(At(t, p + |NonFiniteText(what)|))
    ensures ParseNumber(t, p) == Ok(NonFinite(what), p + |NonFiniteText(what)|)
  {
    var word := NonFiniteText(what);
    HereAt(t, p, word, 0);
    HereAt(t, p, word, 1);
    HereAt(t, p, word, 2);
    HereAt(t, p, word, 3);
    assert t[p..p + 4] == word;
    assert !HasX(word);
    hide HasX;
    WordSpelled(t, p, what.NotANumber?);
    hide Spelled;
  }

  lemma WordSpelled(t: Text, p: nat, nan: bool)
    requires p + 4 <= |t| && t[p + 1..p + 4] == (if nan then NAN else INF) && !ContinuesWord(At(t, p + 4))
    ensures Spelled(t, p + 1, INF) <==> !nan
    ensures Spelled(t, p + 1, NAN) <==> nan
    ensures !Spelled(t, p + 4, INITY)
  {
    var word := if nan then NAN else INF;
    var s := t[p + 1..p + 4];
    assert s[0] == t[p + 1] && s[1] == t[p + 2] && s[2] == t[p + 3];
    assert INITY[0] == 105 && INF[0] == 105 && NAN[0] == 110;
    assert word[0] == t[p + 1];
  }

  // ---- Layout ----

  predicate Blank(s: Text) {
    forall i :: 0 <= i < |s| ==> IsSpace(s[i])
  }

  lemma {:induction false} SkipOver(t: Text, p: nat, gap: Text)
    requires Here(t, p, gap) && Blank(gap)
    ensures SkipSpaces(t, p) == SkipSpaces(t, p + |gap|)
    decreases |gap|
  {
    if gap == [] {
    } else {
      HereAt(t, p, gap, 0);
      assert gap == [gap[0]] + gap[1..];
      HereSplit(t, p, [gap[0]], gap[1..]);
      SkipOver(t, p + 1, gap[1..]);
    }
  }

  lemma BlankMargins(pretty: bool, level: nat)
    ensures Blank(Margin(pretty, level)) && Blank(Break(pretty))
  {
    forall i | 0 <= i < |Indent(level)| ensures Indent(level)[i] == SPACE { assert Indent(level)[i] in Indent(level); }
  }

  // ---- Values ----

  // What can be put into a text at all: doubles the code can convert to an integer to
  // see whether they are one, strings without NUL, distinct names, counts within the
  // capacities.
  ghost predicate Storable(v: Json) {
    match v
    case Number(r) => IsDouble(r) && -LONG_LONG <= r < LONG_LONG
    case String(s) => 0 !in s
    case Array(items) => |items| <= ARRAY_MAX_CAPACITY && forall i :: 0 <= i < |items| ==> Storable(items[i])
    case Object(ms) =>
      && |ms| <= OBJECT_MAX_CAPACITY && DistinctNames(ms)
      && forall i :: 0 <= i < |ms| ==> 0 !in ms[i].name && Storable(ms[i].value)
    case _ => true
  }

  // What the parser takes back: nesting within its limit, no control characters in
  // strings and names but those that have an escape, and no plus infinity, which is
  // printed as a word it does not know.
  ghost predicate Readable(v: Json, nesting: nat) {
    && nesting <= MAX_NESTING
    && match v
       case NonFinite(what) => !what.PlusInfinity?
       case String(s) => Printable(s)
       case Array(items) => forall x <- items :: Readable(x, nesting + 1)
       case Object(ms) => forall m <- ms :: Printable(m.name) && Readable(m.value, nesting + 1)
       case _ => true
  }

  ghost predicate Acceptable(v: Json) {
    match v
    case NonFinite(what) => !what.PlusInfinity?
    case String(s) => Printable(s)
    case Array(items) => forall x <- items :: Acceptable(x)
    case Object(ms) => forall m <- ms :: Printable(m.name) && Acceptable(m.value)
    case _ => true
  }

  lemma {:induction false} ReadableIs(v: Json, nesting: nat)
    ensures Readable(v, nesting) <==> FitsNesting(v, nesting) && Acceptable(v)
  {
    hide Printable;
    if nesting <= MAX_NESTING {
      match v
      case Array(items) =>
        forall x <- items ensures Readable(x, nesting + 1) <==> FitsNesting(x, nesting + 1) && Acceptable(x) {
          ReadableIs(x, nesting + 1);
        }
      case Object(ms) =>
        forall m <- ms
          ensures Readable(m.value, nesting + 1) <==> FitsNesting(m.value, nesting + 1) && Acceptable(m.value)
        {
          ReadableIs(m.value, nesting + 1);
        }
      case _ =>
    }
  }

  // What is read keeps what the parser promises of every value.
  lemma {:induction false} PrintedIsSound(v: Json, nesting: nat)
    requires Storable(v) && Readable(v, nesting)
    ensures Sound(Printed(v), nesting)
  {
    hide Printable;
    match v
    case Array(items) =>
      var ps := PrintedItems(items);
      forall x <- ps ensures Sound(x, nesting + 1) {
        var i :| 0 <= i < |ps| && ps[i] == x;
        assert items[i] in items;
        PrintedIsSound(items[i], nesting + 1);
      }
    case Object(ms) =>
      var ps := PrintedMembers(ms);
      forall m <- ps ensures Sound(m.value, nesting + 1) {
        var i :| 0 <= i < |ps| && ps[i] == m;
        assert ms[i] in ms;
        PrintedIsSound(ms[i].value, nesting + 1);
      }
    case Number(r) => RoundedInRange(r);
    case _ =>
  }

  lemma StorableMembers(ms: seq<Member>)
    requires Storable(Object(ms))
    ensures |ms| <= OBJECT_MAX_CAPACITY && DistinctNames(ms)
    ensures forall i :: 0 <= i < |ms| ==> 0 !in ms[i].name && Storable(ms[i].value)
  {
  }

  lemma StorableItems(items: seq<Json>)
    requires Storable(Array(items))
    ensures |items| <= ARRAY_MAX_CAPACITY && forall i :: 0 <= i < |items| ==> Storable(items[i])
  {
  }

  lemma {:induction false} StorableIsSound(v: Json)
    requires Storable(v)
    ensures UniqueNames(v) && WithinCaps(v) && HoldsDoubles(v)
  {
    match v
    case Number(r) => InRange(r);
    case Array(items) =>
      forall x <- items ensures UniqueNames(x) && WithinCaps(x) && HoldsDoubles(x) { StorableIsSound(x); }
    case Object(ms) =>
      forall m <- ms ensures UniqueNames(m.value) && WithinCaps(m.value) && HoldsDoubles(m.value) {
        StorableIsSound(m.value);
      }
    case _ =>
  }

  // The first character of a value is what parse_value switches on.
  lemma FirstCharacter(v: Json, level: nat, pretty: bool)
    ensures var c := ValueText(v, level, pretty)[0];
            && !IsSpace(c) && c != RBRACE && c != RBRACKET && c != 0
            && (v.Number? || v.NonFinite? ==> c == MINUS || IsDigit(c) || v == NonFinite(PlusInfinity))
            && (v == NonFinite(PlusInfinity) ==> c == 105)
  {
  }

  lemma MoreMembersStep(t: Text, q: nat, more: bool, r: nat, nesting: nat, acc: seq<Member>)
    requires q <= |t| && r <= |t| && 0 < nesting <= MAX_NESTING + 1 && SoundMembers(acc, nesting)
    requires if more then At(t, SkipSpaces(t, q)) == COMMA && SkipSpaces(t, SkipSpaces(t, q) + 1) == SkipSpaces(t, r)
             else SkipSpaces(t, q) == SkipSpaces(t, r) && At(t, SkipSpaces(t, r)) == RBRACE
    ensures MoreMembers(t, q, nesting, acc) ==
            if more then ParseMembers(t, SkipSpaces(t, r), nesting, acc) else Ok(Object(acc), SkipSpaces(t, r) + 1)
  {
    hide ParseMembers, SkipSpaces;
  }

  lemma ParseAfterSpaces(t: Text, p: nat, q: nat, nesting: nat)
    requires p <= |t| && q <= |t| && SkipSpaces(t, p) == SkipSpaces(t, q)
    ensures ParseValue(t, p, nesting) == ParseValue(t, q, nesting)
  {
  }

  // After a value: an optional comma, a line break, and the rest of the container
  // at position r, whose first non-space character is at `next`.
  lemma AfterValue(t: Text, q: nat, more: bool, pretty: bool, rest: Text)
    requires Here(t, q, Comma(more) + (Break(pretty) + rest))
    requires !more ==> rest != [] && (IsSpace(rest[0]) || rest[0] == RBRACE || rest[0] == RBRACKET)
    ensures var r := q + |Comma(more)| + |Break(pretty)|;
            && Here(t, r, rest) && r + |rest| <= |t|
            && (if more then At(t, SkipSpaces(t, q)) == COMMA && SkipSpaces(t, SkipSpaces(t, q) + 1) == SkipSpaces(t, r)
                else SkipSpaces(t, q) == SkipSpaces(t, r))
            && !ContinuesNumber(At(t, q)) && !ContinuesWord(At(t, q))
  {
    hide Here, SkipSpaces;
    BlankMargins(pretty, 0);
    HereSplit(t, q, Comma(more), Break(pretty) + rest);
    var q' := q + |Comma(more)|;
    HereSplit(t, q', Break(pretty), rest);
    SkipOver(t, q', Break(pretty));
    if more { HereAt(t, q, [COMMA], 0); NotSpace(t, q); }
    else if pretty { HereAt(t, q', Break(pretty), 0); }
    else { HereAt(t, q', rest, 0); }
  }

  lemma ClosingText(t: Text, p: nat, level: nat, pretty: bool, close: Byte)
    requires close == RBRACE || close == RBRACKET
    requires Here(t, p, Margin(pretty, level) + [close])
    ensures p + |Margin(pretty, level)| < |t|
    ensures SkipSpaces(t, p) == p + |Margin(pretty, level)| && At(t, SkipSpaces(t, p)) == close
  {
    BlankMargins(pretty, level);
    HereSplit(t, p, Margin(pretty, level), [close]);
    HereAt(t, p + |Margin(pretty, level)|, [close], 0);
    SkipOver(t, p, Margin(pretty, level));
  }

  lemma FirstOfRest(level: nat, pretty: bool)
    ensures var s := Margin(pretty, level) + [RBRACE]; IsSpace(s[0]) || s[0] == RBRACE
    ensures var s := Margin(pretty, level) + [RBRACKET]; IsSpace(s[0]) || s[0] == RBRACKET
  {
    BlankMargins(pretty, level);
  }

  // A gap of spaces, then text that starts with something else.
  lemma AfterGap(t: Text, p: nat, gap: Text, rest: Text)
    requires Here(t, p, gap + rest) && Blank(gap) && rest != [] && !IsSpace(rest[0])
    ensures var q := p + |gap|;
            && q < |t| && q + |rest| <= |t| && Here(t, q, rest) && t[q] == rest[0]
            && SkipSpaces(t, p) == q == SkipSpaces(t, q)
  {
    HereSplit(t, p, gap, rest);
    HereAt(t, p + |gap|, rest, 0);
    SkipOver(t, p, gap);
  }

  lemma StringTextOpens(s: Text)
    ensures |StringText(s)| > 0 && StringText(s)[0] == QUOTE
  {
  }

  // The colon, and the space the pretty layout puts after it.
  lemma ColonGap(t: Text, k: nat, pretty: bool, rest: Text)
    requires Here(t, k, Separator(pretty) + rest)
    ensures k + |Separator(pretty)| <= |t| && Here(t, k + |Separator(pretty)|, rest)
    ensures SkipSpaces(t, k) == k && At(t, k) == COLON
    ensures SkipSpaces(t, k + 1) == SkipSpaces(t, k + |Separator(pretty)|)
  {
    HereSplit(t, k, Separator(pretty), rest);
    HereAt(t, k, Separator(pretty), 0);
    if pretty { HereAt(t, k, Separator(pretty), 1); }
  }

  function ReadName(name: Text): Option<Text> {
    if Printable(name) then Some(name) else None
  }

  // Up to the value of a member: the name is read, and the value begins at v.
  lemma MemberHead(t: Text, p: nat, name: Text, level: nat, pretty: bool, rest: Text, nesting: nat)
      returns (n: nat, v: nat)
    requires 0 !in name && |t| < SIZE_MAX_PLUS_1
    requires Here(t, p, Margin(pretty, level) + (StringText(name) + (Separator(pretty) + rest)))
    ensures n == p + |Margin(pretty, level)| && n < |t| && t[n] != 0 && SkipSpaces(t, p) == n
    ensures v == n + |StringText(name)| + |Separator(pretty)| && Here(t, v, rest)
    ensures var k := n + |StringText(name)|;
            && QuotedString(t, n) == (ReadName(name), k)
            && SkipSpaces(t, k) == k && At(t, k) == COLON
            && ParseValue(t, k + 1, nesting) == ParseValue(t, v, nesting)
  {
    hide ParseValue, QuotedString, StringText, Margin, Here, SkipSpaces, Separator;
    BlankMargins(pretty, level);
    StringTextOpens(name);
    n := p + |Margin(pretty, level)|;
    AfterGap(t, p, Margin(pretty, level), StringText(name) + (Separator(pretty) + rest));
    HereSplit(t, n, StringText(name), Separator(pretty) + rest);
    QuotedStringText(name, t, n);
    var k := n + |StringText(name)|;
    ColonGap(t, k, pretty, rest);
    v := k + |Separator(pretty)|;
    ParseAfterSpaces(t, k + 1, v, nesting);
  }

  ghost predicate MembersFit(ms: seq<Member>, k: nat, nesting: nat) {
    forall i :: k <= i < |ms| ==> Printable(ms[i].name) && Readable(ms[i].value, nesting)
  }

  // The members read so far
  lemma SoundPrefix(ms: seq<Member>, k: nat, nesting: nat)
    requires k <= |ms| <= OBJECT_MAX_CAPACITY && DistinctNames(ms)
    requires forall i :: 0 <= i < |ms| ==> Storable(ms[i].value)
    requires forall i :: 0 <= i < k ==> Readable(ms[i].value, nesting)
    ensures SoundMembers(PrintedMembers(ms)[..k], nesting)
    ensures k < |ms| ==> !HasName(PrintedMembers(ms)[..k], ms[k].name)
    ensures k < |ms| ==>
              PrintedMembers(ms)[..k] + [Member(ms[k].name, Printed(ms[k].value))] == PrintedMembers(ms)[..k + 1]
  {
    hide Readable, Storable;
    var ps := PrintedMembers(ms);
    forall m <- ps[..k] ensures Sound(m.value, nesting) {
      var i :| 0 <= i < k && ps[i] == m;
      PrintedIsSound(ms[i].value, nesting);
    }
  }

  // A value, and what follows it in its container: from r on, the rest, whose first
  // character is met after a comma or is the closing one.
  lemma ValueLayout(t: Text, v: nat, text: Text, more: bool, pretty: bool, rest: Text, level: nat, close: Byte)
    returns (q: nat, r: nat)
    requires close == RBRACE || close == RBRACKET
    requires Here(t, v, text + (Comma(more) + (Break(pretty) + rest)))
    requires !more ==> rest == Margin(pretty, level) + [close]
    ensures q == v + |text| && r == q + |Comma(more)| + |Break(pretty)| && r + |rest| <= |t|
    ensures Here(t, v, text) && Here(t, r, rest) && !ContinuesNumber(At(t, q)) && !ContinuesWord(At(t, q))
    ensures more ==> At(t, SkipSpaces(t, q)) == COMMA && SkipSpaces(t, SkipSpaces(t, q) + 1) == SkipSpaces(t, r)
    ensures !more ==> SkipSpaces(t, q) == SkipSpaces(t, r) && At(t, SkipSpaces(t, r)) == close
    ensures !more ==> SkipSpaces(t, r) + 1 == r + |rest|
  {
    hide Here, SkipSpaces;
    HereSplit(t, v, text, Comma(more) + (Break(pretty) + rest));
    FirstOfRest(level, pretty);
    q := v + |text|;
    AfterValue(t, q, more, pretty, rest);
    r := q + |Comma(more)| + |Break(pretty)|;
    if !more { ClosingText(t, r, level, pretty, close); }
  }

  // One member of the text: its name at n, its value from v to q, the rest from r.
  lemma MemberLayout(ms: seq<Member>, k: nat, t: Text, p: nat, level: nat, pretty: bool, nesting: nat)
    returns (n: nat, v: nat, q: nat, r: nat)
    requires k < |ms| && 0 !in ms[k].name && |t| < SIZE_MAX_PLUS_1
    requires Here(t, p, MembersText(ms[k..], level, pretty))
    ensures n + |StringText(ms[k].name)| < v <= q <= r <= |t| && t[n] != 0 && SkipSpaces(t, p) == n
    ensures Here(t, v, ValueText(ms[k].value, level + 1, pretty)) &&
            q == v + |ValueText(ms[k].value, level + 1, pretty)|
    ensures !ContinuesNumber(At(t, q)) && !ContinuesWord(At(t, q))
    ensures var e := n + |StringText(ms[k].name)|;
            && QuotedString(t, n) == (ReadName(ms[k].name), e) && SkipSpaces(t, e) == e && At(t, e) == COLON
            && ParseValue(t, e + 1, nesting) == ParseValue(t, v, nesting)
    ensures Here(t, r, MembersText(ms[k + 1..], level, pretty))
    ensures r + |MembersText(ms[k + 1..], level, pretty)| == p + |MembersText(ms[k..], level, pretty)|
    ensures if k + 1 < |ms| then At(t, SkipSpaces(t, q)) == COMMA &&
            SkipSpaces(t, SkipSpaces(t, q) + 1) == SkipSpaces(t, r)
            else SkipSpaces(t, q) == SkipSpaces(t, r) && At(t, SkipSpaces(t, r)) == RBRACE &&
                 SkipSpaces(t, r) + 1 == r + |MembersText(ms[k + 1..], level, pretty)|
  {
    hide Here, ParseValue, ValueText, StringText, QuotedString, Margin, Break, Separator, SkipSpaces;
    var rest := MembersText(ms[k + 1..], level, pretty);
    assert ms[k..][1..] == ms[k + 1..];
    var more := |ms[k..]| > 1;
    var text := ValueText(ms[k].value, level + 1, pretty);
    var after := Comma(more) + (Break(pretty) + rest);
    assert MembersText(ms[k..], level, pretty) ==
           Margin(pretty, level + 1) + (StringText(ms[k].name) + (Separator(pretty) + (text + after)));
    assert !more ==> rest == Margin(pretty, level) + [RBRACE];
    hide MembersText;
    n, v := MemberHead(t, p, ms[k].name, level + 1, pretty, text + after, nesting);
    q, r := ValueLayout(t, v, text, more, pretty, rest, level, RBRACE);
  }

  lemma {:induction false} ParseMembersText(ms: seq<Member>, k: nat, t: Text, p: nat, level: nat, pretty: bool,
      nesting: nat)
    requires k < |ms| && Storable(Object(ms)) && |t| < SIZE_MAX_PLUS_1 && 0 < nesting <= MAX_NESTING + 1
    requires Here(t, p, MembersText(ms[k..], level, pretty))
    requires forall i :: 0 <= i < k ==> Readable(ms[i].value, nesting)
    ensures SoundMembers(PrintedMembers(ms)[..k], nesting)
    ensures ParseMembers(t, SkipSpaces(t, p), nesting, PrintedMembers(ms)[..k]) ==
            if MembersFit(ms, k, nesting)
            then Ok(Object(PrintedMembers(ms)), p + |MembersText(ms[k..], level, pretty)|) else Fail
    decreases ms, 0, |ms| - k
  {
    hide ParseValue, ParseMembers, MoreMembers, ValueText, MembersText, StringText, QuotedString, SkipSpaces;
    hide Readable, Here, Printed, PrintedMembers, Printable, ContinuesNumber, ContinuesWord;
    hide SoundMembers, HasName, Sound, Storable;
    StorableMembers(ms);
    var ps := PrintedMembers(ms);
    SoundPrefix(ms, k, nesting);
    assert MembersFit(ms, k, nesting) <==>
           Printable(ms[k].name) && Readable(ms[k].value, nesting) && MembersFit(ms, k + 1, nesting);
    var n, v, q, r := MemberLayout(ms, k, t, p, level, pretty, nesting);
    ParseText(ms[k].value, t, v, level + 1, pretty, nesting);
    MembersStep(t, n, nesting, ps[..k], ReadName(ms[k].name), n + |StringText(ms[k].name)|);
    if Printable(ms[k].name) && Readable(ms[k].value, nesting) {
      SoundPrefix(ms, k + 1, nesting);
      MoreMembersStep(t, q, k + 1 < |ms|, r, nesting, ps[..k + 1]);
      if k + 1 < |ms| {
        ParseMembersText(ms, k + 1, t, r, level, pretty, nesting);
      } else {
        assert ps[..k + 1] == ps;
      }
    }
  }

  ghost predicate ItemsFit(items: seq<Json>, k: nat, nesting: nat) {
    forall i :: k <= i < |items| ==> Readable(items[i], nesting)
  }

  lemma SoundItemsPrefix(items: seq<Json>, k: nat, nesting: nat)
    requires k <= |items| <= ARRAY_MAX_CAPACITY
    requires forall i :: 0 <= i < |items| ==> Storable(items[i])
    requires forall i :: 0 <= i < k ==> Readable(items[i], nesting)
    ensures SoundItems(PrintedItems(items)[..k], nesting)
    ensures k < |items| ==> PrintedItems(items)[..k] + [Printed(items[k])] == PrintedItems(items)[..k + 1]
  {
    hide Readable, Storable;
    var ps := PrintedItems(items);
    forall x <- ps[..k] ensures Sound(x, nesting) {
      var i :| 0 <= i < k && ps[i] == x;
      PrintedIsSound(items[i], nesting);
    }
  }

  lemma MoreItemsStep(t: Text, q: nat, more: bool, r: nat, nesting: nat, acc: seq<Json>)
    requires q <= |t| && r <= |t| && 0 < nesting <= MAX_NESTING + 1 && SoundItems(acc, nesting)
    requires if more then At(t, SkipSpaces(t, q)) == COMMA && SkipSpaces(t, SkipSpaces(t, q) + 1) == SkipSpaces(t, r)
             else SkipSpaces(t, q) == SkipSpaces(t, r) && At(t, SkipSpaces(t, r)) == RBRACKET
    ensures MoreItems(t, q, nesting, acc) ==
            if more then ParseItems(t, SkipSpaces(t, r), nesting, acc) else Ok(Array(acc), SkipSpaces(t, r) + 1)
  {
    hide ParseItems, SkipSpaces;
  }

  // One item of the text: its value from v to q, the rest from r.
  lemma ItemLayout(items: seq<Json>, k: nat, t: Text, p: nat, level: nat, pretty: bool)
    returns (v: nat, q: nat, r: nat)
    requires k < |items| && Here(t, p, ItemsText(items[k..], level, pretty))
    ensures v < q <= r <= |t| && t[v] != 0 && SkipSpaces(t, p) == v
    ensures Here(t, v, ValueText(items[k], level + 1, pretty)) && q == v + |ValueText(items[k], level + 1, pretty)|
    ensures !ContinuesNumber(At(t, q)) && !ContinuesWord(At(t, q))
    ensures Here(t, r, ItemsText(items[k + 1..], level, pretty))
    ensures r + |ItemsText(items[k + 1..], level, pretty)| == p + |ItemsText(items[k..], level, pretty)|
    ensures if k + 1 < |items| then At(t, SkipSpaces(t, q)) == COMMA &&
            SkipSpaces(t, SkipSpaces(t, q) + 1) == SkipSpaces(t, r)
            else SkipSpaces(t, q) == SkipSpaces(t, r) && At(t, SkipSpaces(t, r)) == RBRACKET &&
                 SkipSpaces(t, r) + 1 == r + |ItemsText(items[k + 1..], level, pretty)|
  {
    hide Here, ValueText, Margin, Break, SkipSpaces;
    var rest := ItemsText(items[k + 1..], level, pretty);
    assert items[k..][1..] == items[k + 1..];
    var more := |items[k..]| > 1;
    var text := ValueText(items[k], level + 1, pretty);
    var after := Comma(more) + (Break(pretty) + rest);
    var margin := Margin(pretty, level + 1);
    assert ItemsText(items[k..], level, pretty) == margin + (text + after);
    assert !more ==> rest == Margin(pretty, level) + [RBRACKET];
    hide ItemsText;
    BlankMargins(pretty, level + 1);
    FirstCharacter(items[k], level + 1, pretty);
    v := p + |margin|;
    AfterGap(t, p, margin, text + after);
    q, r := ValueLayout(t, v, text, more, pretty, rest, level, RBRACKET);
  }

  lemma {:induction false} ParseItemsText(items: seq<Json>, k: nat, t: Text, p: nat, level: nat, pretty: bool,
      nesting: nat)
    requires k < |items| && Storable(Array(items)) && |t| < SIZE_MAX_PLUS_1 && 0 < nesting <= MAX_NESTING + 1
    requires Here(t, p, ItemsText(items[k..], level, pretty))
    requires forall i :: 0 <= i < k ==> Readable(items[i], nesting)
    ensures SoundItems(PrintedItems(items)[..k], nesting)
    ensures ParseItems(t, SkipSpaces(t, p), nesting, PrintedItems(items)[..k]) ==
            if ItemsFit(items, k, nesting)
            then Ok(Array(PrintedItems(items)), p + |ItemsText(items[k..], level, pretty)|) else Fail
    decreases items, 0, |items| - k
  {
    hide ParseValue, ParseItems, MoreItems, ValueText, ItemsText, SkipSpaces, Readable, Here, Printed, PrintedItems;
    hide ContinuesNumber, ContinuesWord, SoundItems, Sound, Storable;
    StorableItems(items);
    var ps := PrintedItems(items);
    SoundItemsPrefix(items, k, nesting);
    assert ItemsFit(items, k, nesting) <==> Readable(items[k], nesting) && ItemsFit(items, k + 1, nesting);
    var v, q, r := ItemLayout(items, k, t, p, level, pretty);
    ParseText(items[k], t, v, level + 1, pretty, nesting);
    ItemsStep(t, v, nesting, ps[..k]);
    if Readable(items[k], nesting) {
      SoundItemsPrefix(items, k + 1, nesting);
      MoreItemsStep(t, q, k + 1 < |items|, r, nesting, ps[..k + 1]);
      if k + 1 < |items| {
        ParseItemsText(items, k + 1, t, r, level, pretty, nesting);
      } else {
        assert ps[..k + 1] == ps;
      }
    }
  }

  lemma ContainerOpens(t: Text, p: nat, open: Byte, gap: Text, rest: Text)
    requires Here(t, p, [open] + (gap + rest)) && Blank(gap) && !IsSpace(open)
    ensures p < |t| && t[p] == open && SkipSpaces(t, p) == p
    ensures Here(t, p + 1 + |gap|, rest) && p + 1 + |gap| <= |t| && SkipSpaces(t, p + 1) == SkipSpaces(t, p + 1 + |gap|)
  {
    HereSplit(t, p, [open], gap + rest);
    HereAt(t, p, [open], 0);
    HereSplit(t, p + 1, gap, rest);
    SkipOver(t, p + 1, gap);
  }

  lemma TextOpens(t: Text, p: nat, level: nat, pretty: bool, text: Text, after: Text)
    requires Here(t, p, Margin(pretty, level) + (text + after)) && text != [] && !IsSpace(text[0])
    ensures At(t, SkipSpaces(t, p)) == text[0]
  {
    hide Margin;
    BlankMargins(pretty, level);
    AfterGap(t, p, Margin(pretty, level), text + after);
  }

  lemma ItemsTextOpens(items: seq<Json>, t: Text, p: nat, level: nat, pretty: bool)
    requires items != [] && Here(t, p, ItemsText(items, level, pretty))
    ensures At(t, SkipSpaces(t, p)) != RBRACKET
  {
    hide ValueText, Margin, Break, Comma, Here, SkipSpaces;
    var after := Comma(|items| > 1) + (Break(pretty) + ItemsText(items[1..], level, pretty));
    FirstCharacter(items[0], level + 1, pretty);
    TextOpens(t, p, level + 1, pretty, ValueText(items[0], level + 1, pretty), after);
  }

  lemma MembersTextOpens(ms: seq<Member>, t: Text, p: nat, level: nat, pretty: bool)
    requires ms != [] && Here(t, p, MembersText(ms, level, pretty))
    ensures At(t, SkipSpaces(t, p)) == QUOTE
  {
    hide ValueText, Margin, Break, Comma, Here, SkipSpaces, StringText, Separator;
    var after := Separator(pretty) + (ValueText(ms[0].value, level + 1, pretty) +
      (Comma(|ms| > 1) + (Break(pretty) + MembersText(ms[1..], level, pretty))));
    StringTextOpens(ms[0].name);
    TextOpens(t, p, level + 1, pretty, StringText(ms[0].name), after);
  }

  lemma FitsItems(items: seq<Json>, nesting: nat)
    requires nesting <= MAX_NESTING
    ensures Readable(Array(items), nesting) <==> ItemsFit(items, 0, nesting + 1)
  {
    assert ItemsFit(items, 0, nesting + 1) ==> forall x <- items :: Readable(x, nesting + 1);
    assert (forall x <- items :: Readable(x, nesting + 1)) ==> ItemsFit(items, 0, nesting + 1) by {
      assert forall i :: 0 <= i < |items| ==> items[i] in items;
    }
  }

  lemma FitsMembers(ms: seq<Member>, nesting: nat)
    requires nesting <= MAX_NESTING
    ensures Readable(Object(ms), nesting) <==> MembersFit(ms, 0, nesting + 1)
  {
    hide Printable;
    assert MembersFit(ms, 0, nesting + 1) ==> forall m <- ms :: Printable(m.name) && Readable(m.value, nesting + 1);
    if forall m <- ms :: Printable(m.name) && Readable(m.value, nesting + 1) {
      assert forall i :: 0 <= i < |ms| ==> ms[i] in ms;
    }
  }

  // parse_value's dispatch on an opening bracket or brace
  lemma OpensContainer(t: Text, p: nat, nesting: nat)
    requires p < |t| && SkipSpaces(t, p) == p && nesting <= MAX_NESTING
    ensures var b := SkipSpaces(t, p + 1);
            var items := if At(t, b) == RBRACKET then Ok(Array([]), b + 1) else ParseItems(t, b, nesting + 1, []);
            var members := if At(t, b) == RBRACE then Ok(Object([]), b + 1) else ParseMembers(t, b, nesting + 1, []);
            (t[p] == LBRACKET ==> ParseValue(t, p, nesting) == items) &&
            (t[p] == LBRACE ==> ParseValue(t, p, nesting) == members)
  {
    hide ParseItems, ParseMembers, SkipSpaces;
  }

  lemma ParseArrayText(items: seq<Json>, t: Text, p: nat, level: nat, pretty: bool, nesting: nat)
    requires Storable(Array(items)) && |t| < SIZE_MAX_PLUS_1 && nesting <= MAX_NESTING
    requires Here(t, p, ValueText(Array(items), level, pretty))
    ensures ParseValue(t, p, nesting) ==
            if Readable(Array(items), nesting)
              then Ok(Array(PrintedItems(items)), p + |ValueText(Array(items), level, pretty)|) else Fail
    decreases items, 1
  {
    hide Here, ParseValue, ParseItems, SkipSpaces, Readable, ItemsText, ValueText, Break, Margin;
    var text := ValueText(Array(items), level, pretty);
    ArrayText(items, level, pretty);
    FitsItems(items, nesting);
    if items == [] {
      assert text == [LBRACKET, RBRACKET];
      HereAt(t, p, text, 0);
      HereAt(t, p, text, 1);
      NotSpace(t, p);
      NotSpace(t, p + 1);
      OpensContainer(t, p, nesting);
    } else {
      var rest := ItemsText(items, level, pretty);
      BlankMargins(pretty, level);
      ContainerOpens(t, p, LBRACKET, Break(pretty), rest);
      OpensContainer(t, p, nesting);
      var r := p + 1 + |Break(pretty)|;
      ItemsTextOpens(items, t, r, level, pretty);
      assert items[0..] == items && PrintedItems(items)[..0] == [];
      ParseItemsText(items, 0, t, r, level, pretty, nesting + 1);
    }
  }

  lemma NotSpace(t: Text, p: nat)
    requires p <= |t| && !IsSpace(At(t, p))
    ensures SkipSpaces(t, p) == p
  {
  }

  lemma ParseObjectText(ms: seq<Member>, t: Text, p: nat, level: nat, pretty: bool, nesting: nat)
    requires Storable(Object(ms)) && |t| < SIZE_MAX_PLUS_1 && nesting <= MAX_NESTING
    requires Here(t, p, ValueText(Object(ms), level, pretty))
    ensures ParseValue(t, p, nesting) ==
            if Readable(Object(ms), nesting)
              then Ok(Object(PrintedMembers(ms)), p + |ValueText(Object(ms), level, pretty)|) else Fail
    decreases ms, 1
  {
    hide Here, ParseValue, ParseMembers, SkipSpaces, Readable, MembersText, ValueText, Break, Margin;
    var text := ValueText(Object(ms), level, pretty);
    ObjectText(ms, level, pretty);
    FitsMembers(ms, nesting);
    if ms == [] {
      assert text == [LBRACE, RBRACE];
      HereAt(t, p, text, 0);
      HereAt(t, p, text, 1);
      NotSpace(t, p);
      NotSpace(t, p + 1);
      OpensContainer(t, p, nesting);
    } else {
      var rest := MembersText(ms, level, pretty);
      BlankMargins(pretty, level);
      ContainerOpens(t, p, LBRACE, Break(pretty), rest);
      OpensContainer(t, p, nesting);
      var r := p + 1 + |Break(pretty)|;
      MembersTextOpens(ms, t, r, level, pretty);
      assert ms[0..] == ms && PrintedMembers(ms)[..0] == [];
      ParseMembersText(ms, 0, t, r, level, pretty, nesting + 1);
    }
  }

  lemma ReadsToken(t: Text, p: nat)
    requires p <= |t|
    ensures Here(t, p, TRUE) ==> ParseBoolean(t, p) == Ok(Boolean(true), p + 4)
    ensures Here(t, p, FALSE) ==> ParseBoolean(t, p) == Ok(Boolean(false), p + 5)
    ensures Here(t, p, NULL) ==> ParseNull(t, p) == Ok(Null, p + 4)
  {
    if Here(t, p, FALSE) {
      assert t[p..p + 4][0] == t[p] == t[p..p + 5][0] == 102;
    }
  }

  // The round trip: at any place of any text, what was written for a value is read back,
  // its numbers as they were printed, and the parser stops at its end; exactly when the
  // value is readable.
  lemma {:induction false} ParseText(v: Json, t: Text, p: nat, level: nat, pretty: bool, nesting: nat)
    requires Storable(v) && |t| < SIZE_MAX_PLUS_1
    requires Here(t, p, ValueText(v, level, pretty)) && !Continues(v, At(t, p + |ValueText(v, level, pretty)|))
    ensures ParseValue(t, p, nesting) ==
            if Readable(v, nesting) then Ok(Printed(v), p + |ValueText(v, level, pretty)|) else Fail
    decreases v, 1
  {
    hide Here, SkipSpaces, ParseNumber, ParseBoolean, ParseNull, QuotedString, ParseItems, ParseMembers;
    hide Printable, Rounded, NumberText, StringText, ContinuesNumber, ContinuesWord, PrintedItems, PrintedMembers;
    if nesting <= MAX_NESTING {
      var text := ValueText(v, level, pretty);
      FirstCharacter(v, level, pretty);
      HereAt(t, p, text, 0);
      NotSpace(t, p);
      match v
      case Number(r) => NumberRead(r, t, p);
      case NonFinite(what) => if !what.PlusInfinity? { WordRead(what, t, p); }
      case String(s) =>
        StringTextOpens(s);
        QuotedStringText(s, t, p);
      case Array(items) => ParseArrayText(items, t, p, level, pretty, nesting);
      case Object(ms) => ParseObjectText(ms, t, p, level, pretty, nesting);
      case _ => ReadsToken(t, p);
    }
  }

  // Compact or pretty, whatever follows that does not continue a number: what is read is
  // what was written, member order included and numbers rounded to six decimals, and no
  // character more.
  lemma ReadBack(v: Json, pretty: bool, suffix: Text)
    requires Storable(v) && |ValueText(v, 0, pretty)| + |suffix| < SIZE_MAX_PLUS_1
    requires suffix != [] ==> !Continues(v, suffix[0])
    ensures var text := ValueText(v, 0, pretty);
            ParseValue(text + suffix, 0, 0) == if Readable(v, 0) then Ok(Printed(v), |text|) else Fail
  {
    hide ValueText, Storable, Readable, ParseValue, Printed, ContinuesNumber, ContinuesWord;
    var text := ValueText(v, 0, pretty);
    var t := text + suffix;
    assert t[0..|text|] == text;
    NothingContinues(v);
    ParseText(v, t, 0, 0, pretty, 0);
  }

  lemma NothingContinues(v: Json)
    ensures !Continues(v, 0)
  {
  }

  // The value itself comes back exactly when its nesting is within the limit, its strings
  // are printable, and its numbers are the doubles nearest to decimal ones of six places.
  lemma RoundTrip(v: Json, pretty: bool, suffix: Text)
    requires Storable(v) && |ValueText(v, 0, pretty)| + |suffix| < SIZE_MAX_PLUS_1
    requires suffix != [] ==> !Continues(v, suffix[0])
    ensures var text := ValueText(v, 0, pretty);
            ParseValue(text + suffix, 0, 0) == Ok(v, |text|) <==>
            FitsNesting(v, 0) && Acceptable(v) && SixDecimals(v)
  {
    hide ValueText, Storable, Readable, ParseValue, Printed, Continues;
    ReadBack(v, pretty, suffix);
    ReadableIs(v, 0);
    StorableIsSound(v);
    PrintedIs(v);
  }
}
