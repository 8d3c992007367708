// The texts that are read, as trees: every gap of white space, every way to write a number
// or a character, and the value that is spelled. The texts of RFC 8259 are the strict ones
// among them.

module JsonSyntax {
  import opened Bytes
  import opened JsonGrammar
  import opened JsonStrings
  import opened JsonValue

  // ---- Numbers ----

  type Digit = d: int | 0 <= d < 10

  datatype Exponent = Exponent(letter: Byte, sign: Text, digits: seq<Digit>)

  datatype Numeral =
    Numeral(negative: bool, whole: seq<Digit>, dot: bool, fraction: seq<Digit>, exponent: Option<Exponent>)

  predicate LegalExponent(e: Exponent) {
    && (e.letter == 101 || e.letter == 69)
    && (e.sign == [] || e.sign == [43] || e.sign == [45])
    && e.digits != []
  }

  // With digits before a point or, after a sign, behind one
  predicate IsNumeral(n: Numeral) {
    && (n.whole != [] || (n.negative && n.fraction != []))
    && (n.fraction != [] ==> n.dot)
    && (n.exponent.Some? ==> LegalExponent(n.exponent.value))
  }

  // RFC 8259 section 6: no leading zeros, and digits on both sides of a point
  predicate StrictNumeral(n: Numeral) {
    n.whole != [] && (n.whole[0] == 0 ==> |n.whole| == 1) && (n.dot ==> n.fraction != [])
  }

  // The library does not take a zero at the beginning, unless it is alone or a point follows.
  predicate Refused(n: Numeral) {
    n.whole != [] && n.whole[0] == 0 && (|n.whole| > 1 || (!n.dot && n.exponent.Some?))
  }

  function DigitByte(d: Digit): Byte {
    var c: int := d;
    48 + c
  }

  function DigitsText(ds: seq<Digit>): (t: Text)
    ensures |t| == |ds| && forall i :: 0 <= i < |t| ==> t[i] == DigitByte(ds[i])
  {
    seq(|ds|, i requires 0 <= i < |ds| => DigitByte(ds[i]))
  }

  function FractionText(dot: bool, fraction: seq<Digit>): Text {
    if dot then [46] + DigitsText(fraction) else []
  }

  function ExponentText(exponent: Option<Exponent>): Text {
    match exponent
    case None => []
    case Some(e) => [e.letter] + (e.sign + DigitsText(e.digits))
  }

  function NumeralText(n: Numeral): Text {
    (if n.negative then [45] else []) +
    (DigitsText(n.whole) + (FractionText(n.dot, n.fraction) + ExponentText(n.exponent)))
  }

  function Ten(k: nat): (p: nat)
    ensures p > 0
  {
    if k == 0 then 1 else 10 * Ten(k - 1)
  }

  // The first digit counts most.
  function Positional(ds: seq<Digit>): nat {
    if ds == [] then 0 else ds[0] * Ten(|ds| - 1) + Positional(ds[1..])
  }

  function NumeralValue(n: Numeral): real {
    var magnitude := Positional(n.whole) as real + Positional(n.fraction) as real / Ten(|n.fraction|) as real;
    var scaled :=
      if n.exponent.None? then magnitude
      else
        var power := Ten(Positional(n.exponent.value.digits)) as real;
        if n.exponent.value.sign == [45] then magnitude / power else magnitude * power;
    if n.negative then -scaled else scaled
  }

  type LegalNumeral = n: Numeral | IsNumeral(n) witness Numeral(false, [0], false, [], None)

  predicate DigitAt(t: Text, p: nat) {
    48 <= At(t, p) <= 57
  }

  predicate HexAt(t: Text, p: nat) {
    DigitAt(t, p) || 65 <= At(t, p) <= 70 || 97 <= At(t, p) <= 102
  }

  predicate ExponentAt(t: Text, p: nat) {
    && (At(t, p) == 101 || At(t, p) == 69)
    && (DigitAt(t, p + 1) || ((At(t, p + 1) == 43 || At(t, p + 1) == 45) && DigitAt(t, p + 2)))
  }

  // The number does not end at q: strtod would read on there.
  predicate GoesOn(n: Numeral, t: Text, q: nat) {
    || DigitAt(t, q)
    || (n.exponent.None? && (ExponentAt(t, q) || (!n.dot && At(t, q) == 46)))
    || (n.exponent.None? && !n.dot && n.whole == [0] && (At(t, q) == 120 || At(t, q) == 88)
        && (HexAt(t, q + 1) || (At(t, q + 1) == 46 && HexAt(t, q + 2))))
  }

  // ---- Words ----

  // A word in small letters, in any mixture of both cases
  predicate IsWord(w: Text, small: Text) {
    |w| == |small| && forall i :: 0 <= i < |w| ==> w[i] == small[i] || small[i] as int - w[i] as int == 32
  }

  predicate IsInfinity(w: Text) {
    IsWord(w, [105, 110, 102]) || IsWord(w, [105, 110, 102, 105, 110, 105, 116, 121])
  }

  type InfinityWord = w: Text | IsInfinity(w) witness [105, 110, 102]

  predicate IsNan(w: Text) {
    IsWord(w, [110, 97, 110])
  }

  type NanWord = w: Text | IsNan(w) witness [110, 97, 110]

  // Digits, letters and underscores
  predicate IsNanTail(s: Text) {
    forall c <- s :: 48 <= c <= 57 || 65 <= c <= 90 || 97 <= c <= 122 || c == 95
  }

  type NanTail = s: Text | IsNanTail(s)

  function TailText(tail: Option<NanTail>): Text {
    if tail.None? then [] else [40] + (tail.value + [41])
  }

  // ---- Strings ----

  type LegalChar = c: Char | Legal(c) witness Raw(97)

  // Any byte that is not a control character, a quote or a backslash
  type StrayByte = b: Byte | b >= 0x20 && b != 34 && b != 92 witness 97

  // A character RFC 8259 allows, a byte that may be no part of one, or \u0000
  datatype Piece = One(c: LegalChar) | Stray(b: StrayByte) | Nul

  function PieceText(x: Piece): Text {
    match x
    case One(c) => Spelling(c)
    case Stray(b) => [b]
    case Nul => [92, 117, 48, 48, 48, 48]
  }

  function PieceBytes(x: Piece): Text {
    match x
    case One(c) => Utf8(CodePoint(c))
    case Stray(b) => [b]
    case Nul => [0]
  }

  function PiecesText(ps: seq<Piece>): Text {
    if ps == [] then [] else PieceText(ps[0]) + PiecesText(ps[1..])
  }

  function PiecesBytes(ps: seq<Piece>): Text {
    if ps == [] then [] else PieceBytes(ps[0]) + PiecesBytes(ps[1..])
  }

  // ---- Values ----

  // Space, tab, line feed, vertical tab, form feed, carriage return
  predicate IsGap(s: Text) {
    forall i :: 0 <= i < |s| ==> s[i] == 32 || s[i] == 9 || s[i] == 10 || s[i] == 11 || s[i] == 12 || s[i] == 13
  }

  type Gap = s: Text | IsGap(s)

  // The first character of a name is not looked at.
  type Opener = b: Byte | b !in {0, 9, 10, 11, 12, 13, 32} witness 34

  // The gap of an array or object is what is inside when it is empty.
  datatype Node =
    | NullWord
    | TrueWord
    | FalseWord
    | NumberOf(n: LegalNumeral)
    | MinusInfinityWord(word: InfinityWord)
    | MinusNan(nan: NanWord, tail: Option<NanTail>)
    | StringOf(ps: seq<Piece>)
    | ArrayOf(gap: Gap, items: seq<Item>)
    | ObjectOf(gap: Gap, entries: seq<Entry>)

  // An item, with what is before and after it
  datatype Item = Item(before: Gap, value: Node, after: Gap)

  // A member, with what is around the name and the value
  datatype Entry =
    Entry(before: Gap, open: Opener, name: seq<Piece>, middle: Gap, inner: Gap, value: Node, after: Gap)

  function Quoted(open: Byte, ps: seq<Piece>): Text {
    [open] + (PiecesText(ps) + [34])
  }

  function Spell(v: Node): (t: Text)
    decreases v, 1
  {
    match v
    case NullWord => [110, 117, 108, 108]
    case TrueWord => [116, 114, 117, 101]
    case FalseWord => [102, 97, 108, 115, 101]
    case NumberOf(n) => NumeralText(n)
    case MinusInfinityWord(w) => [45] + w
    case MinusNan(w, tail) => [45] + (w + TailText(tail))
    case StringOf(ps) => Quoted(34, ps)
    case ArrayOf(gap, items) => if items == [] then [91] + (gap + [93]) else [91] + SpellItems(items)
    case ObjectOf(gap, entries) => if entries == [] then [123] + (gap + [125]) else [123] + SpellEntries(entries)
  }

  // The items, each followed by a comma or the closing bracket
  function SpellItems(items: seq<Item>): Text
    decreases items, 0
  {
    if items == [] then [] else
      var x := items[0];
      x.before + (Spell(x.value) + (x.after + (if |items| == 1 then [93] else [44] + SpellItems(items[1..]))))
  }

  function SpellEntries(entries: seq<Entry>): Text
    decreases entries, 0
  {
    if entries == [] then [] else
      var m := entries[0];
      m.before + (Quoted(m.open, m.name) + (m.middle + ([58] + (m.inner + (Spell(m.value) + (m.after +
      (if |entries| == 1 then [125] else [44] + SpellEntries(entries[1..]))))))))
  }

  // ---- What is spelled ----

  // A C string ends at its first NUL.
  function StringMeaning(ps: seq<Piece>): Text {
    UpToNul(PiecesBytes(ps))
  }

  function Meaning(v: Node): Json
    decreases v, 1
  {
    match v
    case NullWord => Null
    case TrueWord => Boolean(true)
    case FalseWord => Boolean(false)
    case NumberOf(n) => AsDouble(NumeralValue(n))
    case MinusInfinityWord(_) => NonFinite(MinusInfinity)
    case MinusNan(_, _) => NonFinite(NotANumber)
    case StringOf(ps) => String(StringMeaning(ps))
    case ArrayOf(_, items) => Array(ItemMeanings(items))
    case ObjectOf(_, entries) => Object(EntryMeanings(entries))
  }

  function ItemMeanings(items: seq<Item>): (vs: seq<Json>)
    ensures |vs| == |items| && forall i :: 0 <= i < |vs| ==> vs[i] == Meaning(items[i].value)
    decreases items, 0
  {
    seq(|items|, i requires 0 <= i < |items| => Meaning(items[i].value))
  }

  function EntryMeanings(entries: seq<Entry>): (ms: seq<Member>)
    ensures |ms| == |entries|
    ensures forall i :: 0 <= i < |ms| ==>
              ms[i] == Member(StringMeaning(entries[i].name), Meaning(entries[i].value))
    decreases entries, 0
  {
    seq(|entries|, i requires 0 <= i < |entries| =>
      Member(StringMeaning(entries[i].name), Meaning(entries[i].value)))
  }

  // What the library accepts of these: at most twenty containers one in another, 122880
  // items and 960 members, distinct names, no number that begins with a zero it does not
  // take, and no letter x behind a NaN.
  ghost predicate Accepted(v: Node, nesting: nat)
  {
    && nesting <= 19
    && match v
       case NumberOf(n) => !Refused(n)
       case MinusNan(_, tail) => tail.Some? ==> 120 !in tail.value && 88 !in tail.value
       case ArrayOf(_, items) =>
         |items| <= 122880 && forall i :: 0 <= i < |items| ==> Accepted(items[i].value, nesting + 1)
       case ObjectOf(_, entries) =>
         && |entries| <= 960
         && (forall i, j :: 0 <= i < j < |entries| ==> StringMeaning(entries[i].name) != StringMeaning(entries[j].name))
         && forall i :: 0 <= i < |entries| ==> Accepted(entries[i].value, nesting + 1)
       case _ => true
  }

  // No name at the beginning of an object opens with a brace, which would close it.
  ghost predicate Proper(v: Node) {
    match v
    case ArrayOf(_, items) => forall i :: 0 <= i < |items| ==> Proper(items[i].value)
    case ObjectOf(_, entries) =>
      && (entries != [] ==> entries[0].open != 125)
      && forall i :: 0 <= i < |entries| ==> Proper(entries[i].value)
    case _ => true
  }

  // The value does not end at q.
  ghost predicate Continued(v: Node, t: Text, q: nat) {
    match v
    case NumberOf(n) => GoesOn(n, t, q)
    case MinusInfinityWord(w) => |w| == 3 && q + 5 <= |t| && IsWord(t[q..q + 5], [105, 110, 105, 116, 121])
    case MinusNan(_, tail) => tail.None? && exists cs: NanTail :: Here(t, q, [40] + (cs + [41]))
    case _ => false
  }

  // ---- RFC 8259 ----

  // Space, tab, line feed, carriage return
  predicate StrictGap(s: Text) {
    forall c <- s :: c in {9, 10, 13, 32}
  }

  predicate StrictString(ps: seq<Piece>) {
    forall x <- ps :: x.One?
  }

  predicate Strict(v: Node) {
    match v
    case NumberOf(n) => StrictNumeral(n)
    case MinusInfinityWord(_) => false
    case MinusNan(_, _) => false
    case StringOf(ps) => StrictString(ps)
    case ArrayOf(gap, items) =>
      StrictGap(gap) && forall x <- items :: StrictGap(x.before) && Strict(x.value) && StrictGap(x.after)
    case ObjectOf(gap, entries) =>
      && StrictGap(gap)
      && forall m <- entries ::
           && StrictGap(m.before) && m.open == 34 && StrictString(m.name) && StrictGap(m.middle)
           && StrictGap(m.inner) && Strict(m.value) && StrictGap(m.after)
    case _ => true
  }

  // What RFC 8259 says of them: a string is the UTF-8 of its characters, and of its numbers
  // only those are refused that are a zero with an exponent.
  lemma {:induction false} StrictMeaning(ps: seq<Piece>, cs: seq<LegalChar>)
    requires |ps| == |cs| && forall i :: 0 <= i < |ps| ==> ps[i] == One(cs[i])
    ensures PiecesText(ps) == Literal(cs) && PiecesBytes(ps) == Encode(CodePoints(cs))
    ensures StringMeaning(ps) == Encode(CodePoints(cs))
    decreases |ps|
  {
    hide Spelling, Utf8, Legal, CodePoint;
    if ps == [] {
    } else {
      StrictMeaning(ps[1..], cs[1..]);
      assert CodePoints(cs)[1..] == CodePoints(cs[1..]);
    }
    EncodeNonZero(CodePoints(cs));
    UpToNulIs(Encode(CodePoints(cs)));
  }

  lemma {:induction false} StrictIsProper(v: Node)
    requires Strict(v)
    ensures Proper(v)
  {
    match v
    case ArrayOf(_, items) =>
      forall i | 0 <= i < |items| ensures Proper(items[i].value) {
        assert items[i] in items;
        StrictIsProper(items[i].value);
      }
    case ObjectOf(_, entries) =>
      forall i | 0 <= i < |entries| ensures Proper(entries[i].value) && entries[i].open != 125 {
        assert entries[i] in entries;
        StrictIsProper(entries[i].value);
      }
    case _ =>
  }

  lemma StrictRefused(n: Numeral)
    requires IsNumeral(n) && StrictNumeral(n)
    ensures Refused(n) <==> n.whole == [0] && n.fraction == [] && n.exponent.Some?
  {
  }
}
