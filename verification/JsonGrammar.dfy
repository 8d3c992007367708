// What the recursive-descent parser of hpav_test/libjson/parson.c accepts, as
// functions of the text and a position. The methods that move a shared cursor
// are proved against these in JsonParser.

module JsonGrammar {
  import opened Bytes
  import opened Doubles
  import opened JsonText
  import opened JsonValue

  datatype Parsed<+T> = Fail | Ok(value: T, next: nat)

  // isspace in the C locale
  predicate IsSpace(c: Byte) {
    c == 32 || 9 <= c <= 13
  }

  predicate IsDigit(c: Byte) {
    48 <= c <= 57
  }

  predicate IsHex(c: Byte) {
    IsDigit(c) || 65 <= c <= 70 || 97 <= c <= 102
  }

  function HexValue(c: Byte): (h: nat)
    requires IsHex(c)
    ensures h < 16
  {
    if IsDigit(c) then c - 48 else if c <= 70 then c - 55 else c - 87
  }

  function SkipSpaces(t: Text, p: nat): (q: nat)
    requires p <= |t|
    ensures p <= q <= |t| && !IsSpace(At(t, q))
    decreases |t| - p
  {
    if p < |t| && IsSpace(t[p]) then SkipSpaces(t, p + 1) else p
  }

  // ---- Strings ----

  // Where skip_quotes stops, from inside a literal: past the closing quote, or at
  // the terminator when the literal is not closed.
  function LiteralEnd(t: Text, p: nat): (q: nat)
    requires p <= |t|
    ensures p <= q <= |t|
    decreases |t| - p
  {
    var c := At(t, p);
    if c == QUOTE then p + 1
    else if c == 0 then p
    else if c != BACKSLASH then LiteralEnd(t, p + 1)
    else if At(t, p + 1) == 0 then p + 1
    else LiteralEnd(t, p + 2)
  }

  // UTF-8 for one code point, with the shifts and masks of parse_utf_16 written as
  // quotients and remainders.
  function Utf8(cp: nat): (s: Text)
    requires cp < 0x110000
    ensures 1 <= |s| <= 4
  {
    if cp < 0x80 then [cp]
    else if cp < 0x800 then [0xC0 + cp / 64 % 32, 0x80 + cp % 64]
    else if cp < 0x10000 then [0xE0 + cp / 4096 % 16, 0x80 + cp / 64 % 64, 0x80 + cp % 64]
    else [0xF0 + cp / 262144 % 8, 0x80 + cp / 4096 % 64, 0x80 + cp / 64 % 64, 0x80 + cp % 64]
  }

  predicate FourHex(t: Text, p: nat) {
    IsHex(At(t, p)) && IsHex(At(t, p + 1)) && IsHex(At(t, p + 2)) && IsHex(At(t, p + 3))
  }

  function Hex4(t: Text, p: nat): (cp: nat)
    requires FourHex(t, p)
    ensures cp < 0x10000
  {
    4096 * HexValue(At(t, p)) + 256 * HexValue(At(t, p + 1)) + 16 * HexValue(At(t, p + 2)) + HexValue(At(t, p + 3))
  }

  // parse_utf_16, with p at the `u`.
  function UnicodeEscape(t: Text, p: nat): (r: Parsed<Text>)
    ensures r.Ok? ==> p < r.next <= |t| && |r.value| < r.next - p
  {
    if !FourHex(t, p + 1) then Fail else
      var cp := Hex4(t, p + 1);
      if cp < 0xD800 || cp > 0xDFFF then Ok(Utf8(cp), p + 5)
      else if cp > 0xDBFF then Fail
      else if At(t, p + 5) != BACKSLASH || At(t, p + 6) != 117 || !FourHex(t, p + 7) then Fail
      else
        var trail := Hex4(t, p + 7);
        if trail < 0xDC00 || trail > 0xDFFF then Fail
        else Ok(Utf8(0x10000 + 1024 * (cp - 0xD800) + (trail - 0xDC00)), p + 11)
  }

  // The switch of process_string after a backslash.
  function Escape(t: Text, p: nat): (r: Parsed<Text>)
    ensures r.Ok? ==> p < r.next <= |t| && |r.value| <= r.next - p
  {
    var c := At(t, p);
    if c == QUOTE || c == BACKSLASH || c == 47 then Ok([c], p + 1)
    else if c == 98 then Ok([8], p + 1)
    else if c == 102 then Ok([12], p + 1)
    else if c == 110 then Ok([10], p + 1)
    else if c == 114 then Ok([13], p + 1)
    else if c == 116 then Ok([9], p + 1)
    else if c == 117 then UnicodeEscape(t, p)
    else Fail
  }

  // One round of process_string's loop.
  function Unit(t: Text, p: nat): (r: Parsed<Text>)
    requires p < |t|
    ensures r.Ok? ==> p < r.next <= |t| && |r.value| <= r.next - p
  {
    if t[p] == BACKSLASH then Escape(t, p + 1)
    else if t[p] < 0x20 then Fail
    else Ok([t[p]], p + 1)
  }

  // process_string's loop, reading from p while below `end`.
  function Unescape(t: Text, p: nat, end: nat): Option<Text>
    decreases |t| - p
  {
    if At(t, p) == 0 || p >= end then Some([]) else
      match Unit(t, p)
      case Fail => None
      case Ok(u, q) =>
        match Unescape(t, q, end)
        case None => None
        case Some(rest) => Some(u + rest)
  }

  // A C string ends at its first NUL.
  function UpToNul(s: Text): (r: Text)
    ensures 0 !in r && |r| <= |s|
  {
    if s == [] || s[0] == 0 then [] else [s[0]] + UpToNul(s[1..])
  }

  const SIZE_MAX_PLUS_1: nat := 0x1_0000_0000_0000_0000

  // process_string: the length is a size_t.
  function ProcessString(t: Text, start: nat, len: nat): Option<Text> {
    match Unescape(t, start, start + len)
    case None => None
    case Some(s) => Some(UpToNul(s))
  }

  // get_quoted_string: the first character is skipped without being looked at. An
  // unclosed literal ends at the terminator and loses its last character.
  function QuotedString(t: Text, p: nat): (r: (Option<Text>, nat))
    requires p < |t|
    ensures p < r.1 <= |t|
  {
    var q := LiteralEnd(t, p + 1);
    (ProcessString(t, p + 1, (q - p - 2) % SIZE_MAX_PLUS_1), q)
  }

  // ---- Numbers ----

  function DigitsEnd(t: Text, p: nat): (q: nat)
    requires p <= |t|
    ensures p <= q <= |t|
    ensures forall i :: p <= i < q ==> IsDigit(t[i])
    ensures !IsDigit(At(t, q))
    decreases |t| - p
  {
    if p < |t| && IsDigit(t[p]) then DigitsEnd(t, p + 1) else p
  }

  function DigitsValue(s: Text): (n: nat)
    requires forall i :: 0 <= i < |s| ==> IsDigit(s[i])
  {
    if s == [] then 0 else
      assert IsDigit(s[|s| - 1]);
      10 * DigitsValue(s[..|s| - 1]) + (s[|s| - 1] as int - 48)
  }

  // x times 10 to the k
  function Scale(x: real, k: int): real
    decreases if k < 0 then -k else k
  {
    if k == 0 then x else if k > 0 then Scale(x * 10.0, k - 1) else Scale(x / 10.0, k + 1)
  }

  // strtod on a decimal number: where it stops (p itself when there is no number)
  // and the exact value that it rounds.
  function Strtod(t: Text, p: nat): (r: (nat, real))
    requires p <= |t|
    ensures p <= r.0 <= |t|
  {
    var s := if At(t, p) == MINUS then p + 1 else p;
    var d := DigitsEnd(t, s);
    var f := if At(t, d) == DOT then DigitsEnd(t, d + 1) else d;
    if d == s && f <= d + 1 then (p, 0.0) else
      var x := f + 1;
      var y := if At(t, f) == 101 || At(t, f) == 69 then
                 if At(t, x) == 43 || At(t, x) == MINUS then x + 1 else x
               else f;
      var g := if y == f then f else DigitsEnd(t, y);
      var whole := DigitsValue(t[s..d]) as real;
      var fraction := if f > d then Scale(DigitsValue(t[d + 1..f]) as real, d + 1 - f) else 0.0;
      var exponent: int := if y == f || g == y then 0 else
                        var e: int := DigitsValue(t[y..g]);
                        if At(t, x) == MINUS then -e else e;
      var magnitude := Scale(whole + fraction, exponent);
      (if y == f || g == y then f else g, if At(t, p) == MINUS then -magnitude else magnitude)
  }

  // A hexadecimal number, which strtod reads and is_decimal then rejects for its x.
  predicate HexNumber(t: Text, p: nat) {
    var s := if At(t, p) == MINUS then p + 1 else p;
    && At(t, s) == ZERO
    && (At(t, s + 1) == 120 || At(t, s + 1) == 88)
    && (IsHex(At(t, s + 2)) || (At(t, s + 2) == DOT && IsHex(At(t, s + 3))))
  }

  // is_decimal on a token without x or X
  predicate IsDecimal(t: Text, p: nat, length: nat) {
    && !(length > 1 && At(t, p) == ZERO && At(t, p + 1) != DOT)
    && !(length > 2 && At(t, p) == MINUS && At(t, p + 1) == ZERO && At(t, p + 2) != DOT)
  }

  // A word in small letters, read in either case
  predicate Spelled(t: Text, p: nat, word: Text)
    requires forall i :: 0 <= i < |word| ==> 97 <= word[i] <= 122
  {
    p + |word| <= |t| && forall i :: 0 <= i < |word| ==> t[p + i] == word[i] || t[p + i] == word[i] - 32
  }

  const INF: Text := [105, 110, 102]
  const INITY: Text := [105, 110, 105, 116, 121]
  const NAN: Text := [110, 97, 110]

  // The characters strtod takes between the parentheses of a NaN
  predicate IsNanCharacter(c: Byte) {
    IsDigit(c) || 65 <= c <= 90 || 97 <= c <= 122 || c == 95
  }

  function NanCharactersEnd(t: Text, p: nat): (q: nat)
    requires p <= |t|
    ensures p <= q <= |t|
    decreases |t| - p
  {
    if p < |t| && IsNanCharacter(t[p]) then NanCharactersEnd(t, p + 1) else p
  }

  // strtod on the words it knows: where the word ends, and whether it is a NaN
  function NonFiniteWord(t: Text, p: nat): (r: Option<(nat, bool)>)
    requires p <= |t|
    ensures r.Some? ==> p < r.value.0 <= |t|
  {
    var s := if At(t, p) == MINUS then p + 1 else p;
    if Spelled(t, s, INF) then Some((if Spelled(t, s + 3, INITY) then s + 8 else s + 3, false))
    else if Spelled(t, s, NAN) then
      var q := if At(t, s + 3) == 40 then NanCharactersEnd(t, s + 4) else s + 3;
      Some((if At(t, s + 3) == 40 && At(t, q) == 41 then q + 1 else s + 3, true))
    else None
  }

  predicate HasX(s: Text) {
    120 in s || 88 in s
  }

  // strtod rounds to a double, or overflows.
  function AsDouble(value: real): (v: Json)
    ensures v.Number? || v.NonFinite?
    ensures HoldsDoubles(v)
  {
    FlTwice(value);
    var x := Fl(value);
    if x >= HUGE then NonFinite(PlusInfinity) else if x <= -HUGE then NonFinite(MinusInfinity) else Number(x)
  }

  function ParseNumber(t: Text, p: nat): (r: Parsed<Json>)
    requires p <= |t|
    ensures r.Ok? ==> p <= r.next <= |t| && (r.value.Number? || r.value.NonFinite?) && HoldsDoubles(r.value)
  {
    var word := NonFiniteWord(t, p);
    if word.Some? then
      var (end, nan) := word.value;
      var infinity := if At(t, p) == MINUS then MinusInfinity else PlusInfinity;
      if HasX(t[p..end]) then Fail else Ok(NonFinite(if nan then NotANumber else infinity), end)
    else
      var (end, value) := Strtod(t, p);
      if HexNumber(t, p) || !IsDecimal(t, p, end - p) then Fail else Ok(AsDouble(value), end)
  }

  // ---- Values ----

  // strncmp of a token's length
  predicate StartsWith(t: Text, p: nat, token: Text)
    requires p <= |t|
  {
    p + |token| <= |t| && t[p..p + |token|] == token
  }

  function ParseBoolean(t: Text, p: nat): Parsed<Json>
    requires p <= |t|
  {
    if StartsWith(t, p, TRUE) then Ok(Boolean(true), p + 4)
    else if StartsWith(t, p, FALSE) then Ok(Boolean(false), p + 5)
    else Fail
  }

  function ParseNull(t: Text, p: nat): Parsed<Json>
    requires p <= |t|
  {
    if StartsWith(t, p, NULL) then Ok(Null, p + 4) else Fail
  }

  function ParseString(t: Text, p: nat): (r: Parsed<Json>)
    requires p < |t|
    ensures r.Ok? ==> p < r.next <= |t|
  {
    var (s, q) := QuotedString(t, p);
    if s.None? then Fail else Ok(String(s.value), q)
  }

  ghost predicate Sound(v: Json, nesting: nat) {
    UniqueNames(v) && WithinCaps(v) && HoldsDoubles(v) && FitsNesting(v, nesting)
  }

  ghost predicate SoundMembers(ms: seq<Member>, nesting: nat) {
    && |ms| <= OBJECT_MAX_CAPACITY
    && DistinctNames(ms)
    && forall m <- ms :: Sound(m.value, nesting)
  }

  ghost predicate SoundItems(items: seq<Json>, nesting: nat) {
    && |items| <= ARRAY_MAX_CAPACITY
    && forall x <- items :: Sound(x, nesting)
  }

  // parse_value. Every value it returns keeps names distinct, counts within the
  // capacities, numbers doubles and nesting within the limit, and the cursor stays in the
  // text.
  function ParseValue(t: Text, p: nat, nesting: nat): (r: Parsed<Json>)
    requires p <= |t|
    ensures r.Ok? ==> p <= r.next <= |t| && Sound(r.value, nesting)
    decreases |t| - p, 0
  {
    if nesting > MAX_NESTING then Fail else
      var q := SkipSpaces(t, p);
      var c := At(t, q);
      if c == LBRACE then
        var b := SkipSpaces(t, q + 1);
        if At(t, b) == RBRACE then Ok(Object([]), b + 1) else ParseMembers(t, b, nesting + 1, [])
      else if c == LBRACKET then
        var b := SkipSpaces(t, q + 1);
        if At(t, b) == RBRACKET then Ok(Array([]), b + 1) else ParseItems(t, b, nesting + 1, [])
      else if c == QUOTE then ParseString(t, q)
      else if c == 102 || c == 116 then ParseBoolean(t, q)
      else if c == MINUS || IsDigit(c) then ParseNumber(t, q)
      else if c == 110 then ParseNull(t, q)
      else Fail
  }

  // The member loop of parse_object_value with the members read so far; `nesting` is
  // the level its values are read at. A name already present or a full object fails.
  function ParseMembers(t: Text, p: nat, nesting: nat, acc: seq<Member>): (r: Parsed<Json>)
    requires p <= |t| && 0 < nesting <= MAX_NESTING + 1 && SoundMembers(acc, nesting)
    ensures r.Ok? ==> p < r.next <= |t| && Sound(r.value, nesting - 1)
    decreases |t| - p, 1
  {
    if At(t, p) == 0 then Fail else
      var (key, k) := QuotedString(t, p);
      var c := SkipSpaces(t, k);
      if key.None? || At(t, c) != COLON then Fail else
        match ParseValue(t, c + 1, nesting)
        case Fail => Fail
        case Ok(v, q) =>
          if (exists i :: 0 <= i < |acc| && acc[i].name == key.value) || |acc| == OBJECT_MAX_CAPACITY then Fail else
            MoreMembers(t, q, nesting, acc + [Member(key.value, v)])
  }

  // After a member: the next one, or the closing brace.
  function MoreMembers(t: Text, p: nat, nesting: nat, acc: seq<Member>): (r: Parsed<Json>)
    requires p <= |t| && 0 < nesting <= MAX_NESTING + 1 && SoundMembers(acc, nesting)
    ensures r.Ok? ==> p < r.next <= |t| && Sound(r.value, nesting - 1)
    decreases |t| - p, 1
  {
    var e := SkipSpaces(t, p);
    if At(t, e) == COMMA then ParseMembers(t, SkipSpaces(t, e + 1), nesting, acc)
    else if At(t, e) == RBRACE then Ok(Object(acc), e + 1)
    else Fail
  }

  // The item loop of parse_array_value.
  function ParseItems(t: Text, p: nat, nesting: nat, acc: seq<Json>): (r: Parsed<Json>)
    requires p <= |t| && 0 < nesting <= MAX_NESTING + 1 && SoundItems(acc, nesting)
    ensures r.Ok? ==> p < r.next <= |t| && Sound(r.value, nesting - 1)
    decreases |t| - p, 2
  {
    if At(t, p) == 0 then Fail else
      match ParseValue(t, p, nesting)
      case Fail => Fail
      case Ok(v, q) =>
        if |acc| == ARRAY_MAX_CAPACITY then Fail else
          MoreItems(t, q, nesting, acc + [v])
  }

  // After an item: the next one, or the closing bracket.
  function MoreItems(t: Text, p: nat, nesting: nat, acc: seq<Json>): (r: Parsed<Json>)
    requires p <= |t| && 0 < nesting <= MAX_NESTING + 1 && SoundItems(acc, nesting)
    ensures r.Ok? ==> p < r.next <= |t| && Sound(r.value, nesting - 1)
    decreases |t| - p, 1
  {
    var e := SkipSpaces(t, p);
    if At(t, e) == COMMA then ParseItems(t, SkipSpaces(t, e + 1), nesting, acc)
    else if At(t, e) == RBRACKET then Ok(Array(acc), e + 1)
    else Fail
  }

  // One round of the member and item loops
  lemma MembersStep(t: Text, p: nat, nesting: nat, acc: seq<Member>, key: Option<Text>, k: nat)
    requires p < |t| && t[p] != 0 && 0 < nesting <= MAX_NESTING + 1 && SoundMembers(acc, nesting)
    requires QuotedString(t, p) == (key, k) && At(t, SkipSpaces(t, k)) == COLON
    requires |acc| < OBJECT_MAX_CAPACITY && (key.Some? ==> !HasName(acc, key.value))
    ensures var r := ParseValue(t, SkipSpaces(t, k) + 1, nesting);
            ParseMembers(t, p, nesting, acc) ==
            if key.None? || r.Fail? then Fail
            else MoreMembers(t, r.next, nesting, acc + [Member(key.value, r.value)])
  {
    hide ParseValue, QuotedString, SkipSpaces, MoreMembers;
  }

  // A name that is there already, or no room
  lemma MembersRefused(t: Text, p: nat, nesting: nat, acc: seq<Member>, key: Text, k: nat)
    requires p < |t| && t[p] != 0 && 0 < nesting <= MAX_NESTING + 1 && SoundMembers(acc, nesting)
    requires QuotedString(t, p) == (Some(key), k) && (|acc| == OBJECT_MAX_CAPACITY || HasName(acc, key))
    ensures ParseMembers(t, p, nesting, acc) == Fail
  {
    hide ParseValue, QuotedString, SkipSpaces, MoreMembers;
  }

  lemma ItemsStep(t: Text, p: nat, nesting: nat, acc: seq<Json>)
    requires p < |t| && t[p] != 0 && 0 < nesting <= MAX_NESTING + 1 && SoundItems(acc, nesting)
    ensures var r := ParseValue(t, p, nesting);
            ParseItems(t, p, nesting, acc) ==
            if r.Fail? || |acc| == ARRAY_MAX_CAPACITY then Fail else MoreItems(t, r.next, nesting, acc + [r.value])
  {
    hide ParseValue, SkipSpaces, MoreItems;
  }
}
