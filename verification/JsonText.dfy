// The text json_serialize_to_buffer_r produces, compact or pretty.

module JsonText {
  import opened Bytes
  import opened Doubles
  import opened JsonValue

  const QUOTE: Byte := 34
  const BACKSLASH: Byte := 92
  const COMMA: Byte := 44
  const COLON: Byte := 58
  const MINUS: Byte := 45
  const DOT: Byte := 46
  const ZERO: Byte := 48
  const SPACE: Byte := 32
  const NEWLINE: Byte := 10
  const LBRACE: Byte := 123
  const RBRACE: Byte := 125
  const LBRACKET: Byte := 91
  const RBRACKET: Byte := 93

  const TRUE: Text := [116, 114, 117, 101]
  const FALSE: Text := [102, 97, 108, 115, 101]
  const NULL: Text := [110, 117, 108, 108]

  // The two-character escapes of the serializer; every other byte is copied raw.
  function EscapeByte(c: Byte): (e: Text)
    ensures 1 <= |e| <= 2
  {
    if c == QUOTE then [BACKSLASH, QUOTE]
    else if c == BACKSLASH then [BACKSLASH, BACKSLASH]
    else if c == 47 then [BACKSLASH, 47]
    else if c == 8 then [BACKSLASH, 98]
    else if c == 12 then [BACKSLASH, 102]
    else if c == 10 then [BACKSLASH, 110]
    else if c == 13 then [BACKSLASH, 114]
    else if c == 9 then [BACKSLASH, 116]
    else [c]
  }

  function Escaped(s: Text): Text {
    if s == [] then [] else EscapeByte(s[0]) + Escaped(s[1..])
  }

  function StringText(s: Text): Text {
    [QUOTE] + Escaped(s) + [QUOTE]
  }

  function Digits(n: nat): (d: Text)
    ensures |d| > 0
    ensures forall i :: 0 <= i < |d| ==> 48 <= d[i] <= 57
  {
    if n < 10 then [48 + n] else Digits(n / 10) + [48 + n % 10]
  }

  // printf's %lld
  function IntegerText(n: int): Text {
    if n < 0 then [MINUS] + Digits(-n) else Digits(n)
  }

  // The magnitude of r in units of the sixth decimal, rounded
  function Millionths(r: real): nat {
    Nearest((if r < 0.0 then -r else r) * 1000000.0)
  }

  // Six digits
  function Decimals(f: nat): (d: Text)
    requires f < 1000000
    ensures |d| == 6 && forall i :: 0 <= i < 6 ==> 48 <= d[i] <= 57
  {
    var a := f / 10;
    var b := a / 10;
    var c := b / 10;
    var d := c / 10;
    [48 + d / 10, 48 + d % 10, 48 + c % 10, 48 + b % 10, 48 + a % 10, 48 + f % 10]
  }

  // printf's %f, on exact reals: six decimals.
  function FixedText(r: real): Text {
    var n := Millionths(r);
    (if r < 0.0 then [MINUS] else []) + (Digits(n / 1000000) + ([DOT] + Decimals(n % 1000000)))
  }

  function NumberText(r: real): Text {
    if IsInteger(r) then IntegerText(r.Floor) else FixedText(r)
  }

  // printf's %f
  function NonFiniteText(what: Special): Text {
    match what
    case PlusInfinity => [105, 110, 102]
    case MinusInfinity => [MINUS, 105, 110, 102]
    case NotANumber => [MINUS, 110, 97, 110]
  }

  lemma MinusOfInfinity()
    ensures NonFiniteText(MinusInfinity) == [MINUS] + NonFiniteText(PlusInfinity)
  {
  }

  function Indent(level: nat): (s: Text)
    ensures |s| == 4 * level
    ensures forall c <- s :: c == SPACE
  {
    if level == 0 then [] else [SPACE, SPACE, SPACE, SPACE] + Indent(level - 1)
  }

  function Break(pretty: bool): Text {
    if pretty then [NEWLINE] else []
  }

  function Margin(pretty: bool, level: nat): Text {
    if pretty then Indent(level) else []
  }

  function Separator(pretty: bool): (s: Text)
    ensures |s| > 0
  {
    if pretty then [COLON, SPACE] else [COLON]
  }

  function ValueText(v: Json, level: nat, pretty: bool): (t: Text)
    ensures |t| > 0
    decreases v, 1
  {
    match v
    case Null => NULL
    case Boolean(b) => if b then TRUE else FALSE
    case Number(r) => NumberText(r)
    case NonFinite(what) => NonFiniteText(what)
    case String(s) => StringText(s)
    case Array(items) =>
      if items == [] then [LBRACKET, RBRACKET]
      else [LBRACKET] + (Break(pretty) + ItemsText(items, level, pretty))
    case Object(ms) =>
      if ms == [] then [LBRACE, RBRACE]
      else [LBRACE] + (Break(pretty) + MembersText(ms, level, pretty))
  }

  function Comma(more: bool): Text {
    if more then [COMMA] else []
  }

  // The items that remain, and the closing bracket.
  function ItemsText(items: seq<Json>, level: nat, pretty: bool): Text
    decreases items, 0
  {
    if items == [] then Margin(pretty, level) + [RBRACKET] else
      Margin(pretty, level + 1) + (ValueText(items[0], level + 1, pretty) +
      (Comma(|items| > 1) + (Break(pretty) + ItemsText(items[1..], level, pretty))))
  }

  // The members that remain, and the closing brace.
  function MembersText(ms: seq<Member>, level: nat, pretty: bool): Text
    decreases ms, 0
  {
    if ms == [] then Margin(pretty, level) + [RBRACE] else
      Margin(pretty, level + 1) + (StringText(ms[0].name) + (Separator(pretty) +
      (ValueText(ms[0].value, level + 1, pretty) +
      (Comma(|ms| > 1) + (Break(pretty) + MembersText(ms[1..], level, pretty))))))
  }

  // ---- The texts, one step at a time ----

  lemma ArrayText(items: seq<Json>, level: nat, pretty: bool)
    ensures ValueText(Array(items), level, pretty) ==
            if |items| == 0 then [LBRACKET] + [RBRACKET]
              else [LBRACKET] + (Break(pretty) + ItemsText(items, level, pretty))
    ensures ItemsText([], level, pretty) == Margin(pretty, level) + [RBRACKET]
  {
    hide Break, Margin;
    assert items != [] ==> |items| > 0;
  }

  lemma ObjectText(ms: seq<Member>, level: nat, pretty: bool)
    ensures ValueText(Object(ms), level, pretty) ==
            if |ms| == 0 then [LBRACE] + [RBRACE] else [LBRACE] + (Break(pretty) + MembersText(ms, level, pretty))
    ensures MembersText([], level, pretty) == Margin(pretty, level) + [RBRACE]
  {
    hide Break, Margin;
    assert ms != [] ==> |ms| > 0;
  }

  lemma ItemsTextStep(items: seq<Json>, i: nat, level: nat, pretty: bool)
    requires i < |items|
    ensures ItemsText(items[i..], level, pretty) ==
            Margin(pretty, level + 1) + (ValueText(items[i], level + 1, pretty) +
            (Comma(i + 1 < |items|) + (Break(pretty) + ItemsText(items[i + 1..], level, pretty))))
  {
    assert items[i..][1..] == items[i + 1..];
  }

  lemma MembersTextStep(ms: seq<Member>, i: nat, level: nat, pretty: bool)
    requires i < |ms|
    ensures MembersText(ms[i..], level, pretty) ==
            Margin(pretty, level + 1) + (StringText(ms[i].name) + (Separator(pretty) +
            (ValueText(ms[i].value, level + 1, pretty) +
            (Comma(i + 1 < |ms|) + (Break(pretty) + MembersText(ms[i + 1..], level, pretty))))))
  {
    assert ms[i..][1..] == ms[i + 1..];
  }
}
