// The parser as it runs: one cursor into the text, moved by every function.

module JsonParser {
  import opened Bytes
  import opened JsonValue
  import opened JsonText
  import opened JsonGrammar
  import opened JsonStrings

  // The `const char **` every parse function is handed.
  class Cursor {
    const text: Text
    var pos: nat

    constructor (t: Text)
      ensures text == t && pos == 0
    {
      text, pos := t, 0;
    }

    ghost predicate Valid()
      reads this
    {
      pos <= |text|
    }

    // The character under the cursor
    function Peek(): Byte
      reads this
    {
      At(text, pos)
    }

    method SkipWhitespaces()
      requires Valid()
      modifies this
      ensures Valid() && pos == SkipSpaces(text, old(pos))
    {
      while IsSpace(Peek())
        invariant old(pos) <= pos && Valid() && SkipSpaces(text, pos) == SkipSpaces(text, old(pos))
        decreases |text| - pos
      {
        pos := pos + 1;
      }
    }

    method SkipQuotes()
      requires Valid() && Peek() != 0
      modifies this
      ensures Valid() && pos == LiteralEnd(text, old(pos) + 1)
    {
      pos := pos + 1;
      while Peek() != QUOTE
        invariant old(pos) < pos && Valid() && LiteralEnd(text, pos) == LiteralEnd(text, old(pos) + 1)
        decreases |text| - pos
      {
        if Peek() == 0 { return; }
        if Peek() == BACKSLASH {
          pos := pos + 1;
          if Peek() == 0 { return; }
        }
        pos := pos + 1;
      }
      pos := pos + 1;
    }

    method GetQuotedString() returns (s: Option<Text>)
      requires Valid() && Peek() != 0
      modifies this
      ensures Valid() && (s, pos) == QuotedString(text, old(pos))
    {
      var start := pos;
      SkipQuotes();
      var len := (pos - start - 2) % SIZE_MAX_PLUS_1;
      s := ProcessStringLoop(text, start + 1, len);
    }
  }

  // process_string: the output grows one unit at a time.
  method ProcessStringLoop(t: Text, start: nat, len: nat) returns (r: Option<Text>)
    requires start <= |t|
    ensures r == ProcessString(t, start, len)
  {
    hide Unit;
    var input := start;
    var output: Text := [];
    assert forall s: Text :: [] + s == s;
    while At(t, input) != 0 && input - start < len
      invariant start <= input <= |t|
      invariant Unescape(t, start, start + len) == Prepend(output, Unescape(t, input, start + len))
      decreases |t| - input
    {
      match Unit(t, input) {
        case Fail =>
          return None;
        case Ok(u, next) =>
          UnescapeUnit(t, input, start + len, u, next);
          PrependTwice(output, u, Unescape(t, next, start + len));
          output, input := output + u, next;
      }
    }
    assert output + [] == output;
    r := Some(UpToNul(output));
  }

  // What a parse method returns for what the grammar says.
  predicate Returns(r: Option<Json>, next: nat, spec: Parsed<Json>) {
    match spec
    case Fail => r.None?
    case Ok(v, q) => r == Some(v) && next == q
  }

  // json_object_add while parsing: a name already present or a full object fails.
  method FindName(ms: seq<Member>, name: Text) returns (found: bool)
    ensures found <==> HasName(ms, name)
  {
    for i := 0 to |ms|
      invariant forall j :: 0 <= j < i ==> ms[j].name != name
    {
      if ms[i].name == name { return true; }
    }
    return false;
  }

  method ParseValueAt(c: Cursor, nesting: nat) returns (r: Option<Json>)
    requires c.Valid()
    modifies c
    ensures c.Valid() && c.pos >= old(c.pos)
    ensures Returns(r, c.pos, ParseValue(c.text, old(c.pos), nesting))
    decreases |c.text| - c.pos, 1
  {
    hide SkipSpaces, ParseMembers, ParseItems, ParseNumber, QuotedString;
    if nesting > MAX_NESTING { return None; }
    c.SkipWhitespaces();
    var k := c.Peek();
    if k == LBRACE {
      r := ParseObjectAt(c, nesting + 1);
    } else if k == LBRACKET {
      r := ParseArrayAt(c, nesting + 1);
    } else if k == QUOTE {
      var s := c.GetQuotedString();
      r := if s.None? then None else Some(String(s.value));
    } else {
      var parsed :=
        if k == 102 || k == 116 then ParseBoolean(c.text, c.pos)
        else if k == MINUS || IsDigit(k) then ParseNumber(c.text, c.pos)
        else if k == 110 then ParseNull(c.text, c.pos)
        else Fail;
      if parsed.Fail? { return None; }
      c.pos := parsed.next;
      r := Some(parsed.value);
    }
  }

  // The name, the colon and the value of one member, added to the ones before it.
  method ParseMemberAt(c: Cursor, nesting: nat, members: seq<Member>) returns (r: Option<seq<Member>>)
    requires c.Valid() && c.Peek() != 0 && 0 < nesting <= MAX_NESTING + 1 && SoundMembers(members, nesting)
    modifies c
    ensures c.Valid() && c.pos > old(c.pos)
    ensures r.None? ==> ParseMembers(c.text, old(c.pos), nesting, members) == Fail
    ensures r.Some? ==> SoundMembers(r.value, nesting)
    ensures r.Some? ==>
              ParseMembers(c.text, old(c.pos), nesting, members) == MoreMembers(c.text, c.pos, nesting, r.value)
    decreases |c.text| - c.pos, 2
  {
    hide ParseValue, QuotedString, SkipSpaces, MoreMembers;
    var key := c.GetQuotedString();
    ghost var k := c.pos;
    c.SkipWhitespaces();
    if key.None? || c.Peek() != COLON { return None; }
    c.pos := c.pos + 1;
    var value := ParseValueAt(c, nesting);
    if value.None? { return None; }
    var found := FindName(members, key.value);
    if found || |members| == OBJECT_MAX_CAPACITY { return None; }
    r := Some(members + [Member(key.value, value.value)]);
  }

  lemma MembersEnd(t: Text, p: nat, nesting: nat, acc: seq<Member>)
    requires p <= |t| && 0 < nesting <= MAX_NESTING + 1 && SoundMembers(acc, nesting) && At(t, p) == 0
    ensures ParseMembers(t, p, nesting, acc) == Fail
  {
  }

  method ParseObjectAt(c: Cursor, nesting: nat) returns (r: Option<Json>)
    requires c.Valid() && c.Peek() == LBRACE && 0 < nesting <= MAX_NESTING + 1
    modifies c
    ensures c.Valid() && c.pos > old(c.pos)
    ensures var b := SkipSpaces(c.text, old(c.pos) + 1);
            Returns(r, c.pos, if At(c.text, b) == RBRACE then Ok(Object([]), b + 1)
              else ParseMembers(c.text, b, nesting, []))
    decreases |c.text| - c.pos, 0
  {
    hide ParseMembers, SkipSpaces;
    c.pos := c.pos + 1;
    c.SkipWhitespaces();
    if c.Peek() == RBRACE {
      c.pos := c.pos + 1;
      return Some(Object([]));
    }
    var members: seq<Member> := [];
    ghost var spec := ParseMembers(c.text, c.pos, nesting, []);
    while c.Peek() != 0
      invariant c.Valid() && c.pos > old(c.pos) && SoundMembers(members, nesting)
      invariant ParseMembers(c.text, c.pos, nesting, members) == spec
      decreases |c.text| - c.pos
    {
      var more := ParseMemberAt(c, nesting, members);
      if more.None? { return None; }
      members := more.value;
      c.SkipWhitespaces();
      if c.Peek() != COMMA {
        if c.Peek() != RBRACE { return None; }
        c.pos := c.pos + 1;
        return Some(Object(members));
      }
      c.pos := c.pos + 1;
      c.SkipWhitespaces();
    }
    MembersEnd(c.text, c.pos, nesting, members);
    return None;
  }

  lemma ItemsEnd(t: Text, p: nat, nesting: nat, acc: seq<Json>)
    requires p <= |t| && 0 < nesting <= MAX_NESTING + 1 && SoundItems(acc, nesting) && At(t, p) == 0
    ensures ParseItems(t, p, nesting, acc) == Fail
  {
  }

  method ParseArrayAt(c: Cursor, nesting: nat) returns (r: Option<Json>)
    requires c.Valid() && c.Peek() == LBRACKET && 0 < nesting <= MAX_NESTING + 1
    modifies c
    ensures c.Valid() && c.pos > old(c.pos)
    ensures var b := SkipSpaces(c.text, old(c.pos) + 1);
            Returns(r, c.pos, if At(c.text, b) == RBRACKET then Ok(Array([]), b + 1)
              else ParseItems(c.text, b, nesting, []))
    decreases |c.text| - c.pos, 0
  {
    hide ParseValue, ParseItems, SkipSpaces;
    c.pos := c.pos + 1;
    c.SkipWhitespaces();
    if c.Peek() == RBRACKET {
      c.pos := c.pos + 1;
      return Some(Array([]));
    }
    var items: seq<Json> := [];
    ghost var spec := ParseItems(c.text, c.pos, nesting, []);
    while c.Peek() != 0
      invariant c.Valid() && c.pos > old(c.pos) && SoundItems(items, nesting)
      invariant ParseItems(c.text, c.pos, nesting, items) == spec
      decreases |c.text| - c.pos
    {
      ItemsStep(c.text, c.pos, nesting, items);
      var value := ParseValueAt(c, nesting);
      if value.None? || |items| == ARRAY_MAX_CAPACITY { return None; }
      items := items + [value.value];
      c.SkipWhitespaces();
      if c.Peek() != COMMA {
        if c.Peek() != RBRACKET { return None; }
        c.pos := c.pos + 1;
        return Some(Array(items));
      }
      c.pos := c.pos + 1;
      c.SkipWhitespaces();
    }
    ItemsEnd(c.text, c.pos, nesting, items);
    return None;
  }

  // json_parse_string: it ends on every text, and what it returns has distinct names in
  // every object, counts within the caps, and at most twenty containers one in another.
  method ParseDocument(text: Text) returns (r: Option<Json>)
    ensures r == match ParseValue(text, 0, 0) case Ok(v, _) => Some(v) case Fail => None
    ensures r.Some? ==> UniqueNames(r.value) && WithinCaps(r.value) && HoldsDoubles(r.value)
    ensures r.Some? ==> Levels(r.value) <= 19
  {
    hide ParseValue;
    var c := new Cursor(text);
    r := ParseValueAt(c, 0);
    if r.Some? { FitsLevels(r.value, 0); }
  }
}
