// The two passes of the serializer: with no buffer it only counts, with a buffer it
// writes. sprintf ends each piece with a NUL that the next piece overwrites.

module JsonSerializer {
  import opened Bytes
  import opened JsonValue
  import opened JsonText

  // Buffer s with `text` and its terminator written at `at`
  function Written(s: Text, at: nat, text: Text): (r: Text)
    requires at + |text| < |s|
    ensures |r| == |s|
  {
    s[..at] + text + [0] + s[at + |text| + 1..]
  }

  // x is buffer s with `text` written at `at`; the byte after it may be the
  // terminator or whatever was there before.
  ghost predicate Begun(x: Text, s: Text, at: nat, text: Text) {
    && |x| == |s|
    && at + |text| < |s|
    && x[..at + |text|] == s[..at] + text
    && x[at + |text| + 1..] == s[at + |text| + 1..]
  }

  lemma WrittenContinues(x: Text, s: Text, at: nat, a: Text, b: Text)
    requires Begun(x, s, at, a) && at + |a| + |b| < |s|
    ensures Written(x, at + |a|, b) == Written(s, at, a + b)
  {
    assert x[at + |a| + |b| + 1..] == x[at + |a| + 1..][|b|..];
    assert s[at + |a| + |b| + 1..] == s[at + |a| + 1..][|b|..];
  }

  lemma BegunRoom(x: Text, s: Text, at: nat, text: Text)
    requires Begun(x, s, at, text)
    ensures |x| == |s| && at + |text| < |s|
  {
  }

  // The text written at `at`, read back, and the rest of the buffer as it was.
  lemma WrittenText(s: Text, at: nat, text: Text)
    requires at + |text| < |s|
    ensures var r := Written(s, at, text);
            && r[at..at + |text|] == text && r[at + |text|] == 0
            && r[..at] == s[..at] && r[at + |text| + 1..] == s[at + |text| + 1..]
    ensures Begun(Written(s, at, text), s, at, text)
  {
  }

  // The first k characters of `goal` stand in the buffer from `start` on.
  ghost predicate Holds(buf: array?<Byte>, s: Text, start: nat, goal: Text, k: nat)
    reads if buf == null then {} else {buf}
  {
    k <= |goal| && (buf != null ==> start + |goal| < buf.Length && Begun(buf[..], s, start, goal[..k]))
  }

  ghost predicate Ended(buf: array?<Byte>, s: Text, start: nat, goal: Text, k: nat)
    reads if buf == null then {} else {buf}
  {
    k <= |goal| && (buf != null ==>
      |s| == buf.Length && start + |goal| < |s| && buf[..] == Written(s, start, goal[..k]))
  }

  // sprintf's copy and terminator
  method WriteBytes(buf: array<Byte>, at: nat, s: Text)
    requires at + |s| < buf.Length
    modifies buf
    ensures buf[..] == Written(old(buf[..]), at, s)
  {
    ghost var x := buf[..];
    for i := 0 to |s|
      invariant buf[..at + i] == x[..at] + s[..i] && buf[at + i..] == x[at + i..]
    {
      ghost var y := buf[..];
      buf[at + i] := s[i];
      assert buf[..] == y[at + i := s[i]];
    }
    buf[at + |s|] := 0;
  }

  // append_string: the next characters of the goal
  method Append(buf: array?<Byte>, s: Text, at: nat, ghost s0: Text, ghost start: nat, ghost goal: Text, ghost k: nat)
      returns (written: nat)
    requires at == start + k && Holds(buf, s0, start, goal, k) && Here(goal, k, s)
    modifies if buf == null then {} else {buf}
    ensures written == |s|
    ensures Holds(buf, s0, start, goal, k + |s|) && Ended(buf, s0, start, goal, k + |s|)
  {
    if buf == null { return |s|; }
    BegunRoom(buf[..], s0, start, goal[..k]);
    assert goal[..k] + s == goal[..k + |s|];
    hide Written, Begun;
    WrittenContinues(buf[..], s0, start, goal[..k], s);
    WriteBytes(buf, at, s);
    WrittenText(s0, start, goal[..k + |s|]);
    written := |s|;
  }

  // A byte that needs no escape is stored as it is, without a terminator.
  method PutRaw(buf: array?<Byte>, c: Byte, at: nat, ghost s0: Text, ghost start: nat, ghost goal: Text, ghost k: nat)
    requires at == start + k && Holds(buf, s0, start, goal, k) && Here(goal, k, [c])
    modifies if buf == null then {} else {buf}
    ensures Holds(buf, s0, start, goal, k + 1)
  {
    if buf != null {
      HereAt(goal, k, [c], 0);
      ghost var x := buf[..];
      buf[at] := c;
      BegunByte(x, s0, start, goal[..k], c);
      assert goal[..k] + [c] == goal[..k + 1];
      assert buf[..] == x[at := c];
    }
  }

  lemma BegunByte(x: Text, s: Text, at: nat, text: Text, c: Byte)
    requires Begun(x, s, at, text) && at + |text| + 1 < |s|
    ensures Begun(x[at + |text| := c], s, at, text + [c])
  {
    var k := at + |text|;
    assert x[k := c][..k + 1] == x[..k] + [c];
    assert x[k := c][k + 2..] == x[k + 1..][1..] && s[k + 2..] == s[k + 1..][1..];
  }

  // append_indent: nothing at all at level 0
  method AppendIndent(buf: array?<Byte>, level: nat, at: nat, ghost s0: Text, ghost start: nat, ghost goal: Text,
      ghost k: nat) returns (written: nat)
    requires at == start + k && Holds(buf, s0, start, goal, k) && Here(goal, k, Indent(level))
    modifies if buf == null then {} else {buf}
    ensures written == |Indent(level)| && Holds(buf, s0, start, goal, k + |Indent(level)|)
  {
    hide Holds, Ended, Here;
    written := 0;
    for i := 0 to level
      invariant written == 4 * i && Holds(buf, s0, start, goal, k + written)
    {
      IndentHere(goal, k, level, i);
      var n := Append(buf, [SPACE, SPACE, SPACE, SPACE], at + written, s0, start, goal, k + written);
      written := written + n;
    }
  }

  lemma IndentHere(goal: Text, k: nat, level: nat, i: nat)
    requires Here(goal, k, Indent(level)) && i < level
    ensures Here(goal, k + 4 * i, [SPACE, SPACE, SPACE, SPACE])
  {
    IndentAt(level, i);
    hide Indent;
    var s, tab := Indent(level), [SPACE, SPACE, SPACE, SPACE];
    assert s == s[..4 * i] + (tab + s[4 * i + 4..]);
    HereSplit(goal, k, s[..4 * i], tab + s[4 * i + 4..]);
    HereSplit(goal, k + 4 * i, tab, s[4 * i + 4..]);
  }

  lemma IndentAt(level: nat, i: nat)
    requires i < level
    ensures Indent(level)[4 * i..4 * i + 4] == [SPACE, SPACE, SPACE, SPACE]
  {
    forall j | 0 <= j < |Indent(level)| ensures Indent(level)[j] == SPACE { assert Indent(level)[j] in Indent(level); }
  }

  // json_serialize_string
  method AppendQuoted(buf: array?<Byte>, s: Text, at: nat, ghost s0: Text, ghost start: nat, ghost goal: Text,
      ghost k: nat) returns (written: nat)
    requires at == start + k && Holds(buf, s0, start, goal, k) && Here(goal, k, StringText(s))
    modifies if buf == null then {} else {buf}
    ensures written == |StringText(s)|
    ensures Holds(buf, s0, start, goal, k + |StringText(s)|) && Ended(buf, s0, start, goal, k + |StringText(s)|)
  {
    hide Holds, Ended, Here, EscapeByte;
    assert StringText(s) == [QUOTE] + (Escaped(s) + [QUOTE]);
    HereSplit(goal, k, [QUOTE], Escaped(s) + [QUOTE]);
    written := Append(buf, [QUOTE], at, s0, start, goal, k);
    assert s[0..] == s;
    for i := 0 to |s|
      invariant written + |Escaped(s[i..])| + 1 == |StringText(s)|
      invariant Holds(buf, s0, start, goal, k + written) && Here(goal, k + written, Escaped(s[i..]) + [QUOTE])
    {
      var e := EscapeByte(s[i]);
      assert s[i..][1..] == s[i + 1..];
      assert Escaped(s[i..]) + [QUOTE] == e + (Escaped(s[i + 1..]) + [QUOTE]);
      HereSplit(goal, k + written, e, Escaped(s[i + 1..]) + [QUOTE]);
      if |e| == 2 {
        var n := Append(buf, e, at + written, s0, start, goal, k + written);
        written := written + n;
      } else {
        assert e == [e[0]];
        PutRaw(buf, e[0], at + written, s0, start, goal, k + written);
        written := written + 1;
      }
    }
    assert Escaped(s[|s|..]) + [QUOTE] == [QUOTE];
    var n := Append(buf, [QUOTE], at + written, s0, start, goal, k + written);
    written := written + n;
  }

  // json_object_get_value: the first member of that name
  method FindMember(ms: seq<Member>, name: Text) returns (k: nat)
    requires exists i :: 0 <= i < |ms| && ms[i].name == name
    ensures k < |ms| && ms[k].name == name && forall j :: 0 <= j < k ==> ms[j].name != name
  {
    k := 0;
    while ms[k].name != name
      invariant k < |ms| && forall j :: 0 <= j < k ==> ms[j].name != name
      decreases |ms| - k
    {
      k := k + 1;
    }
  }

  // json_serialize_to_buffer_r. One contract for both passes: the count does not
  // depend on the buffer, and a buffer receives exactly the counted text.
  method SerializeValue(v: Json, buf: array?<Byte>, at: nat, level: nat, pretty: bool,
                        ghost s0: Text, ghost start: nat, ghost goal: Text, ghost k: nat) returns (written: nat)
    requires UniqueNames(v)
    requires at == start + k && Holds(buf, s0, start, goal, k) && Here(goal, k, ValueText(v, level, pretty))
    modifies if buf == null then {} else {buf}
    ensures written == |ValueText(v, level, pretty)|
    ensures Holds(buf, s0, start, goal, k + written) && Ended(buf, s0, start, goal, k + written)
    decreases v, 1
  {
    hide Here, Holds, Ended;
    match v {
      case Null => written := Append(buf, NULL, at, s0, start, goal, k);
      case Boolean(b) => written := Append(buf, if b then TRUE else FALSE, at, s0, start, goal, k);
      case Number(r) => written := Append(buf, NumberText(r), at, s0, start, goal, k);
      case NonFinite(what) => written := Append(buf, NonFiniteText(what), at, s0, start, goal, k);
      case String(s) => written := AppendQuoted(buf, s, at, s0, start, goal, k);
      case Array(items) => written := SerializeItems(items, buf, at, level, pretty, s0, start, goal, k);
      case Object(ms) => written := SerializeMembers(ms, buf, at, level, pretty, s0, start, goal, k);
    }
  }

  // The bracket that opens a container and the line break after it
  method Open(buf: array?<Byte>, open: Byte, count: nat, pretty: bool, ghost rest: Text, at: nat,
              ghost s0: Text, ghost start: nat, ghost goal: Text, ghost k: nat) returns (written: nat)
    requires at == start + k && Holds(buf, s0, start, goal, k)
    requires Here(goal, k, if count == 0 then [open] + rest else [open] + (Break(pretty) + rest))
    modifies if buf == null then {} else {buf}
    ensures written == 1 + (if count == 0 then 0 else |Break(pretty)|)
    ensures Holds(buf, s0, start, goal, k + written) && Here(goal, k + written, rest)
  {
    hide Here, Holds, Ended;
    HereSplit(goal, k, [open], if count == 0 then rest else Break(pretty) + rest);
    written := Append(buf, [open], at, s0, start, goal, k);
    if count > 0 { HereSplit(goal, k + 1, Break(pretty), rest); }
    if count > 0 && pretty {
      var n := Append(buf, [NEWLINE], at + written, s0, start, goal, k + written);
      written := written + n;
    }
  }

  // The margin and the bracket that close a container
  method Close(buf: array?<Byte>, close: Byte, count: nat, pretty: bool, level: nat, at: nat,
               ghost s0: Text, ghost start: nat, ghost goal: Text, ghost k: nat) returns (written: nat)
    requires at == start + k && Holds(buf, s0, start, goal, k)
    requires Here(goal, k, if count == 0 then [close] else Margin(pretty, level) + [close])
    modifies if buf == null then {} else {buf}
    ensures written == 1 + (if count == 0 then 0 else |Margin(pretty, level)|)
    ensures Holds(buf, s0, start, goal, k + written) && Ended(buf, s0, start, goal, k + written)
  {
    hide Here, Holds, Ended;
    written := 0;
    if count > 0 { HereSplit(goal, k, Margin(pretty, level), [close]); }
    if count > 0 && pretty {
      written := AppendIndent(buf, level, at, s0, start, goal, k);
    }
    var n := Append(buf, [close], at + written, s0, start, goal, k + written);
    written := written + n;
  }

  // The comma between two elements and the line break after each
  method Between(buf: array?<Byte>, more: bool, pretty: bool, ghost rest: Text, at: nat,
                 ghost s0: Text, ghost start: nat, ghost goal: Text, ghost k: nat) returns (written: nat)
    requires at == start + k && Holds(buf, s0, start, goal, k)
    requires Here(goal, k, Comma(more) + (Break(pretty) + rest))
    modifies if buf == null then {} else {buf}
    ensures written == |Comma(more)| + |Break(pretty)|
    ensures Holds(buf, s0, start, goal, k + written) && Here(goal, k + written, rest)
  {
    hide Here, Holds, Ended;
    written := 0;
    HereSplit(goal, k, Comma(more), Break(pretty) + rest);
    HereSplit(goal, k + |Comma(more)|, Break(pretty), rest);
    if more {
      written := Append(buf, [COMMA], at, s0, start, goal, k);
    }
    if pretty {
      var n := Append(buf, [NEWLINE], at + written, s0, start, goal, k + written);
      written := written + n;
    }
  }

  method AppendMargin(buf: array?<Byte>, level: nat, pretty: bool, at: nat,
                      ghost s0: Text, ghost start: nat, ghost goal: Text, ghost k: nat) returns (written: nat)
    requires at == start + k && Holds(buf, s0, start, goal, k) && Here(goal, k, Margin(pretty, level))
    modifies if buf == null then {} else {buf}
    ensures written == |Margin(pretty, level)| && Holds(buf, s0, start, goal, k + written)
  {
    written := 0;
    if pretty {
      written := AppendIndent(buf, level, at, s0, start, goal, k);
    }
  }

  method SerializeItems(items: seq<Json>, buf: array?<Byte>, at: nat, level: nat, pretty: bool,
                        ghost s0: Text, ghost start: nat, ghost goal: Text, ghost k: nat) returns (written: nat)
    requires UniqueNames(Array(items))
    requires at == start + k && Holds(buf, s0, start, goal, k) && Here(goal, k, ValueText(Array(items), level, pretty))
    modifies if buf == null then {} else {buf}
    ensures written == |ValueText(Array(items), level, pretty)|
    ensures Holds(buf, s0, start, goal, k + written) && Ended(buf, s0, start, goal, k + written)
    decreases items, 0
  {
    hide Here, Holds, Ended, Comma, Break, Margin, ItemsText, ValueText;
    ghost var rest := if items == [] then [RBRACKET] else ItemsText(items, level, pretty);
    ArrayText(items, level, pretty);
    written := Open(buf, LBRACKET, |items|, pretty, rest, at, s0, start, goal, k);
    assert items[0..] == items;
    for i := 0 to |items|
      invariant Holds(buf, s0, start, goal, k + written)
      invariant |items| > 0 ==> Here(goal, k + written, ItemsText(items[i..], level, pretty))
      invariant |items| > 0 ==>
                written + |ItemsText(items[i..], level, pretty)| == |ValueText(Array(items), level, pretty)|
      invariant |items| == 0 ==> written == 1 && Here(goal, k + written, [RBRACKET])
    {
      var n := SerializeItem(items, i, buf, at + written, level, pretty, s0, start, goal, k + written);
      written := written + n;
    }
    assert items[|items|..] == [];
    var n := Close(buf, RBRACKET, |items|, pretty, level, at + written, s0, start, goal, k + written);
    written := written + n;
  }

  // One round of the loop over the items
  method SerializeItem(items: seq<Json>, i: nat, buf: array?<Byte>, at: nat, level: nat, pretty: bool,
                       ghost s0: Text, ghost start: nat, ghost goal: Text, ghost k: nat) returns (written: nat)
    requires i < |items| && UniqueNames(Array(items))
    requires at == start + k && Holds(buf, s0, start, goal, k) && Here(goal, k, ItemsText(items[i..], level, pretty))
    modifies if buf == null then {} else {buf}
    ensures written + |ItemsText(items[i + 1..], level, pretty)| == |ItemsText(items[i..], level, pretty)|
    ensures Holds(buf, s0, start, goal, k + written) &&
            Here(goal, k + written, ItemsText(items[i + 1..], level, pretty))
    decreases items, 0, 0
  {
    hide Here, Holds, Ended, Comma, Break, Margin, ItemsText, ValueText;
    assert items[i] in items;
    ItemsTextStep(items, i, level, pretty);
    ghost var text := ValueText(items[i], level + 1, pretty);
    ghost var rest := ItemsText(items[i + 1..], level, pretty);
    ghost var after := Comma(i + 1 < |items|) + (Break(pretty) + rest);
    HereSplit(goal, k, Margin(pretty, level + 1), text + after);
    written := AppendMargin(buf, level + 1, pretty, at, s0, start, goal, k);
    HereSplit(goal, k + written, text, after);
    var n := SerializeValue(items[i], buf, at + written, level + 1, pretty, s0, start, goal, k + written);
    written := written + n;
    n := Between(buf, i + 1 < |items|, pretty, rest, at + written, s0, start, goal, k + written);
    written := written + n;
  }

  method SerializeMembers(ms: seq<Member>, buf: array?<Byte>, at: nat, level: nat, pretty: bool,
                          ghost s0: Text, ghost start: nat, ghost goal: Text, ghost k: nat) returns (written: nat)
    requires UniqueNames(Object(ms))
    requires at == start + k && Holds(buf, s0, start, goal, k) && Here(goal, k, ValueText(Object(ms), level, pretty))
    modifies if buf == null then {} else {buf}
    ensures written == |ValueText(Object(ms), level, pretty)|
    ensures Holds(buf, s0, start, goal, k + written) && Ended(buf, s0, start, goal, k + written)
    decreases ms, 0
  {
    hide Here, Holds, Ended, Comma, Break, Margin, MembersText, ValueText;
    ghost var rest := if ms == [] then [RBRACE] else MembersText(ms, level, pretty);
    ObjectText(ms, level, pretty);
    written := Open(buf, LBRACE, |ms|, pretty, rest, at, s0, start, goal, k);
    assert ms[0..] == ms;
    for i := 0 to |ms|
      invariant Holds(buf, s0, start, goal, k + written)
      invariant |ms| > 0 ==> Here(goal, k + written, MembersText(ms[i..], level, pretty))
      invariant |ms| > 0 ==> written + |MembersText(ms[i..], level, pretty)| == |ValueText(Object(ms), level, pretty)|
      invariant |ms| == 0 ==> written == 1 && Here(goal, k + written, [RBRACE])
    {
      var n := SerializeMember(ms, i, buf, at + written, level, pretty, s0, start, goal, k + written);
      written := written + n;
    }
    assert ms[|ms|..] == [];
    var n := Close(buf, RBRACE, |ms|, pretty, level, at + written, s0, start, goal, k + written);
    written := written + n;
  }

  // One round of the loop over the members; the value is looked up by its name.
  method SerializeMember(ms: seq<Member>, i: nat, buf: array?<Byte>, at: nat, level: nat, pretty: bool,
                         ghost s0: Text, ghost start: nat, ghost goal: Text, ghost k: nat) returns (written: nat)
    requires i < |ms| && UniqueNames(Object(ms))
    requires at == start + k && Holds(buf, s0, start, goal, k) && Here(goal, k, MembersText(ms[i..], level, pretty))
    modifies if buf == null then {} else {buf}
    ensures written + |MembersText(ms[i + 1..], level, pretty)| == |MembersText(ms[i..], level, pretty)|
    ensures Holds(buf, s0, start, goal, k + written) && Here(goal, k + written, MembersText(ms[i + 1..], level, pretty))
    decreases ms, 0, 0
  {
    hide Here, Holds, Ended, Comma, Break, Margin, MembersText, ValueText, StringText, Separator;
    assert ms[i] in ms;
    MembersTextStep(ms, i, level, pretty);
    ghost var key, text := StringText(ms[i].name), ValueText(ms[i].value, level + 1, pretty);
    ghost var rest := MembersText(ms[i + 1..], level, pretty);
    ghost var after := Comma(i + 1 < |ms|) + (Break(pretty) + rest);
    HereSplit(goal, k, Margin(pretty, level + 1), key + (Separator(pretty) + (text + after)));
    written := AppendMargin(buf, level + 1, pretty, at, s0, start, goal, k);
    HereSplit(goal, k + written, key, Separator(pretty) + (text + after));
    var n := AppendQuoted(buf, ms[i].name, at + written, s0, start, goal, k + written);
    written := written + n;
    HereSplit(goal, k + written, Separator(pretty), text + after);
    n := AppendSeparator(buf, pretty, at + written, s0, start, goal, k + written);
    written := written + n;
    HereSplit(goal, k + written, text, after);
    var j := FindMember(ms, ms[i].name);
    assert j == i;
    n := SerializeValue(ms[j].value, buf, at + written, level + 1, pretty, s0, start, goal, k + written);
    written := written + n;
    n := Between(buf, i + 1 < |ms|, pretty, rest, at + written, s0, start, goal, k + written);
    written := written + n;
  }

  method AppendSeparator(buf: array?<Byte>, pretty: bool, at: nat,
                         ghost s0: Text, ghost start: nat, ghost goal: Text, ghost k: nat) returns (written: nat)
    requires at == start + k && Holds(buf, s0, start, goal, k) && Here(goal, k, Separator(pretty))
    modifies if buf == null then {} else {buf}
    ensures written == |Separator(pretty)| && Holds(buf, s0, start, goal, k + written)
  {
    hide Here, Holds, Ended;
    assert pretty ==> Separator(pretty) == [COLON] + [SPACE];
    if pretty { HereSplit(goal, k, [COLON], [SPACE]); }
    written := Append(buf, [COLON], at, s0, start, goal, k);
    if pretty {
      var n := Append(buf, [SPACE], at + written, s0, start, goal, k + written);
      written := written + n;
    }
  }

  // The sizing pass and the writing pass of json_serialize_to_buffer, compact or
  // pretty: both give the length of the text, and the second puts exactly that text
  // and its terminator at the front of the buffer.
  method Serialize(v: Json, buf: array?<Byte>, pretty: bool) returns (written: nat)
    requires UniqueNames(v)
    requires buf != null ==> |ValueText(v, 0, pretty)| < buf.Length
    modifies if buf == null then {} else {buf}
    ensures written == |ValueText(v, 0, pretty)|
    ensures buf != null ==> buf[..written] == ValueText(v, 0, pretty) && buf[written] == 0
    ensures buf != null ==> buf[written + 1..] == old(buf[written + 1..])
  {
    ghost var goal := ValueText(v, 0, pretty);
    ghost var s0 := if buf == null then [] else buf[..];
    hide ValueText;
    assert goal[..0] == [] && goal[0..|goal|] == goal;
    written := SerializeValue(v, buf, 0, 0, pretty, s0, 0, goal, 0);
    assert goal[..written] == goal;
    if buf != null { WrittenText(s0, 0, goal); }
  }

  // The size that is asked for: the compact one leaves no byte for the terminator.
  function Needed(v: Json, pretty: bool): nat {
    |ValueText(v, 0, pretty)| + if pretty then 1 else 0
  }

  // json_serialize_to_buffer and its pretty form, on the `size` bytes of memory from
  // `base` on. Whenever the size is enough, the text and its terminator are written, and
  // nothing else: so what is past the block stays, unless the layout is compact, the text
  // fills the block and the terminator is not there already.
  method SerializeToBuffer(v: Json, memory: array<Byte>, base: nat, size: nat, pretty: bool) returns (ok: bool)
    requires UniqueNames(v) && base + size < memory.Length
    modifies memory
    ensures ok <==> size >= Needed(v, pretty)
    ensures ok ==> var end := base + |ValueText(v, 0, pretty)|;
                   end <= base + size && memory[base..end] == ValueText(v, 0, pretty) && memory[end] == 0
    ensures memory[..base] == old(memory[..base])
    ensures memory[base + size..] == old(memory[base + size..]) <==>
            !ok || pretty || size > |ValueText(v, 0, pretty)| || old(memory[base + size]) == 0
  {
    hide ValueText;
    var text := Serialize(v, null, pretty);
    var needed := text + if pretty then 1 else 0;
    if needed == 0 || size < needed { return false; }
    ghost var goal, s0 := ValueText(v, 0, pretty), memory[..];
    WriteValue(v, memory, base, pretty);
    WrittenText(s0, base, goal);
    WrittenPast(s0, base, goal, base + size);
    hide Written;
    ok := true;
  }

  // The writing pass, at any place in memory
  method WriteValue(v: Json, memory: array<Byte>, base: nat, pretty: bool)
    requires UniqueNames(v) && base + |ValueText(v, 0, pretty)| < memory.Length
    modifies memory
    ensures memory[..] == Written(old(memory[..]), base, ValueText(v, 0, pretty))
  {
    hide ValueText, Begun, Written;
    ghost var goal, s0 := ValueText(v, 0, pretty), memory[..];
    assert goal[..0] == [] && goal[0..|goal|] == goal;
    Nothing(s0, base);
    var written := SerializeValue(v, memory, base, 0, pretty, s0, base, goal, 0);
    assert goal[..written] == goal;
  }

  lemma Nothing(s: Text, at: nat)
    requires at < |s|
    ensures Begun(s, s, at, [])
  {
  }

  // What is changed from a place on that the text does not reach past
  lemma WrittenPast(s: Text, at: nat, text: Text, end: nat)
    requires at + |text| <= end < |s|
    ensures Written(s, at, text)[end..] == s[end..] <==> at + |text| < end || s[end] == 0
  {
    var r := Written(s, at, text);
    assert forall i :: at + |text| < i < |s| ==> r[i] == s[i];
    assert r[end..][0] == r[end] && s[end..][0] == s[end];
  }

  // json_serialize_to_string and its pretty form: a block of exactly the size asked for is
  // always enough. The pretty text ends within it. The compact one never does: its
  // terminator is the byte after the block.
  method SerializeToString(v: Json, memory: array<Byte>, base: nat, pretty: bool) returns (size: nat)
    requires UniqueNames(v) && base + Needed(v, pretty) < memory.Length
    modifies memory
    ensures size == Needed(v, pretty)
    ensures pretty ==> memory[base..base + size] == ValueText(v, 0, true) + [0]
    ensures pretty ==> memory[base + size..] == old(memory[base + size..])
    ensures !pretty ==> memory[base..base + size] == ValueText(v, 0, false) && memory[base + size] == 0
    ensures !pretty && old(memory[base + size]) != 0 ==> memory[base + size..] != old(memory[base + size..])
    ensures memory[..base] == old(memory[..base])
  {
    hide ValueText;
    size := Serialize(v, null, pretty);
    if pretty { size := size + 1; }
    var ok := SerializeToBuffer(v, memory, base, size, pretty);
    if pretty { assert memory[base..base + size] == memory[base..base + size - 1] + [memory[base + size - 1]]; }
  }
}
