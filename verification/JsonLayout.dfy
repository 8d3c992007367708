// The pretty layout as what a reformatter makes of the compact text, character by
// character, and what the compact text leaves out.

module JsonLayout {
  import opened Bytes
  import opened Doubles
  import opened JsonText
  import opened JsonValue

  function Spaces(n: nat): Text {
    seq(n, _ => 32)
  }

  // A line break and four spaces a level after an opening bracket and after a comma, the
  // same before a closing bracket, a space after a colon, and nothing inside an empty pair
  // of brackets
  function Laid(t: Text, depth: nat): Text
    decreases |t|
  {
    if t == [] then [] else
      var c, rest := t[0], t[1..];
      if c == 34 then [34] + LaidInside(rest, depth)
      else if c == 91 || c == 123 then
        if rest != [] && rest[0] as int == c as int + 2 then [c, rest[0]] + Laid(rest[1..], depth)
        else [c, 10] + (Spaces(4 * (depth + 1)) + Laid(rest, depth + 1))
      else if c == 93 || c == 125 then
        var outer := if depth == 0 then 0 else depth - 1;
        [10] + (Spaces(4 * outer) + ([c] + Laid(rest, outer)))
      else if c == 44 then [44, 10] + (Spaces(4 * depth) + Laid(rest, depth))
      else if c == 58 then [58, 32] + Laid(rest, depth)
      else [c] + Laid(rest, depth)
  }

  // The same from inside a literal, of which nothing changes
  function LaidInside(t: Text, depth: nat): Text
    decreases |t|
  {
    if t == [] then [] else
      var c, rest := t[0], t[1..];
      if c == 34 then [34] + Laid(rest, depth)
      else if c == 92 && rest != [] then [92, rest[0]] + LaidInside(rest[1..], depth)
      else [c] + LaidInside(rest, depth)
  }

  // Characters that stand for themselves in any layout
  predicate Plain(s: Text) {
    forall i :: 0 <= i < |s| ==> s[i] !in {32, 34, 44, 58, 91, 93, 123, 125}
  }

  lemma {:induction false} LaidPlain(s: Text, rest: Text, depth: nat)
    requires Plain(s)
    ensures Laid(s + rest, depth) == s + Laid(rest, depth)
  {
    if s == [] {
      assert [] + rest == rest;
    } else {
      LaidPlain(s[1..], rest, depth);
      assert (s + rest)[1..] == s[1..] + rest;
      assert s == [s[0]] + s[1..];
    }
  }

  lemma {:induction false} LaidEscaped(s: Text, rest: Text, depth: nat)
    ensures LaidInside(Escaped(s) + rest, depth) == Escaped(s) + LaidInside(rest, depth)
  {
    hide EscapeByte, LaidInside;
    if s == [] {
      assert Escaped(s) == [];
      assert [] + rest == rest;
    } else {
      LaidEscaped(s[1..], rest, depth);
      LaidByte(s[0], Escaped(s[1..]) + rest, depth);
      Regroup(EscapeByte(s[0]), Escaped(s[1..]), rest);
      Regroup(EscapeByte(s[0]), Escaped(s[1..]), LaidInside(rest, depth));
    }
  }

  lemma Regroup(a: Text, b: Text, c: Text)
    ensures a + b + c == a + (b + c)
  {
  }

  lemma LaidByte(c: Byte, rest: Text, depth: nat)
    ensures LaidInside(EscapeByte(c) + rest, depth) == EscapeByte(c) + LaidInside(rest, depth)
  {
    var e := EscapeByte(c);
    if |e| == 2 {
      assert (e + rest)[1..][1..] == rest;
    } else {
      assert (e + rest)[1..] == rest;
    }
  }

  lemma LaidString(s: Text, rest: Text, depth: nat)
    ensures Laid(StringText(s) + rest, depth) == StringText(s) + Laid(rest, depth)
  {
    hide Escaped;
    var inner := Escaped(s) + ([34] + rest);
    assert StringText(s) + rest == [34] + inner;
    assert ([34] + inner)[1..] == inner;
    LaidEscaped(s, [34] + rest, depth);
    assert ([34] + rest)[1..] == rest;
    assert Laid(StringText(s) + rest, depth) == [34] + (Escaped(s) + ([34] + Laid(rest, depth)));
  }

  lemma {:induction false} DigitsPlain(n: nat)
    ensures Plain(Digits(n))
  {
  }

  lemma {:induction false} IndentIs(level: nat)
    ensures Indent(level) == Spaces(4 * level)
  {
    if level == 0 {
    } else {
      IndentIs(level - 1);
    }
  }

  lemma ScalarPlain(v: Json)
    requires !v.String? && !v.Array? && !v.Object?
    ensures Plain(ValueText(v, 0, false))
    ensures forall level, pretty :: ValueText(v, level, pretty) == ValueText(v, 0, false)
  {
    hide Digits;
    match v
    case Number(r) =>
      DigitsPlain(Millionths(r) / 1000000);
      if IsInteger(r) { DigitsPlain(if r.Floor < 0 then -r.Floor else r.Floor); }
    case _ =>
  }

  // The reformatter makes the pretty text out of the compact one.
  lemma {:induction false} LaidValue(v: Json, level: nat, rest: Text)
    ensures Laid(ValueText(v, level, false) + rest, level) == ValueText(v, level, true) + Laid(rest, level)
    decreases v, 1
  {
    hide Laid, LaidInside, StringText, ItemsText, MembersText;
    match v
    case String(s) => LaidString(s, rest, level);
    case Array(items) => LaidArray(items, level, rest);
    case Object(ms) => LaidObject(ms, level, rest);
    case _ =>
      ScalarPlain(v);
      LaidPlain(ValueText(v, level, false), rest, level);
  }

  lemma LaidArray(items: seq<Json>, level: nat, rest: Text)
    ensures var v := Array(items);
            Laid(ValueText(v, level, false) + rest, level) == ValueText(v, level, true) + Laid(rest, level)
    decreases items, 1
  {
    hide ValueText, ItemsText, Laid, Break, Indent;
    ArrayText(items, level, false);
    ArrayText(items, level, true);
    if items == [] {
      EmptyPair(91, rest, level);
    } else {
      var compact, pretty := ItemsText(items, level, false), ItemsText(items, level, true);
      Around(91, compact, pretty, rest, Laid(rest, level));
      ItemsOpenPlain(items, level);
      Opened(91, compact, rest, level);
      LaidItems(items, level, rest);
    }
  }

  lemma EmptyPair(open: Byte, rest: Text, level: nat)
    requires open == 91 || open == 123
    ensures Laid([open] + [open + 2] + rest, level) == [open] + [open + 2] + Laid(rest, level)
  {
    var t := [open] + [open + 2] + rest;
    assert t[1..][1..] == rest;
  }

  // An opening bracket with something in it
  lemma Opened(open: Byte, inner: Text, rest: Text, level: nat)
    requires (open == 91 || open == 123) && inner != [] && inner[0] as int != open as int + 2
    ensures Laid([open] + (inner + rest), level) ==
            [open] + ([10] + (Indent(level + 1) + Laid(inner + rest, level + 1)))
  {
    hide Indent;
    IndentIs(level + 1);
    var all := inner + rest;
    var t := [open] + all;
    assert t[1..] == all && all[0] == inner[0];
    assert Laid(t, level) == [open, 10] + (Spaces(4 * (level + 1)) + Laid(all, level + 1)) by {
      hide Spaces;
      assert all != [];
    }
    Regroup([open], [10], Spaces(4 * (level + 1)) + Laid(all, level + 1));
  }

  // The brackets around what is left of the compact and of the pretty text
  lemma Around(open: Byte, compact: Text, pretty: Text, rest: Text, after: Text)
    ensures [open] + (Break(false) + compact) + rest == [open] + (compact + rest)
    ensures [open] + (Break(true) + pretty) + after == [open] + ([10] + (pretty + after))
  {
    assert [] + compact == compact;
    Regroup([open], compact, rest);
    Regroup([open], [10] + pretty, after);
    Regroup([10], pretty, after);
  }

  lemma ItemsOpenPlain(items: seq<Json>, level: nat)
    requires items != []
    ensures var t := ItemsText(items, level, false); t != [] && t[0] != 93
  {
    FirstIsNoBracket(items[0], level + 1);
  }

  lemma FirstIsNoBracket(v: Json, level: nat)
    ensures ValueText(v, level, false)[0] != 93 && ValueText(v, level, false)[0] != 125
  {
  }

  // The items, each on a line of its own
  lemma {:induction false} LaidItems(items: seq<Json>, level: nat, rest: Text)
    requires items != []
    ensures Indent(level + 1) + Laid(ItemsText(items, level, false) + rest, level + 1) ==
            ItemsText(items, level, true) + Laid(rest, level)
    decreases items, 0
  {
    hide Laid, ItemsText, ValueText, Indent;
    var x, after := items[0], Laid(rest, level);
    var compact, pretty := ValueText(x, level + 1, false), ValueText(x, level + 1, true);
    if |items| == 1 {
      LastItem(items, level, rest);
      LastItemLine(items, level, after);
      LaidValue(x, level + 1, [93] + rest);
      Closed(93, rest, level);
    } else {
      var more, lines := ItemsText(items[1..], level, false), ItemsText(items[1..], level, true);
      FirstItem(items, level, rest);
      FirstItemLine(items, level, after);
      LaidValue(x, level + 1, [44] + (more + rest));
      AfterComma(more + rest, level + 1);
      LaidItems(items[1..], level, rest);
    }
  }

  lemma LastItem(items: seq<Json>, level: nat, rest: Text)
    requires |items| == 1
    ensures ItemsText(items, level, false) + rest == ValueText(items[0], level + 1, false) + ([93] + rest)
  {
    hide ValueText, ItemsText;
    ArrayText(items, level, false);
    ItemsTextStep(items, 0, level, false);
    assert items[0..] == items && items[1..] == [];
    var x := ValueText(items[0], level + 1, false);
    assert ItemsText(items, level, false) == x + [93];
    Regroup(x, [93], rest);
  }

  lemma LastItemLine(items: seq<Json>, level: nat, after: Text)
    requires |items| == 1
    ensures ItemsText(items, level, true) + after == Indent(level + 1) +
            (ValueText(items[0], level + 1, true) + ([10] + (Indent(level) + ([93] + after))))
  {
    hide ValueText, ItemsText, Indent;
    ArrayText(items, level, true);
    ItemsTextStep(items, 0, level, true);
    assert items[0..] == items && items[1..] == [];
    var margin, x, end := Indent(level + 1), ValueText(items[0], level + 1, true), Indent(level) + [93];
    assert ItemsText(items, level, true) == margin + (x + ([10] + end));
    Regroup(margin, x + ([10] + end), after);
    Regroup(x, [10] + end, after);
    Regroup([10], end, after);
    Regroup(Indent(level), [93], after);
  }

  lemma FirstItem(items: seq<Json>, level: nat, rest: Text)
    requires |items| > 1
    ensures ItemsText(items, level, false) + rest ==
            ValueText(items[0], level + 1, false) + ([44] + (ItemsText(items[1..], level, false) + rest))
  {
    hide ValueText, ItemsText;
    ItemsTextStep(items, 0, level, false);
    assert items[0..] == items;
    var x, more := ValueText(items[0], level + 1, false), ItemsText(items[1..], level, false);
    assert ItemsText(items, level, false) == x + ([44] + more);
    Regroup(x, [44] + more, rest);
    Regroup([44], more, rest);
  }

  lemma FirstItemLine(items: seq<Json>, level: nat, after: Text)
    requires |items| > 1
    ensures ItemsText(items, level, true) + after == Indent(level + 1) +
            (ValueText(items[0], level + 1, true) + ([44] + ([10] + (ItemsText(items[1..], level, true) + after))))
  {
    hide ValueText, ItemsText, Indent;
    ItemsTextStep(items, 0, level, true);
    assert items[0..] == items;
    var margin, x, more := Indent(level + 1), ValueText(items[0], level + 1, true), ItemsText(items[1..], level, true);
    assert ItemsText(items, level, true) == margin + (x + ([44] + ([10] + more)));
    Regroup(margin, x + ([44] + ([10] + more)), after);
    Regroup(x, [44] + ([10] + more), after);
    Regroup([44], [10] + more, after);
    Regroup([10], more, after);
  }

  lemma Closed(close: Byte, rest: Text, level: nat)
    requires close == 93 || close == 125
    ensures Laid([close] + rest, level + 1) == [10] + (Indent(level) + ([close] + Laid(rest, level)))
  {
    IndentIs(level);
    assert ([close] + rest)[1..] == rest;
  }

  lemma AfterComma(rest: Text, level: nat)
    ensures Laid([44] + rest, level) == [44] + ([10] + (Indent(level) + Laid(rest, level)))
  {
    IndentIs(level);
    assert ([44] + rest)[1..] == rest;
  }

  lemma AfterColon(rest: Text, level: nat)
    ensures Laid([58] + rest, level) == [58, 32] + Laid(rest, level)
  {
    assert ([58] + rest)[1..] == rest;
  }

  lemma LaidObject(ms: seq<Member>, level: nat, rest: Text)
    ensures var v := Object(ms);
            Laid(ValueText(v, level, false) + rest, level) == ValueText(v, level, true) + Laid(rest, level)
    decreases ms, 1
  {
    hide ValueText, MembersText, Laid, Break, Indent;
    ObjectText(ms, level, false);
    ObjectText(ms, level, true);
    if ms == [] {
      EmptyPair(123, rest, level);
    } else {
      var compact, pretty := MembersText(ms, level, false), MembersText(ms, level, true);
      Around(123, compact, pretty, rest, Laid(rest, level));
      MembersOpenPlain(ms, level);
      Opened(123, compact, rest, level);
      LaidMembers(ms, level, rest);
    }
  }

  lemma MembersOpenPlain(ms: seq<Member>, level: nat)
    requires ms != []
    ensures var t := MembersText(ms, level, false); t != [] && t[0] == 34
  {
  }

  // The members, each on a line of its own
  lemma {:induction false} LaidMembers(ms: seq<Member>, level: nat, rest: Text)
    requires ms != []
    ensures Indent(level + 1) + Laid(MembersText(ms, level, false) + rest, level + 1) ==
            MembersText(ms, level, true) + Laid(rest, level)
    decreases ms, 0
  {
    hide Laid, MembersText, ValueText, StringText, Indent;
    var m, after := ms[0], Laid(rest, level);
    if |ms| == 1 {
      var next := [125] + rest;
      LastMember(ms, level, rest);
      LastMemberLine(ms, level, after);
      LaidMember(m, level + 1, next);
      Closed(125, rest, level);
    } else {
      var more := MembersText(ms[1..], level, false);
      FirstMember(ms, level, rest);
      FirstMemberLine(ms, level, after);
      LaidMember(m, level + 1, [44] + (more + rest));
      AfterComma(more + rest, level + 1);
      LaidMembers(ms[1..], level, rest);
    }
  }

  lemma LaidMember(m: Member, level: nat, next: Text)
    ensures Laid(StringText(m.name) + ([58] + (ValueText(m.value, level, false) + next)), level) ==
            StringText(m.name) + ([58, 32] + (ValueText(m.value, level, true) + Laid(next, level)))
    decreases m, 2
  {
    hide Laid, ValueText, StringText;
    var value := ValueText(m.value, level, false) + next;
    LaidString(m.name, [58] + value, level);
    AfterColon(value, level);
    LaidValue(m.value, level, next);
  }

  lemma LastMember(ms: seq<Member>, level: nat, rest: Text)
    requires |ms| == 1
    ensures MembersText(ms, level, false) + rest ==
            StringText(ms[0].name) + ([58] + (ValueText(ms[0].value, level + 1, false) + ([125] + rest)))
  {
    hide ValueText, MembersText, StringText;
    ObjectText(ms, level, false);
    MembersTextStep(ms, 0, level, false);
    assert ms[0..] == ms && ms[1..] == [];
    var name, x := StringText(ms[0].name), ValueText(ms[0].value, level + 1, false);
    assert MembersText(ms, level, false) == name + ([58] + (x + [125]));
    Regroup(name, [58] + (x + [125]), rest);
    Regroup([58], x + [125], rest);
    Regroup(x, [125], rest);
  }

  lemma LastMemberLine(ms: seq<Member>, level: nat, after: Text)
    requires |ms| == 1
    ensures MembersText(ms, level, true) + after == Indent(level + 1) + (StringText(ms[0].name) +
            ([58, 32] + (ValueText(ms[0].value, level + 1, true) + ([10] + (Indent(level) + ([125] + after))))))
  {
    hide ValueText, MembersText, StringText, Indent;
    ObjectText(ms, level, true);
    MembersTextStep(ms, 0, level, true);
    assert ms[0..] == ms && ms[1..] == [];
    var margin, name, x, end :=
      Indent(level + 1), StringText(ms[0].name), ValueText(ms[0].value, level + 1, true), Indent(level) + [125];
    assert MembersText(ms, level, true) == margin + (name + ([58, 32] + (x + ([10] + end))));
    Regroup(margin, name + ([58, 32] + (x + ([10] + end))), after);
    Regroup(name, [58, 32] + (x + ([10] + end)), after);
    Regroup([58, 32], x + ([10] + end), after);
    Regroup(x, [10] + end, after);
    Regroup([10], end, after);
    Regroup(Indent(level), [125], after);
  }

  lemma FirstMember(ms: seq<Member>, level: nat, rest: Text)
    requires |ms| > 1
    ensures MembersText(ms, level, false) + rest ==
            StringText(ms[0].name) +
            ([58] + (ValueText(ms[0].value, level + 1, false) + ([44] + (MembersText(ms[1..], level, false) + rest))))
  {
    hide ValueText, MembersText, StringText;
    MembersTextStep(ms, 0, level, false);
    assert ms[0..] == ms;
    var name, x, more :=
      StringText(ms[0].name), ValueText(ms[0].value, level + 1, false), MembersText(ms[1..], level, false);
    assert MembersText(ms, level, false) == name + ([58] + (x + ([44] + more)));
    Regroup(name, [58] + (x + ([44] + more)), rest);
    Regroup([58], x + ([44] + more), rest);
    Regroup(x, [44] + more, rest);
    Regroup([44], more, rest);
  }

  lemma FirstMemberLine(ms: seq<Member>, level: nat, after: Text)
    requires |ms| > 1
    ensures var lines := MembersText(ms[1..], level, true) + after;
            MembersText(ms, level, true) + after == Indent(level + 1) + (StringText(ms[0].name) +
            ([58, 32] + (ValueText(ms[0].value, level + 1, true) + ([44] + ([10] + lines)))))
  {
    hide ValueText, MembersText, StringText, Indent;
    MembersTextStep(ms, 0, level, true);
    assert ms[0..] == ms;
    var margin, name, x, more := Indent(level + 1), StringText(ms[0].name), ValueText(ms[0].value, level + 1, true),
      MembersText(ms[1..], level, true);
    assert MembersText(ms, level, true) == margin + (name + ([58, 32] + (x + ([44] + ([10] + more)))));
    Regroup(margin, name + ([58, 32] + (x + ([44] + ([10] + more)))), after);
    Regroup(name, [58, 32] + (x + ([44] + ([10] + more))), after);
    Regroup([58, 32], x + ([44] + ([10] + more)), after);
    Regroup(x, [44] + ([10] + more), after);
    Regroup([44], [10] + more, after);
    Regroup([10], more, after);
  }

  lemma PrettyIsLaid(v: Json)
    ensures ValueText(v, 0, true) == Laid(ValueText(v, 0, false), 0)
  {
    LaidValue(v, 0, []);
    assert ValueText(v, 0, false) + [] == ValueText(v, 0, false);
    assert ValueText(v, 0, true) + Laid([], 0) == ValueText(v, 0, true);
  }

  // ---- What the text is made of ----

  // No backspace, tab, line feed, form feed or carriage return, and a backslash before each
  // solidus
  predicate Tidy(t: Text) {
    forall i :: 0 <= i < |t| ==> TidyAt(t, i)
  }

  predicate TidyAt(t: Text, i: nat)
    requires i < |t|
  {
    t[i] !in {8, 9, 10, 12, 13} && (t[i] == 47 ==> i > 0 && t[i - 1] == 92)
  }

  lemma TidyJoin(a: Text, b: Text)
    requires Tidy(a) && Tidy(b)
    ensures Tidy(a + b)
  {
    forall i | 0 <= i < |a + b| ensures TidyAt(a + b, i) {
      if i < |a| { assert TidyAt(a, i); } else { assert TidyAt(b, i - |a|); }
    }
  }

  // Eight bytes take a backslash, and it comes first; the others stand for themselves.
  lemma EscapedExactly(c: Byte)
    ensures var e := EscapeByte(c);
            && Tidy(e)
            && if c in {8, 9, 10, 12, 13, 34, 47, 92} then |e| == 2 && e[0] == 92 else e == [c]
  {
  }

  lemma {:induction false} StringTidy(s: Text)
    ensures Tidy(Escaped(s)) && Tidy(StringText(s))
    decreases |s|
  {
    if s == [] {
    } else {
      StringTidy(s[1..]);
      EscapedExactly(s[0]);
      TidyJoin(EscapeByte(s[0]), Escaped(s[1..]));
    }
    TidyJoin([34], Escaped(s));
    TidyJoin([34] + Escaped(s), [34]);
  }

  lemma {:induction false} CompactIsTidy(v: Json, level: nat)
    ensures Tidy(ValueText(v, level, false))
    decreases v, 1
  {
    hide Tidy, Escaped, EscapeByte, Digits;
    match v
    case String(s) => StringTidy(s);
    case Array(items) =>
      var inner := ItemsText(items, level, false);
      ItemsTidy(items, level);
      Brackets();
      TidyJoin([91], inner);
      assert [] + inner == inner;
    case Object(ms) =>
      var inner := MembersText(ms, level, false);
      MembersTidy(ms, level);
      Brackets();
      TidyJoin([123], inner);
      assert [] + inner == inner;
    case _ => ScalarTidy(v, level);
  }

  lemma Brackets()
    ensures Tidy([91, 93]) && Tidy([123, 125]) && Tidy([91]) && Tidy([123]) && Tidy([93]) && Tidy([125])
    ensures Tidy([44]) && Tidy([]) && Tidy([58])
  {
  }

  lemma ScalarTidy(v: Json, level: nat)
    requires !v.String? && !v.Array? && !v.Object?
    ensures Tidy(ValueText(v, level, false))
  {
    hide Digits;
  }

  lemma {:induction false} ItemsTidy(items: seq<Json>, level: nat)
    ensures Tidy(ItemsText(items, level, false))
    decreases items, 0
  {
    hide Tidy, ValueText;
    Brackets();
    if items == [] {
      assert ItemsText(items, level, false) == [93];
    } else {
      var x, more := ValueText(items[0], level + 1, false), ItemsText(items[1..], level, false);
      CompactIsTidy(items[0], level + 1);
      ItemsTidy(items[1..], level);
      TidyJoin(Comma(|items| > 1), more);
      TidyJoin(x, Comma(|items| > 1) + more);
      assert ItemsText(items, level, false) == x + (Comma(|items| > 1) + more);
    }
  }

  lemma {:induction false} MembersTidy(ms: seq<Member>, level: nat)
    ensures Tidy(MembersText(ms, level, false))
    decreases ms, 0
  {
    hide Tidy, ValueText, StringText;
    Brackets();
    if ms == [] {
      assert MembersText(ms, level, false) == [125];
    } else {
      var key, x, more :=
        StringText(ms[0].name), ValueText(ms[0].value, level + 1, false), MembersText(ms[1..], level, false);
      StringTidy(ms[0].name);
      CompactIsTidy(ms[0].value, level + 1);
      MembersTidy(ms[1..], level);
      TidyJoin(Comma(|ms| > 1), more);
      TidyJoin(x, Comma(|ms| > 1) + more);
      TidyJoin([58], x + (Comma(|ms| > 1) + more));
      TidyJoin(key, [58] + (x + (Comma(|ms| > 1) + more)));
      assert MembersText(ms, level, false) == key + ([58] + (x + (Comma(|ms| > 1) + more)));
    }
  }
}
