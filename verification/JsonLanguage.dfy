// The texts of JsonSyntax are exactly what the parser accepts.

module JsonLanguage {
  import opened Bytes
  import opened Doubles
  import opened JsonFinding
  import opened JsonGrammar
  import opened JsonRoundTrip
  import opened JsonSpelling
  import opened JsonSyntax
  import opened JsonText
  import opened JsonValue

  import JsonParser
  import S = JsonStrings

  // ---- Finding what was read ----

  // What the parser reads at p without its being a value: a minus that is no number, and a
  // literal that nothing closes.
  ghost predicate Odd(t: Text, p: nat) {
    BareMinus(t, p) || (At(t, p) == 34 && !Closes(t, p + 1))
  }

  // A value in a text, after a gap
  ghost predicate Stands(t: Text, p: nat, gap: Gap, x: Node, q: nat) {
    Here(t, p, gap) && Here(t, p + |gap|, Spell(x)) && q == p + |gap| + |Spell(x)| && !Continued(x, t, q) && Proper(x)
  }

  // Nothing can follow there.
  lemma OddEnds(t: Text, p: nat, nesting: nat)
    requires p <= |t| && Odd(t, SkipSpaces(t, p)) && ParseValue(t, p, nesting).Ok?
    ensures var q := ParseValue(t, p, nesting).next; At(t, SkipSpaces(t, q)) == 0 || At(t, SkipSpaces(t, q)) == 45
  {
    hide ProcessString, LiteralEnd, AsDouble;
    var s := SkipSpaces(t, p);
    if At(t, s) == 34 {
      ClosedEnd(t, s + 1);
      NotSpace(t, LiteralEnd(t, s + 1));
    } else {
      MinusAlone(t, s);
      NotSpace(t, s);
    }
  }

  // The minus itself is not passed over.
  lemma MinusAlone(t: Text, p: nat)
    requires BareMinus(t, p)
    ensures ParseNumber(t, p) == Ok(Number(0.0), p)
  {
    hide Spelled;
    MinusWords(t, p);
    ZeroDouble();
    hide AsDouble;
  }

  lemma MinusWords(t: Text, p: nat)
    requires BareMinus(t, p)
    ensures !Spelled(t, p + 1, INF) && !Spelled(t, p + 1, NAN)
  {
    FindsWord(t, p + 1, INF);
    FindsWord(t, p + 1, NAN);
  }

  lemma ZeroDouble()
    ensures AsDouble(0.0) == Number(0.0)
  {
    IntegersAreDoubles(0);
    hide Fl;
  }

  lemma {:induction false} FindsNode(t: Text, p: nat, nesting: nat) returns (gap: Gap, x: Node)
    requires p <= |t| < SIZE_MAX_PLUS_1 && ParseValue(t, p, nesting).Ok? && !Odd(t, SkipSpaces(t, p))
    ensures Stands(t, p, gap, x, ParseValue(t, p, nesting).next)
    decreases |t| - p, 1
  {
    hide Here, SkipSpaces, ParseValue, Odd, Continued, Proper, Spell, Sound;
    gap := FindsGap(t, p);
    var q := p + |gap|;
    PastSpaces(t, p);
    ParseAfterSpaces(t, p, q, nesting);
    var c := At(t, q);
    if c == LBRACE {
      x := FindsObject(t, q, nesting);
    } else if c == LBRACKET {
      x := FindsArray(t, q, nesting);
    } else {
      x := FindsScalar(t, q, nesting);
    }
  }

  lemma PastSpaces(t: Text, p: nat)
    requires p <= |t|
    ensures var q := SkipSpaces(t, p); q <= |t| && SkipSpaces(t, q) == q && !IsSpace(At(t, q))
  {
    NotSpace(t, SkipSpaces(t, p));
  }

  lemma FindsScalar(t: Text, p: nat, nesting: nat) returns (x: Node)
    requires p <= |t| < SIZE_MAX_PLUS_1 && SkipSpaces(t, p) == p && !Odd(t, p) && At(t, p) !in {LBRACE, LBRACKET}
    requires ParseValue(t, p, nesting).Ok?
    ensures Here(t, p, Spell(x)) && p + |Spell(x)| == ParseValue(t, p, nesting).next
    ensures !Continued(x, t, p + |Spell(x)|) && Proper(x)
  {
    hide Here, SkipSpaces, ParseNumber, ParseBoolean, ParseNull, QuotedString, Closes, BareMinus, Continued, Proper;
    hide Sound, Spell;
    var c := At(t, p);
    if c == QUOTE {
      var ps := FindsQuoted(t, p);
      x := StringOf(ps);
      SpellIs(x);
      ScalarProper(x, t, p + |Spell(x)|);
    } else if c == MINUS || IsDigit(c) {
      x := FindsFigure(t, p);
      ParseFigure(x, t, p);
      ScalarProper(x, t, p);
    } else {
      x := FindsToken(t, p);
      ScalarProper(x, t, p + |Spell(x)|);
    }
  }

  lemma SpellIs(x: Node)
    ensures x.StringOf? ==> Spell(x) == Quoted(34, x.ps)
  {
  }

  lemma ScalarProper(x: Node, t: Text, q: nat)
    requires !x.ArrayOf? && !x.ObjectOf?
    ensures Proper(x) && (x.StringOf? || x.NullWord? || x.TrueWord? || x.FalseWord? ==> !Continued(x, t, q))
  {
  }

  lemma FindsToken(t: Text, p: nat) returns (x: Node)
    requires p <= |t|
    requires if At(t, p) == 110 then ParseNull(t, p).Ok? else ParseBoolean(t, p).Ok?
    ensures (x.NullWord? || x.TrueWord? || x.FalseWord?) && Here(t, p, Spell(x))
    ensures p + |Spell(x)| == if At(t, p) == 110 then ParseNull(t, p).next else ParseBoolean(t, p).next
  {
    hide Here, StartsWith;
    TokenHere(t, p);
    x := if At(t, p) == 116 then TrueWord else if At(t, p) == 102 then FalseWord else NullWord;
  }

  lemma TokenHere(t: Text, p: nat)
    requires p <= |t|
    ensures StartsWith(t, p, TRUE) ==> Here(t, p, [116, 114, 117, 101]) && At(t, p) == 116
    ensures StartsWith(t, p, FALSE) ==> Here(t, p, [102, 97, 108, 115, 101]) && At(t, p) == 102
    ensures StartsWith(t, p, NULL) ==> Here(t, p, [110, 117, 108, 108]) && At(t, p) == 110
  {
    if StartsWith(t, p, TRUE) { HereAt(t, p, TRUE, 0); }
    if StartsWith(t, p, FALSE) { HereAt(t, p, FALSE, 0); }
    if StartsWith(t, p, NULL) { HereAt(t, p, NULL, 0); }
  }

  // ---- Arrays ----

  lemma FindsArray(t: Text, p: nat, nesting: nat) returns (x: Node)
    requires p < |t| < SIZE_MAX_PLUS_1 && t[p] == LBRACKET && SkipSpaces(t, p) == p
    requires ParseValue(t, p, nesting).Ok?
    ensures Here(t, p, Spell(x)) && p + |Spell(x)| == ParseValue(t, p, nesting).next
    ensures Proper(x) && !Continued(x, t, p + |Spell(x)|)
    decreases |t| - p, 0
  {
    hide Here, SkipSpaces, ParseValue, ParseItems, Spell, SpellItems, Proper, Continued, Sound;
    Shallow(t, p, nesting);
    OpensArray(t, p, nesting);
    OneByte(t, p);
    var gap := FindsGap(t, p + 1);
    var b := p + 1 + |gap|;
    if At(t, b) == RBRACKET {
      x := ArrayOf(gap, []);
      ArrayIs(gap, [], nesting);
      ContainerProper(x, t, b + 1);
      EmptyJoin(91, gap, t, p);
    } else {
      var items := FindsItems(t, b, nesting + 1, []);
      x := ArrayJoin(gap, items, t, p);
    }
  }

  lemma ArrayJoin(gap: Gap, items: seq<Item>, t: Text, p: nat) returns (x: Node)
    requires Here(t, p, [91]) && Here(t, p + 1, gap) && items != [] && Here(t, p + 1 + |gap|, SpellItems(items))
    requires forall i :: 0 <= i < |items| ==> Proper(items[i].value)
    ensures Here(t, p, Spell(x)) && |Spell(x)| == 1 + |gap| + |SpellItems(items)|
    ensures Proper(x) && !Continued(x, t, p + |Spell(x)|)
  {
    hide Here, Spell, SpellItems, Proper, Continued, Accepted, ItemsAccepted;
    var all := ItemsAfter(items, gap, t, p + 1);
    x := ArrayOf([], all);
    ArrayIs([], all, 0);
    ContainerProper(x, t, p + |Spell(x)|);
    Join(t, p, [91], SpellItems(all));
  }

  lemma ObjectJoin(gap: Gap, entries: seq<Entry>, t: Text, p: nat) returns (x: Node)
    requires Here(t, p, [123]) && Here(t, p + 1, gap) && entries != [] && Here(t, p + 1 + |gap|, SpellEntries(entries))
    requires entries[0].open != 125 && forall i :: 0 <= i < |entries| ==> Proper(entries[i].value)
    ensures Here(t, p, Spell(x)) && |Spell(x)| == 1 + |gap| + |SpellEntries(entries)|
    ensures Proper(x) && !Continued(x, t, p + |Spell(x)|)
  {
    hide Here, Spell, SpellEntries, Proper, Continued, Accepted, EntriesAccepted;
    var all := EntriesAfter(entries, gap, t, p + 1);
    x := ObjectOf([], all);
    ObjectIs([], all, 0);
    ContainerProper(x, t, p + |Spell(x)|);
    Join(t, p, [123], SpellEntries(all));
  }

  lemma EmptyJoin(open: Byte, gap: Gap, t: Text, p: nat)
    requires (open == 91 || open == 123) && Here(t, p, [open])
    requires Here(t, p + 1, gap) && At(t, p + 1 + |gap|) == open + 2
    ensures Here(t, p, [open] + (gap + [open + 2]))
  {
    hide Here;
    OneByte(t, p + 1 + |gap|);
    Join(t, p + 1, gap, [open + 2]);
    Join(t, p, [open], gap + [open + 2]);
  }

  lemma ContainerProper(x: Node, t: Text, q: nat)
    requires x.ArrayOf? || x.ObjectOf?
    requires x.ArrayOf? ==> forall i :: 0 <= i < |x.items| ==> Proper(x.items[i].value)
    requires x.ObjectOf? ==> forall i :: 0 <= i < |x.entries| ==> Proper(x.entries[i].value)
    requires x.ObjectOf? && x.entries != [] ==> x.entries[0].open != 125
    ensures Proper(x) && !Continued(x, t, q)
  {
  }

  lemma Shallow(t: Text, p: nat, nesting: nat)
    requires p <= |t| && ParseValue(t, p, nesting).Ok?
    ensures nesting <= MAX_NESTING
  {
  }

  // A gap before the first item
  lemma ItemsAfter(items: seq<Item>, gap: Gap, t: Text, p: nat) returns (all: seq<Item>)
    requires items != [] && Here(t, p, gap) && Here(t, p + |gap|, SpellItems(items))
    requires forall i :: 0 <= i < |items| ==> Proper(items[i].value)
    ensures all != [] && Here(t, p, SpellItems(all)) && |SpellItems(all)| == |gap| + |SpellItems(items)|
    ensures forall i :: 0 <= i < |all| ==> Proper(all[i].value)
  {
    hide Here, Spell, Proper;
    var x := items[0];
    all := [x.(before := gap + x.before)] + items[1..];
    assert all[1..] == items[1..];
    var tail := Spell(x.value) + (x.after + (if |items| == 1 then [93] else [44] + SpellItems(items[1..])));
    assert SpellItems(all) == gap + x.before + tail && SpellItems(items) == x.before + tail;
    assert gap + x.before + tail == gap + (x.before + tail);
    Join(t, p, gap, SpellItems(items));
  }

  lemma {:induction false} FindsItems(t: Text, p: nat, nesting: nat, acc: seq<Json>) returns (items: seq<Item>)
    requires p <= |t| < SIZE_MAX_PLUS_1 && 0 < nesting <= MAX_NESTING + 1 && SoundItems(acc, nesting)
    requires ParseItems(t, p, nesting, acc).Ok?
    ensures items != [] && forall i :: 0 <= i < |items| ==> Proper(items[i].value)
    ensures Here(t, p, SpellItems(items)) && p + |SpellItems(items)| == ParseItems(t, p, nesting, acc).next
    decreases |t| - p, 2
  {
    hide Here, SkipSpaces, ParseValue, ParseItems, MoreItems, Spell, SpellItems, Continued, Proper, SoundItems;
    ItemsGo(t, p, nesting, acc);
    var r := ParseValue(t, p, nesting);
    var e := SkipSpaces(t, r.next);
    ItemThen(t, r.next, nesting, acc + [r.value]);
    if Odd(t, SkipSpaces(t, p)) { OddEnds(t, p, nesting); assert false; }
    var gap, x := FindsNode(t, p, nesting);
    var after := FindsGap(t, r.next);
    OneByte(t, e);
    var item := Item(gap, x, after);
    if t[e] == COMMA {
      var s := FindsGap(t, e + 1);
      var rest := FindsItems(t, e + 1 + |s|, nesting, acc + [r.value]);
      rest := ItemsAfter(rest, s, t, e + 1);
      Join(t, e, [44], SpellItems(rest));
      items := ItemJoin(item, rest, t, p);
    } else {
      items := ItemJoin(item, [], t, p);
    }
  }

  // What a successful round of the item loop has seen
  lemma ItemsGo(t: Text, p: nat, nesting: nat, acc: seq<Json>)
    requires p <= |t| && 0 < nesting <= MAX_NESTING + 1 && SoundItems(acc, nesting)
    requires ParseItems(t, p, nesting, acc).Ok?
    ensures var r := ParseValue(t, p, nesting);
            && r.Ok? && SoundItems(acc + [r.value], nesting)
            && ParseItems(t, p, nesting, acc) == MoreItems(t, r.next, nesting, acc + [r.value])
  {
    hide ParseValue, SkipSpaces, MoreItems;
  }

  lemma ItemThen(t: Text, q: nat, nesting: nat, acc: seq<Json>)
    requires q <= |t| && 0 < nesting <= MAX_NESTING + 1 && SoundItems(acc, nesting)
    requires MoreItems(t, q, nesting, acc).Ok?
    ensures var e := SkipSpaces(t, q);
            && q <= e < |t| && (t[e] == COMMA || t[e] == RBRACKET)
            && MoreItems(t, q, nesting, acc) ==
               if t[e] == COMMA then ParseItems(t, SkipSpaces(t, e + 1), nesting, acc) else Ok(Array(acc), e + 1)
  {
    hide ParseItems;
  }

  // An item and what follows it
  lemma ItemJoin(x: Item, rest: seq<Item>, t: Text, p: nat) returns (items: seq<Item>)
    requires var q := p + |x.before| + |Spell(x.value)|;
             && Here(t, p, x.before) && Here(t, p + |x.before|, Spell(x.value)) && Here(t, q, x.after)
             && Here(t, q + |x.after|, if rest == [] then [93] else [44] + SpellItems(rest))
    requires Proper(x.value) && forall i :: 0 <= i < |rest| ==> Proper(rest[i].value)
    ensures items != [] && forall i :: 0 <= i < |items| ==> Proper(items[i].value)
    ensures Here(t, p, SpellItems(items))
    ensures |SpellItems(items)| ==
            |x.before| + |Spell(x.value)| + |x.after| + 1 + if rest == [] then 0 else |SpellItems(rest)|
  {
    hide Here, Spell, Proper;
    items := [x] + rest;
    assert items[1..] == rest;
    var end := if rest == [] then [93] else [44] + SpellItems(rest);
    var q := p + |x.before| + |Spell(x.value)|;
    Join(t, q, x.after, end);
    Join(t, p + |x.before|, Spell(x.value), x.after + end);
    Join(t, p, x.before, Spell(x.value) + (x.after + end));
    assert SpellItems(items) == x.before + (Spell(x.value) + (x.after + end));
  }

  // ---- Objects ----

  lemma FindsObject(t: Text, p: nat, nesting: nat) returns (x: Node)
    requires p < |t| < SIZE_MAX_PLUS_1 && t[p] == LBRACE && SkipSpaces(t, p) == p
    requires ParseValue(t, p, nesting).Ok?
    ensures Here(t, p, Spell(x)) && p + |Spell(x)| == ParseValue(t, p, nesting).next
    ensures Proper(x) && !Continued(x, t, p + |Spell(x)|)
    decreases |t| - p, 0
  {
    hide Here, SkipSpaces, ParseValue, ParseMembers, Spell, SpellEntries, Proper, Continued, Sound;
    Shallow(t, p, nesting);
    OpensObject(t, p, nesting);
    OneByte(t, p);
    var gap := FindsGap(t, p + 1);
    var b := p + 1 + |gap|;
    if At(t, b) == RBRACE {
      x := ObjectOf(gap, []);
      ObjectIs(gap, [], nesting);
      ContainerProper(x, t, b + 1);
      EmptyJoin(123, gap, t, p);
    } else {
      PastSpaces(t, p + 1);
      var entries := FindsEntries(t, b, nesting + 1, []);
      x := ObjectJoin(gap, entries, t, p);
    }
  }

  // A gap before the first entry
  lemma EntriesAfter(entries: seq<Entry>, gap: Gap, t: Text, p: nat) returns (all: seq<Entry>)
    requires entries != [] && Here(t, p, gap) && Here(t, p + |gap|, SpellEntries(entries))
    requires forall i :: 0 <= i < |entries| ==> Proper(entries[i].value)
    ensures all != [] && all[0].open == entries[0].open
    ensures Here(t, p, SpellEntries(all)) && |SpellEntries(all)| == |gap| + |SpellEntries(entries)|
    ensures forall i :: 0 <= i < |all| ==> Proper(all[i].value)
  {
    hide Here, Spell, Proper, Quoted;
    var m := entries[0];
    all := [m.(before := gap + m.before)] + entries[1..];
    assert all[1..] == entries[1..];
    var tail := Quoted(m.open, m.name) + (m.middle + ([58] + (m.inner + (Spell(m.value) + (m.after +
                (if |entries| == 1 then [125] else [44] + SpellEntries(entries[1..])))))));
    assert SpellEntries(all) == gap + m.before + tail && SpellEntries(entries) == m.before + tail;
    assert gap + m.before + tail == gap + (m.before + tail);
    Join(t, p, gap, SpellEntries(entries));
  }

  lemma {:induction false} FindsEntries(t: Text, p: nat, nesting: nat, acc: seq<Member>) returns (entries: seq<Entry>)
    requires p <= |t| < SIZE_MAX_PLUS_1 && 0 < nesting <= MAX_NESTING + 1 && SoundMembers(acc, nesting)
    requires ParseMembers(t, p, nesting, acc).Ok? && !IsSpace(At(t, p))
    ensures entries != [] && entries[0].open == At(t, p) && forall i :: 0 <= i < |entries| ==> Proper(entries[i].value)
    ensures Here(t, p, SpellEntries(entries)) && p + |SpellEntries(entries)| == ParseMembers(t, p, nesting, acc).next
    decreases |t| - p, 2
  {
    hide Here, SkipSpaces, ParseValue, ParseMembers, MoreMembers, Spell, SpellEntries, Continued, Proper, SoundMembers;
    hide QuotedString, Quoted, Closes, BareMinus, HeadHere, HeadSize, Odd;
    MembersGo(t, p, nesting, acc);
    var (key, k) := QuotedString(t, p);
    var c := SkipSpaces(t, k);
    var r := ParseValue(t, c + 1, nesting);
    var e := SkipSpaces(t, r.next);
    var more := acc + [Member(key.value, r.value)];
    MemberThen(t, r.next, nesting, more);
    if Odd(t, SkipSpaces(t, c + 1)) { OddEnds(t, c + 1, nesting); assert false; }
    var inner, x := FindsNode(t, c + 1, nesting);
    var after := FindsGap(t, r.next);
    var m := FindsHead(t, p, inner, x, after);
    OneByte(t, e);
    if t[e] == COMMA {
      var s := FindsGap(t, e + 1);
      PastSpaces(t, e + 1);
      var rest := FindsEntries(t, e + 1 + |s|, nesting, more);
      entries := EntryThen(m, s, rest, t, p, e);
    } else {
      entries := EntryJoin(m, [], t, p);
    }
  }

  // An entry, a comma, and more of them after a gap
  lemma EntryThen(m: Entry, gap: Gap, rest: seq<Entry>, t: Text, p: nat, e: nat) returns (entries: seq<Entry>)
    requires HeadHere(m, t, p) && e == p + HeadSize(m) + |Spell(m.value)| + |m.after|
    requires var v := p + HeadSize(m); Here(t, v, Spell(m.value)) && Here(t, v + |Spell(m.value)|, m.after)
    requires Here(t, e, [44]) && Here(t, e + 1, gap) && rest != [] && Here(t, e + 1 + |gap|, SpellEntries(rest))
    requires Proper(m.value) && forall i :: 0 <= i < |rest| ==> Proper(rest[i].value)
    ensures entries != [] && entries[0] == m && forall i :: 0 <= i < |entries| ==> Proper(entries[i].value)
    ensures Here(t, p, SpellEntries(entries))
    ensures p + |SpellEntries(entries)| == e + 1 + |gap| + |SpellEntries(rest)|
  {
    hide Here, Spell, SpellEntries, Proper, HeadHere, HeadSize;
    var more := EntriesAfter(rest, gap, t, e + 1);
    Join(t, e, [44], SpellEntries(more));
    entries := EntryJoin(m, more, t, p);
  }

  // A name, a colon, and the gap before the value
  lemma FindsHead(t: Text, p: nat, inner: Gap, x: Node, after: Gap) returns (m: Entry)
    requires p < |t| < SIZE_MAX_PLUS_1 && t[p] != 0 && !IsSpace(t[p]) && QuotedString(t, p).0.Some?
    requires var c := SkipSpaces(t, QuotedString(t, p).1); At(t, c) == COLON && Here(t, c + 1, inner)
    ensures m.open == t[p] && m.value == x && m.after == after && HeadHere(m, t, p)
    ensures p + HeadSize(m) == SkipSpaces(t, QuotedString(t, p).1) + 1 + |inner|
  {
    hide Here, SkipSpaces, QuotedString, Quoted, Closes;
    NameCloses(t, p);
    var k := QuotedString(t, p).1;
    var ps := FindsQuoted(t, p);
    var middle := FindsGap(t, k);
    OneByte(t, SkipSpaces(t, k));
    Nothing(t, p);
    m := Entry([], t[p], ps, middle, inner, x, after);
  }

  // What a successful round of the member loop has seen
  lemma MembersGo(t: Text, p: nat, nesting: nat, acc: seq<Member>)
    requires p <= |t| && 0 < nesting <= MAX_NESTING + 1 && SoundMembers(acc, nesting)
    requires ParseMembers(t, p, nesting, acc).Ok?
    ensures p < |t| && t[p] != 0
    ensures var (key, k) := QuotedString(t, p);
            var c := SkipSpaces(t, k);
            && key.Some? && c < |t| && t[c] == COLON
            && var r := ParseValue(t, c + 1, nesting);
               && r.Ok? && SoundMembers(acc + [Member(key.value, r.value)], nesting)
               && ParseMembers(t, p, nesting, acc) ==
                  MoreMembers(t, r.next, nesting, acc + [Member(key.value, r.value)])
  {
    hide ParseValue, QuotedString, SkipSpaces, MoreMembers;
  }

  lemma MemberThen(t: Text, q: nat, nesting: nat, acc: seq<Member>)
    requires q <= |t| && 0 < nesting <= MAX_NESTING + 1 && SoundMembers(acc, nesting)
    requires MoreMembers(t, q, nesting, acc).Ok?
    ensures var e := SkipSpaces(t, q);
            && q <= e < |t| && (t[e] == COMMA || t[e] == RBRACE)
            && MoreMembers(t, q, nesting, acc) ==
               if t[e] == COMMA then ParseMembers(t, SkipSpaces(t, e + 1), nesting, acc) else Ok(Object(acc), e + 1)
  {
    hide ParseMembers;
  }

  lemma NameCloses(t: Text, p: nat)
    requires p < |t| && var k := QuotedString(t, p).1; At(t, SkipSpaces(t, k)) == COLON
    ensures Closes(t, p + 1)
  {
    hide ProcessString, LiteralEnd, SkipSpaces;
    ClosedEnd(t, p + 1);
    if At(t, LiteralEnd(t, p + 1)) == 0 { NotSpace(t, LiteralEnd(t, p + 1)); }
  }

  // An entry and what follows it
  lemma EntryJoin(m: Entry, rest: seq<Entry>, t: Text, p: nat) returns (entries: seq<Entry>)
    requires HeadHere(m, t, p)
    requires var v := p + HeadSize(m);
             && Here(t, v, Spell(m.value)) && Here(t, v + |Spell(m.value)|, m.after)
             && Here(t, v + |Spell(m.value)| + |m.after|, if rest == [] then [125] else [44] + SpellEntries(rest))
    requires Proper(m.value) && forall i :: 0 <= i < |rest| ==> Proper(rest[i].value)
    ensures entries == [m] + rest && forall i :: 0 <= i < |entries| ==> Proper(entries[i].value)
    ensures Here(t, p, SpellEntries(entries))
    ensures |SpellEntries(entries)| ==
            HeadSize(m) + |Spell(m.value)| + |m.after| + 1 + if rest == [] then 0 else |SpellEntries(rest)|
  {
    hide Here, Spell, Proper, Quoted, HeadHere, SpellEntries;
    entries := [m] + rest;
    assert entries[1..] == rest && entries[0..] == entries;
    var end := if rest == [] then [125] else [44] + SpellEntries(rest);
    var x := Spell(m.value);
    var v := p + HeadSize(m);
    Join(t, v + |x|, m.after, end);
    Join(t, v, x, m.after + end);
    HeadJoin(m, x + (m.after + end), t, p);
    EntriesSpelling(entries, 0);
  }

  // An entry up to its value
  function HeadSize(m: Entry): nat {
    |m.before| + |Quoted(m.open, m.name)| + |m.middle| + 1 + |m.inner|
  }

  ghost predicate HeadHere(m: Entry, t: Text, p: nat) {
    var k := p + |m.before| + |Quoted(m.open, m.name)|;
    var c := k + |m.middle|;
    && Here(t, p, m.before) && Here(t, p + |m.before|, Quoted(m.open, m.name)) && Here(t, k, m.middle)
    && Here(t, c, [58]) && Here(t, c + 1, m.inner)
  }

  lemma HeadJoin(m: Entry, tail: Text, t: Text, p: nat)
    requires HeadHere(m, t, p) && Here(t, p + HeadSize(m), tail)
    ensures Here(t, p, m.before + (Quoted(m.open, m.name) + (m.middle + ([58] + (m.inner + tail)))))
  {
    hide Here, Quoted;
    var name := Quoted(m.open, m.name);
    var k := p + |m.before| + |name|;
    var c := k + |m.middle|;
    Join(t, c + 1, m.inner, tail);
    Join(t, c, [58], m.inner + tail);
    Join(t, k, m.middle, [58] + (m.inner + tail));
    Join(t, p + |m.before|, name, m.middle + ([58] + (m.inner + tail)));
    Join(t, p, m.before, name + (m.middle + ([58] + (m.inner + tail))));
  }

  // ---- The language ----

  // In any text, at any depth, but for a bare minus and an unclosed literal: a result is
  // exactly what a value standing there spells, within the limits.
  lemma ReadExactly(t: Text, p: nat, nesting: nat, v: Json, q: nat)
    requires p <= |t| < SIZE_MAX_PLUS_1 && !Odd(t, SkipSpaces(t, p))
    ensures ParseValue(t, p, nesting) == Ok(v, q) <==>
            exists gap, x :: Stands(t, p, gap, x, q) && Accepted(x, nesting) && Meaning(x) == v
  {
    hide Stands, ParseValue, SkipSpaces, Accepted, Meaning, Odd;
    if ParseValue(t, p, nesting) == Ok(v, q) {
      var gap, x := FindsNode(t, p, nesting);
      StandsRead(t, p, nesting, gap, x, q);
    }
    forall gap: Gap, x: Node | Stands(t, p, gap, x, q) && Accepted(x, nesting) && Meaning(x) == v
      ensures ParseValue(t, p, nesting) == Ok(v, q)
    {
      StandsRead(t, p, nesting, gap, x, q);
    }
  }

  lemma StandsRead(t: Text, p: nat, nesting: nat, gap: Gap, x: Node, q: nat)
    requires p <= |t| < SIZE_MAX_PLUS_1 && Stands(t, p, gap, x, q)
    ensures ParseValue(t, p, nesting) == if Accepted(x, nesting) then Ok(Meaning(x), q) else Fail
  {
    hide Here, Spell, SkipSpaces, ParseValue, Accepted, Meaning, Continued, Proper;
    FirstOfNode(x);
    Join(t, p, gap, Spell(x));
    SkipsGap(t, p, gap, Spell(x));
    ParseAfterSpaces(t, p, p + |gap|, nesting);
    ParseNode(x, t, p + |gap|, nesting);
  }

  // The two odd beginnings: a bare minus is a zero that is not passed over, and an unclosed
  // literal, if it is a string at all, takes the rest of the text.
  lemma OddRead(t: Text, p: nat, nesting: nat)
    requires p <= |t| && nesting <= 19
    ensures var s := SkipSpaces(t, p);
            && (BareMinus(t, s) ==> ParseValue(t, p, nesting) == Ok(Number(0.0), s))
            && (At(t, s) == 34 && !Closes(t, s + 1) ==>
                  var r := ParseValue(t, p, nesting); r.Ok? ==> r.value.String? && At(t, r.next) == 0)
  {
    hide ProcessString, LiteralEnd, AsDouble, ParseNumber;
    var s := SkipSpaces(t, p);
    if At(t, s) == 34 {
      ClosedEnd(t, s + 1);
    } else if BareMinus(t, s) {
      MinusAlone(t, s);
    }
  }

  // A literal that is cut off loses its last character.
  lemma CutOff(s: Text, last: Byte)
    requires |s| + 2 < SIZE_MAX_PLUS_1
    requires forall c <- s + [last] :: c >= 0x20 && c != 34 && c != 92
    ensures ParseValue([34] + s + [last], 0, 0) == Ok(String(s), |s| + 2)
  {
    hide SkipSpaces, QuotedString, ParseItems, ParseMembers, ParseNumber, ParseBoolean, ParseNull, Sound;
    var t := [34] + s + [last];
    assert t[0] == 34;
    NotSpace(t, 0);
    CutOffRead(s, last, t);
  }

  lemma CutOffRead(s: Text, last: Byte, t: Text)
    requires |s| + 2 < SIZE_MAX_PLUS_1 && t == [34] + s + [last]
    requires forall c <- s + [last] :: c >= 0x20 && c != 34 && c != 92
    ensures QuotedString(t, 0) == (Some(s), |s| + 2)
  {
    hide LiteralEnd, Unescape, Unit, UpToNul;
    CutOffEnd(s, last, t);
    CutOffText(s, last, t);
    assert |s| % SIZE_MAX_PLUS_1 == |s|;
    NoNul(s);
    S.UpToNulIs(s);
  }

  lemma NoNul(s: Text)
    requires forall c <- s :: c >= 0x20
    ensures 0 !in s
  {
  }

  lemma CutOffEnd(s: Text, last: Byte, t: Text)
    requires t == [34] + s + [last]
    requires forall c <- s + [last] :: c >= 0x20 && c != 34 && c != 92
    ensures LiteralEnd(t, 1) == |t|
  {
    var rest := s + [last];
    assert t[1..1 + |rest|] == rest;
    forall i | 0 <= i < |rest| ensures rest[i] >= 0x20 && rest[i] != 34 && rest[i] != 92 { assert rest[i] in rest; }
    S.LiteralEndRaw(rest, t, 1);
  }

  lemma CutOffText(s: Text, last: Byte, t: Text)
    requires t == [34] + s + [last]
    requires forall c <- s + [last] :: c >= 0x20 && c != 34 && c != 92
    ensures Unescape(t, 1, 1 + |s|) == Some(s) && forall c <- s :: c >= 0x20
  {
    hide Unescape;
    assert t[1..1 + |s|] == s;
    forall i | 0 <= i < |s| ensures s[i] >= 0x20 && s[i] != 34 && s[i] != 92 { assert s[i] in s + [last]; }
    S.UnescapeRaw(s, t, 1, 1 + |s|);
    S.UnescapeEnd(t, 1 + |s|);
    assert s + [] == s;
  }

  // A whole text that begins with a spelling of v
  ghost predicate Begins(t: Text, v: Json) {
    exists gap, x, q :: Stands(t, 0, gap, x, q) && Accepted(x, 0) && Meaning(x) == v
  }

  lemma TextExactly(t: Text, v: Json)
    requires |t| < SIZE_MAX_PLUS_1 && !Odd(t, SkipSpaces(t, 0))
    ensures var r := ParseValue(t, 0, 0); r.Ok? && r.value == v <==> Begins(t, v)
  {
    hide Stands, ParseValue, SkipSpaces, Accepted, Meaning, Odd;
    var r := ParseValue(t, 0, 0);
    if r.Ok? { ReadExactly(t, 0, 0, r.value, r.next); }
    if Begins(t, v) {
      var gap, x, q :| Stands(t, 0, gap, x, q) && Accepted(x, 0) && Meaning(x) == v;
      ReadExactly(t, 0, 0, v, q);
    }
  }

  // A whole text, and any result
  method ParseExactly(text: Text) returns (r: Option<Json>)
    requires |text| < SIZE_MAX_PLUS_1 && !Odd(text, SkipSpaces(text, 0))
    ensures forall v :: r == Some(v) <==> Begins(text, v)
  {
    hide *;
    r := JsonParser.ParseDocument(text);
    forall v ensures r == Some(v) <==> Begins(text, v) { TextExactly(text, v); }
  }
}
