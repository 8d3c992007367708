// Every text of RFC 8259 is parsed to what it spells, exactly when the library's limits
// allow it.

module JsonSpelling {
  import opened Bytes
  import opened JsonGrammar
  import opened JsonNumerals
  import opened JsonPieces
  import opened JsonRoundTrip
  import opened JsonSyntax
  import opened JsonText
  import opened JsonValue

  import JsonParser

  // ---- Gaps ----

  lemma GapIsBlank(gap: Gap)
    ensures Blank(gap)
  {
    forall i | 0 <= i < |gap| ensures IsSpace(gap[i]) { assert 32 == gap[i] || 9 <= gap[i] <= 13; }
  }

  // Past a gap
  lemma SkipsGap(t: Text, p: nat, gap: Gap, rest: Text)
    requires Here(t, p, gap + rest) && rest != [] && !IsSpace(rest[0])
    ensures var q := p + |gap|;
            && q < |t| && q + |rest| <= |t| && Here(t, q, rest) && t[q] == rest[0]
            && SkipSpaces(t, p) == q == SkipSpaces(t, q)
  {
    GapIsBlank(gap);
    AfterGap(t, p, gap, rest);
  }

  // ---- What every accepted value keeps ----

  lemma {:induction false} AcceptedIsSound(v: Node, nesting: nat)
    requires Accepted(v, nesting)
    ensures Sound(Meaning(v), nesting)
  {
    hide AsDouble, NumeralValue, StringMeaning;
    match v
    case ArrayOf(_, items) =>
      var vs := ItemMeanings(items);
      forall x <- vs ensures Sound(x, nesting + 1) {
        var i :| 0 <= i < |vs| && vs[i] == x;
        AcceptedIsSound(items[i].value, nesting + 1);
      }
    case ObjectOf(_, entries) =>
      var ms := EntryMeanings(entries);
      forall m <- ms ensures Sound(m.value, nesting + 1) {
        var i :| 0 <= i < |ms| && ms[i] == m;
        AcceptedIsSound(entries[i].value, nesting + 1);
      }
    case _ =>
  }

  // ---- Values ----

  // White space, a comma, a bracket or the end of the text ends every value.
  lemma EndsValue(v: Node, t: Text, q: nat)
    requires IsSpace(At(t, q)) || At(t, q) in {0, 44, 93, 125}
    ensures !Continued(v, t, q)
  {
    assert q + 5 <= |t| ==> t[q..q + 5][0] == t[q];
    forall cs: NanTail ensures Here(t, q, [40] + (cs + [41])) ==> At(t, q) == 40 {
      if Here(t, q, [40] + (cs + [41])) { HereAt(t, q, [40] + (cs + [41]), 0); }
    }
  }

  lemma FirstOfNode(v: Node)
    ensures Spell(v) != []
    ensures var c := Spell(v)[0];
            && !IsSpace(c) && c != RBRACE && c != RBRACKET && c != 0
            && (v.NumberOf? || v.MinusInfinityWord? || v.MinusNan? ==> c == MINUS || IsDigit(c))
  {
    hide Quoted, SpellItems, SpellEntries;
    match v
    case NumberOf(n) => PartLengths(n);
    case StringOf(ps) => QuotedFirst(34, ps);
    case _ =>
  }

  ghost predicate ItemsAccepted(items: seq<Item>, k: nat, nesting: nat) {
    |items| <= ARRAY_MAX_CAPACITY && forall i :: k <= i < |items| ==> Accepted(items[i].value, nesting)
  }

  lemma ItemsPrefix(items: seq<Item>, k: nat, nesting: nat)
    requires k <= |items| && k <= ARRAY_MAX_CAPACITY
    requires forall i :: 0 <= i < k ==> Accepted(items[i].value, nesting)
    ensures SoundItems(ItemMeanings(items)[..k], nesting)
    ensures k < |items| ==> ItemMeanings(items)[..k] + [Meaning(items[k].value)] == ItemMeanings(items)[..k + 1]
  {
    hide Meaning, Accepted, Sound;
    var vs := ItemMeanings(items);
    forall x <- vs[..k] ensures Sound(x, nesting) {
      var i :| 0 <= i < k && vs[i] == x;
      AcceptedIsSound(items[i].value, nesting);
    }
  }

  // One item of the text: its value from v to q, then a comma or the bracket at e
  lemma ItemPlace(items: seq<Item>, k: nat, t: Text, p: nat) returns (v: nat, q: nat, e: nat)
    requires k < |items| && Here(t, p, SpellItems(items[k..]))
    ensures v < q <= e < |t| && t[v] != 0 && SkipSpaces(t, p) == v
    ensures Here(t, v, Spell(items[k].value)) && q == v + |Spell(items[k].value)| && !Continued(items[k].value, t, q)
    ensures SkipSpaces(t, q) == e == SkipSpaces(t, e) && t[e] == if k + 1 == |items| then RBRACKET else COMMA
    ensures k + 1 < |items| ==> Here(t, e + 1, SpellItems(items[k + 1..]))
    ensures e + 1 + |SpellItems(items[k + 1..])| == p + |SpellItems(items[k..])|
  {
    hide Here, SkipSpaces, Spell, SpellItems, Continued;
    var x := items[k];
    var rest := if k + 1 == |items| then [93] else [44] + SpellItems(items[k + 1..]);
    ItemsSpelling(items, k);
    FirstOfNode(x.value);
    v := p + |x.before|;
    SkipsGap(t, p, x.before, Spell(x.value) + (x.after + rest));
    q, e := ValuePlace(t, v, x.value, x.after, rest);
    if k + 1 < |items| { HereSplit(t, e, [44], SpellItems(items[k + 1..])); }
  }

  // A value, and the gap after it
  lemma ValuePlace(t: Text, v: nat, x: Node, after: Gap, rest: Text) returns (q: nat, e: nat)
    requires Here(t, v, Spell(x) + (after + rest)) && rest != [] && rest[0] in {44, 93, 125}
    ensures q == v + |Spell(x)| && e == q + |after| && v < q <= e < |t| && Here(t, v, Spell(x))
    ensures !Continued(x, t, q) && SkipSpaces(t, q) == e == SkipSpaces(t, e)
    ensures t[e] == rest[0] && Here(t, e, rest)
  {
    hide Here, SkipSpaces, Spell, Continued;
    FirstOfNode(x);
    q := v + |Spell(x)|;
    e := q + |after|;
    HereSplit(t, v, Spell(x), after + rest);
    SkipsGap(t, q, after, rest);
    GapEnds(x, t, q, after, rest);
  }

  lemma ItemsSpelling(items: seq<Item>, k: nat)
    requires k < |items|
    ensures var x, rest := items[k], if k + 1 == |items| then [93] else [44] + SpellItems(items[k + 1..]);
            SpellItems(items[k..]) == x.before + (Spell(x.value) + (x.after + rest))
    ensures k + 1 == |items| ==> SpellItems(items[k + 1..]) == []
  {
    hide Spell;
    assert items[k..][1..] == items[k + 1..];
  }

  lemma GapEnds(v: Node, t: Text, q: nat, gap: Gap, rest: Text)
    requires Here(t, q, gap + rest) && rest != [] && rest[0] in {44, 93, 125}
    ensures !Continued(v, t, q)
  {
    hide Continued;
    GapIsBlank(gap);
    HereAt(t, q, gap + rest, 0);
    EndsValue(v, t, q);
  }

  lemma {:induction false} ParseSpelledItems(items: seq<Item>, k: nat, t: Text, p: nat, nesting: nat)
    requires k < |items| && k <= ARRAY_MAX_CAPACITY && |t| < SIZE_MAX_PLUS_1 && 0 < nesting <= MAX_NESTING + 1
    requires Here(t, p, SpellItems(items[k..])) && forall i :: 0 <= i < |items| ==> Proper(items[i].value)
    requires forall i :: 0 <= i < k ==> Accepted(items[i].value, nesting)
    ensures SoundItems(ItemMeanings(items)[..k], nesting)
    ensures ParseItems(t, SkipSpaces(t, p), nesting, ItemMeanings(items)[..k]) ==
            if ItemsAccepted(items, k, nesting)
            then Ok(Array(ItemMeanings(items)), p + |SpellItems(items[k..])|) else Fail
    decreases items, 0, |items| - k
  {
    hide ParseValue, ParseItems, MoreItems, Spell, SpellItems, SkipSpaces, Here, Accepted, Meaning, ItemMeanings;
    hide Continued, Proper, SoundItems;
    var vs := ItemMeanings(items);
    ItemsPrefix(items, k, nesting);
    var v, q, e := ItemPlace(items, k, t, p);
    ParseNode(items[k].value, t, v, nesting);
    ItemsStep(t, v, nesting, vs[..k]);
    if k < ARRAY_MAX_CAPACITY && Accepted(items[k].value, nesting) {
      ItemsPrefix(items, k + 1, nesting);
      assert ItemsAccepted(items, k, nesting) <==> ItemsAccepted(items, k + 1, nesting);
      if k + 1 < |items| {
        MoreItemsStep(t, q, true, e + 1, nesting, vs[..k + 1]);
        ParseSpelledItems(items, k + 1, t, e + 1, nesting);
      } else {
        MoreItemsStep(t, q, false, e, nesting, vs[..k + 1]);
        assert vs[..k + 1] == vs;
        NoItems(items, k + 1);
      }
    }
  }

  lemma NoItems(items: seq<Item>, k: nat)
    requires k == |items|
    ensures SpellItems(items[k..]) == []
  {
  }

  ghost predicate EntriesAccepted(entries: seq<Entry>, k: nat, nesting: nat) {
    && |entries| <= OBJECT_MAX_CAPACITY
    && forall i :: k <= i < |entries| ==> NewName(entries, i) && Accepted(entries[i].value, nesting)
  }

  // No entry before the i-th has its name.
  ghost predicate NewName(entries: seq<Entry>, i: nat)
    requires i < |entries|
  {
    forall j :: 0 <= j < i ==> StringMeaning(entries[j].name) != StringMeaning(entries[i].name)
  }

  lemma EntriesPrefix(entries: seq<Entry>, k: nat, nesting: nat)
    requires k <= |entries| && k <= OBJECT_MAX_CAPACITY
    requires forall i :: 0 <= i < k ==> NewName(entries, i) && Accepted(entries[i].value, nesting)
    ensures SoundMembers(EntryMeanings(entries)[..k], nesting)
    ensures k < |entries| ==>
              EntryMeanings(entries)[..k] + [Member(StringMeaning(entries[k].name), Meaning(entries[k].value))] ==
              EntryMeanings(entries)[..k + 1]
    ensures k < |entries| ==>
              (HasName(EntryMeanings(entries)[..k], StringMeaning(entries[k].name)) <==> !NewName(entries, k))
  {
    hide Meaning, Accepted, Sound, StringMeaning;
    var ms := EntryMeanings(entries);
    forall m <- ms[..k] ensures Sound(m.value, nesting) {
      var i :| 0 <= i < k && ms[i] == m;
      AcceptedIsSound(entries[i].value, nesting);
    }
    forall i, j | 0 <= i < j < k ensures ms[i].name != ms[j].name { assert NewName(entries, j); }
    if k < |entries| && !NewName(entries, k) {
      var j :| 0 <= j < k && StringMeaning(entries[j].name) == StringMeaning(entries[k].name);
      assert ms[..k][j].name == StringMeaning(entries[k].name);
    }
  }

  // One entry of the text: its name at n, its value from v to q, then a comma or the brace at e
  lemma EntryPlace(entries: seq<Entry>, k: nat, t: Text, p: nat, nesting: nat)
      returns (n: nat, v: nat, q: nat, e: nat)
    requires k < |entries| && Here(t, p, SpellEntries(entries[k..])) && |t| < SIZE_MAX_PLUS_1
    ensures n < v < q <= e < |t| && t[n] != 0 && SkipSpaces(t, p) == n
    ensures var m := entries[k];
            var end := n + |Quoted(m.open, m.name)|;
            var c := end + |m.middle|;
            && QuotedString(t, n) == (Some(StringMeaning(m.name)), end)
            && end <= c < |t| && SkipSpaces(t, end) == c && At(t, c) == COLON
            && ParseValue(t, c + 1, nesting) == ParseValue(t, v, nesting)
    ensures Here(t, v, Spell(entries[k].value)) && q == v + |Spell(entries[k].value)|
    ensures !Continued(entries[k].value, t, q)
    ensures SkipSpaces(t, q) == e == SkipSpaces(t, e) && t[e] == if k + 1 == |entries| then RBRACE else COMMA
    ensures k + 1 < |entries| ==> Here(t, e + 1, SpellEntries(entries[k + 1..]))
    ensures e + 1 + |SpellEntries(entries[k + 1..])| == p + |SpellEntries(entries[k..])|
  {
    hide Here, SkipSpaces, Spell, Quoted, ParseValue, QuotedString, StringMeaning, SpellEntries, Continued;
    var m := entries[k];
    var rest := if k + 1 == |entries| then [125] else [44] + SpellEntries(entries[k + 1..]);
    var text := Spell(m.value);
    var tail := text + (m.after + rest);
    EntriesSpelling(entries, k);
    FirstOfNode(m.value);
    n := NamePlace(t, p, m, tail);
    var c := n + |Quoted(m.open, m.name)| + |m.middle|;
    v := c + 1 + |m.inner|;
    SkipsGap(t, c + 1, m.inner, tail);
    ParseAfterSpaces(t, c + 1, v, nesting);
    q, e := ValuePlace(t, v, m.value, m.after, rest);
    if k + 1 < |entries| { HereSplit(t, e, [44], SpellEntries(entries[k + 1..])); }
  }

  // Up to the colon
  lemma NamePlace(t: Text, p: nat, m: Entry, tail: Text) returns (n: nat)
    requires |t| < SIZE_MAX_PLUS_1
    requires Here(t, p, m.before + (Quoted(m.open, m.name) + (m.middle + ([58] + (m.inner + tail)))))
    ensures n == p + |m.before| && n < |t| && t[n] != 0 && SkipSpaces(t, p) == n
    ensures var end := n + |Quoted(m.open, m.name)|;
            var c := end + |m.middle|;
            && QuotedString(t, n) == (Some(StringMeaning(m.name)), end)
            && end <= c < |t| && SkipSpaces(t, end) == c && At(t, c) == COLON && Here(t, c + 1, m.inner + tail)
  {
    hide Here, SkipSpaces, Quoted, QuotedString, StringMeaning;
    var name := Quoted(m.open, m.name);
    var colon := [58] + (m.inner + tail);
    QuotedFirst(m.open, m.name);
    n := p + |m.before|;
    SkipsGap(t, p, m.before, name + (m.middle + colon));
    HereSplit(t, n, name, m.middle + colon);
    QuotedRead(t, n, m.open, m.name);
    SkipsGap(t, n + |name|, m.middle, colon);
    HereSplit(t, n + |name| + |m.middle|, [58], m.inner + tail);
  }

  lemma EntriesSpelling(entries: seq<Entry>, k: nat)
    requires k < |entries|
    ensures var m, rest := entries[k], if k + 1 == |entries| then [125] else [44] + SpellEntries(entries[k + 1..]);
            var tail := Spell(m.value) + (m.after + rest);
            SpellEntries(entries[k..]) == m.before + (Quoted(m.open, m.name) + (m.middle + ([58] + (m.inner + tail))))
    ensures k + 1 == |entries| ==> SpellEntries(entries[k + 1..]) == []
  {
    hide Spell, Quoted;
    assert entries[k..][1..] == entries[k + 1..];
  }

  lemma QuotedFirst(open: Byte, ps: seq<Piece>)
    ensures |Quoted(open, ps)| >= 2 && Quoted(open, ps)[0] == open
  {
  }

  lemma {:induction false} ParseSpelledEntries(entries: seq<Entry>, k: nat, t: Text, p: nat, nesting: nat)
    requires k < |entries| && k <= OBJECT_MAX_CAPACITY && |t| < SIZE_MAX_PLUS_1 && 0 < nesting <= MAX_NESTING + 1
    requires Here(t, p, SpellEntries(entries[k..])) && forall i :: 0 <= i < |entries| ==> Proper(entries[i].value)
    requires forall i :: 0 <= i < k ==> NewName(entries, i) && Accepted(entries[i].value, nesting)
    ensures SoundMembers(EntryMeanings(entries)[..k], nesting)
    ensures ParseMembers(t, SkipSpaces(t, p), nesting, EntryMeanings(entries)[..k]) ==
            if EntriesAccepted(entries, k, nesting)
            then Ok(Object(EntryMeanings(entries)), p + |SpellEntries(entries[k..])|) else Fail
    decreases entries, 0, |entries| - k
  {
    hide ParseValue, ParseMembers, MoreMembers, Spell, SpellEntries, SkipSpaces, Here, Accepted, Meaning, EntryMeanings;
    hide Continued, Proper, SoundMembers, StringMeaning, Quoted, QuotedString, HasName, NewName;
    var ms := EntryMeanings(entries);
    EntriesPrefix(entries, k, nesting);
    var n, v, q, e := EntryPlace(entries, k, t, p, nesting);
    ParseNode(entries[k].value, t, v, nesting);
    var key, end := StringMeaning(entries[k].name), n + |Quoted(entries[k].open, entries[k].name)|;
    if k == OBJECT_MAX_CAPACITY || !NewName(entries, k) {
      MembersRefused(t, n, nesting, ms[..k], key, end);
    } else {
      MembersStep(t, n, nesting, ms[..k], Some(key), end);
      if Accepted(entries[k].value, nesting) {
        EntriesPrefix(entries, k + 1, nesting);
        assert EntriesAccepted(entries, k, nesting) <==> EntriesAccepted(entries, k + 1, nesting);
        if k + 1 < |entries| {
          MoreMembersStep(t, q, true, e + 1, nesting, ms[..k + 1]);
          ParseSpelledEntries(entries, k + 1, t, e + 1, nesting);
        } else {
          MoreMembersStep(t, q, false, e, nesting, ms[..k + 1]);
          assert ms[..k + 1] == ms;
          NoEntries(entries, k + 1);
        }
      }
    }
  }

  lemma NoEntries(entries: seq<Entry>, k: nat)
    requires k == |entries|
    ensures SpellEntries(entries[k..]) == []
  {
  }

  // At any place of any text, what is spelled there is what is read, and the parser stops
  // at its end; exactly when it is within the limits.
  lemma {:induction false} ParseNode(v: Node, t: Text, p: nat, nesting: nat)
    requires |t| < SIZE_MAX_PLUS_1 && Proper(v) && Here(t, p, Spell(v)) && !Continued(v, t, p + |Spell(v)|)
    ensures ParseValue(t, p, nesting) == if Accepted(v, nesting) then Ok(Meaning(v), p + |Spell(v)|) else Fail
    decreases v, 1
  {
    hide Here, SkipSpaces, ParseNumber, ParseBoolean, ParseNull, QuotedString, ParseItems, ParseMembers;
    hide Quoted, StringMeaning, NumeralText, NumeralValue, AsDouble, Continued, ItemMeanings, EntryMeanings;
    if nesting <= MAX_NESTING {
      FirstOfNode(v);
      HereAt(t, p, Spell(v), 0);
      NotSpace(t, p);
      match v
      case NumberOf(_) => ParseFigure(v, t, p);
      case MinusInfinityWord(_) => ParseFigure(v, t, p);
      case MinusNan(_, _) => ParseFigure(v, t, p);
      case StringOf(ps) => QuotedRead(t, p, 34, ps);
      case ArrayOf(gap, items) => ParseArrayNode(gap, items, t, p, nesting);
      case ObjectOf(gap, entries) => ParseObjectNode(gap, entries, t, p, nesting);
      case _ => ReadsToken(t, p);
    }
  }

  lemma ProperParts(v: Node)
    requires Proper(v)
    ensures v.ArrayOf? ==> forall i :: 0 <= i < |v.items| ==> Proper(v.items[i].value)
    ensures v.ObjectOf? ==> forall i :: 0 <= i < |v.entries| ==> Proper(v.entries[i].value)
    ensures v.ObjectOf? && v.entries != [] ==> v.entries[0].open != 125
  {
  }

  // A number or a word
  lemma ParseFigure(v: Node, t: Text, p: nat)
    requires v.NumberOf? || v.MinusInfinityWord? || v.MinusNan?
    requires Here(t, p, Spell(v)) && !Continued(v, t, p + |Spell(v)|)
    ensures ParseNumber(t, p) ==
            if v.NumberOf? && Refused(v.n) then Fail
            else if v.MinusNan? && v.tail.Some? && (120 in v.tail.value || 88 in v.tail.value) then Fail
            else Ok(Meaning(v), p + |Spell(v)|)
  {
    hide Here, ParseNumber, NumeralText, NumeralValue, AsDouble;
    match v
    case NumberOf(n) => NumeralRead(t, p, n);
    case MinusInfinityWord(w) => InfinityRead(t, p, w);
    case MinusNan(w, tail) =>
      assert |w| == 3;
      NanRead(t, p, w, tail);
  }

  lemma ParseArrayNode(gap: Gap, items: seq<Item>, t: Text, p: nat, nesting: nat)
    requires |t| < SIZE_MAX_PLUS_1 && nesting <= MAX_NESTING && Here(t, p, Spell(ArrayOf(gap, items)))
    requires Proper(ArrayOf(gap, items))
    ensures var v := ArrayOf(gap, items);
            ParseValue(t, p, nesting) == if Accepted(v, nesting) then Ok(Meaning(v), p + |Spell(v)|) else Fail
    decreases items, 1
  {
    hide Here, ParseValue, ParseItems, SkipSpaces, Spell, SpellItems, ItemMeanings, Accepted, Meaning;
    hide Proper, Sound, Continued;
    ProperParts(ArrayOf(gap, items));
    var text := Spell(ArrayOf(gap, items));
    ArrayIs(gap, items, nesting);
    HereAt(t, p, text, 0);
    NotSpace(t, p);
    OpensArray(t, p, nesting);
    if items == [] {
      EmptyPlace(91, gap, t, p);
      assert ItemMeanings(items) == [] && ItemsAccepted(items, 0, nesting + 1);
    } else {
      hide ItemsAccepted;
      HereSplit(t, p, [91], SpellItems(items));
      ItemsOpen(items, t, p + 1);
      assert items[0..] == items && ItemMeanings(items)[..0] == [];
      ParseSpelledItems(items, 0, t, p + 1, nesting + 1);
    }
  }

  lemma OpensArray(t: Text, p: nat, nesting: nat)
    requires p < |t| && SkipSpaces(t, p) == p && nesting <= MAX_NESTING && t[p] == LBRACKET
    ensures var b := SkipSpaces(t, p + 1);
            ParseValue(t, p, nesting) ==
            if At(t, b) == RBRACKET then Ok(Array([]), b + 1) else ParseItems(t, b, nesting + 1, [])
  {
    hide ParseItems, SkipSpaces;
  }

  lemma OpensObject(t: Text, p: nat, nesting: nat)
    requires p < |t| && SkipSpaces(t, p) == p && nesting <= MAX_NESTING && t[p] == LBRACE
    ensures var b := SkipSpaces(t, p + 1);
            ParseValue(t, p, nesting) ==
            if At(t, b) == RBRACE then Ok(Object([]), b + 1) else ParseMembers(t, b, nesting + 1, [])
  {
    hide ParseMembers, SkipSpaces;
  }

  // Nothing between the brackets
  lemma EmptyPlace(open: Byte, gap: Gap, t: Text, p: nat)
    requires (open == 91 || open == 123) && Here(t, p, [open] + (gap + [open + 2]))
    ensures p < |t| && t[p] == open
    ensures SkipSpaces(t, p + 1) == p + 1 + |gap| < |t| && t[p + 1 + |gap|] == open + 2
  {
    hide Here, SkipSpaces;
    HereSplit(t, p, [open], gap + [open + 2]);
    HereAt(t, p, [open], 0);
    SkipsGap(t, p + 1, gap, [open + 2]);
  }

  lemma ArrayIs(gap: Gap, items: seq<Item>, nesting: nat)
    ensures var v := ArrayOf(gap, items);
            && Spell(v) == (if items == [] then [91] + (gap + [93]) else [91] + SpellItems(items))
            && Meaning(v) == Array(ItemMeanings(items))
            && (Accepted(v, nesting) <==> nesting <= MAX_NESTING && ItemsAccepted(items, 0, nesting + 1))
  {
  }

  lemma ObjectIs(gap: Gap, entries: seq<Entry>, nesting: nat)
    ensures var v := ObjectOf(gap, entries);
            && Spell(v) == (if entries == [] then [123] + (gap + [125]) else [123] + SpellEntries(entries))
            && Meaning(v) == Object(EntryMeanings(entries))
            && (Accepted(v, nesting) <==> nesting <= MAX_NESTING && EntriesAccepted(entries, 0, nesting + 1))
  {
    hide StringMeaning;
    AllNew(entries, nesting + 1);
  }

  lemma ParseObjectNode(gap: Gap, entries: seq<Entry>, t: Text, p: nat, nesting: nat)
    requires |t| < SIZE_MAX_PLUS_1 && nesting <= MAX_NESTING && Here(t, p, Spell(ObjectOf(gap, entries)))
    requires Proper(ObjectOf(gap, entries))
    ensures var v := ObjectOf(gap, entries);
            ParseValue(t, p, nesting) == if Accepted(v, nesting) then Ok(Meaning(v), p + |Spell(v)|) else Fail
    decreases entries, 1
  {
    hide Here, ParseValue, ParseMembers, SkipSpaces, Spell, SpellEntries, EntryMeanings, StringMeaning, Accepted;
    hide Meaning, QuotedString, Proper, NewName, Sound;
    ProperParts(ObjectOf(gap, entries));
    var text := Spell(ObjectOf(gap, entries));
    ObjectIs(gap, entries, nesting);
    HereAt(t, p, text, 0);
    NotSpace(t, p);
    OpensObject(t, p, nesting);
    if entries == [] {
      EmptyPlace(123, gap, t, p);
      assert EntryMeanings(entries) == [] && EntriesAccepted(entries, 0, nesting + 1);
    } else {
      hide EntriesAccepted;
      HereSplit(t, p, [123], SpellEntries(entries));
      EntriesOpen(entries, t, p + 1);
      assert entries[0..] == entries && EntryMeanings(entries)[..0] == [];
      ParseSpelledEntries(entries, 0, t, p + 1, nesting + 1);
    }
  }

  lemma EntriesOpen(entries: seq<Entry>, t: Text, p: nat)
    requires entries != [] && entries[0].open != 125 && Here(t, p, SpellEntries(entries))
    ensures At(t, SkipSpaces(t, p)) != RBRACE
  {
    hide Here, SkipSpaces, Spell, SpellEntries, Quoted;
    var m, rest := entries[0], if |entries| == 1 then [125] else [44] + SpellEntries(entries[1..]);
    assert entries[0..] == entries;
    EntriesSpelling(entries, 0);
    QuotedFirst(m.open, m.name);
    var tail := Spell(m.value) + (m.after + rest);
    SkipsGap(t, p, m.before, Quoted(m.open, m.name) + (m.middle + ([58] + (m.inner + tail))));
  }

  lemma ItemsOpen(items: seq<Item>, t: Text, p: nat)
    requires items != [] && Here(t, p, SpellItems(items))
    ensures At(t, SkipSpaces(t, p)) != RBRACKET
  {
    hide Here, SkipSpaces, Spell, SpellItems;
    var x, rest := items[0], if |items| == 1 then [93] else [44] + SpellItems(items[1..]);
    assert items[0..] == items;
    ItemsSpelling(items, 0);
    FirstOfNode(x.value);
    SkipsGap(t, p, x.before, Spell(x.value) + (x.after + rest));
  }

  lemma AllNew(entries: seq<Entry>, nesting: nat)
    ensures EntriesAccepted(entries, 0, nesting) <==>
            && |entries| <= OBJECT_MAX_CAPACITY
            && (forall i, j :: 0 <= i < j < |entries| ==>
                  StringMeaning(entries[i].name) != StringMeaning(entries[j].name))
            && forall i :: 0 <= i < |entries| ==> Accepted(entries[i].value, nesting)
  {
    hide StringMeaning, Accepted;
    if EntriesAccepted(entries, 0, nesting) {
      forall i, j | 0 <= i < j < |entries| ensures StringMeaning(entries[i].name) != StringMeaning(entries[j].name) {
        assert NewName(entries, j);
      }
    }
  }

  // Every text that is white space, a value and anything that does not continue it is parsed
  // to what it spells, exactly when that is within the limits.
  method ParseSpelled(before: Gap, v: Node, rest: Text) returns (r: Option<Json>)
    requires |before + Spell(v) + rest| < SIZE_MAX_PLUS_1
    requires Proper(v) && !Continued(v, before + Spell(v) + rest, |before + Spell(v)|)
    ensures r == if Accepted(v, 0) then Some(Meaning(v)) else None
  {
    hide *;
    var text := before + Spell(v) + rest;
    r := JsonParser.ParseDocument(text);
    ParseSpelledText(before, v, rest);
  }

  lemma ParseSpelledText(before: Gap, v: Node, rest: Text)
    requires |before + Spell(v) + rest| < SIZE_MAX_PLUS_1
    requires Proper(v) && !Continued(v, before + Spell(v) + rest, |before + Spell(v)|)
    ensures ParseValue(before + Spell(v) + rest, 0, 0) ==
            if Accepted(v, 0) then Ok(Meaning(v), |before + Spell(v)|) else Fail
  {
    hide Spell, ParseValue, SkipSpaces, Accepted, Meaning, Continued, Proper;
    var t := before + Spell(v) + rest;
    var p := |before|;
    FirstOfNode(v);
    assert t[0..|t|] == before + (Spell(v) + rest);
    SkipsGap(t, 0, before, Spell(v) + rest);
    HereSplit(t, p, Spell(v), rest);
    ParseAfterSpaces(t, 0, p, 0);
    ParseNode(v, t, p, 0);
  }

  // The texts of RFC 8259: white space, a value and white space
  method ParseStrict(before: Gap, v: Node, after: Gap) returns (r: Option<Json>)
    requires |before + Spell(v) + after| < SIZE_MAX_PLUS_1
    requires Strict(v) && StrictGap(before) && StrictGap(after)
    ensures r == if Accepted(v, 0) then Some(Meaning(v)) else None
  {
    hide Spell, Accepted, Meaning, Continued, Proper, Strict;
    ghost var t, q := before + Spell(v) + after, |before + Spell(v)|;
    StrictIsProper(v);
    GapIsBlank(after);
    assert At(t, q) == if after == [] then 0 else after[0];
    EndsValue(v, t, q);
    r := ParseSpelled(before, v, after);
  }
}
