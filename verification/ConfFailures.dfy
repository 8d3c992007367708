// Texts of two configuration files on which a reported success is not the merge.

module ConfFailures {
  import opened Bytes
  import opened ConfFile
  import opened Doubles
  import opened JsonAlgebra
  import opened JsonBuild
  import opened JsonGrammar
  import opened JsonMerge
  import opened JsonNodes
  import opened JsonNumbers
  import opened JsonRounding
  import opened JsonRoundTrip
  import opened JsonText
  import opened JsonValue

  import D = JsonDenotation
  import T = JsonTable

  const K: Text := [107]

  // The text of a value that comes back
  lemma Reads(v: Json)
    requires Storable(v) && FitsNesting(v, 0) && Acceptable(v) && SixDecimals(v)
    requires |ValueText(v, 0, false)| < SIZE_MAX_PLUS_1
    ensures ParseValue(ValueText(v, 0, false), 0, 0) == Ok(v, |ValueText(v, 0, false)|)
  {
    hide *;
    var text := ValueText(v, 0, false);
    RoundTrip(v, false, []);
    assert text + [] == text;
  }

  function Under(name: Text, v: Json): Json {
    Object([Member(name, v)])
  }

  lemma DenoteUnder(name: Text, v: Json)
    ensures Under(name, v).Object? && D.Denote(Under(name, v)) == D.DObject(map[name := D.Denote(v)])
  {
    var ms := [Member(name, v)];
    assert ms[..0] == [];
    assert D.Fields([]) == map[];
    assert D.Fields(ms) == map[name := D.Denote(v)];
  }

  // What comes back, below a name
  lemma ReadableUnder(name: Text, v: Json, nesting: nat)
    requires Storable(v) && FitsNesting(v, nesting + 1) && Acceptable(v) && SixDecimals(v)
    requires 0 !in name && Printable(name) && nesting <= MAX_NESTING
    ensures var u := Under(name, v); Storable(u) && FitsNesting(u, nesting) && Acceptable(u) && SixDecimals(u)
  {
    hide Printable;
  }

  lemma TextUnder(name: Text, v: Json, level: nat)
    ensures ValueText(Under(name, v), level, false) ==
            [LBRACE] + StringText(name) + [COLON] + ValueText(v, level + 1, false) + [RBRACE]
  {
    hide StringText, ValueText;
    var ms := [Member(name, v)];
    var key, text := StringText(name), ValueText(v, level + 1, false);
    ObjectText(ms, level, false);
    OneMemberText(name, v, level);
    hide MembersText;
    Joined(key, text);
  }

  lemma OneMemberText(name: Text, v: Json, level: nat)
    ensures MembersText([Member(name, v)], level, false) ==
            [] + (StringText(name) + ([COLON] + (ValueText(v, level + 1, false) + ([] + ([] + ([] + [RBRACE]))))))
  {
    hide StringText, ValueText;
    var ms := [Member(name, v)];
    assert ms[1..] == [];
    assert MembersText([], level, false) == [] + [RBRACE];
  }

  lemma Joined(key: Text, text: Text)
    ensures [LBRACE] + ([] + ([] + (key + ([COLON] + (text + ([] + ([] + ([] + [RBRACE])))))))) ==
            [LBRACE] + key + [COLON] + text + [RBRACE]
  {
    assert [] + ([] + ([] + [RBRACE])) == [RBRACE];
    var rest := key + ([COLON] + (text + [RBRACE]));
    assert [] + ([] + rest) == rest;
    assert [LBRACE] + rest == [LBRACE] + key + [COLON] + text + [RBRACE];
  }

  // ---- A member is dropped ----

  // As many different names as wanted
  function Numbered(n: nat): (ms: seq<Member>)
    ensures |ms| == n && DistinctNames(ms)
    ensures forall i :: 0 <= i < n ==> |ms[i].name| == i + 1 && ms[i].value == Null
    ensures forall i, j :: 0 <= i < n && 0 <= j <= i ==> ms[i].name[j] == 97
  {
    seq(n, i requires 0 <= i < n => Member(seq(i + 1, _ => 97), Null))
  }

  lemma {:induction false} FieldsCount(ms: seq<Member>)
    requires DistinctNames(ms)
    ensures |D.Fields(ms)| == |ms|
    ensures forall k :: k in D.Fields(ms) ==> exists i :: 0 <= i < |ms| && ms[i].name == k
  {
    if ms == [] {
    } else {
      var i := |ms| - 1;
      FieldsCount(ms[..i]);
      assert ms[..i + 1] == ms;
      FieldsNext(ms, i);
    }
  }

  // {"k":{...}} with 481 members inside, and {"k":{"":null}}: no capacity between 481 and
  // the cap of 960 is tried, so the member is dropped. The failure is not reported.
  method DropsMember() returns (inka: Text, update: Text, ok: bool, a: Option<Value>)
    ensures var p, q := ParseValue(inka, 0, 0), ParseValue(update, 0, 0);
            && p.Ok? && q.Ok? && ok && a.Some? && Good(a.value)
            && var x, y := D.Denote(p.value), D.Denote(q.value);
               && x.DObject? && x.fields.Keys == {K}
               && x.fields[K].DObject? && |x.fields[K].fields| == HALF_CAPACITY + 1
               && y == D.DObject(map[K := D.DObject(map[[] := D.DNull])])
               && Meaning(a.value) != Merge(x, y) && Apart(x, y)
  {
    hide *;
    var v, w := Under(K, Object(Numbered(481))), Under(K, Under([], Null));
    ManyRead();
    OneRead();
    ManyAndOne();
    inka, update := ValueText(v, 0, false), ValueText(w, 0, false);
    ok, a := MergeFiles(inka, update);
  }

  lemma ManyRead()
    ensures var v := Under(K, Object(Numbered(481))); ParseValue(ValueText(v, 0, false), 0, 0).Ok?
    ensures var v := Under(K, Object(Numbered(481))); ParseValue(ValueText(v, 0, false), 0, 0).value == v
  {
    hide ParseValue, ValueText, Under, Readable, FitsNesting, Acceptable, SixDecimals, Storable, Printable;
    NumberedReadable(481);
    Letter();
    ReadableUnder(K, Object(Numbered(481)), 0);
    TextUnder(K, Object(Numbered(481)), 0);
    NumberedLength(481, 1);
    Reads(Under(K, Object(Numbered(481))));
  }

  lemma Letter()
    ensures 0 !in K && Printable(K) && |StringText(K)| == 3 && StringText(K) == [QUOTE, 107, QUOTE]
    ensures Printable([]) && StringText([]) == [QUOTE, QUOTE]
  {
    assert Escaped([]) == [];
    assert K[1..] == [];
    assert Escaped(K) == EscapeByte(107) + Escaped(K[1..]);
  }

  lemma NumberedReadable(n: nat)
    requires n <= OBJECT_MAX_CAPACITY
    ensures var v := Object(Numbered(n)); Storable(v) && FitsNesting(v, 1) && Acceptable(v) && SixDecimals(v)
  {
    var ms := Numbered(n);
    forall i | 0 <= i < n ensures 0 !in ms[i].name && Printable(ms[i].name) && Storable(ms[i].value) {
      forall j | 0 <= j < |ms[i].name| ensures ms[i].name[j] == 97 {}
    }
    forall m <- ms ensures m.value == Null && Printable(m.name) {
      var i :| 0 <= i < n && ms[i] == m;
    }
  }

  lemma NumberedLength(n: nat, level: nat)
    requires n <= OBJECT_MAX_CAPACITY
    ensures |ValueText(Object(Numbered(n)), level, false)| <= 2 + 2000 * n
  {
    hide ValueText;
    var ms := Numbered(n);
    ObjectText(ms, level, false);
    MembersLength(ms, level);
  }

  lemma {:induction false} EscapedLength(s: Text)
    ensures |Escaped(s)| <= 2 * |s|
  {
    if s == [] {
    } else {
      EscapedLength(s[1..]);
    }
  }

  lemma {:induction false} MembersLength(ms: seq<Member>, level: nat)
    requires forall i :: 0 <= i < |ms| ==> |ms[i].name| <= OBJECT_MAX_CAPACITY && ms[i].value == Null
    ensures |MembersText(ms, level, false)| <= 1 + 2000 * |ms|
  {
    if ms == [] {
    } else {
      EscapedLength(ms[0].name);
      MembersLength(ms[1..], level);
      assert ValueText(Null, level + 1, false) == NULL;
    }
  }

  lemma OneRead()
    ensures var w := Under(K, Under([], Null)); ParseValue(ValueText(w, 0, false), 0, 0).Ok?
    ensures var w := Under(K, Under([], Null)); ParseValue(ValueText(w, 0, false), 0, 0).value == w
  {
    hide ParseValue, Under, Printable, StringText, Readable, FitsNesting, Acceptable, SixDecimals, Storable, ValueText;
    Letter();
    NullReadable();
    ReadableUnder([], Null, 1);
    ReadableUnder(K, Under([], Null), 0);
    TextUnder(K, Under([], Null), 0);
    TextUnder([], Null, 1);
    Reads(Under(K, Under([], Null)));
  }

  lemma NullReadable()
    ensures Storable(Null) && FitsNesting(Null, 2) && Acceptable(Null) && SixDecimals(Null)
    ensures ValueText(Null, 2, false) == NULL
  {
  }

  lemma ManyAndOne()
    ensures var many, one := Object(Numbered(481)), Under([], Null);
            var v, w := Under(K, many), Under(K, one);
            var x, y := D.Denote(v), D.Denote(w);
            && v.Object? && w.Object?
            && x.DObject? && x.fields.Keys == {K} && x.fields[K].DObject? && |x.fields[K].fields| == HALF_CAPACITY + 1
            && y == D.DObject(map[K := D.DObject(map[[] := D.DNull])])
            && |x.fields.Keys + y.fields.Keys| <= T.Reach(|x.fields|) && !Roomy(x, y) && Apart(x, y)
  {
    hide T.Reach, Numbered, D.Fields, Under, D.Denote, Roomy, D.Same, Apart, ApartAt;
    var many, one := Object(Numbered(481)), Under([], Null);
    DenoteUnder([], Null);
    DenoteUnder(K, one);
    DenoteUnder(K, many);
    NullDenotes();
    ManyFields();
    var fs := D.Fields(many.members);
    OneMoreThanHalf(fs);
  }

  lemma NullDenotes()
    ensures D.Denote(Null) == D.DNull
  {
  }

  lemma ManyFields()
    ensures var fs := D.Fields(Numbered(481));
            |fs| == 481 && [] !in fs && D.Denote(Object(Numbered(481))) == D.DObject(fs)
  {
    hide Numbered, D.Fields;
    FieldsCount(Numbered(481));
  }

  lemma OneMoreThanHalf(fs: map<Text, D.Den>)
    requires |fs| == 481 && [] !in fs
    ensures var x, y := D.DObject(map[K := D.DObject(fs)]), D.DObject(map[K := D.DObject(map[[] := D.DNull])]);
            |x.fields.Keys + y.fields.Keys| <= T.Reach(|x.fields|) && !Roomy(x, y) && Apart(x, y)
  {
    hide T.Reach;
    var f, g := D.DObject(fs), D.DObject(map[[] := D.DNull]);
    var x, y := D.DObject(map[K := f]), D.DObject(map[K := g]);
    FullAtHalf();
    assert |fs.Keys + {[]}| == |fs.Keys| + 1 == |fs| + 1;
    assert g.fields.Keys == {[]};
    assert !Roomy(f, g);
    assert !D.Same(f, g) by { assert [] in g.fields; }
    assert K in x.fields && K in y.fields && x.fields[K] == f && y.fields[K] == g;
    assert Apart(f, g);
    assert x.fields.Keys + y.fields.Keys == {K} && |x.fields| == 1;
  }

  lemma FullAtHalf()
    ensures T.Reach(481) == 481 && T.Reach(1) >= 1
  {
  }

  // ---- A number is lost ----

  // {"k":1} and {"k":1.000001}: the two are not told apart, so the first stays.
  method LosesNumber() returns (inka: Text, update: Text, ok: bool, a: Option<Value>)
    ensures inka == [LBRACE, QUOTE, 107, QUOTE, COLON, 49, RBRACE]
    ensures update == [LBRACE, QUOTE, 107, QUOTE, COLON, 49, DOT, 48, 48, 48, 48, 48, 49, RBRACE]
    ensures ok && a.Some? && Good(a.value) && Meaning(a.value) == One(D.DNumber(1.0))
    ensures var p, q := ParseValue(inka, 0, 0), ParseValue(update, 0, 0);
            && p.Ok? && q.Ok? && D.Denote(p.value) == One(D.DNumber(1.0))
            && Merge(D.Denote(p.value), D.Denote(q.value)) == One(D.DNumber(Fl(1.000001))) != Meaning(a.value)
  {
    hide *;
    inka := [LBRACE, QUOTE, 107, QUOTE, COLON, 49, RBRACE];
    update := [LBRACE, QUOTE, 107, QUOTE, COLON, 49, DOT, 48, 48, 48, 48, 48, 49, RBRACE];
    var one, next := [49], [49, DOT, 48, 48, 48, 48, 48, 49];
    NumberTexts();
    NumberReads(1.0, one);
    NumberReads(Fl(1.000001), next);
    assert inka == [LBRACE, QUOTE, 107, QUOTE, COLON] + one + [RBRACE];
    assert update == [LBRACE, QUOTE, 107, QUOTE, COLON] + next + [RBRACE];
    NumbersMerged();
    ok, a := MergeFiles(inka, update);
  }

  lemma NumberTexts()
    ensures IsDouble(1.0) && HasSixDecimals(1.0) && NumberText(1.0) == [49]
    ensures var r := Fl(1.000001);
            && IsDouble(r) && HasSixDecimals(r) && 1.0 <= r < 2.0
            && NumberText(r) == [49, DOT, 48, 48, 48, 48, 48, 49]
  {
    hide Fl, Decimal, NumberText, IsDouble, HasSixDecimals;
    TextOfOne();
    NearOne();
    FlTwice(1.000001);
    MillionAndOne();
    TextOfNext(Fl(1.000001));
  }

  lemma TextOfOne()
    ensures IsDouble(1.0) && HasSixDecimals(1.0) && NumberText(1.0) == [49]
  {
    hide Fl, Decimal;
    IntegersAreDoubles(1);
    WholeDecimal(1.0);
    hide HasSixDecimals;
    assert Digits(1) == [49];
  }

  lemma TextOfNext(r: real)
    requires r == 4503604130970123.0 / LEAST
    ensures 1.0 <= r < 2.0 && NumberText(r) == [49, DOT, 48, 48, 48, 48, 48, 49]
  {
    BetweenOneAndTwo(r);
    hide Millionths, IsInteger;
    assert Decimals(1) == [48, 48, 48, 48, 48, 49] && Digits(1) == [49];
  }

  lemma MillionAndOne()
    ensures HasSixDecimals(Fl(1.000001))
  {
    hide Fl;
    assert Decimal(1000001) == 1.000001;
  }

  lemma BetweenOneAndTwo(r: real)
    requires r == 4503604130970123.0 / LEAST
    ensures 1.0 < r < 2.0 && !IsInteger(r) && Millionths(r) == 1000001
  {
    NearestIs(r * 1000000.0, 1000001);
  }

  lemma NumberReads(r: real, text: Text)
    requires IsDouble(r) && HasSixDecimals(r) && 1.0 <= r < 2.0 && NumberText(r) == text && |text| < 10
    ensures var v, t := Under(K, Number(r)), [LBRACE, QUOTE, 107, QUOTE, COLON] + text + [RBRACE];
            ParseValue(t, 0, 0) == Ok(v, |t|)
  {
    hide ParseValue, Under, Printable, StringText, NumberText, IsDouble, HasSixDecimals;
    var v, n := Under(K, Number(r)), Number(r);
    Letter();
    assert Storable(n) && FitsNesting(n, 1) && Acceptable(n) && SixDecimals(n);
    assert ValueText(n, 1, false) == text;
    hide Readable, FitsNesting, Acceptable, SixDecimals, Storable, ValueText;
    ReadableUnder(K, n, 0);
    TextUnder(K, n, 0);
    assert [LBRACE] + StringText(K) + [COLON] == [LBRACE, QUOTE, 107, QUOTE, COLON];
    Reads(v);
  }

  lemma NumbersMerged()
    ensures Under(K, Number(1.0)).Object? && Under(K, Number(Fl(1.000001))).Object?
    ensures var x, y := D.Denote(Under(K, Number(1.0))), D.Denote(Under(K, Number(Fl(1.000001))));
            && x == One(D.DNumber(1.0)) && y == One(D.DNumber(Fl(1.000001))) && x != y
            && |x.fields.Keys + y.fields.Keys| <= T.Reach(|x.fields|) && Roomy(x, y)
            && NearMerge(x, y) == x && Merge(x, y) == y
  {
    hide Fl, Near, NearMerge, Merge, T.Reach, D.Fields, Under;
    OneIsNearNext();
    NearOne();
    var a, b := D.DNumber(1.0), D.DNumber(Fl(1.000001));
    DenoteUnder(K, Number(1.0));
    DenoteUnder(K, Number(Fl(1.000001)));
    assert D.Same(a, b);
    MergeOne(a, b);
    FullAtHalf();
    var x, y := One(a), One(b);
    assert x.fields[K] != y.fields[K];
    assert x.fields.Keys + y.fields.Keys == {K};
  }
}
