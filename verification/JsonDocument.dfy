// A value written to a buffer and read back from it.

module JsonDocument {
  import opened Bytes
  import opened JsonGrammar
  import opened JsonRoundTrip
  import opened JsonRounding
  import opened JsonText
  import opened JsonValue

  import D = JsonDenotation
  import JsonParser
  import JsonSerializer

  // Sized, written, and parsed: what is read is the value as it was printed, member order
  // included, exactly when its nesting is within the parser's limit, its strings are
  // printable and it holds no plus infinity. It is the value itself exactly when every
  // number is the double nearest to a decimal one of six places. And json_value_equals takes
  // it for the value whenever there is no infinity and no NaN in it.
  method WriteAndRead(v: Json, pretty: bool) returns (r: Option<Json>)
    requires Storable(v) && |ValueText(v, 0, pretty)| < SIZE_MAX_PLUS_1
    ensures r == if FitsNesting(v, 0) && Acceptable(v) then Some(Printed(v)) else None
    ensures r == Some(v) <==> FitsNesting(v, 0) && Acceptable(v) && SixDecimals(v)
    ensures r.Some? && D.Finite(D.Denote(v)) ==> D.Same(D.Denote(v), D.Denote(r.value))
  {
    hide Storable, ValueText, ParseValue, FitsNesting, Acceptable, Readable, Printed, Continues;
    StorableIsSound(v);
    var size := JsonSerializer.Serialize(v, null, pretty);
    var buffer := new Byte[size + 1](_ => 0);
    var written := JsonSerializer.Serialize(v, buffer, pretty);
    ReadBack(v, pretty, []);
    ReadableIs(v, 0);
    PrintedIs(v);
    if D.Finite(D.Denote(v)) { PrintedSame(v); }
    assert buffer[..written] + [] == ValueText(v, 0, pretty);
    r := JsonParser.ParseDocument(buffer[..written]);
  }
}
