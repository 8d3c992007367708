// The merge of two configuration files, read from their texts. Parsed objects have no
// spare capacity, so whether the merge succeeds, and what it leaves, depends on the
// contents alone.

module ConfFile {
  import opened Bytes
  import opened JsonAlgebra
  import opened JsonBuild
  import opened JsonMerge
  import opened JsonNodes
  import opened JsonReading
  import opened JsonValue

  import D = JsonDenotation
  import G = JsonGrammar
  import JsonParser
  import T = JsonTable

  // Room at every level of a value whose capacities are its counts
  ghost predicate Roomy(x: D.Den, y: D.Den) {
    x.DObject? && y.DObject? ==>
      && |x.fields.Keys + y.fields.Keys| <= T.Reach(|x.fields|)
      && forall k :: k in x.fields && k in y.fields && !D.Same(x.fields[k], y.fields[k]) ==>
         Roomy(x.fields[k], y.fields[k])
  }

  lemma {:induction false} TrimmedFits(f: Form, y: D.Den)
    requires Trimmed(f) && f.FNode? && y.DObject?
    ensures Fits(f, y) <==> Roomy(Strip(f), y)
    decreases f, 1
  {
    hide D.Same, T.Reach, Trimmed, Roomy, FitsAt;
    var x := Strip(f);
    StripNode(f);
    StripKeys(f.fields);
    CountOfKeys(f, x.fields);
    forall k | k in f.fields && k in y.fields ensures FitsAt(f.fields[k], y.fields[k]) <==> RoomyUnder(x, y, k) {
      TrimmedFitsAt(f, y, k);
    }
    RoomyIs(x, y);
  }

  ghost predicate RoomyUnder(x: D.Den, y: D.Den, k: Text)
    requires x.DObject? && y.DObject? && k in x.fields && k in y.fields
  {
    !D.Same(x.fields[k], y.fields[k]) ==> Roomy(x.fields[k], y.fields[k])
  }

  lemma RoomyIs(x: D.Den, y: D.Den)
    requires x.DObject? && y.DObject?
    ensures Roomy(x, y) <==>
            |x.fields.Keys + y.fields.Keys| <= T.Reach(|x.fields|) &&
            forall k :: k in x.fields && k in y.fields ==> RoomyUnder(x, y, k)
  {
    hide D.Same, T.Reach;
  }

  lemma CountOfKeys(f: Form, fields: map<Text, D.Den>)
    requires Trimmed(f) && f.FNode? && fields.Keys == f.fields.Keys
    ensures f.capacity == |fields|
  {
    assert |fields| == |fields.Keys| == |f.fields.Keys| == |f.fields|;
  }

  lemma {:induction false} TrimmedFitsAt(f: Form, y: D.Den, k: Text)
    requires Trimmed(f) && f.FNode? && y.DObject? && k in f.fields && k in y.fields
    ensures Strip(f).DObject? && k in Strip(f).fields
    ensures FitsAt(f.fields[k], y.fields[k]) <==> RoomyUnder(Strip(f), y, k)
    decreases f, 0
  {
    hide D.Same, T.Reach, Fits;
    var g, d := f.fields[k], y.fields[k];
    if g.FNode? && d.DObject? { TrimmedFits(g, d); }
  }

  // Two parsed values, merged
  method MergeParsed(v: Json, w: Json) returns (ok: bool, a: Value)
    requires UniqueNames(v) && WithinCaps(v) && UniqueNames(w) && WithinCaps(w)
    ensures Good(a)
    ensures !(v.Object? && w.Object?) ==> !ok && Meaning(a) == D.Denote(v)
    ensures v.Object? && w.Object? ==>
              var x, y := D.Denote(v), D.Denote(w);
              && (ok <==> |x.fields.Keys + y.fields.Keys| <= T.Reach(|x.fields|))
              && (Meaning(a) == NearMerge(x, y) <==> Roomy(x, y))
              && (Meaning(a) == Merge(x, y) <==> Roomy(x, y) && Apart(x, y))
  {
    hide *;
    var b;
    a, b := BuildBoth(v, w);
    ParsedForm(a);
    IsObject(v);
    IsObject(w);
    if v.Object? && w.Object? { TrimmedFits(FormOf(a), D.Denote(w)); }
    ok := MergeValues(a, b);
  }

  method BuildBoth(v: Json, w: Json) returns (a: Value, b: Value)
    requires UniqueNames(v) && WithinCaps(v) && UniqueNames(w) && WithinCaps(w)
    ensures Good(a) && Good(b) && fresh(Footprint(a)) && fresh(Footprint(b)) && Footprint(a) !! Footprint(b)
    ensures Meaning(a) == D.Denote(v) && Meaning(b) == D.Denote(w) && Trimmed(FormOf(a))
    ensures (a.Nested? <==> v.Object?) && (b.Nested? <==> w.Object?)
  {
    hide *;
    a := Build(v);
    ghost var R := Footprint(a);
    assert allocated(R);
    b := Build(w);
    assert Footprint(a) == R;
  }

  lemma ParsedForm(a: Value)
    requires Good(a) && Trimmed(FormOf(a))
    ensures Strip(FormOf(a)) == Meaning(a) && (FormOf(a).FNode? <==> a.Nested?)
    ensures a.Nested? ==> FormOf(a).capacity == |FormOf(a).fields| == |StripFields(FormOf(a).fields)|
    ensures a.Nested? ==> Meaning(a) == D.DObject(StripFields(FormOf(a).fields))
  {
    hide ObjectNode.Valid, ObjectNode.Den, ObjectNode.Forms, ArrayNode.Valid, ArrayNode.Forms, ArrayNode.Dens;
    FormIs(a);
    StripNode(FormOf(a));
    if a.Nested? {
      var fs := FormOf(a).fields;
      StripKeys(fs);
      assert |fs| == |fs.Keys| == |StripFields(fs).Keys| == |StripFields(fs)|;
    }
  }

  lemma IsObject(v: Json)
    ensures D.Denote(v).DObject? <==> v.Object?
  {
  }

  // conf_file_read, from the two texts on: what inka_update.conf holds is merged into
  // what inka.conf holds.
  method MergeFiles(inka: Text, update: Text) returns (ok: bool, a: Option<Value>)
    ensures a.Some? <==> G.ParseValue(inka, 0, 0).Ok?
    ensures a.Some? ==> Good(a.value)
    ensures var p, q := G.ParseValue(inka, 0, 0), G.ParseValue(update, 0, 0);
            if p.Ok? && q.Ok? && p.value.Object? && q.value.Object? then
              var x, y := D.Denote(p.value), D.Denote(q.value);
              && (ok <==> |x.fields.Keys + y.fields.Keys| <= T.Reach(|x.fields|))
              && (Meaning(a.value) == NearMerge(x, y) <==> Roomy(x, y))
              && (Meaning(a.value) == Merge(x, y) <==> Roomy(x, y) && Apart(x, y))
            else
              !ok && (p.Ok? ==> Meaning(a.value) == D.Denote(p.value))
  {
    hide *;
    var v := JsonParser.ParseDocument(inka);
    var w := JsonParser.ParseDocument(update);
    if v.None? { return false, None; }
    var merged;
    if w.None? {
      merged := Build(v.value);
      ok := false;
    } else {
      IsObject(v.value);
      IsObject(w.value);
      ok, merged := MergeParsed(v.value, w.value);
    }
    a := Some(merged);
  }
}
