// Sequences without repetitions, and sequences of pieces.

module Sequences {

  ghost predicate Distinct<T>(s: seq<T>) {
    forall i, j :: 0 <= i < j < |s| ==> s[i] != s[j]
  }

  lemma {:induction false} DistinctSize<T>(s: seq<T>)
    requires Distinct(s)
    ensures |set k | k in s| == |s|
  {
    if s == [] {
    } else {
      var t := s[..|s| - 1];
      DistinctSize(t);
      var last := s[|s| - 1];
      assert s == t + [last];
      assert (set k | k in s) == (set k | k in t) + {last};
      assert last !in t;
    }
  }

  lemma SameLength<T>(s: seq<T>, t: seq<T>)
    requires Distinct(s) && Distinct(t) && forall k :: k in s <==> k in t
    ensures |s| == |t|
  {
    DistinctSize(s);
    DistinctSize(t);
    assert (set k | k in s) == (set k | k in t);
  }

  function Concat<T>(pieces: seq<seq<T>>): seq<T> {
    if pieces == [] then [] else Concat(pieces[..|pieces| - 1]) + pieces[|pieces| - 1]
  }

  lemma {:induction false} ConcatFront<T>(pieces: seq<seq<T>>)
    requires pieces != []
    ensures Concat(pieces) == pieces[0] + Concat(pieces[1..])
  {
    var n := |pieces| - 1;
    if n == 0 {
      assert pieces[1..] == [] && pieces[..0] == [];
    } else {
      var front := pieces[..n];
      ConcatFront(front);
      assert pieces[1..][..n - 1] == front[1..] && front[0] == pieces[0];
      Reassociated(pieces[0], Concat(front[1..]), pieces[n]);
    }
  }

  lemma Reassociated<T>(a: seq<T>, b: seq<T>, c: seq<T>)
    ensures (a + b) + c == a + (b + c)
  {
  }
}
