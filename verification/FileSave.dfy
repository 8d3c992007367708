// Reading a file from a device into a local one, fragment by fragment, when requests or
// replies may be lost, late or repeated.

module FileSave {
  import opened Bytes
  import S = Sequences

  const MAX_RETRIES: nat := 3
  const USHORT: nat := 0x1_0000

  // A confirmation: some fragment of the file, or a failure
  datatype Confirm = Fragment(number: nat) | Failure

  // What becomes of one request: confirmations arrive together, nothing arrives in time,
  // or the call itself fails.
  datatype Outcome = Answered(batch: seq<Confirm>) | Unanswered | CallFailed

  datatype Status = Ok | TimedOut | Nok | Error | Running

  // ---- The local file ----

  // The local file after a reply: fragment 0 starts it afresh, others go to its end.
  function Written(file: Text, fragment: nat, data: Text): Text {
    if fragment == 0 then data else file + data
  }

  ghost predicate InFile(replies: seq<nat>, n: nat) {
    forall i :: 0 <= i < |replies| ==> replies[i] < n
  }

  function Replayed(file: Text, replies: seq<nat>, pieces: seq<Text>): Text
    requires InFile(replies, |pieces|)
  {
    if replies == [] then file else
      var n := |replies| - 1;
      Written(Replayed(file, replies[..n], pieces), replies[n], pieces[replies[n]])
  }

  // The replies from the last that starts the file on
  function Latest(replies: seq<nat>): seq<nat> {
    if replies == [] then [] else
      var n := |replies| - 1;
      if replies[n] == 0 then [0] else Latest(replies[..n]) + [replies[n]]
  }

  lemma {:induction false} LatestPart(replies: seq<nat>)
    ensures forall i :: 0 <= i < |Latest(replies)| ==> Latest(replies)[i] in replies
    ensures 0 !in replies ==> Latest(replies) == replies
  {
    if replies == [] {
    } else {
      var rest := replies[..|replies| - 1];
      LatestPart(rest);
      assert replies == rest + [replies[|replies| - 1]];
    }
  }

  // The pieces of the given numbers, in their order
  function Picked(numbers: seq<nat>, pieces: seq<Text>): seq<Text>
    requires InFile(numbers, |pieces|)
  {
    seq(|numbers|, i requires 0 <= i < |numbers| => pieces[numbers[i]])
  }

  // The file is what these replies brought.
  lemma {:induction false} LatestWritten(before: Text, replies: seq<nat>, pieces: seq<Text>)
    requires InFile(replies, |pieces|)
    ensures InFile(Latest(replies), |pieces|)
    ensures var written := S.Concat(Picked(Latest(replies), pieces));
            Replayed(before, replies, pieces) == if 0 in replies then written else before + written
  {
    hide Replayed, Latest, S.Concat, Picked, Written;
    if replies == [] {
      NoReplies(before, pieces);
    } else {
      var n := |replies| - 1;
      var rest, k := replies[..n], replies[n];
      assert replies == rest + [k];
      LatestWritten(before, rest, pieces);
      LatestNext(rest, k);
      OneReply(before, rest, k, pieces);
      WrittenNext(Replayed(before, rest, pieces), k, pieces[k]);
      PickedNext(Latest(rest), k, pieces);
      PickedNext([], k, pieces);
    }
  }

  lemma NoReplies(before: Text, pieces: seq<Text>)
    ensures Latest([]) == [] && Replayed(before, [], pieces) == before == before + S.Concat(Picked([], pieces))
  {
    assert Picked([], pieces) == [];
  }

  lemma LatestNext(rest: seq<nat>, k: nat)
    ensures Latest(rest + [k]) == if k == 0 then [] + [k] else Latest(rest) + [k]
  {
    assert (rest + [k])[..|rest|] == rest;
  }

  lemma WrittenNext(file: Text, k: nat, piece: Text)
    ensures Written(file, k, piece) == if k == 0 then [] + piece else file + piece
  {
    assert [] + piece == piece;
  }

  lemma PickedNext(numbers: seq<nat>, k: nat, pieces: seq<Text>)
    requires InFile(numbers, |pieces|) && k < |pieces|
    ensures InFile(numbers + [k], |pieces|)
    ensures S.Concat(Picked(numbers + [k], pieces)) == S.Concat(Picked(numbers, pieces)) + pieces[k]
    ensures numbers == [] ==> S.Concat(Picked(numbers, pieces)) == []
  {
    ConcatOne(Picked(numbers, pieces), pieces[k]);
    assert Picked(numbers + [k], pieces) == Picked(numbers, pieces) + [pieces[k]];
  }

  lemma ConcatOne(ps: seq<Text>, p: Text)
    ensures S.Concat(ps + [p]) == S.Concat(ps) + p
  {
    assert (ps + [p])[..|ps|] == ps;
    if ps == [] { assert S.Concat(ps) == [] && [] + p == p; }
  }

  // 0, 1, ..., k - 1
  function Upto(k: nat): (s: seq<nat>)
    ensures |s| == k && forall i :: 0 <= i < k ==> s[i] == i
  {
    if k == 0 then [] else Upto(k - 1) + [k - 1]
  }

  ghost predicate Faithful(before: Text, replies: seq<nat>, n: nat)
    requires InFile(replies, n)
  {
    forall pieces: seq<Text> :: |pieces| == n ==> Replayed(before, replies, pieces) == S.Concat(pieces)
  }

  // Whatever the pieces hold, the file is all of them in order, exactly when the replies
  // from the last fragment 0 on are 0, 1, ... up to the last fragment, each once.
  lemma FileIsSource(before: Text, replies: seq<nat>, n: nat)
    requires n > 0 && InFile(replies, n)
    ensures Faithful(before, replies, n) <==> Latest(replies) == Upto(n)
  {
    hide Replayed, Latest;
    LatestPart(replies);
    if Latest(replies) == Upto(n) {
      assert Upto(n)[0] == 0;
      assert 0 in replies;
      forall pieces: seq<Text> | |pieces| == n ensures Replayed(before, replies, pieces) == S.Concat(pieces) {
        LatestWritten(before, replies, pieces);
        assert Picked(Upto(n), pieces) == pieces;
      }
    }
    if Faithful(before, replies, n) {
      NothingBefore(before, replies, n);
      MarkedEverywhere(before, replies, n);
    }
  }

  // Pieces of one byte, the i-th of which is marked
  function Marked(n: nat, i: nat): (pieces: seq<Text>)
    ensures |pieces| == n && forall j :: 0 <= j < n ==> pieces[j] == [if j == i then 1 else 0]
  {
    seq(n, j => [if j == i then 1 else 0])
  }

  lemma {:induction false} ConcatBytes(ps: seq<Text>)
    requires forall j :: 0 <= j < |ps| ==> |ps[j]| == 1
    ensures |S.Concat(ps)| == |ps| && forall j :: 0 <= j < |ps| ==> S.Concat(ps)[j] == ps[j][0]
  {
    if ps == [] {
    } else {
      ConcatBytes(ps[..|ps| - 1]);
    }
  }

  // Where the mark is found in the file
  lemma MarkedFile(before: Text, replies: seq<nat>, n: nat, i: nat)
    requires InFile(replies, n)
    ensures InFile(Latest(replies), n)
    ensures var file, r := Replayed(before, replies, Marked(n, i)), Latest(replies);
            var head := if 0 in replies then [] else before;
            && |file| == |head| + |r|
            && (forall j :: 0 <= j < |head| ==> file[j] == head[j])
            && (forall j :: |head| <= j < |file| ==> file[j] == if r[j - |head|] == i then 1 else 0)
  {
    hide Replayed, Latest;
    LatestWritten(before, replies, Marked(n, i));
    ConcatBytes(Picked(Latest(replies), Marked(n, i)));
  }

  lemma MarkedSource(n: nat, i: nat)
    ensures |S.Concat(Marked(n, i))| == n
    ensures forall j :: 0 <= j < n ==> S.Concat(Marked(n, i))[j] == if j == i then 1 else 0
  {
    ConcatBytes(Marked(n, i));
  }

  // Without a reply that starts the file, what it held before would stay.
  lemma NothingBefore(before: Text, replies: seq<nat>, n: nat)
    requires n > 0 && InFile(replies, n) && Faithful(before, replies, n)
    ensures 0 in replies
  {
    hide Replayed, Latest;
    if 0 !in replies {
      MarkedFile(before, replies, n, 0);
      MarkedSource(n, 0);
      var file, r := Replayed(before, replies, Marked(n, 0)), Latest(replies);
      assert file == S.Concat(Marked(n, 0));
      assert file[0] == 1;
      LatestPart(replies);
      assert before != [] && before[0] == 1;
      var bare := Replayed(before, replies, Marked(n, n));
      assert bare == S.Concat(Marked(n, n));
      MarkedSource(n, n);
      assert bare[0] == 0;
      MarkedFile(before, replies, n, n);
      assert false;
    }
  }

  lemma MarkedEverywhere(before: Text, replies: seq<nat>, n: nat)
    requires 0 in replies && InFile(replies, n) && Faithful(before, replies, n)
    ensures Latest(replies) == Upto(n)
  {
    hide Replayed, Latest;
    MarkedFile(before, replies, n, 0);
    MarkedSource(n, 0);
    forall i | 0 <= i < n ensures Latest(replies)[i] == i {
      MarkedFile(before, replies, n, i);
      MarkedSource(n, i);
      assert Replayed(before, replies, Marked(n, i))[i] == 1;
    }
  }

  // ---- The transfer loop ----

  predicate AllGood(batch: seq<Confirm>) {
    forall i :: 0 <= i < |batch| ==> batch[i].Fragment?
  }

  // What is written of a batch: the fragments before the first failure
  function Carried(batch: seq<Confirm>): (numbers: seq<nat>)
    ensures |numbers| <= |batch|
    ensures forall i :: 0 <= i < |numbers| ==> batch[i] == Fragment(numbers[i])
    ensures |numbers| == |batch| <==> AllGood(batch)
    ensures |numbers| < |batch| ==> batch[|numbers|].Failure?
  {
    if batch == [] || batch[0].Failure? then [] else
      var rest := Carried(batch[1..]);
      assert batch == [batch[0]] + batch[1..];
      [batch[0].number] + rest
  }

  // The fragments the answers carry
  function Replies(outcomes: seq<Outcome>): seq<nat> {
    if outcomes == [] then [] else
      var rest, last := Replies(outcomes[..|outcomes| - 1]), outcomes[|outcomes| - 1];
      if last.Answered? then rest + Carried(last.batch) else rest
  }

  // How many of the last requests had no answer
  function Streak(outcomes: seq<Outcome>): nat {
    if outcomes == [] || !outcomes[|outcomes| - 1].Unanswered? then 0 else Streak(outcomes[..|outcomes| - 1]) + 1
  }

  // Every answer is about the file.
  ghost predicate BatchOfFile(batch: seq<Confirm>, n: nat) {
    batch != [] && forall i :: 0 <= i < |batch| && batch[i].Fragment? ==> batch[i].number < n
  }

  ghost predicate OfFile(outcomes: seq<Outcome>, n: nat) {
    forall i :: 0 <= i < |outcomes| && outcomes[i].Answered? ==> BatchOfFile(outcomes[i].batch, n)
  }

  lemma OneRequest(outcomes: seq<Outcome>, n: nat)
    requires n < |outcomes|
    ensures var rest, last := outcomes[..n], outcomes[n];
            && Replies(outcomes[..n + 1]) ==
               (if last.Answered? then Replies(rest) + Carried(last.batch) else Replies(rest))
            && Streak(outcomes[..n + 1]) == if last.Unanswered? then Streak(rest) + 1 else 0
  {
    assert outcomes[..n + 1][..n] == outcomes[..n];
  }

  lemma OneReply(before: Text, replies: seq<nat>, k: nat, pieces: seq<Text>)
    requires InFile(replies, |pieces|) && k < |pieces|
    ensures InFile(replies + [k], |pieces|)
    ensures Replayed(before, replies + [k], pieces) == Written(Replayed(before, replies, pieces), k, pieces[k])
  {
    assert (replies + [k])[..|replies|] == replies;
  }

  // process_mtk_vs_file_access_cnf for SAVE: all confirmations up to a failure
  method Process(batch: seq<Confirm>, file: Text, pieces: seq<Text>, ghost before: Text, ghost replies: seq<nat>)
      returns (written: Text, ok: bool)
    requires BatchOfFile(batch, |pieces|) && InFile(replies, |pieces|) && file == Replayed(before, replies, pieces)
    ensures InFile(replies + Carried(batch), |pieces|)
    ensures written == Replayed(before, replies + Carried(batch), pieces) && ok == AllGood(batch)
  {
    hide Replayed, Written, Carried;
    written, ok := file, true;
    var i := 0;
    ghost var numbers := Carried(batch);
    assert replies + numbers[..0] == replies;
    while i < |batch| && ok
      invariant 0 <= i <= |batch| && i <= |numbers| + 1
      invariant ok ==> i <= |numbers|
      invariant !ok ==> i == |numbers| + 1
      invariant InFile(replies + numbers[..if ok then i else |numbers|], |pieces|)
      invariant written == Replayed(before, replies + numbers[..if ok then i else |numbers|], pieces)
    {
      match batch[i] {
        case Failure =>
          ok := false;
        case Fragment(k) =>
          ghost var done := replies + numbers[..i];
          OneReply(before, done, k, pieces);
          assert done + [k] == replies + numbers[..i + 1];
          written := Written(written, k, pieces[k]);
      }
      i := i + 1;
    }
    assert numbers[..|numbers|] == numbers;
  }

  // The status a last outcome leaves
  function StatusOf(o: Outcome): Status {
    match o
    case Answered(batch) => if AllGood(batch) then Ok else Nok
    case Unanswered => TimedOut
    case CallFailed => Error
  }

  // The batch answers the request for the last fragment: its first confirmation does.
  predicate Ends(o: Outcome, total: nat) {
    o.Answered? && o.batch != [] && o.batch[0] == Fragment(if total > 0 then total - 1 else 0)
  }

  // No failure so far, no three in a row without an answer, and no last fragment
  ghost predicate GoesOn(outcomes: seq<Outcome>, total: nat) {
    && (forall i :: 0 <= i < |outcomes| ==>
        outcomes[i].Unanswered? ||
        (outcomes[i].Answered? && outcomes[i].batch != [] && AllGood(outcomes[i].batch) && !Ends(outcomes[i], total)))
    && Streak(outcomes) < MAX_RETRIES
  }

  // The transfer loop for SAVE, on the outcomes of its requests, as many as there are. The
  // device announces the number of fragments; zero stands for one. All fragments of a
  // batch are written, and the next request is for the one after the first of them,
  // whichever it is.
  method Save(pieces: seq<Text>, announced: nat, outcomes: seq<Outcome>, before: Text)
      returns (rv: Status, file: Text, requests: nat)
    requires 0 < |pieces| < USHORT && (announced == |pieces| || (announced == 0 && |pieces| == 1))
    requires OfFile(outcomes, |pieces|)
    ensures requests <= |outcomes| && InFile(Replies(outcomes[..requests]), |pieces|)
    ensures file == Replayed(before, Replies(outcomes[..requests]), pieces)
    ensures forall n :: 0 <= n < requests ==> GoesOn(outcomes[..n], |pieces|)
    ensures rv == Running <==> requests == |outcomes| && GoesOn(outcomes, |pieces|)
    ensures rv != Running ==> requests > 0 && rv == StatusOf(outcomes[requests - 1])
    ensures rv == Ok ==> Ends(outcomes[requests - 1], |pieces|)
    ensures rv == TimedOut ==> Streak(outcomes[..requests]) == MAX_RETRIES
  {
    hide Replies, Streak, Replayed, Written, Carried;
    NoRequests(before, pieces);
    rv, file, requests := Ok, before, 0;
    var fragment, total, retries := 0, 0, 0;
    var again := true;
    assert outcomes[..0] == [];
    while again && requests < |outcomes|
      invariant 0 <= requests <= |outcomes| && InFile(Replies(outcomes[..requests]), |pieces|)
      invariant file == Replayed(before, Replies(outcomes[..requests]), pieces)
      invariant forall n :: 0 <= n < requests ==> GoesOn(outcomes[..n], |pieces|)
      invariant again ==> rv == Ok && retries == Streak(outcomes[..requests]) && GoesOn(outcomes[..requests], |pieces|)
      invariant again ==> (total == 0 && fragment == 0) || (total == |pieces| && fragment < total)
      invariant !again ==> requests > 0 && rv == StatusOf(outcomes[requests - 1]) && rv != Running
      invariant !again && rv == Ok ==> Ends(outcomes[requests - 1], |pieces|)
      invariant !again && rv == TimedOut ==> Streak(outcomes[..requests]) == MAX_RETRIES
      decreases |outcomes| - requests
    {
      OneRequest(outcomes, requests);
      var answered := false;
      match outcomes[requests] {
        case CallFailed =>
          rv := Error;
        case Answered(batch) =>
          var good;
          file, good := Process(batch, file, pieces, before, Replies(outcomes[..requests]));
          answered := true;
          if !good { rv := Nok; }
          if batch[0].Fragment? {
            total := announced;
            fragment := (batch[0].number + 1) % USHORT;
          }
          retries := 0;
        case Unanswered =>
          retries := retries + 1;
          if retries >= MAX_RETRIES { rv := TimedOut; }
      }
      requests := requests + 1;
      again := rv == Ok && ((total == 0 && !answered) || fragment < total);
    }
    assert outcomes[..|outcomes|] == outcomes;
    if again {
      rv := Running;
    } else {
      StoppedFor(outcomes, requests, |pieces|);
    }
  }

  lemma NoRequests(before: Text, pieces: seq<Text>)
    ensures Replies([]) == [] && Streak([]) == 0 && Replayed(before, [], pieces) == before
  {
  }

  // What ended the loop
  lemma StoppedFor(outcomes: seq<Outcome>, n: nat, total: nat)
    requires 0 < n <= |outcomes|
    requires var last := outcomes[n - 1];
             last.CallFailed? || (last.Answered? && !AllGood(last.batch)) || Ends(last, total) ||
             Streak(outcomes[..n]) == MAX_RETRIES
    ensures !GoesOn(outcomes[..n], total)
  {
    assert outcomes[..n][n - 1] == outcomes[n - 1];
  }

  // ---- Each answer to its own request ----

  // The answers carry one fragment each, 0, 1, ... in turn: none is late or repeated.
  ghost predicate InTurn(outcomes: seq<Outcome>) {
    && Replies(outcomes) == Upto(|Replies(outcomes)|)
    && forall i :: 0 <= i < |outcomes| && outcomes[i].Answered? ==> |outcomes[i].batch| == 1
  }

  // Then the loop goes on for less than three requests a fragment.
  lemma InTurnEnds(outcomes: seq<Outcome>, total: nat)
    requires InTurn(outcomes) && total > 0 && forall n :: 0 <= n <= |outcomes| ==> GoesOn(outcomes[..n], total)
    ensures |outcomes| < MAX_RETRIES * total && |Replies(outcomes)| < total
  {
    hide Replies, Streak;
    assert outcomes[..|outcomes|] == outcomes;
    RequestsBound(outcomes, total);
    var rs := Replies(outcomes);
    if |rs| >= total {
      assert rs[total - 1] == total - 1;
      ReplyFrom(outcomes, total - 1);
    }
  }

  lemma {:induction false} RequestsBound(outcomes: seq<Outcome>, total: nat)
    requires forall n :: 0 <= n <= |outcomes| ==> GoesOn(outcomes[..n], total)
    ensures |outcomes| <= MAX_RETRIES * |Replies(outcomes)| + Streak(outcomes)
  {
    hide Replies, Streak;
    NoRequests([], []);
    if outcomes == [] {
    } else {
      var n := |outcomes| - 1;
      assert forall m :: 0 <= m <= n ==> outcomes[..n][..m] == outcomes[..m];
      assert outcomes[..n + 1] == outcomes;
      RequestsBound(outcomes[..n], total);
      OneRequest(outcomes, n);
      assert GoesOn(outcomes[..n], total) && GoesOn(outcomes[..n + 1], total);
    }
  }

  lemma {:induction false} ReplyFrom(outcomes: seq<Outcome>, j: nat)
    requires j < |Replies(outcomes)|
    requires forall i :: 0 <= i < |outcomes| && outcomes[i].Answered? ==> |outcomes[i].batch| == 1
    ensures exists i :: 0 <= i < |outcomes| && Ends(outcomes[i], Replies(outcomes)[j] + 1)
  {
    var n := |outcomes| - 1;
    if j < |Replies(outcomes[..n])| {
      ReplyFrom(outcomes[..n], j);
      var i :| 0 <= i < n && Ends(outcomes[..n][i], Replies(outcomes)[j] + 1);
      assert outcomes[i] == outcomes[..n][i];
    }
  }

  // What the file holds once k fragments have been received
  function Expected(before: Text, pieces: seq<Text>, k: nat): Text
    requires k <= |pieces|
  {
    if k == 0 then before else S.Concat(pieces[..k])
  }

  lemma ExpectedNext(before: Text, pieces: seq<Text>, k: nat)
    requires k < |pieces|
    ensures Expected(before, pieces, k + 1) == Written(Expected(before, pieces, k), k, pieces[k])
  {
    assert pieces[..k + 1][..k] == pieces[..k];
    if k == 0 { assert S.Concat(pieces[..0]) == []; }
  }

  // Replies in turn write the pieces in order.
  lemma {:induction false} EachOnce(before: Text, pieces: seq<Text>, k: nat)
    requires k <= |pieces|
    ensures Replayed(before, Upto(k), pieces) == Expected(before, pieces, k)
  {
    if k == 0 {
    } else {
      hide Replayed, Expected, Written;
      EachOnce(before, pieces, k - 1);
      ExpectedNext(before, pieces, k - 1);
      assert Upto(k) == Upto(k - 1) + [k - 1];
      OneReply(before, Upto(k - 1), k - 1, pieces);
    }
  }

  // For given pieces: a reply that comes twice is written twice, unless it starts the file
  // or is empty.
  lemma ReplyTwice(before: Text, pieces: seq<Text>, k: nat)
    requires k < |pieces|
    ensures InFile(Upto(k + 1) + [k], |pieces|)
    ensures var twice := Replayed(before, Upto(k + 1) + [k], pieces);
            twice == Expected(before, pieces, k + 1) <==> k == 0 || pieces[k] == []
  {
    var once := Expected(before, pieces, k + 1);
    EachOnce(before, pieces, k + 1);
    OneReply(before, Upto(k + 1), k, pieces);
    if k == 0 {
      ExpectedNext(before, pieces, 0);
    } else if pieces[k] != [] {
      assert |once + pieces[k]| > |once|;
    } else {
      assert once + pieces[k] == once;
    }
  }

  // When no answer is late or repeated, the file is the fragments received, and success
  // is the whole file.
  method SaveInTurn(pieces: seq<Text>, announced: nat, outcomes: seq<Outcome>, before: Text)
      returns (rv: Status, file: Text, requests: nat)
    requires 0 < |pieces| < USHORT && (announced == |pieces| || (announced == 0 && |pieces| == 1))
    requires OfFile(outcomes, |pieces|) && forall n :: 0 <= n <= |outcomes| ==> InTurn(outcomes[..n])
    ensures requests <= |outcomes| && requests <= MAX_RETRIES * |pieces|
    ensures |outcomes| >= MAX_RETRIES * |pieces| ==> rv != Running
    ensures var k := |Replies(outcomes[..requests])|; k <= |pieces| && file == Expected(before, pieces, k)
    ensures rv == Ok <==> |Replies(outcomes[..requests])| == |pieces|
    ensures rv == Ok ==> file == S.Concat(pieces)
    ensures rv != Running ==> requests > 0 && rv == StatusOf(outcomes[requests - 1])
  {
    hide Replies, Streak, Replayed, Expected, GoesOn;
    rv, file, requests := Save(pieces, announced, outcomes, before);
    ghost var done := outcomes[..requests];
    ghost var rs := Replies(done);
    assert InTurn(done);
    if |rs| > 0 { assert rs[|rs| - 1] == |rs| - 1; }
    EachOnce(before, pieces, |rs|);
    assert outcomes[..|outcomes|] == outcomes;
    if requests > 0 {
      InTurnBefore(outcomes, requests - 1, |pieces|);
      OneRequest(outcomes, requests - 1);
    }
    if rv == Running { InTurnBefore(outcomes, requests, |pieces|); }
    if rv == Ok {
      assert rs[|rs| - 1] == |pieces| - 1;
      WholeFile(before, pieces);
    }
  }

  lemma WholeFile(before: Text, pieces: seq<Text>)
    requires |pieces| > 0
    ensures Expected(before, pieces, |pieces|) == S.Concat(pieces)
  {
    assert pieces[..|pieces|] == pieces;
  }

  lemma InTurnBefore(outcomes: seq<Outcome>, n: nat, total: nat)
    requires n <= |outcomes| && total > 0 && InTurn(outcomes[..n])
    requires forall m :: 0 <= m <= n ==> GoesOn(outcomes[..m], total)
    ensures n < MAX_RETRIES * total && |Replies(outcomes[..n])| < total
  {
    hide GoesOn, InTurn;
    assert forall m :: 0 <= m <= n ==> outcomes[..n][..m] == outcomes[..m];
    InTurnEnds(outcomes[..n], total);
  }

  // An answer that comes twice: the device resends fragment 1 of three. The loop ends well,
  // and the file has the fragment twice.
  method RepeatedAnswer(pieces: seq<Text>, before: Text) returns (rv: Status, file: Text)
    requires |pieces| == 3
    ensures rv == Ok && file == pieces[0] + pieces[1] + pieces[1] + pieces[2]
  {
    hide Streak, Replies, Replayed;
    var one := Answered([Fragment(1)]);
    var outcomes := [Answered([Fragment(0)]), one, one, Answered([Fragment(2)])];
    var requests;
    rv, file, requests := Save(pieces, 3, outcomes, before);
    assert outcomes[3] == Answered([Fragment(2)]);
    assert requests == 4 && outcomes[..requests] == outcomes;
    FourAnswers();
    FourReplies(before, pieces);
  }

  // Two answers at once: the second of them is asked for again.
  method TwoAtOnce(pieces: seq<Text>, before: Text) returns (rv: Status, file: Text)
    requires |pieces| == 3
    ensures rv == Ok && file == pieces[0] + pieces[1] + pieces[1] + pieces[2]
  {
    hide Streak, Replies, Replayed;
    var outcomes := [Answered([Fragment(0), Fragment(1)]), Answered([Fragment(1)]), Answered([Fragment(2)])];
    var requests;
    rv, file, requests := Save(pieces, 3, outcomes, before);
    assert outcomes[2] == Answered([Fragment(2)]);
    assert requests == 3 && outcomes[..requests] == outcomes;
    ThreeBatches();
    FourReplies(before, pieces);
  }

  lemma CarriedOne(j: nat, k: nat)
    ensures Carried([Fragment(j)]) == [j] && Carried([Fragment(j), Fragment(k)]) == [j, k]
  {
  }

  lemma ThreeBatches()
    ensures Replies([Answered([Fragment(0), Fragment(1)]), Answered([Fragment(1)]), Answered([Fragment(2)])]) ==
            [0, 1, 1, 2]
  {
    hide Carried, Replies, Streak;
    NoRequests([], []);
    var outcomes := [Answered([Fragment(0), Fragment(1)]), Answered([Fragment(1)]), Answered([Fragment(2)])];
    assert outcomes[..0] == [] && outcomes[..3] == outcomes;
    OneRequest(outcomes, 0);
    OneRequest(outcomes, 1);
    OneRequest(outcomes, 2);
    CarriedOne(0, 1);
    CarriedOne(1, 1);
    CarriedOne(2, 2);
  }

  lemma FourAnswers()
    ensures var one := Answered([Fragment(1)]);
            Replies([Answered([Fragment(0)]), one, one, Answered([Fragment(2)])]) == [0, 1, 1, 2]
  {
    hide Carried, Replies, Streak;
    NoRequests([], []);
    var one := Answered([Fragment(1)]);
    var outcomes := [Answered([Fragment(0)]), one, one, Answered([Fragment(2)])];
    assert outcomes[..0] == [] && outcomes[..4] == outcomes;
    OneRequest(outcomes, 0);
    OneRequest(outcomes, 1);
    OneRequest(outcomes, 2);
    OneRequest(outcomes, 3);
    CarriedOne(0, 0);
    CarriedOne(1, 1);
    CarriedOne(2, 2);
  }

  lemma FourReplies(before: Text, pieces: seq<Text>)
    requires |pieces| == 3
    ensures InFile([0, 1, 1, 2], 3)
    ensures Replayed(before, [0, 1, 1, 2], pieces) == pieces[0] + pieces[1] + pieces[1] + pieces[2]
  {
    assert [] + [0] == [0] && [0] + [1] == [0, 1] && [0, 1] + [1] == [0, 1, 1] && [0, 1, 1] + [2] == [0, 1, 1, 2];
    hide Replayed;
    OneReply(before, [], 0, pieces);
    OneReply(before, [0], 1, pieces);
    OneReply(before, [0, 1], 1, pieces);
    OneReply(before, [0, 1, 1], 2, pieces);
  }
}
