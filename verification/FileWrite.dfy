// Writing a file to a device, fragment by fragment, over a network that may lose,
// delay, duplicate and reorder messages. One station, one transfer.

module FileWrite {
  import opened Bytes

  const CHUNK: nat := 1024
  const USHORT: nat := 0x1_0000
  const UINT: nat := 0x1_0000_0000
  const MAX_RETRIES: nat := 3

  // total_fragments and fragment_number are 16-bit fields.
  datatype Request = Request(total: nat, fragment: nat, offset: nat, data: Text)

  datatype Confirm = Confirm(ok: bool, total: nat, fragment: nat)

  datatype Phase = Sending | Waiting | Done(success: bool)

  // The client's variables, every message that was ever sent, and the device's file
  datatype State = State(
    fragment: nat, total: nat, retries: nat, phase: Phase,
    requests: set<Request>, confirms: set<Confirm>, file: map<nat, Byte>)

  // ---- The client ----

  function Fragments(size: nat): nat {
    (size + CHUNK - 1) / CHUNK
  }

  // How much of the file the next request carries, in 32-bit arithmetic
  function ChunkSize(size: nat, fragment: nat): nat
    requires CHUNK * fragment <= size
  {
    var remain := (size - CHUNK * fragment) % UINT;
    if remain > CHUNK then CHUNK else remain
  }

  lemma ChunkInside(size: nat, fragment: nat)
    requires CHUNK * fragment <= size
    ensures CHUNK * fragment + ChunkSize(size, fragment) <= size
  {
  }

  // Fragments of the file that can be asked for
  predicate Within(source: Text, fragment: nat) {
    CHUNK * fragment <= |source|
  }

  function Make(source: Text, total: nat, fragment: nat): Request
    requires Within(source, fragment)
  {
    var at := CHUNK * fragment;
    ChunkInside(|source|, fragment);
    Request(total, fragment, at, source[at..at + ChunkSize(|source|, fragment)])
  }

  // The loop goes on while no answer came to a request without a total, or fragments
  // are left.
  predicate More(s: State, answered: bool) {
    (s.total == 0 && !answered) || s.fragment < s.total
  }

  ghost function Start(source: Text): State {
    State(0, Fragments(|source|) % USHORT, 0, Sending, {}, {}, map[])
  }

  ghost predicate Send(source: Text, s: State, t: State) {
    && s.phase == Sending && Within(source, s.fragment)
    && t == s.(phase := Waiting, requests := s.requests + {Make(source, s.total, s.fragment)})
  }

  // The send or receive call reports an error.
  ghost predicate CallFails(s: State, t: State) {
    (s.phase == Sending || s.phase == Waiting) && t == s.(phase := Done(false))
  }

  // Confirmations arrive together, any of those ever sent. All are looked at for a
  // failure; the first one says how far the transfer is.
  ghost predicate Receive(s: State, t: State, answers: seq<Confirm>) {
    && s.phase == Waiting && |answers| > 0 && (forall c <- answers :: c in s.confirms)
    && var moved := s.(fragment := (answers[0].fragment + 1) % USHORT, total := answers[0].total, retries := 0);
       t == moved.(phase :=
         if exists c :: c in answers && !c.ok then Done(false)
         else if More(moved, true) then Sending
         else Done(true))
  }

  // No confirmation arrives in time.
  ghost predicate TimeOut(s: State, t: State) {
    && s.phase == Waiting
    && var tried := s.(retries := s.retries + 1);
       t == tried.(phase :=
         if tried.retries >= MAX_RETRIES then Done(false)
         else if More(tried, false) then Sending
         else Done(true))
  }

  // ---- The device ----

  predicate Covers(r: Request, p: nat) {
    r.offset <= p < r.offset + |r.data|
  }

  function Store(file: map<nat, Byte>, r: Request): map<nat, Byte> {
    file + map p: nat | r.offset <= p < r.offset + |r.data| && Covers(r, p) :: r.data[p - r.offset]
  }

  ghost predicate Stored(file: map<nat, Byte>, r: Request) {
    forall p: nat :: Covers(r, p) ==> p in file && file[p] == r.data[p - r.offset]
  }

  ghost predicate DeviceStores(s: State, t: State, r: Request) {
    r in s.requests && t == s.(file := Store(s.file, r))
  }

  // A fragment is confirmed only once it is stored.
  ghost predicate DeviceConfirms(s: State, t: State, r: Request) {
    && r in s.requests && Stored(s.file, r)
    && t == s.(confirms := s.confirms + {Confirm(true, r.total, r.fragment)})
  }

  ghost predicate DeviceRefuses(s: State, t: State, r: Request) {
    r in s.requests && t == s.(confirms := s.confirms + {Confirm(false, r.total, r.fragment)})
  }

  // ---- Runs ----

  ghost predicate Step(source: Text, s: State, t: State) {
    || Send(source, s, t)
    || CallFails(s, t)
    || (exists answers :: Receive(s, t, answers))
    || TimeOut(s, t)
    || (exists r :: DeviceStores(s, t, r))
    || (exists r :: DeviceConfirms(s, t, r))
    || (exists r :: DeviceRefuses(s, t, r))
  }

  ghost predicate Run(source: Text, run: seq<State>) {
    |run| > 0 && forall i :: 0 <= i < |run| - 1 ==> Step(source, run[i], run[i + 1])
  }

  ghost predicate From(source: Text, s: State, t: State) {
    exists run :: Run(source, run) && run[0] == s && run[|run| - 1] == t
  }

  ghost predicate Reachable(source: Text, s: State) {
    From(source, Start(source), s)
  }

  // The device's file is the source, byte for byte.
  ghost predicate SameFile(source: Text, file: map<nat, Byte>) {
    file == map p: nat | p < |source| :: source[p]
  }

  // ---- What every step keeps ----

  // The fragments a request may name
  ghost predicate Asked(source: Text, fragment: nat) {
    Within(source, fragment) && (fragment == 0 || fragment < Fragments(|source|) % USHORT)
  }

  ghost predicate StoredBelow(source: Text, file: map<nat, Byte>, total: nat, n: nat) {
    forall k :: 0 <= k < n ==> Within(source, k) && Stored(file, Make(source, total, k))
  }

  ghost predicate Good(source: Text, s: State) {
    var total := Fragments(|source|) % USHORT;
    && (forall p :: p in s.file ==> p < |source| && s.file[p] == source[p])
    && (forall r <- s.requests ::
         && Asked(source, r.fragment) && r == Make(source, total, r.fragment)
         && StoredBelow(source, s.file, total, r.fragment))
    && (forall c <- s.confirms :: c.ok ==>
         Asked(source, c.fragment) && c.total == total && StoredBelow(source, s.file, total, c.fragment + 1))
    && (s.phase != Done(false) ==>
         && s.total == total && s.retries < MAX_RETRIES && StoredBelow(source, s.file, total, s.fragment)
         && (s.phase == Sending || s.phase == Waiting ==> Asked(source, s.fragment))
         && (s.phase == Done(true) ==> 0 < s.fragment && total <= s.fragment))
  }

  lemma StartGood(source: Text)
    requires source != []
    ensures Good(source, Start(source))
  {
  }

  // A file that grows keeps what it stored.
  lemma StoredKept(source: Text, f: map<nat, Byte>, g: map<nat, Byte>, total: nat, n: nat)
    requires StoredBelow(source, f, total, n)
    requires forall p :: p in f ==> p in g && g[p] == f[p]
    ensures StoredBelow(source, g, total, n)
  {
    forall k | 0 <= k < n ensures Within(source, k) && Stored(g, Make(source, total, k)) {
      assert Stored(f, Make(source, total, k));
    }
  }

  lemma StoredNext(source: Text, f: map<nat, Byte>, total: nat, n: nat)
    requires StoredBelow(source, f, total, n) && Within(source, n) && Stored(f, Make(source, total, n))
    ensures StoredBelow(source, f, total, n + 1)
  {
  }

  // A request writes what the source has there.
  lemma WritesSource(source: Text, f: map<nat, Byte>, r: Request, total: nat)
    requires Within(source, r.fragment) && r == Make(source, total, r.fragment)
    requires forall p :: p in f ==> p < |source| && f[p] == source[p]
    ensures forall p :: p in f ==> p in Store(f, r) && Store(f, r)[p] == f[p]
    ensures forall p :: p in Store(f, r) ==> p < |source| && Store(f, r)[p] == source[p]
    ensures Stored(Store(f, r), r)
  {
    ChunkInside(|source|, r.fragment);
  }

  lemma SendGood(source: Text, s: State, t: State)
    requires Good(source, s) && Send(source, s, t)
    ensures Good(source, t)
  {
    hide StoredBelow, Stored, Make, Within;
    var r := Make(source, s.total, s.fragment);
    MakeFields(source, s.total, s.fragment);
  }

  lemma MakeFields(source: Text, total: nat, fragment: nat)
    requires Within(source, fragment)
    ensures Make(source, total, fragment).fragment == fragment && Make(source, total, fragment).total == total
  {
  }

  lemma ReceiveGood(source: Text, s: State, t: State, answers: seq<Confirm>)
    requires source != [] && Good(source, s) && Receive(s, t, answers)
    ensures Good(source, t)
  {
    hide StoredBelow, Stored, Make;
    assert answers[0] in s.confirms;
    if t.phase != Done(false) {
      assert answers[0] in answers;
    }
  }

  lemma StoreGood(source: Text, s: State, t: State, r: Request)
    requires Good(source, s) && DeviceStores(s, t, r)
    ensures Good(source, t)
  {
    var total := Fragments(|source|) % USHORT;
    WritesSource(source, s.file, r, total);
    forall n | StoredBelow(source, s.file, total, n) ensures StoredBelow(source, t.file, total, n) {
      StoredKept(source, s.file, t.file, total, n);
    }
    hide StoredBelow, Stored, Make, Within, Store;
  }

  lemma ConfirmGood(source: Text, s: State, t: State, r: Request)
    requires Good(source, s) && DeviceConfirms(s, t, r)
    ensures Good(source, t)
  {
    hide StoredBelow, Stored, Make;
    var total := Fragments(|source|) % USHORT;
    MakeFields(source, total, r.fragment);
    StoredNext(source, s.file, total, r.fragment);
  }

  // Every step of client, device and network keeps the invariant.
  lemma StepGood(source: Text, s: State, t: State)
    requires source != [] && Good(source, s) && Step(source, s, t)
    ensures Good(source, t)
  {
    if Send(source, s, t) {
      SendGood(source, s, t);
    } else if exists answers :: Receive(s, t, answers) {
      var answers :| Receive(s, t, answers);
      ReceiveGood(source, s, t, answers);
    } else if exists r :: DeviceStores(s, t, r) {
      var r :| DeviceStores(s, t, r);
      StoreGood(source, s, t, r);
    } else if exists r :: DeviceConfirms(s, t, r) {
      var r :| DeviceConfirms(s, t, r);
      ConfirmGood(source, s, t, r);
    }
  }

  lemma {:induction false} RunGood(source: Text, run: seq<State>)
    requires source != [] && Run(source, run) && run[0] == Start(source)
    ensures Good(source, run[|run| - 1])
  {
    var n := |run| - 1;
    if n == 0 {
      StartGood(source);
    } else {
      RunGood(source, run[..n]);
      StepGood(source, run[n - 1], run[n]);
    }
  }

  const LARGEST: nat := 65535 * 1024

  // Every fragment below the client's next one is on the device.
  lemma StoredInEveryState(source: Text, s: State, k: nat)
    requires source != [] && Reachable(source, s) && s.phase != Done(false) && k < s.fragment
    ensures Within(source, k) && Stored(s.file, Make(source, s.total, k))
  {
    var run :| Run(source, run) && run[0] == Start(source) && run[|run| - 1] == s;
    RunGood(source, run);
  }

  lemma WholeFile(source: Text, file: map<nat, Byte>, n: nat)
    requires |source| <= LARGEST && n >= Fragments(|source|)
    requires StoredBelow(source, file, Fragments(|source|), n)
    requires forall p :: p in file ==> p < |source| && file[p] == source[p]
    ensures SameFile(source, file)
  {
    forall p | 0 <= p < |source| ensures p in file && file[p] == source[p] {
      var k := p / CHUNK;
      assert Stored(file, Make(source, Fragments(|source|), k));
    }
  }

  // A transfer that ends well has the source on the device.
  lemma SuccessMeansWritten(source: Text, s: State)
    requires 0 < |source| <= LARGEST && Reachable(source, s) && s.phase == Done(true)
    ensures SameFile(source, s.file)
  {
    var run :| Run(source, run) && run[0] == Start(source) && run[|run| - 1] == s;
    RunGood(source, run);
    WholeFile(source, s.file, s.fragment);
  }

  // ---- Transfers that nothing disturbs ----

  lemma FromItself(source: Text, s: State)
    ensures From(source, s, s)
  {
    assert Run(source, [s]);
  }

  lemma FromNext(source: Text, s: State, t: State, u: State)
    requires From(source, s, t) && Step(source, t, u)
    ensures From(source, s, u)
  {
    var run :| Run(source, run) && run[0] == s && run[|run| - 1] == t;
    assert Run(source, run + [u]);
  }

  lemma Extend(source: Text, s: State, t: State)
    requires Reachable(source, s) && Step(source, s, t)
    ensures Reachable(source, t)
  {
    FromNext(source, Start(source), s, t);
  }

  // A request sent, stored, confirmed and answered
  ghost predicate Delivers(source: Text, s: State, t: State) {
    && Within(source, s.fragment)
    && var r := Make(source, s.total, s.fragment);
       exists u, v, x :: Send(source, s, u) && DeviceStores(u, v, r) && DeviceConfirms(v, x, r) &&
         Receive(x, t, [Confirm(true, r.total, r.fragment)])
  }

  lemma OneFragment(source: Text, s: State) returns (t: State)
    requires Reachable(source, s) && s.phase == Sending && Within(source, s.fragment) && s.fragment + 1 < USHORT
    ensures Reachable(source, t)
    ensures t.fragment == s.fragment + 1 && t.total == s.total && t.retries == 0
    ensures t.phase == if t.fragment < t.total then Sending else Done(true)
    ensures Delivers(source, s, t)
    ensures t.file == Store(s.file, Make(source, s.total, s.fragment))
  {
    hide Make, Store, Run, Within;
    MakeFields(source, s.total, s.fragment);
    var r := Make(source, s.total, s.fragment);
    var sent := s.(phase := Waiting, requests := s.requests + {r});
    assert Send(source, s, sent);
    Extend(source, s, sent);
    var stored := sent.(file := Store(s.file, r));
    assert DeviceStores(sent, stored, r);
    Extend(source, sent, stored);
    StoreStores(s.file, r);
    var c := Confirm(true, r.total, r.fragment);
    var confirmed := stored.(confirms := stored.confirms + {c});
    assert DeviceConfirms(stored, confirmed, r);
    Extend(source, stored, confirmed);
    var moved := confirmed.(fragment := s.fragment + 1, retries := 0);
    t := moved.(phase := if moved.fragment < moved.total then Sending else Done(true));
    assert Receive(confirmed, t, [c]);
    Extend(source, confirmed, t);
  }

  lemma StoreStores(file: map<nat, Byte>, r: Request)
    ensures Stored(Store(file, r), r)
  {
  }

  // After n fragments nothing is stored past them.
  lemma {:induction false} Undisturbed(source: Text, n: nat) returns (s: State)
    requires source != []
    requires var total := Fragments(|source|) % USHORT; n <= total || n == 1
    ensures Reachable(source, s) && s.fragment == n && s.total == Fragments(|source|) % USHORT
    ensures s.phase == if n == 0 || n < s.total then Sending else Done(true)
    ensures forall p :: p in s.file ==> p < CHUNK * n
  {
    hide Delivers, Reachable;
    if n == 0 {
      s := Start(source);
      StartReachable(source);
    } else {
      var before := Undisturbed(source, n - 1);
      s := OneFragment(source, before);
    }
  }

  // A success that leaves out the end of a file that is too large for 16 bits
  lemma TooLarge(source: Text) returns (s: State)
    requires |source| > LARGEST
    ensures Reachable(source, s) && s.phase == Done(true) && !SameFile(source, s.file)
  {
    var total := Fragments(|source|) % USHORT;
    s := Undisturbed(source, if total == 0 then 1 else total);
    assert |source| - 1 !in s.file;
  }

  // Success means a faithful copy for exactly the sizes that 65535 fragments can hold.
  lemma SuccessIsFaithful(source: Text)
    requires source != []
    ensures (forall s :: Reachable(source, s) && s.phase == Done(true) ==> SameFile(source, s.file)) <==>
            |source| <= LARGEST
  {
    if |source| <= LARGEST {
      forall s | Reachable(source, s) && s.phase == Done(true) ensures SameFile(source, s.file) {
        SuccessMeansWritten(source, s);
      }
    } else {
      var s := TooLarge(source);
    }
  }

  // And there is such a success for every file.
  lemma SuccessHappens(source: Text) returns (s: State)
    requires source != []
    ensures Reachable(source, s) && s.phase == Done(true)
  {
    var total := Fragments(|source|) % USHORT;
    s := Undisturbed(source, if total == 0 then 1 else total);
  }

  // ---- Transfers that lose messages ----

  // The request is sent, and no answer comes in time: the request or the answer is lost.
  ghost predicate Loses(source: Text, s: State, t: State) {
    exists u :: Send(source, s, u) && TimeOut(u, t)
  }

  // That n times, one after the other
  ghost predicate LosesTimes(source: Text, s: State, n: nat, t: State) {
    if n == 0 then s == t else exists u :: LosesTimes(source, s, n - 1, u) && Loses(source, u, t)
  }

  // From the start, each fragment delivered after some losses
  ghost predicate Suffers(source: Text, losses: seq<nat>, s: State) {
    if losses == [] then s == Start(source) else
      var n := |losses| - 1;
      exists t, u :: Suffers(source, losses[..n], t) && LosesTimes(source, t, losses[n], u) && Delivers(source, u, s)
  }

  // Between fragments: the next one is to be sent, and nothing was lost since the last.
  ghost predicate Between(source: Text, s: State) {
    s.phase == Sending && s.retries == 0 && s.total == Fragments(|source|) % USHORT && Asked(source, s.fragment)
  }

  // A client that has lost fewer than three sends the same fragment again; the third loss
  // in a row ends the transfer.
  lemma {:induction false} AfterLosses(source: Text, s: State, n: nat, t: State)
    requires Between(source, s) && LosesTimes(source, s, n, t)
    ensures n <= 3 && t.retries == n && t.fragment == s.fragment && t.total == s.total
    ensures t.phase == if n < 3 then Sending else Done(false)
  {
    if n == 0 {
    } else {
      var u :| LosesTimes(source, s, n - 1, u) && Loses(source, u, t);
      AfterLosses(source, s, n - 1, u);
    }
  }

  lemma {:induction false} LosesHappen(source: Text, s: State, n: nat) returns (t: State)
    requires Between(source, s) && n <= 3
    ensures LosesTimes(source, s, n, t) && (Reachable(source, s) ==> Reachable(source, t))
  {
    hide Make, Reachable, Within;
    if n == 0 {
      t := s;
    } else {
      var u := LosesHappen(source, s, n - 1);
      AfterLosses(source, s, n - 1, u);
      var sent := u.(phase := Waiting, requests := u.requests + {Make(source, u.total, u.fragment)});
      t := sent.(retries := n, phase := if n < 3 then Sending else Done(false));
      assert Send(source, u, sent) && TimeOut(sent, t);
      assert Loses(source, u, t);
      if Reachable(source, s) {
        Extend(source, u, sent);
        Extend(source, sent, t);
      }
    }
  }

  lemma Delivered(source: Text, s: State, t: State)
    requires Delivers(source, s, t) && s.total == Fragments(|source|) % USHORT && Asked(source, s.fragment)
    ensures s.phase == Sending && t.retries == 0 && t.total == s.total && t.fragment == (s.fragment + 1) % USHORT
    ensures t.phase == if t.fragment < t.total then Sending else Done(true)
  {
    hide Make, Stored, Store;
    MakeFields(source, s.total, s.fragment);
    var r := Make(source, s.total, s.fragment);
    var c := Confirm(true, r.total, r.fragment);
    assert forall d :: d in [c] ==> d == c;
  }

  // As many fragments as a transfer asks for
  function Rounds(source: Text): nat {
    var total := Fragments(|source|) % USHORT;
    if total == 0 then 1 else total
  }

  lemma {:induction false} SuffersMeans(source: Text, losses: seq<nat>, s: State)
    requires source != [] && |losses| <= Rounds(source) && Suffers(source, losses, s)
    ensures forall i :: 0 <= i < |losses| ==> losses[i] < 3
    ensures s.fragment == |losses| && s.retries == 0 && s.total == Fragments(|source|) % USHORT
    ensures s.phase == if |losses| < Rounds(source) then Sending else Done(true)
  {
    hide LosesTimes, Delivers, Within;
    if losses == [] {
    } else {
      var n := |losses| - 1;
      var t, u :| Suffers(source, losses[..n], t) && LosesTimes(source, t, losses[n], u) && Delivers(source, u, s);
      SuffersMeans(source, losses[..n], t);
      InFile(source, n);
      AfterLosses(source, t, losses[n], u);
      Delivered(source, u, s);
      assert losses == losses[..n] + [losses[n]];
    }
  }

  lemma InFile(source: Text, n: nat)
    requires source != [] && n < Rounds(source)
    ensures Asked(source, n) && n + 1 < USHORT
  {
  }

  lemma {:induction false} SuffersHappens(source: Text, losses: seq<nat>) returns (s: State)
    requires source != [] && |losses| <= Rounds(source) && forall i :: 0 <= i < |losses| ==> losses[i] < 3
    ensures Suffers(source, losses, s) && Reachable(source, s)
  {
    hide LosesTimes, Delivers, Within, Run;
    if losses == [] {
      s := Start(source);
      StartReachable(source);
    } else {
      var n := |losses| - 1;
      var t := SuffersHappens(source, losses[..n]);
      SuffersMeans(source, losses[..n], t);
      InFile(source, n);
      var u := LosesHappen(source, t, losses[n]);
      AfterLosses(source, t, losses[n], u);
      s := OneFragment(source, u);
    }
  }

  lemma StartReachable(source: Text)
    ensures Reachable(source, Start(source))
  {
    FromItself(source, Start(source));
  }

  // A transfer goes through with the given losses before each fragment exactly when there
  // are never three of them.
  lemma SurvivesLosses(source: Text, losses: seq<nat>)
    requires source != [] && |losses| == Rounds(source)
    ensures (exists s :: Suffers(source, losses, s) && s.phase == Done(true) && Reachable(source, s)) <==>
            forall i :: 0 <= i < |losses| ==> losses[i] < 3
  {
    hide Suffers, Reachable;
    if forall i :: 0 <= i < |losses| ==> losses[i] < 3 {
      var s := SuffersHappens(source, losses);
      SuffersMeans(source, losses, s);
    } else if exists s :: Suffers(source, losses, s) {
      var s :| Suffers(source, losses, s);
      SuffersMeans(source, losses, s);
    }
  }

  // In every reachable state, a client that waits and has lost fewer than two sends the
  // same fragment again when no answer comes, and can still end well.
  lemma RetryCanSucceed(source: Text, s: State, t: State) returns (u: State)
    requires source != [] && Reachable(source, s) && s.phase == Waiting && TimeOut(s, t)
    ensures s.retries < 2 <==> t.phase == Sending
    ensures t.phase == Sending ==>
              t.fragment == s.fragment && From(source, t, u) && Reachable(source, u) && u.phase == Done(true)
    ensures t.phase != Sending ==> t.phase == Done(false)
  {
    var run :| Run(source, run) && run[0] == Start(source) && run[|run| - 1] == s;
    RunGood(source, run);
    hide Good, StoredBelow, Run;
    WaitingGood(source, s);
    u := t;
    if t.phase == Sending {
      Extend(source, s, t);
      FromItself(source, t);
      u := Finish(source, t, t);
    }
  }

  lemma WaitingGood(source: Text, s: State)
    requires Good(source, s) && s.phase == Waiting
    ensures s.total == Fragments(|source|) % USHORT && s.retries < MAX_RETRIES && Asked(source, s.fragment)
  {
  }

  // A refusal that arrives ends the transfer, whatever arrives with it; and any request
  // sent can be refused.
  lemma RefusalEnds(source: Text, s: State, r: Request, t: State, answers: seq<Confirm>) returns (u: State)
    requires Reachable(source, s) && s.phase == Waiting && DeviceRefuses(s, t, r)
    requires forall c <- answers :: c in s.confirms || c == Confirm(false, r.total, r.fragment)
    requires Confirm(false, r.total, r.fragment) in answers
    ensures Reachable(source, u) && Receive(t, u, answers) && u.phase == Done(false) && u.file == s.file
  {
    hide Reachable;
    Extend(source, s, t);
    u := t.(fragment := (answers[0].fragment + 1) % USHORT, total := answers[0].total, retries := 0,
      phase := Done(false));
    assert Receive(t, u, answers);
    Extend(source, t, u);
  }

  // A send or receive call can fail at any time, and ends the transfer where it is.
  lemma CallFailureEnds(source: Text, s: State)
    requires Reachable(source, s) && (s.phase == Sending || s.phase == Waiting)
    ensures Reachable(source, s.(phase := Done(false)))
  {
    hide Reachable;
    Extend(source, s, s.(phase := Done(false)));
  }

  // A step is the client's or the device's. A client that is done stays as it is, and one
  // that is about to send does not look at confirmations.
  lemma OneSide(source: Text, s: State, t: State)
    requires Step(source, s, t)
    ensures || (t.file == s.file && t.confirms == s.confirms)
            || t == s.(file := t.file, confirms := t.confirms)
    ensures s.phase.Done? ==> t == s.(file := t.file, confirms := t.confirms)
    ensures s.phase == Sending ==>
              || t == s.(file := t.file, confirms := t.confirms)
              || t == s.(phase := Done(false))
              || (Within(source, s.fragment) &&
                  t == s.(phase := Waiting, requests := s.requests + {Make(source, s.total, s.fragment)}))
  {
    hide Store, Stored, Make, Within;
  }

  // The rest of the fragments, undisturbed
  lemma {:induction false} Finish(source: Text, s: State, t: State) returns (u: State)
    requires source != [] && Reachable(source, t) && From(source, s, t) && t.phase == Sending
    requires t.total == Fragments(|source|) % USHORT && t.fragment < Rounds(source)
    ensures From(source, s, u) && Reachable(source, u) && u.phase == Done(true)
    decreases Rounds(source) - t.fragment
  {
    hide Reachable, From, Delivers;
    InFile(source, t.fragment);
    var next := OneFragment(source, t);
    DeliveredFrom(source, s, t, next);
    if next.phase == Sending { u := Finish(source, s, next); } else { u := next; }
  }

  lemma DeliveredFrom(source: Text, s: State, t: State, u: State)
    requires From(source, s, t) && Delivers(source, t, u)
    ensures From(source, s, u)
  {
    hide From, Make;
    var r := Make(source, t.total, t.fragment);
    var v, w, x :| Send(source, t, v) && DeviceStores(v, w, r) && DeviceConfirms(w, x, r) &&
      Receive(x, u, [Confirm(true, r.total, r.fragment)]);
    FromNext(source, s, t, v);
    FromNext(source, s, v, w);
    FromNext(source, s, w, x);
    FromNext(source, s, x, u);
  }
}
