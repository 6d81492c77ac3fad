/** Every session ends: no run is stuck, none is infinite, and one at which nothing fails
    delivers every byte. */
module SessionEnds {
  import opened Bytes
  import opened Frames
  import opened Guardian
  import opened Session
  import opened SessionBackend
  import opened SessionClient
  import opened SessionRuns

  // ---- Progress ----------------------------------------------------------

  lemma ClientCanStep(cfg: Config, x: State)
    requires Inv(cfg, x) && ClientRuns(x) && !x.c.ClientDone? && !x.c.WantLock?
    ensures exists y :: ClientStep(cfg, x, y)
  {
    var y := ClientRead(cfg, x);
    var b, r := BackendFail(x), RefusalFail(x);
    if y.Some? {
      assert ClientStep(cfg, x, y.value);
    } else if b.Some? {
      assert ClientStep(cfg, x, b.value);
    } else {
      assert r.Some?;
      assert ClientStep(cfg, x, r.value);
    }
  }

  lemma ServerCanStep(cfg: Config, x: State)
    requires Inv(cfg, x) && ServerRuns(x) && !x.s.ServerDone? && !x.lock.HeldByClient?
    ensures exists y :: ServerStep(x, y)
  {
    var r, l, f, h := ServerRead(x, 1), ServerLocks(x), ServerFail(x), ServerShuts(x);
    if r.Some? {
      assert ServerStep(x, r.value);
    } else if l.Some? {
      assert ServerStep(x, l.value);
    } else if f.Some? {
      assert ServerStep(x, f.value);
    } else {
      assert ServerStep(x, h.value);
    }
  }

  lemma HealthyClientCanStep(cfg: Config, x: State)
    requires Inv(cfg, x) && ClientRuns(x) && !x.c.ClientDone? && !x.c.WantLock?
    requires HasLostNothing(x) && cfg.error != []
    ensures exists y :: HealthyClientStep(cfg, x, y)
  {
    var r, b, c, f := ClientRead(cfg, x), BackendWrite(x, 1), RefusalWrite(x, 1), RefusalFail(x);
    if r.Some? {
      assert HealthyClientStep(cfg, x, r.value);
    } else if b.Some? {
      assert HealthyClientStep(cfg, x, b.value);
    } else if c.Some? {
      assert HealthyClientStep(cfg, x, c.value);
    } else {
      assert x.shut && f.Some?;
      assert HealthyClientStep(cfg, x, f.value);
    }
  }

  lemma HealthyServerCanStep(cfg: Config, x: State)
    requires Inv(cfg, x) && ServerRuns(x) && !x.s.ServerDone? && !x.lock.HeldByClient? && HasLostNothing(x)
    ensures exists y :: HealthyServerStep(x, y)
  {
    var r, l, w, h := ServerRead(x, 1), ServerLocks(x), ServerWrite(x, 1), ServerShuts(x);
    if r.Some? {
      assert HealthyServerStep(x, r.value);
    } else if l.Some? {
      assert HealthyServerStep(x, l.value);
    } else if w.Some? {
      assert HealthyServerStep(x, w.value);
    } else {
      assert HealthyServerStep(x, h.value);
    }
  }

  /** No write has failed and no deadline has struck. */
  predicate HasLostNothing(x: State) {
    !x.backDead && !x.clientDead && !x.c.Cancelled?
  }

  /** A state that has not ended and has lost nothing has a next one at which nothing
      fails and no deadline strikes. */
  lemma HealthCanAlwaysGoOn(cfg: Config, x: State)
    requires Inv(cfg, x) && !x.join.Ended? && HasLostNothing(x) && cfg.error != []
    ensures exists y :: HealthyStep(cfg, x, y)
  {
    if ClientRuns(x) && x.c.ClientDone? {
      assert HealthyStep(cfg, x, SeeDone(x).value);
    } else if ClientRuns(x) && !x.c.WantLock? {
      HealthyClientCanStep(cfg, x);
      var y :| HealthyClientStep(cfg, x, y);
      assert HealthyStep(cfg, x, y);
    } else if ClientRuns(x) && x.lock.Free? {
      var y := ClientLocks(cfg, x).value;
      assert HealthyClientStep(cfg, x, y);
      assert HealthyStep(cfg, x, y);
    } else if x.s.ServerDone? {
      assert HealthyStep(cfg, x, SeeDone(x).value);
    } else {
      HealthyServerCanStep(cfg, x);
      var y :| HealthyServerStep(x, y);
      assert HealthyStep(cfg, x, y);
    }
  }

  lemma HealthyStepIsStep(cfg: Config, x: State, y: State)
    requires HealthyStep(cfg, x, y)
    ensures Next(cfg, x, y)
  {
    if HealthyClientStep(cfg, x, y) {
      assert ClientStep(cfg, x, y);
    } else if HealthyServerStep(x, y) {
      assert ServerStep(x, y);
    }
  }

  /** No deadlock: a state that has not ended has a next one; and while nothing has been
      lost, one at which nothing is. */
  lemma SomethingCanAlwaysHappen(cfg: Config, x: State)
    requires Inv(cfg, x) && !x.join.Ended?
    ensures exists y :: Next(cfg, x, y)
    ensures HasLostNothing(x) && cfg.error != [] ==> exists y :: HealthyStep(cfg, x, y)
  {
    if HasLostNothing(x) && cfg.error != [] {
      HealthCanAlwaysGoOn(cfg, x);
    }
    if ClientRuns(x) && x.c.ClientDone? {
      var y := SeeDone(x).value;
      assert Next(cfg, x, y);
    } else if ClientRuns(x) && !x.c.WantLock? {
      ClientCanStep(cfg, x);
      var y :| ClientStep(cfg, x, y);
      assert Next(cfg, x, y);
    } else if ClientRuns(x) && x.lock.Free? {
      var y := ClientLocks(cfg, x).value;
      assert ClientStep(cfg, x, y);
      assert Next(cfg, x, y);
    } else if x.s.ServerDone? {
      var y := SeeDone(x).value;
      assert Next(cfg, x, y);
    } else {
      ServerCanStep(cfg, x);
      var y :| ServerStep(x, y);
      assert Next(cfg, x, y);
    }
  }

  // ---- Termination -------------------------------------------------------

  /** The price of one unread client byte. */
  function Price(cfg: Config): nat {
    |cfg.error| + 20
  }

  function ClientWork(cfg: Config, c: ClientTask): nat {
    match c
    case ReadTag => 2
    case ReadLength(_) => 5
    case ReadQuery(_, _) => |cfg.error| + 16
    case WantLock => |cfg.error| + 10
    case SendError(_, todo) => |todo| + 9
    case SendReady(_, todo) => |todo| + 3
    case SendFrame(todo) => |todo| + 3
    case SendHead(todo, _) => |todo| + 3
    case ReadChunk(_) => 3
    case SendChunk(todo, _) => |todo| + 3
    case Closing => 1
    case _ => 0
  }

  function ServerWork(s: ServerTask): nat {
    match s
    case ReadBackend => 3
    case WantToSend(chunk) => |chunk| + 5
    case Sending(_, todo) => |todo| + 4
    case WantToShut => 2
    case Shutting => 1
    case ServerDone => 0
  }

  function JoinWork(j: Join): nat {
    match j
    case Racing => 2
    case AwaitServer => 1
    case Draining => 1
    case Ended => 0
  }

  /** Steps a session can still take, at most. */
  function Work(cfg: Config, x: State): nat {
    Price(cfg) * |x.clientRest| + ClientWork(cfg, x.c) + 4 * |x.backendRest| + ServerWork(x.s) + JoinWork(x.join)
  }

  lemma BytesPay(p: nat, before: nat, after: nat)
    requires after <= before && p >= 20
    ensures p * before >= p * after + 2 * (before - after)
    ensures after < before ==> p * before >= p * after + p + 2 * (before - after - 1)
  {
    var d := before - after;
    assert p * before == p * after + p * d;
    assert p * d >= 2 * d by { assert (p - 2) * d >= 0; }
    if d > 0 {
      assert p * d == p + p * (d - 1);
      assert p * (d - 1) >= 2 * (d - 1) by { assert (p - 2) * (d - 1) >= 0; }
    }
  }

  lemma QueryReadWorks(cfg: Config, x: State, y: State)
    requires x.c.ReadQuery? && IsLengthTask(x.c) && ClientRead(cfg, x) == Some(y)
    ensures ClientWork(cfg, y.c) < ClientWork(cfg, x.c) + 2 * (|x.clientRest| - |y.clientRest|)
    ensures |y.clientRest| <= |x.clientRest|
  {
    var n := PayloadLength(x.c.length);
    if |x.clientRest| < n {
      assert y.c.Closing?;
    } else if !Verdict(x.clientRest[..n], cfg.context) {
      assert y.c.WantLock?;
    } else {
      assert |y.c.todo| == n + 5;
    }
  }

  lemma OtherReadsWork(cfg: Config, x: State, y: State)
    requires !x.c.ReadQuery? && IsLengthTask(x.c) && ClientRead(cfg, x) == Some(y)
    ensures var used := |x.clientRest| - |y.clientRest|;
      && 0 <= used
      && ClientWork(cfg, y.c) < ClientWork(cfg, x.c) + if used == 0 then 0 else Price(cfg) + 2 * (used - 1)
  {
  }

  lemma ClientReadWorks(cfg: Config, x: State, y: State)
    requires IsLengthTask(x.c) && ClientRead(cfg, x) == Some(y)
    ensures Work(cfg, y) < Work(cfg, x)
  {
    if x.c.ReadQuery? {
      QueryReadWorks(cfg, x, y);
    } else {
      OtherReadsWork(cfg, x, y);
    }
    BytesPay(Price(cfg), |x.clientRest|, |y.clientRest|);
    ReadIsQuiet(cfg, x, y);
  }

  lemma ClientWriteWorks(cfg: Config, x: State, y: State, n: nat)
    requires BackendWrite(x, n) == Some(y) || RefusalWrite(x, n) == Some(y)
    ensures Work(cfg, y) < Work(cfg, x)
  {
  }

  lemma ClientOtherWorks(cfg: Config, x: State, y: State)
    requires BackendFail(x) == Some(y) || ClientLocks(cfg, x) == Some(y) || RefusalFail(x) == Some(y)
    ensures Work(cfg, y) < Work(cfg, x)
  {
  }

  lemma ServerWorks(cfg: Config, x: State, y: State)
    requires ServerStep(x, y)
    ensures Work(cfg, y) < Work(cfg, x)
  {
  }

  lemma ClientWorks(cfg: Config, x: State, y: State)
    requires IsLengthTask(x.c) && IsBlock(cfg, x.c) && ClientStep(cfg, x, y)
    ensures Work(cfg, y) < Work(cfg, x)
  {
    if ClientRead(cfg, x) == Some(y) {
      ClientReadWorks(cfg, x, y);
    } else if n: nat :| BackendWrite(x, n) == Some(y) || RefusalWrite(x, n) == Some(y) {
      ClientWriteWorks(cfg, x, y, n);
    } else {
      ClientOtherWorks(cfg, x, y);
    }
  }

  lemma JoinWorks(cfg: Config, x: State, y: State)
    requires JoinStep(x, y)
    ensures Work(cfg, y) < Work(cfg, x)
  {
  }

  lemma EveryStepIsWork(cfg: Config, x: State, y: State)
    requires Inv(cfg, x) && Next(cfg, x, y)
    ensures Work(cfg, y) < Work(cfg, x)
  {
    if ServerStep(x, y) {
      ServerWorks(cfg, x, y);
    } else if ClientStep(cfg, x, y) {
      ClientWorks(cfg, x, y);
    } else {
      JoinWorks(cfg, x, y);
    }
  }

  lemma InitialWork(cfg: Config)
    ensures Work(cfg, Initial(cfg)) == Price(cfg) * |cfg.clientBytes| + 4 * |cfg.backendBytes| + 7
  {
  }

  /** Every run is finite: on finite streams no schedule takes more steps than this. */
  lemma {:induction false} RunsAreBounded(cfg: Config, xs: seq<State>, i: nat)
    requires IsRun(cfg, xs) && i < |xs|
    ensures i + Work(cfg, xs[i]) <= Price(cfg) * |cfg.clientBytes| + 4 * |cfg.backendBytes| + 7
  {
    if i == 0 {
      InitialWork(cfg);
    } else {
      RunsAreBounded(cfg, xs, i - 1);
      RunKeepsInv(cfg, xs, i - 1);
      assert Next(cfg, xs[i - 1], xs[i - 1 + 1]);
      EveryStepIsWork(cfg, xs[i - 1], xs[i]);
    }
  }

  /** A run that cannot be continued has ended. */
  lemma MaximalRunsEnd(cfg: Config, xs: seq<State>)
    requires IsRun(cfg, xs)
    requires forall y :: !IsRun(cfg, xs + [y])
    ensures xs[|xs| - 1].join.Ended?
  {
    var last := xs[|xs| - 1];
    RunKeepsInv(cfg, xs, |xs| - 1);
    if !last.join.Ended? {
      SomethingCanAlwaysHappen(cfg, last);
      var y :| Next(cfg, last, y);
      RunExtends(cfg, xs, y);
    }
  }

  lemma RunExtends(cfg: Config, xs: seq<State>, y: State)
    requires IsRun(cfg, xs) && Next(cfg, xs[|xs| - 1], y)
    ensures IsRun(cfg, xs + [y])
  {
    var ys := xs + [y];
    forall i | 0 <= i < |ys| - 1 ensures Next(cfg, ys[i], ys[i + 1]) {
      if i < |xs| - 1 {
        assert Next(cfg, xs[i], xs[i + 1]);
      }
    }
  }

  // ---- Delivery ----------------------------------------------------------

  lemma HealthKeepsAll(cfg: Config, x: State, y: State)
    requires HasLostNothing(x) && HealthyStep(cfg, x, y)
    ensures HasLostNothing(y)
  {
    if HealthyClientStep(cfg, x, y) {
      ClientHealthKeepsAll(cfg, x, y);
    } else if HealthyServerStep(x, y) {
      ServerHealthKeepsAll(x, y);
    }
  }

  lemma ClientHealthKeepsAll(cfg: Config, x: State, y: State)
    requires HasLostNothing(x) && HealthyClientStep(cfg, x, y)
    ensures HasLostNothing(y)
  {
    if ClientRead(cfg, x) == Some(y) {
      ReadIsQuiet(cfg, x, y);
      ReadLeavesBackend(cfg, x, y);
    }
  }

  lemma ReadLeavesBackend(cfg: Config, x: State, y: State)
    requires ClientRead(cfg, x) == Some(y)
    ensures y.backDead == x.backDead
  {
  }

  lemma ServerHealthKeepsAll(x: State, y: State)
    requires HasLostNothing(x) && HealthyServerStep(x, y)
    ensures HasLostNothing(y)
  {
  }

  lemma HealthyRunIsRun(cfg: Config, xs: seq<State>)
    requires IsHealthyRun(cfg, xs)
    ensures IsRun(cfg, xs)
  {
    forall i | 0 <= i < |xs| - 1 ensures Next(cfg, xs[i], xs[i + 1]) {
      HealthyStepIsStep(cfg, xs[i], xs[i + 1]);
    }
  }

  lemma {:induction false} HealthyRunLosesNothing(cfg: Config, xs: seq<State>, i: nat)
    requires IsHealthyRun(cfg, xs) && i < |xs|
    ensures HasLostNothing(xs[i])
  {
    if i > 0 {
      HealthyRunLosesNothing(cfg, xs, i - 1);
      assert HealthyStep(cfg, xs[i - 1], xs[i - 1 + 1]);
      HealthKeepsAll(cfg, xs[i - 1], xs[i]);
    }
  }

  lemma HealthyRunExtends(cfg: Config, xs: seq<State>, y: State)
    requires IsHealthyRun(cfg, xs) && HealthyStep(cfg, xs[|xs| - 1], y)
    ensures IsHealthyRun(cfg, xs + [y])
  {
    var ys := xs + [y];
    forall i | 0 <= i < |ys| - 1 ensures HealthyStep(cfg, ys[i], ys[i + 1]) {
      if i < |xs| - 1 {
        assert HealthyStep(cfg, xs[i], xs[i + 1]);
      }
    }
  }

  /** The session is over and everything has arrived: the backend has the startup message
      and every frame not refused, the client has every byte of the backend, each
      refusal it was sent is whole, and exactly the frames to refuse were refused. */
  ghost predicate IsDelivered(cfg: Config, x: State) {
    && x.join.Ended?
    && x.back == cfg.startup + Forwarded(cfg.clientBytes, cfg.context)
    && Erased(x.pieces) == cfg.backendBytes && x.received == Flat(x.pieces)
    && AllWhole(x.pieces, Notice(cfg))
    && x.refusals == Refusals(cfg.clientBytes, cfg.context)
  }

  lemma EndedInHealthIsDelivered(cfg: Config, xs: seq<State>)
    requires IsHealthyRun(cfg, xs) && xs[|xs| - 1].join.Ended?
    ensures IsDelivered(cfg, xs[|xs| - 1])
  {
    var i := |xs| - 1;
    HealthyRunIsRun(cfg, xs);
    HealthyRunLosesNothing(cfg, xs, i);
    SessionEndsInOrder(cfg, xs, i);
    BackendGetsThePrefix(cfg, xs, i);
    ClientSeesWholeRefusals(cfg, xs, i);
  }

  /** A run at which nothing fails and no deadline strikes, and which cannot go on so, has
      delivered everything. Whatever the schedule and the sizes of reads and writes. */
  lemma HealthyRunsDeliver(cfg: Config, xs: seq<State>)
    requires cfg.error != [] && IsHealthyRun(cfg, xs)
    requires forall y :: !IsHealthyRun(cfg, xs + [y])
    ensures IsDelivered(cfg, xs[|xs| - 1])
  {
    var i := |xs| - 1;
    HealthyRunIsRun(cfg, xs);
    RunKeepsInv(cfg, xs, i);
    HealthyRunLosesNothing(cfg, xs, i);
    if !xs[i].join.Ended? {
      HealthCanAlwaysGoOn(cfg, xs[i]);
      var y :| HealthyStep(cfg, xs[i], y);
      HealthyRunExtends(cfg, xs, y);
    }
    EndedInHealthIsDelivered(cfg, xs);
  }

  /** And from wherever such a run stands, it can go on so until it has. */
  lemma {:induction false} HealthyRunsCanDeliver(cfg: Config, xs: seq<State>) returns (more: seq<State>)
    requires cfg.error != [] && IsHealthyRun(cfg, xs)
    ensures IsHealthyRun(cfg, xs + more) && IsDelivered(cfg, (xs + more)[|xs + more| - 1])
    decreases Work(cfg, xs[|xs| - 1])
  {
    var x := xs[|xs| - 1];
    assert xs + [] == xs;
    if x.join.Ended? {
      more := [];
      EndedInHealthIsDelivered(cfg, xs);
    } else {
      HealthyRunIsRun(cfg, xs);
      RunKeepsInv(cfg, xs, |xs| - 1);
      HealthyRunLosesNothing(cfg, xs, |xs| - 1);
      HealthCanAlwaysGoOn(cfg, x);
      var y :| HealthyStep(cfg, x, y);
      HealthyStepIsStep(cfg, x, y);
      EveryStepIsWork(cfg, x, y);
      HealthyRunExtends(cfg, xs, y);
      var rest := HealthyRunsCanDeliver(cfg, xs + [y]);
      more := [y] + rest;
      Assoc(xs, [y], rest);
    }
  }
}
