/** Every connection ends: no run is infinite, and none is stuck before its end. */
module WorldEnds {
  import opened Bytes
  import opened Wire
  import opened Handshake
  import opened Gate
  import opened World
  import opened WorldDelivery
  import S = Session
  import Runs = SessionRuns
  import Ends = SessionEnds

  // ---- Progress ----------------------------------------------------------

  lemma GateCanStep(env: Env, w: World)
    requires GateInv(env, w) && !w.phase.Over? && !w.phase.Pumping? && !w.phase.Sending?
    ensures exists v :: Next(env, w, v)
  {
    var p, h, n, j, c := Peer(env, w), Header(env, w), Negotiation(env, w), Judgement(env, w), Connect(w, true);
    if p.Some? {
      assert Next(env, w, p.value);
    } else if h.Some? {
      assert Next(env, w, h.value);
    } else if n.Some? {
      assert Next(env, w, n.value);
    } else if c.Some? {
      assert Next(env, w, c.value);
    } else {
      GreetingIsAdmissible(env.arrival.wire, env.arrival.tls, env.arrival.room);
      assert j.Some?;
      assert Next(env, w, j.value);
    }
  }

  lemma ReachableInv(cfg: S.Config, x: S.State)
    requires IsReachable(cfg, x)
    ensures Runs.Inv(cfg, x)
  {
    var xs :| S.IsRun(cfg, xs) && xs[|xs| - 1] == x;
    Runs.RunKeepsInv(cfg, xs, |xs| - 1);
  }

  lemma PumpCanStep(env: Env, w: World)
    requires GateInv(env, w) && w.phase.Pumping? && !w.phase.session.join.Ended?
    ensures exists v :: Next(env, w, v)
  {
    var cfg, x := SessionConfig(env, w.phase.entry), w.phase.session;
    ReachableInv(cfg, x);
    Ends.SomethingCanAlwaysHappen(cfg, x);
    var y :| S.Next(cfg, x, y);
    var v := w.(phase := Pumping(w.phase.entry, y), back := y.back);
    assert Pump(env, w, v);
    assert Next(env, w, v);
  }

  /** No deadlock: a connection that is not over has a next step; and while nothing has
      gone wrong, one at which nothing does. */
  lemma SomethingCanAlwaysHappen(env: Env, w: World)
    requires GateInv(env, w) && !w.phase.Over?
    ensures exists v :: Next(env, w, v)
    ensures HealthInv(env, w) ==> exists v :: HealthyStep(env, w, v)
  {
    if HealthInv(env, w) {
      HealthCanAlwaysGoOn(env, w);
    }
    if w.phase.Sending? {
      assert Next(env, w, SendFailure(w).value);
    } else if !w.phase.Pumping? {
      GateCanStep(env, w);
    } else if w.phase.session.join.Ended? {
      assert Next(env, w, Finish(w).value);
    } else {
      PumpCanStep(env, w);
    }
  }

  // ---- Termination -------------------------------------------------------

  /** What a connection has to work through: the bytes behind the header, the bytes
      that go upstream before the session, the steps of the session. */
  datatype Budget = Budget(wire: nat, upstream: nat, session: nat)

  /** Steps a phase before the session can still take, at most. */
  function GateWork(b: Budget, p: Phase): (n: nat)
    ensures p.Over? ==> n == 0
    ensures p.Sending? ==> n > 0
  {
    match p
    case Accepted => b.wire + b.upstream + b.session + 6
    case ReadingHeader => b.wire + b.upstream + b.session + 5
    case Negotiating(at, _, _) => |All(at)| + b.upstream + b.session + 4
    case Settled(_, _) => b.upstream + b.session + 3
    case Connecting(_) => b.upstream + b.session + 2
    case Sending(_, todo) => |todo| + b.session + 1
    case Pumping(_, _) => b.session
    case Over => 0
  }

  function SessionWork(env: Env, e: Entry, x: S.State): (n: nat)
    ensures n > 0
  {
    if e.Start? then Ends.Work(SessionConfig(env, e), x) + 1 else 1
  }

  function BudgetOf(env: Env): Budget {
    var e := TheEntry(env);
    Budget(|All(Headed(env.arrival.wire))|, |Upstream(e)|,
           if e.Start? then SessionWork(env, e, S.Initial(SessionConfig(env, e))) else 0)
  }

  /** Steps a connection can still take, at most. */
  function Work(env: Env, w: World): nat {
    if w.phase.Pumping? then SessionWork(env, w.phase.entry, w.phase.session) else GateWork(BudgetOf(env), w.phase)
  }

  lemma TurnIsWork(env: Env, b: Budget, w: World, v: World)
    requires Negotiation(env, w) == Some(v)
    ensures !v.phase.Pumping? && GateWork(b, v.phase) < GateWork(b, w.phase)
  {
    NegotiateTurn(w.phase.at, env.arrival.tls, w.phase.room, w.replies);
  }

  lemma GateStepIsWork(env: Env, b: Budget, w: World, v: World)
    requires GateStep(env, w, v) && b.wire == |All(Headed(env.arrival.wire))|
    requires w.phase.Connecting? ==> b.upstream == |Upstream(w.phase.entry)|
    ensures !v.phase.Pumping? && GateWork(b, v.phase) < GateWork(b, w.phase)
  {
    if Negotiation(env, w) == Some(v) {
      TurnIsWork(env, b, w, v);
    } else if w.phase.Settled? {
      JudgementIsWork(env, b, w, v);
    } else if w.phase.Connecting? {
      ConnectIsWork(env, b, w, v);
    }
  }

  lemma JudgementIsWork(env: Env, b: Budget, w: World, v: World)
    requires w.phase.Settled? && GateStep(env, w, v)
    ensures !v.phase.Pumping? && GateWork(b, v.phase) < GateWork(b, w.phase)
  {
    assert v.phase.Connecting? || v.phase.Over?;
  }

  lemma ConnectIsWork(env: Env, b: Budget, w: World, v: World)
    requires w.phase.Connecting? && GateStep(env, w, v) && b.upstream == |Upstream(w.phase.entry)|
    ensures !v.phase.Pumping? && GateWork(b, v.phase) < GateWork(b, w.phase)
  {
    assert v.phase.Over? || v.phase == Sending(w.phase.entry, Upstream(w.phase.entry));
  }

  lemma SendIsWork(env: Env, b: Budget, w: World, v: World, n: nat)
    requires Send(env, w, n) == Some(v)
    ensures GateWork(b, v.phase) < GateWork(b, w.phase)
    ensures v.phase.Pumping? ==>
      v.phase.entry.Start? && v.phase == Pumping(w.phase.entry, S.Initial(SessionConfig(env, w.phase.entry)))
  {
  }

  lemma PumpIsWork(env: Env, w: World, v: World)
    requires GateInv(env, w) && Pump(env, w, v)
    ensures Work(env, v) < Work(env, w)
  {
    var cfg, x := SessionConfig(env, w.phase.entry), w.phase.session;
    ReachableInv(cfg, x);
    Ends.EveryStepIsWork(cfg, x, v.phase.session);
  }

  lemma SendPhaseIsWork(env: Env, w: World, v: World, n: nat)
    requires w.phase.Sending? && w.phase.entry == TheEntry(env) && Send(env, w, n) == Some(v)
    ensures Work(env, v) < Work(env, w)
  {
    SendIsWork(env, BudgetOf(env), w, v, n);
  }

  lemma GatePhaseIsWork(env: Env, w: World, v: World)
    requires GateStep(env, w, v) && (w.phase.Connecting? ==> w.phase.entry == TheEntry(env))
    ensures Work(env, v) < Work(env, w)
  {
    GateStepIsWork(env, BudgetOf(env), w, v);
  }

  lemma LastStepIsWork(env: Env, w: World, v: World)
    requires SendFailure(w) == Some(v) || Finish(w) == Some(v)
    ensures Work(env, v) < Work(env, w)
  {
    assert v.phase.Over?;
    var b := BudgetOf(env);
    assert GateWork(b, v.phase) == 0;
  }

  /** The entry on its way upstream is the one the gate decided. */
  predicate IsPinned(w: World, e: Entry) {
    w.phase.Connecting? || w.phase.Sending? ==> w.phase.entry == e
  }

  lemma OtherStepIsWork(env: Env, w: World, v: World)
    requires IsPinned(w, TheEntry(env)) && Next(env, w, v) && !Pump(env, w, v)
    ensures Work(env, v) < Work(env, w)
  {
    if GateStep(env, w, v) {
      GatePhaseIsWork(env, w, v);
    } else if n: nat :| Send(env, w, n) == Some(v) {
      SendPhaseIsWork(env, w, v, n);
    } else {
      LastStepIsWork(env, w, v);
    }
  }

  lemma EveryStepIsWork(env: Env, w: World, v: World)
    requires GateInv(env, w) && Next(env, w, v)
    ensures Work(env, v) < Work(env, w)
  {
    if Pump(env, w, v) {
      PumpIsWork(env, w, v);
    } else {
      InvPins(env, w);
      OtherStepIsWork(env, w, v);
    }
  }

  lemma InvPins(env: Env, w: World)
    requires GateInv(env, w)
    ensures IsPinned(w, TheEntry(env))
  {
  }

  /** Every run is finite: no schedule, and no placing of timeouts and failures, takes
      more steps than this. */
  lemma {:induction false} RunsAreBounded(env: Env, ws: seq<World>, i: nat)
    requires IsRun(env, ws) && i < |ws|
    ensures i + Work(env, ws[i]) <= Work(env, START)
  {
    if i > 0 {
      RunsAreBounded(env, ws, i - 1);
      RunKeepsInv(env, ws, i - 1);
      assert Next(env, ws[i - 1], ws[i - 1 + 1]);
      EveryStepIsWork(env, ws[i - 1], ws[i]);
    }
  }

  lemma RunExtends(env: Env, ws: seq<World>, v: World)
    requires IsRun(env, ws) && Next(env, ws[|ws| - 1], v)
    ensures IsRun(env, ws + [v])
  {
    var vs := ws + [v];
    forall i | 0 <= i < |vs| - 1 ensures Next(env, vs[i], vs[i + 1]) {
      if i < |ws| - 1 {
        assert Next(env, ws[i], ws[i + 1]);
      }
    }
  }

  /** A connection that cannot go on is over. */
  lemma MaximalRunsEnd(env: Env, ws: seq<World>)
    requires IsRun(env, ws)
    requires forall v :: !IsRun(env, ws + [v])
    ensures ws[|ws| - 1].phase.Over?
  {
    var last := ws[|ws| - 1];
    RunKeepsInv(env, ws, |ws| - 1);
    if !last.phase.Over? {
      SomethingCanAlwaysHappen(env, last);
      var v :| Next(env, last, v);
      RunExtends(env, ws, v);
    }
  }

  /** From wherever a run at which nothing goes wrong stands, it can go on so until the
      connection is over and all that the gate allows has been sent. */
  lemma {:induction false} HealthyConnectionsCanDeliver(env: Env, ws: seq<World>) returns (more: seq<World>)
    requires IsHealthyRun(env, ws)
    ensures IsHealthyRun(env, ws + more)
    ensures var w := (ws + more)[|ws + more| - 1];
      w.phase.Over? && w.back == Allowed(env) && w.replies == Replies(env.policy, env.arrival)
    decreases Work(env, ws[|ws| - 1])
  {
    var w := ws[|ws| - 1];
    assert ws + [] == ws;
    HealthyRunKeepsHealth(env, ws, |ws| - 1);
    if w.phase.Over? {
      more := [];
    } else {
      HealthyRunIsRun(env, ws);
      RunKeepsInv(env, ws, |ws| - 1);
      HealthCanAlwaysGoOn(env, w);
      var v :| HealthyStep(env, w, v);
      HealthyStepIsStep(env, w, v);
      EveryStepIsWork(env, w, v);
      HealthyRunExtends(env, ws, v);
      var rest := HealthyConnectionsCanDeliver(env, ws + [v]);
      more := [v] + rest;
      Assoc(ws, [v], rest);
    }
  }
}
