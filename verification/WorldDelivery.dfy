/** Connections at which nothing fails, no deadline strikes and no timeout expires: each
    can go on until it is over, and then has sent all that the gate allows. */
module WorldDelivery {
  import opened Bytes
  import opened Handshake
  import opened Gate
  import opened World
  import S = Session
  import Ends = SessionEnds
  import Runs = SessionRuns

  // ---- Steps at which nothing fails --------------------------------------

  ghost predicate HealthyGateStep(env: Env, w: World, v: World) {
    || Peer(env, w) == Some(v) || Header(env, w) == Some(v) || Negotiation(env, w) == Some(v)
    || Judgement(env, w) == Some(v) || Connect(w, true) == Some(v)
  }

  ghost predicate HealthyPump(env: Env, w: World, v: World) {
    && Pump(env, w, v)
    && S.HealthyStep(SessionConfig(env, w.phase.entry), w.phase.session, v.phase.session)
  }

  ghost predicate HealthyStep(env: Env, w: World, v: World) {
    || HealthyGateStep(env, w, v) || (exists n: nat :: Send(env, w, n) == Some(v))
    || HealthyPump(env, w, v) || Finish(w) == Some(v)
  }

  ghost predicate IsHealthyRun(env: Env, ws: seq<World>) {
    && ws != [] && ws[0] == START
    && forall i :: 0 <= i < |ws| - 1 ==> HealthyStep(env, ws[i], ws[i + 1])
  }

  lemma HealthyStepIsStep(env: Env, w: World, v: World)
    requires HealthyStep(env, w, v)
    ensures Next(env, w, v)
  {
    if HealthyGateStep(env, w, v) {
      assert GateStep(env, w, v);
    }
  }

  lemma HealthyRunIsRun(env: Env, ws: seq<World>)
    requires IsHealthyRun(env, ws)
    ensures IsRun(env, ws)
  {
    forall i | 0 <= i < |ws| - 1 ensures Next(env, ws[i], ws[i + 1]) {
      HealthyStepIsStep(env, ws[i], ws[i + 1]);
    }
  }

  // ---- The invariant -----------------------------------------------------

  ghost predicate IsHealthilyReachable(cfg: S.Config, x: S.State) {
    exists xs :: S.IsHealthyRun(cfg, xs) && xs[|xs| - 1] == x
  }

  /** On top of the invariant of every run: there is always something to send, the
      session is one at which nothing failed, and over means all sent. */
  ghost predicate HealthInv(env: Env, w: World) {
    && (w.phase.Sending? ==> w.phase.todo != [])
    && (w.phase.Pumping? ==>
          w.phase.entry.Start? && IsHealthilyReachable(SessionConfig(env, w.phase.entry), w.phase.session))
    && (w.phase.Over? ==> w.back == Allowed(env) && w.replies == Replies(env.policy, env.arrival))
  }

  lemma UpstreamIsNotEmpty(e: Entry)
    requires e.Relay? || e.Start?
    ensures Upstream(e) != []
  {
  }

  lemma NothingAllowed(env: Env)
    requires !TheEntry(env).Relay? && !TheEntry(env).Start?
    ensures Allowed(env) == []
  {
  }

  lemma JudgedEntry(env: Env, w: World)
    requires GateInv(env, w) && w.phase.Settled? && IsAdmissible(w.phase.hello)
    ensures Admit(env.policy.rules, w.phase.hello, w.phase.ip, env.arrival.now) == TheEntry(env)
    ensures w.replies == Replies(env.policy, env.arrival) && w.back == []
  {
  }

  lemma RefusedEarly(env: Env, w: World, v: World)
    requires GateInv(env, w) && (Peer(env, w) == Some(v) || Header(env, w) == Some(v)) && v.phase.Over?
    ensures Allowed(env) == [] && Replies(env.policy, env.arrival) == [] && v.back == [] && v.replies == []
  {
    assert TheEntry(env).Nothing?;
    NothingAllowed(env);
  }

  lemma GateStepKeepsHealth(env: Env, w: World, v: World)
    requires GateInv(env, w) && HealthyGateStep(env, w, v)
    ensures HealthInv(env, v)
  {
    if w.phase.Settled? {
      JudgedEntry(env, w);
      if v.phase.Over? {
        NothingAllowed(env);
      }
    } else if w.phase.Connecting? {
      UpstreamIsNotEmpty(w.phase.entry);
    } else if v.phase.Over? {
      RefusedEarly(env, w, v);
    }
  }

  lemma HealthilyReachableStart(cfg: S.Config)
    ensures IsHealthilyReachable(cfg, S.Initial(cfg))
  {
    var xs := [S.Initial(cfg)];
    assert S.IsHealthyRun(cfg, xs) && xs[|xs| - 1] == S.Initial(cfg);
  }

  lemma HealthilyReachableNext(cfg: S.Config, x: S.State, y: S.State)
    requires IsHealthilyReachable(cfg, x) && S.HealthyStep(cfg, x, y)
    ensures IsHealthilyReachable(cfg, y)
  {
    var xs :| S.IsHealthyRun(cfg, xs) && xs[|xs| - 1] == x;
    Ends.HealthyRunExtends(cfg, xs, y);
    assert (xs + [y])[|xs + [y]| - 1] == y;
  }

  lemma SentCancellation(env: Env, w: World)
    requires GateInv(env, w) && w.phase.Sending? && w.phase.entry.Relay?
    ensures Allowed(env) == w.back + w.phase.todo && w.replies == Replies(env.policy, env.arrival)
  {
    assert Upstream(w.phase.entry) + [] == Upstream(w.phase.entry);
  }

  lemma SendKeepsHealth(env: Env, w: World, v: World, n: nat)
    requires GateInv(env, w) && Send(env, w, n) == Some(v)
    ensures HealthInv(env, v)
  {
    if v.phase.Pumping? {
      HealthilyReachableStart(SessionConfig(env, w.phase.entry));
    } else if v.phase.Over? {
      SentCancellation(env, w);
      Moved(w.back, w.phase.todo, n);
    }
  }

  lemma EndedSessionDelivered(cfg: S.Config, x: S.State)
    requires IsHealthilyReachable(cfg, x) && x.join.Ended?
    ensures Ends.IsDelivered(cfg, x)
  {
    var xs :| S.IsHealthyRun(cfg, xs) && xs[|xs| - 1] == x;
    Ends.EndedInHealthIsDelivered(cfg, xs);
  }

  lemma FinishKeepsHealth(env: Env, w: World, v: World)
    requires GateInv(env, w) && HealthInv(env, w) && Finish(w) == Some(v)
    ensures HealthInv(env, v)
  {
    EndedSessionDelivered(SessionConfig(env, w.phase.entry), w.phase.session);
  }

  lemma StepKeepsHealth(env: Env, w: World, v: World)
    requires GateInv(env, w) && HealthInv(env, w) && HealthyStep(env, w, v)
    ensures HealthInv(env, v)
  {
    if HealthyGateStep(env, w, v) {
      GateStepKeepsHealth(env, w, v);
    } else if HealthyPump(env, w, v) {
      HealthilyReachableNext(SessionConfig(env, w.phase.entry), w.phase.session, v.phase.session);
    } else if n: nat :| Send(env, w, n) == Some(v) {
      SendKeepsHealth(env, w, v, n);
    } else {
      FinishKeepsHealth(env, w, v);
    }
  }

  lemma HealthyRunKeepsInv(env: Env, ws: seq<World>, i: nat)
    requires IsHealthyRun(env, ws) && i < |ws|
    ensures GateInv(env, ws[i])
  {
    HealthyRunIsRun(env, ws);
    RunKeepsInv(env, ws, i);
  }

  lemma HealthyStart(env: Env)
    ensures HealthInv(env, START)
  {
  }

  lemma {:induction false} HealthyRunKeepsHealth(env: Env, ws: seq<World>, i: nat)
    requires IsHealthyRun(env, ws) && i < |ws|
    ensures HealthInv(env, ws[i])
  {
    if i == 0 {
      HealthyStart(env);
    } else {
      HealthyRunKeepsHealth(env, ws, i - 1);
      HealthyRunKeepsInv(env, ws, i - 1);
      assert HealthyStep(env, ws[i - 1], ws[i - 1 + 1]);
      StepKeepsHealth(env, ws[i - 1], ws[i]);
    }
  }

  // ---- Progress ----------------------------------------------------------

  lemma BlockIsNotEmpty(ip: string)
    ensures Refusal(Blocked, ip) != []
  {
  }

  lemma HealthyPumpCanStep(env: Env, w: World)
    requires w.phase.Pumping? && HealthInv(env, w) && !w.phase.session.join.Ended?
    ensures exists v :: HealthyStep(env, w, v)
  {
    var e, x := w.phase.entry, w.phase.session;
    var cfg := SessionConfig(env, e);
    var xs :| S.IsHealthyRun(cfg, xs) && xs[|xs| - 1] == x;
    Ends.HealthyRunIsRun(cfg, xs);
    Runs.RunKeepsInv(cfg, xs, |xs| - 1);
    Ends.HealthyRunLosesNothing(cfg, xs, |xs| - 1);
    BlockIsNotEmpty(e.ip);
    Ends.HealthCanAlwaysGoOn(cfg, x);
    var y :| S.HealthyStep(cfg, x, y);
    Ends.HealthyStepIsStep(cfg, x, y);
    var v := w.(phase := Pumping(e, y), back := y.back);
    assert Pump(env, w, v);
    assert HealthyPump(env, w, v);
    assert HealthyStep(env, w, v);
  }

  lemma HealthyGateCanStep(env: Env, w: World)
    requires GateInv(env, w) && !w.phase.Over? && !w.phase.Pumping? && !w.phase.Sending?
    ensures exists v :: HealthyStep(env, w, v)
  {
    var p, h, n, j, c := Peer(env, w), Header(env, w), Negotiation(env, w), Judgement(env, w), Connect(w, true);
    if p.Some? {
      assert HealthyStep(env, w, p.value);
    } else if h.Some? {
      assert HealthyStep(env, w, h.value);
    } else if n.Some? {
      assert HealthyStep(env, w, n.value);
    } else if c.Some? {
      assert HealthyStep(env, w, c.value);
    } else {
      GreetingIsAdmissible(env.arrival.wire, env.arrival.tls, env.arrival.room);
      assert j.Some?;
      assert HealthyStep(env, w, j.value);
    }
  }

  /** A connection to which nothing has happened and which is not over has a next step at
      which nothing happens. */
  lemma HealthCanAlwaysGoOn(env: Env, w: World)
    requires GateInv(env, w) && HealthInv(env, w) && !w.phase.Over?
    ensures exists v :: HealthyStep(env, w, v)
  {
    if w.phase.Sending? {
      var v := Send(env, w, 1).value;
      assert HealthyStep(env, w, v);
    } else if !w.phase.Pumping? {
      HealthyGateCanStep(env, w);
    } else if w.phase.session.join.Ended? {
      assert HealthyStep(env, w, Finish(w).value);
    } else {
      HealthyPumpCanStep(env, w);
    }
  }

  lemma HealthyRunExtends(env: Env, ws: seq<World>, v: World)
    requires IsHealthyRun(env, ws) && HealthyStep(env, ws[|ws| - 1], v)
    ensures IsHealthyRun(env, ws + [v])
  {
    var vs := ws + [v];
    forall i | 0 <= i < |vs| - 1 ensures HealthyStep(env, vs[i], vs[i + 1]) {
      if i < |ws| - 1 {
        assert HealthyStep(env, ws[i], ws[i + 1]);
      }
    }
  }

  /** A run at which nothing fails, no deadline strikes and no timeout expires, and which
      cannot go on so, is over: the backend has been sent all that the gate allows, to the
      last byte, and the client every reply. */
  lemma HealthyConnectionsDeliver(env: Env, ws: seq<World>)
    requires IsHealthyRun(env, ws)
    requires forall v :: !IsHealthyRun(env, ws + [v])
    ensures var w := ws[|ws| - 1];
      w.phase.Over? && w.back == Allowed(env) && w.replies == Replies(env.policy, env.arrival)
  {
    var i := |ws| - 1;
    HealthyRunIsRun(env, ws);
    RunKeepsInv(env, ws, i);
    HealthyRunKeepsHealth(env, ws, i);
    if !ws[i].phase.Over? {
      HealthCanAlwaysGoOn(env, ws[i]);
      var v :| HealthyStep(env, ws[i], v);
      HealthyRunExtends(env, ws, v);
    }
  }
}
