/** Results over every run of every connection. */
module WorldRuns {
  import opened Bytes
  import opened Wire
  import opened Frames
  import opened Guardian
  import opened Trust
  import opened Startup
  import opened Handshake
  import opened Gate
  import opened Admission
  import opened Clients
  import opened World
  import opened WorldDelivery
  import S = Session

  /** A prefix of one cancellation, as the client sent it. */
  ghost predicate IsCancelStream(env: Env, back: seq<byte>) {
    exists payload :: IsGenuineCancel(env.arrival, payload) && back <= Framed(payload)
  }

  /** A prefix of one rewritten startup message and then the frames Guardian lets by. */
  ghost predicate IsSessionStream(env: Env, back: seq<byte>) {
    exists payload, ip, context, rest ::
      && IsGenuineStart(env.policy, env.arrival, payload, ip, context, rest)
      && back <= Framed(Injected(payload, ip)) + Forwarded(All(rest), context)
  }

  lemma BackIsAllowed(env: Env, ws: seq<World>, i: nat)
    requires IsRun(env, ws) && i < |ws|
    ensures ws[i].back <= Allowed(env)
  {
    RunKeepsInv(env, ws, i);
    var w := ws[i];
    match w.phase
    case Sending(e, todo) => assert w.back <= w.back + todo;
    case Pumping(_, _) => ReachableBack(env, w);
    case _ =>
  }

  /** The gate holds in every run. A byte reaches a backend only if the peer is trusted
      and its header was accepted; what reaches it is then a prefix of one cancellation
      the client sent, or of one rewritten startup message that Guardian let in and the
      frames behind it that Guardian did not refuse. */
  lemma GateHoldsInEveryRun(env: Env, ws: seq<World>, i: nat)
    requires IsRun(env, ws) && i < |ws| && ws[i].back != []
    ensures IsIntroduced(env.policy, env.arrival)
    ensures IsCancelStream(env, ws[i].back) || IsSessionStream(env, ws[i].back)
  {
    BackIsAllowed(env, ws, i);
    OnlyGenuineEntries(env.policy, env.arrival);
    var e, back := TheEntry(env), ws[i].back;
    if e.Relay? {
      assert Upstream(e) + [] == Upstream(e);
      assert IsGenuineCancel(env.arrival, e.payload) && back <= Framed(e.payload);
    } else if e.Start? {
      assert IsGenuineStart(env.policy, env.arrival, e.payload, e.ip, e.context, e.rest)
        && back <= Framed(Injected(e.payload, e.ip)) + Forwarded(All(e.rest), e.context);
    }
  }

  /** While bytes are pumped, the connection is in a state some run of the session
      reaches: everything proved of those runs holds of it. */
  lemma PumpingIsASession(env: Env, ws: seq<World>, i: nat)
    requires IsRun(env, ws) && i < |ws| && ws[i].phase.Pumping?
    ensures TheEntry(env).Start? && exists xs ::
      S.IsRun(SessionConfig(env, TheEntry(env)), xs) && xs[|xs| - 1] == ws[i].phase.session
  {
    RunKeepsInv(env, ws, i);
  }

  /** The client's plaintext replies are always a beginning of those the negotiation
      calls for: refusals, and an acceptance only last. An untrusted peer hears nothing. */
  lemma RepliesAreInOrder(env: Env, ws: seq<World>, i: nat)
    requires IsRun(env, ws) && i < |ws|
    ensures var replies := ws[i].replies;
      && replies <= Replies(env.policy, env.arrival)
      && IsReplySequence(replies, env.arrival.tls)
      && 8 * |replies| <= |All(env.arrival.wire)|
      && (!IsTrusted(env.policy.nets, env.arrival.peer) ==> replies == [])
  {
    RunKeepsInv(env, ws, i);
    var a, w := env.arrival, ws[i];
    if IsIntroduced(env.policy, a) {
      EveryNegotiationRepliesInOrder(Headed(a.wire), a.tls, a.room);
      BeginningIsInOrder(w.replies, Replies(env.policy, a), a.tls);
    }
  }

  lemma BeginningIsInOrder(r: seq<byte>, whole: seq<byte>, tls: Tls)
    requires r <= whole && IsReplySequence(whole, tls)
    ensures IsReplySequence(r, tls)
  {
    assert forall i :: 0 <= i < |r| ==> r[i] == whole[i];
  }

  // ---- Connections that go well ------------------------------------------

  /** A session that ran to its end without a failed write to the backend and without
      the drain deadline: the backend got all that was allowed, to the last byte. */
  lemma CompleteSessionsDeliverEverything(env: Env, ws: seq<World>, i: nat)
    requires IsRun(env, ws) && i < |ws| && ws[i].phase.Pumping?
    requires ws[i].phase.session.c.ClientDone? && !ws[i].phase.session.backDead
    ensures ws[i].back == Allowed(env)
  {
    RunKeepsInv(env, ws, i);
    ReachableBack(env, ws[i]);
  }

  /** What all runs of a connection have in common with these streams: a session whose
      client task is done without a failed write to the backend has sent `stream`; and a
      run at which nothing goes wrong, and which cannot go on so, is over with it sent. */
  ghost predicate Delivers(env: Env, ws: seq<World>, stream: seq<byte>, replies: seq<byte>) {
    && (IsRun(env, ws) ==> forall i :: 0 <= i < |ws| && IsComplete(ws[i]) ==>
          ws[i].back == stream && ws[i].replies == replies)
    && (IsHealthyRun(env, ws) && (forall v :: !IsHealthyRun(env, ws + [v])) ==>
          var w := ws[|ws| - 1]; w.phase.Over? && w.back == stream && w.replies == replies)
  }

  predicate IsComplete(w: World) {
    w.phase.Pumping? && w.phase.session.c.ClientDone? && !w.phase.session.backDead
  }

  lemma CompleteSessionsHaveReplied(env: Env, ws: seq<World>, i: nat)
    requires IsRun(env, ws) && i < |ws| && ws[i].phase.Pumping?
    ensures ws[i].replies == Replies(env.policy, env.arrival)
  {
    RunKeepsInv(env, ws, i);
  }

  lemma RunsDeliver(env: Env, ws: seq<World>)
    ensures Delivers(env, ws, Allowed(env), Replies(env.policy, env.arrival))
  {
    if IsRun(env, ws) {
      forall i | 0 <= i < |ws| && IsComplete(ws[i])
        ensures ws[i].back == Allowed(env) && ws[i].replies == Replies(env.policy, env.arrival)
      {
        CompleteSessionsDeliverEverything(env, ws, i);
        CompleteSessionsHaveReplied(env, ws, i);
      }
    }
    if IsHealthyRun(env, ws) && (forall v :: !IsHealthyRun(env, ws + [v])) {
      HealthyConnectionsDeliver(env, ws);
    }
  }

  lemma WholeFramesAllowed(e: Entry, frames: seq<Frame>)
    requires e.Start? && All(e.rest) == RawAll(frames)
    requires forall f :: f in frames ==> IsFrame(f)
    ensures Upstream(e) == Framed(Injected(e.payload, e.ip))
    ensures Forwarded(All(e.rest), e.context) == RawAll(Unrefused(frames, e.context))
  {
    WholeFramesAreFiltered(frames, e.context);
  }

  /** The backend's whole stream for an admitted client and whole frames. */
  function Served(p: Client, c: Context, frames: seq<Frame>): seq<byte> {
    Framed(Injected(p.payload, p.source)) + RawAll(Unrefused(frames, c))
  }

  lemma WellBehavedIsAllowed(env: Env, p: Client, frames: seq<Frame>)
    requires IsTrusted(env.policy.nets, env.arrival.peer) && Speaks(p, env.arrival, RawAll(frames))
    requires forall f :: f in frames ==> IsFrame(f)
    requires Screen(env.policy.rules, p.payload, p.source, env.arrival.now).Pass?
    ensures Allowed(env) == Served(p, Screen(env.policy.rules, p.payload, p.source, env.arrival.now).context, frames)
    ensures Replies(env.policy, env.arrival) == Repeat(REFUSE, |p.requests|)
  {
    ClientIsJudged(env.policy, env.arrival, p, RawAll(frames));
    WholeFramesAllowed(TheEntry(env), frames);
  }

  /** End to end, for a well-behaved plaintext client: a printed header, requests that
      are declined, a startup message Guardian lets in, whole frames, each part sent
      only when the one before has been answered. Every complete session has sent the
      backend the rewritten startup message and exactly the frames not refused, in order,
      and the client one N for each request; every run at which nothing goes wrong and
      which cannot go on so is over with that. */
  lemma WellBehavedConnection(env: Env, p: Client, frames: seq<Frame>, ws: seq<World>)
    requires IsTrusted(env.policy.nets, env.arrival.peer) && Speaks(p, env.arrival, RawAll(frames))
    requires forall f :: f in frames ==> IsFrame(f)
    requires Screen(env.policy.rules, p.payload, p.source, env.arrival.now).Pass?
    ensures var context := Screen(env.policy.rules, p.payload, p.source, env.arrival.now).context;
      Delivers(env, ws, Served(p, context, frames), Repeat(REFUSE, |p.requests|))
  {
    WellBehavedIsAllowed(env, p, frames);
    RunsDeliver(env, ws);
  }

  /** End to end for a client that asks for TLS and talks there: the same stream to the
      backend, and one S behind the Ns. */
  lemma WellBehavedTlsConnection(env: Env, p: Client, request: seq<byte>, hello: seq<byte>,
                                 frames: seq<Frame>, ws: seq<World>)
    requires IsTrusted(env.policy.nets, env.arrival.peer)
    requires SpeaksInside(p, request, hello, env.arrival, RawAll(frames))
    requires forall f :: f in frames ==> IsFrame(f)
    requires Screen(env.policy.rules, p.payload, p.source, env.arrival.now).Pass?
    ensures var context := Screen(env.policy.rules, p.payload, p.source, env.arrival.now).context;
      Delivers(env, ws, Served(p, context, frames), Repeat(REFUSE, |p.requests|) + [ACCEPT])
  {
    TlsClientIsJudged(env.policy, env.arrival, p, request, hello, RawAll(frames));
    WholeFramesAllowed(TheEntry(env), frames);
    RunsDeliver(env, ws);
  }

  /** The plaintext result without the lock-step condition, for a client whose header and packets
      arrive one to a read: frames follow in reads of any size. */
  lemma ClientsThatWaitAreServed(env: Env, p: Client, later: seq<seq<byte>>, frames: seq<Frame>, ws: seq<World>)
    requires IsTrusted(env.policy.nets, env.arrival.peer) && SpeaksInReads(p, env.arrival, later)
    requires Concat(later) == RawAll(frames) && forall f :: f in frames ==> IsFrame(f)
    requires Screen(env.policy.rules, p.payload, p.source, env.arrival.now).Pass?
    ensures var context := Screen(env.policy.rules, p.payload, p.source, env.arrival.now).context;
      Delivers(env, ws, Served(p, context, frames), Repeat(REFUSE, |p.requests|))
  {
    ReadsAreLockStep(p, env.arrival, later);
    WellBehavedConnection(env, p, frames, ws);
  }
}
