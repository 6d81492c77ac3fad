/** Whole connections as a state machine: the gate of `handle_client`, step by step,
    then the session. Timeouts and failures may strike at any step. */
module World {
  import opened Bytes
  import opened Streams
  import opened Wire
  import opened Frames
  import opened Trust
  import opened ProxyHeader
  import opened Handshake
  import opened Gate
  import opened Admission
  import S = Session
  import Runs = SessionRuns
  import Ends = SessionEnds

  /** The policy, the connection, and all the backend will ever send. */
  datatype Env = Env(policy: Policy, arrival: Arrival, backendBytes: seq<byte>)

  datatype Phase =
    | Accepted
    | ReadingHeader
    | Negotiating(at: Src, room: Option<nat>, ip: string)
    | Settled(hello: Hello, ip: string)
    | Connecting(entry: Entry)
    | Sending(entry: Entry, todo: seq<byte>)
    | Pumping(entry: Entry, session: S.State)
    | Over

  /** `back` is all that was ever written to a backend socket. */
  datatype World = World(phase: Phase, replies: seq<byte>, back: seq<byte>)

  const START := World(Accepted, [], [])

  function SessionConfig(env: Env, e: Entry): S.Config
    requires e.Start?
  {
    S.Config(All(e.rest), env.backendBytes, e.context, Upstream(e), Refusal(Blocked, e.ip))
  }

  // ---- Steps -------------------------------------------------------------

  function Peer(env: Env, w: World): Option<World> {
    if !w.phase.Accepted? then None
    else Some(w.(phase := if IsTrusted(env.policy.nets, env.arrival.peer) then ReadingHeader else Over))
  }

  function Header(env: Env, w: World): Option<World> {
    if !w.phase.ReadingHeader? then None
    else
      match HeaderOf(All(env.arrival.wire))
      case Address(ip) => Some(w.(phase := Negotiating(Headed(env.arrival.wire), env.arrival.room, ip)))
      case _ => Some(w.(phase := Over))
  }

  /** One turn of the negotiation loop. */
  function Negotiation(env: Env, w: World): Option<World> {
    match w.phase
    case Negotiating(at, room, ip) =>
      var (result, reply) := TurnResult(at, env.arrival.tls, room);
      NegotiateTurn(at, env.arrival.tls, room, w.replies);
      var next := match result
                  case Some(hello) => Settled(hello, ip)
                  case None => Negotiating(AfterFirst(at), Less(room, 1), ip);
      Some(w.(phase := next, replies := w.replies + reply))
    case _ => None
  }

  function HandshakeTimeout(w: World): Option<World> {
    if w.phase.ReadingHeader? || w.phase.Negotiating? then Some(w.(phase := Over)) else None
  }

  /** Version check and Guardian. */
  function Judgement(env: Env, w: World): Option<World> {
    match w.phase
    case Settled(hello, ip) =>
      if !IsAdmissible(hello) then None
      else
        var e := Admit(env.policy.rules, hello, ip, env.arrival.now);
        Some(w.(phase := if e.Relay? || e.Start? then Connecting(e) else Over))
    case _ => None
  }

  function Connect(w: World, up: bool): Option<World> {
    match w.phase
    case Connecting(e) => Some(w.(phase := if up then Sending(e, Upstream(e)) else Over))
    case _ => None
  }

  /** `n` more bytes of the cancellation or the startup message; after the last byte of
      a startup message, the session. */
  function Send(env: Env, w: World, n: nat): Option<World> {
    match w.phase
    case Sending(e, todo) =>
      if !(0 < n <= |todo|) then None
      else
        var next := if n < |todo| then Sending(e, todo[n..])
                    else if e.Start? then Pumping(e, S.Initial(SessionConfig(env, e)))
                    else Over;
        Some(w.(phase := next, back := w.back + todo[..n]))
    case _ => None
  }

  function SendFailure(w: World): Option<World> {
    if w.phase.Sending? then Some(w.(phase := Over)) else None
  }

  ghost predicate Pump(env: Env, w: World, v: World) {
    && w.phase.Pumping? && w.phase.entry.Start? && v.phase.Pumping?
    && S.Next(SessionConfig(env, w.phase.entry), w.phase.session, v.phase.session)
    && v == w.(phase := Pumping(w.phase.entry, v.phase.session), back := v.phase.session.back)
  }

  function Finish(w: World): Option<World> {
    if w.phase.Pumping? && w.phase.session.join.Ended? then Some(w.(phase := Over)) else None
  }

  ghost predicate GateStep(env: Env, w: World, v: World) {
    || Peer(env, w) == Some(v) || Header(env, w) == Some(v) || Negotiation(env, w) == Some(v)
    || HandshakeTimeout(w) == Some(v) || Judgement(env, w) == Some(v)
    || Connect(w, true) == Some(v) || Connect(w, false) == Some(v)
  }

  ghost predicate Next(env: Env, w: World, v: World) {
    || GateStep(env, w, v) || SendFailure(w) == Some(v) || (exists n: nat :: Send(env, w, n) == Some(v))
    || Pump(env, w, v) || Finish(w) == Some(v)
  }

  ghost predicate IsRun(env: Env, ws: seq<World>) {
    && ws != [] && ws[0] == START
    && forall i :: 0 <= i < |ws| - 1 ==> Next(env, ws[i], ws[i + 1])
  }

  // ---- The invariant -----------------------------------------------------

  function TheEntry(env: Env): Entry {
    EntryOf(env.policy, env.arrival)
  }

  /** The most a backend can ever be sent. */
  function Allowed(env: Env): seq<byte> {
    var e := TheEntry(env);
    Upstream(e) + if e.Start? then Forwarded(All(e.rest), e.context) else []
  }

  ghost predicate IsReachable(cfg: S.Config, x: S.State) {
    exists xs :: S.IsRun(cfg, xs) && xs[|xs| - 1] == x
  }

  ghost predicate GateInv(env: Env, w: World) {
    var a := env.arrival;
    match w.phase
    case Accepted => w.back == [] && w.replies == []
    case ReadingHeader => w.back == [] && w.replies == [] && IsTrusted(env.policy.nets, a.peer)
    case Negotiating(at, room, ip) =>
      && w.back == [] && IsIntroduced(env.policy, a) && HeaderOf(All(a.wire)) == HeaderResult.Address(ip)
      && Greet(a.wire, a.tls, a.room).hello == Negotiate(at, a.tls, room).0
      && Greet(a.wire, a.tls, a.room).replies == w.replies + Negotiate(at, a.tls, room).1
    case Settled(hello, ip) =>
      w.back == [] && IsIntroduced(env.policy, a) && Greet(a.wire, a.tls, a.room) == Greeting(hello, ip, w.replies)
    case Connecting(e) =>
      w.back == [] && e == TheEntry(env) && (e.Relay? || e.Start?) && w.replies == Replies(env.policy, a)
    case Sending(e, todo) =>
      e == TheEntry(env) && (e.Relay? || e.Start?) && w.back + todo == Upstream(e) && w.replies == Replies(env.policy, a)
    case Pumping(e, x) =>
      && e == TheEntry(env) && e.Start? && w.replies == Replies(env.policy, a)
      && w.back == x.back && IsReachable(SessionConfig(env, e), x)
    case Over => w.back <= Allowed(env) && w.replies <= Replies(env.policy, a)
  }

  lemma NegotiationKeepsInv(env: Env, w: World, v: World)
    requires GateInv(env, w) && Negotiation(env, w) == Some(v)
    ensures GateInv(env, v)
  {
    var (at, room) := (w.phase.at, w.phase.room);
    NegotiateTurn(at, env.arrival.tls, room, w.replies);
  }

  lemma GateStepKeepsInv(env: Env, w: World, v: World)
    requires GateInv(env, w) && GateStep(env, w, v)
    ensures GateInv(env, v)
  {
    if Negotiation(env, w) == Some(v) {
      NegotiationKeepsInv(env, w, v);
    }
  }

  lemma ReachableStart(cfg: S.Config)
    ensures IsReachable(cfg, S.Initial(cfg))
  {
    var xs := [S.Initial(cfg)];
    assert S.IsRun(cfg, xs) && xs[|xs| - 1] == S.Initial(cfg);
  }

  lemma ReachableNext(cfg: S.Config, x: S.State, y: S.State)
    requires IsReachable(cfg, x) && S.Next(cfg, x, y)
    ensures IsReachable(cfg, y)
  {
    var xs :| S.IsRun(cfg, xs) && xs[|xs| - 1] == x;
    Ends.RunExtends(cfg, xs, y);
    assert (xs + [y])[|xs + [y]| - 1] == y;
  }

  lemma Moved(back: seq<byte>, todo: seq<byte>, n: nat)
    requires n <= |todo|
    ensures back + todo == back + todo[..n] + todo[n..]
    ensures n == |todo| ==> back + todo[..n] == back + todo
  {
  }

  lemma SendKeepsInv(env: Env, w: World, v: World, n: nat)
    requires GateInv(env, w) && Send(env, w, n) == Some(v)
    ensures GateInv(env, v)
  {
    var (e, todo) := (w.phase.entry, w.phase.todo);
    Moved(w.back, todo, n);
    if n == |todo| && e.Start? {
      ReachableStart(SessionConfig(env, e));
    }
  }

  lemma FinishKeepsInv(env: Env, w: World, v: World)
    requires GateInv(env, w) && Finish(w) == Some(v)
    ensures GateInv(env, v)
  {
    ReachableBack(env, w);
  }

  lemma ReachableWithin(cfg: S.Config, x: S.State)
    requires IsReachable(cfg, x)
    ensures x.back <= cfg.startup + Forwarded(cfg.clientBytes, cfg.context)
    ensures !x.backDead && x.c.ClientDone? ==> x.back == cfg.startup + Forwarded(cfg.clientBytes, cfg.context)
  {
    var xs :| S.IsRun(cfg, xs) && xs[|xs| - 1] == x;
    Runs.BackendGetsThePrefix(cfg, xs, |xs| - 1);
  }

  /** Any state of the pump keeps within what is allowed, and one that is done without
      a failed write to the backend has reached it. */
  lemma ReachableBack(env: Env, w: World)
    requires GateInv(env, w) && w.phase.Pumping?
    ensures w.back <= Allowed(env)
    ensures !w.phase.session.backDead && w.phase.session.c.ClientDone? ==> w.back == Allowed(env)
  {
    ReachableWithin(SessionConfig(env, w.phase.entry), w.phase.session);
  }

  lemma StepKeepsInv(env: Env, w: World, v: World)
    requires GateInv(env, w) && Next(env, w, v)
    ensures GateInv(env, v)
  {
    if GateStep(env, w, v) {
      GateStepKeepsInv(env, w, v);
    } else if Pump(env, w, v) {
      ReachableNext(SessionConfig(env, w.phase.entry), w.phase.session, v.phase.session);
    } else if Finish(w) == Some(v) {
      FinishKeepsInv(env, w, v);
    } else if n: nat :| Send(env, w, n) == Some(v) {
      SendKeepsInv(env, w, v, n);
    } else {
      assert SendFailure(w) == Some(v);
    }
  }

  lemma {:induction false} RunKeepsInv(env: Env, ws: seq<World>, i: nat)
    requires IsRun(env, ws) && i < |ws|
    ensures GateInv(env, ws[i])
  {
    if i > 0 {
      RunKeepsInv(env, ws, i - 1);
      assert Next(env, ws[i - 1], ws[i - 1 + 1]);
      StepKeepsInv(env, ws[i - 1], ws[i]);
    }
  }
}
