/** What may reach the backend. Models `handle_client` of proxy.rs up to the split of
    the client stream: allowlist, PROXY header, negotiation, version check, Guardian,
    and the first bytes sent upstream. */
module Gate {
  import opened Bytes
  import opened Utf8
  import opened Streams
  import opened Wire
  import opened Address
  import opened ClockWindow
  import opened Guardian
  import opened Trust
  import opened ProxyHeader
  import opened Startup
  import opened Messages
  import opened Handshake

  // ---- What the proxy tells a client it refuses --------------------------

  datatype Reason = Unsupported | Denied | Unreachable | Blocked

  function ReasonText(why: Reason, ip: string): string {
    match why
    case Unsupported => "PG-Prism supports PostgreSQL protocol 3 only"
    case Denied => DENIAL + ip
    case Unreachable => UNREACHABLE
    case Blocked => "Query blocked by PG-Prism Guardian"
  }

  function ReasonCode(why: Reason): string {
    match why
    case Unsupported => "08P01"
    case Denied => "28000"
    case Unreachable => "08006"
    case Blocked => "42501"
  }

  function Refusal(why: Reason, ip: string): seq<byte> {
    ErrorResponse(ReasonText(why, ip), ReasonCode(why))
  }

  const UNREACHABLE := "PG-Prism could not reach " + "the PostgreSQL backend"
  const DENIAL := "Connection denied by " + "PG-Prism Guardian for IP: "

  lemma DenialHasNoControl(c: char)
    requires c < ' '
    ensures c !in DENIAL
  {
    assert c !in "Connection denied by ";
    assert c !in "PG-Prism Guardian for IP: ";
  }

  /** A denial repeats the address from the header, whatever it is: the notice reads
      back as its SQLSTATE and text if and only if that address has no NUL. */
  lemma DenialIsReadableIffNulFree(ip: string)
    ensures ReadFields(Refusal(Denied, ip)[5..]) == Some(ErrorFields(Encode("28000"), Encode(ReasonText(Denied, ip))))
       <==> NUL as char !in ip
  {
    ErrorResponseIsReadable(ReasonText(Denied, ip), ReasonCode(Denied));
    DenialHasNoControl(NUL as char);
  }

  lemma UnsupportedHasNoControl(c: char)
    requires c < ' '
    ensures c !in ReasonText(Unsupported, "")
  {
    assert c !in "PG-Prism supports PostgreSQL protocol 3 only";
  }

  lemma UnreachableHasNoControl(c: char)
    requires c < ' '
    ensures c !in UNREACHABLE
  {
    assert c !in "PG-Prism could not reach ";
    assert c !in "the PostgreSQL backend";
  }

  lemma BlockedHasNoControl(c: char)
    requires c < ' '
    ensures c !in ReasonText(Blocked, "")
  {
    assert c !in "Query blocked by PG-Prism Guardian";
  }

  /** The texts, as the code has them. */
  lemma TextsOfRefusals(ip: string)
    ensures ReasonText(Unsupported, ip) == "PG-Prism supports PostgreSQL protocol 3 only"
    ensures ReasonText(Denied, ip) == "Connection denied by " + "PG-Prism Guardian for IP: " + ip
    ensures ReasonText(Unreachable, ip) == "PG-Prism could not reach " + "the PostgreSQL backend"
    ensures ReasonText(Blocked, ip) == "Query blocked by PG-Prism Guardian"
  {
  }

  lemma TextIsNulFreeIff(why: Reason, ip: string)
    ensures NUL as char !in ReasonText(why, ip) <==> !why.Denied? || NUL as char !in ip
  {
    match why
    case Unsupported => UnsupportedHasNoControl(NUL as char);
    case Denied => DenialHasNoControl(NUL as char);
    case Unreachable => UnreachableHasNoControl(NUL as char);
    case Blocked => BlockedHasNoControl(NUL as char);
  }

  /** The SQLSTATE of each refusal, in bytes: 08P01, 28000, 08006 and 42501. */
  function StateBytes(why: Reason): seq<byte> {
    match why
    case Unsupported => [0x30, 0x38, 0x50, 0x30, 0x31]
    case Denied => [0x32, 0x38, 0x30, 0x30, 0x30]
    case Unreachable => [0x30, 0x38, 0x30, 0x30, 0x36]
    case Blocked => [0x34, 0x32, 0x35, 0x30, 0x31]
  }

  lemma CodeIsState(why: Reason)
    ensures Encode(ReasonCode(why)) == StateBytes(why)
    ensures NUL as char !in ReasonCode(why)
  {
    EncodeAscii(ReasonCode(why));
  }

  /** What a client reads of each refusal: severity ERROR twice, the SQLSTATE, the text. A
      denial is read so if and only if the address it repeats has no NUL; the others are
      whatever the address. */
  lemma RefusalIsRead(why: Reason, ip: string)
    ensures var error: seq<byte> := [0x45, 0x52, 0x52, 0x4F, 0x52];
      ReadFields(Refusal(why, ip)[5..])
        == Some([Field(0x53, error), Field(0x56, error), Field(0x43, StateBytes(why)),
                 Field(0x4D, Encode(ReasonText(why, ip)))])
      <==> !why.Denied? || NUL as char !in ip
    ensures Refusal(why, ip)[0] == 0x45
  {
    ErrorResponseIsReadable(ReasonText(why, ip), ReasonCode(why));
    CodeIsState(why);
    TextIsNulFreeIff(why, ip);
  }

  // ---- The gate as a function --------------------------------------------

  datatype Policy = Policy(nets: seq<Cidr>, rules: seq<Rule>)

  /** A connection: who connects, what they send, whether TLS is on offer, how many
      plaintext bytes they will take, and the minute of the day. */
  datatype Arrival = Arrival(peer: IpAddr, wire: Src, tls: Tls, room: Option<nat>, now: Minute)

  datatype Greeting = Greeting(hello: Hello, ip: string, replies: seq<byte>)

  /** The stream behind the PROXY header. */
  function Headed(s: Src): Src {
    Drop(s, HeaderExtent(All(s)))
  }

  /** Header first, then the negotiation. */
  function Greet(s: Src, tls: Tls, room: Option<nat>): Greeting {
    match HeaderOf(All(s))
    case Lost => Greeting(IoError, "", [])
    case Malformed => Greeting(ProtocolError, "", [])
    case Address(ip) => var n := Negotiate(Headed(s), tls, room); Greeting(n.0, ip, n.1)
  }

  datatype Screening = Pass(context: Context) | Fail(why: Reason)

  /** The version first, Guardian second. */
  function Screen(rules: seq<Rule>, payload: seq<byte>, ip: string, now: Minute): Screening
    requires |payload| >= 4
  {
    if !IsSupportedStartup(Version(payload)) then Fail(Unsupported)
    else
      var (user, database) := UserDb(payload);
      var context := Decide(rules, ip, user, database, now);
      if context.action.Deny? then Fail(Denied) else Pass(context)
  }

  /** What the gate lets through. */
  datatype Entry =
    | Nothing
    | Turned(why: Reason, ip: string, secure: bool)
    | Relay(payload: seq<byte>)
    | Start(payload: seq<byte>, ip: string, context: Context, rest: Src, secure: bool)

  function Admit(rules: seq<Rule>, hello: Hello, ip: string, now: Minute): Entry
    requires IsAdmissible(hello)
  {
    match hello
    case Cancel(payload) => Relay(payload)
    case Session(payload, rest, secure) =>
      (match Screen(rules, payload, ip, now)
       case Fail(why) => Turned(why, ip, secure)
       case Pass(context) => Start(payload, ip, context, rest, secure))
    case _ => Nothing
  }

  lemma GreetingIsAdmissible(s: Src, tls: Tls, room: Option<nat>)
    ensures IsAdmissible(Greet(s, tls, room).hello)
  {
    if HeaderOf(All(s)).Address? {
      OutcomesAreAdmissible(Headed(s), tls, room);
    }
  }

  function EntryOf(policy: Policy, a: Arrival): Entry {
    if !IsTrusted(policy.nets, a.peer) then Nothing
    else
      var g := Greet(a.wire, a.tls, a.room);
      GreetingIsAdmissible(a.wire, a.tls, a.room);
      Admit(policy.rules, g.hello, g.ip, a.now)
  }

  /** What goes upstream before any frame. */
  function Upstream(e: Entry): seq<byte> {
    match e
    case Relay(payload) => Framed(payload)
    case Start(payload, ip, _, _, _) => Framed(Injected(payload, ip))
    case _ => []
  }

  /** What the client is told before the connection is closed. */
  function Told(e: Entry, connected: bool): seq<byte> {
    match e
    case Turned(why, ip, _) => Refusal(why, ip)
    case Start(_, ip, _, _, _) => if connected then [] else Refusal(Unreachable, ip)
    case _ => []
  }

  predicate TalksInside(e: Entry) {
    (e.Turned? || e.Start?) && e.secure
  }

  // ---- The gate as the code runs it --------------------------------------

  method ReadGreeting(reader: BufReader, client: Sink, tls: Tls) returns (hello: Hello, ip: string)
    requires client.Valid()
    modifies reader, client
    ensures client.Valid() && client.shut == old(client.shut)
    ensures var g := old(Greet(reader.State(), tls, client.Room()));
      hello == g.hello && ip == g.ip && client.written == old(client.written) + g.replies
  {
    var header := ReadProxyHeader(reader);
    match header
    case Lost => return IoError, "";
    case Malformed => return ProtocolError, "";
    case Address(source) =>
      hello := PerformHandshake(reader, client, tls);
      return hello, source;
  }

  /** A startup-phase message, two writes: the length, then the payload. */
  method SendFramed(backend: Sink, payload: seq<byte>) returns (ok: bool)
    requires backend.Valid()
    modifies backend
    ensures backend.Valid() && backend.shut == old(backend.shut)
    ensures ok <==> Fits(|Framed(payload)|, old(backend.Room()))
    ensures backend.written == old(backend.written) + Cut(Framed(payload), old(backend.Room()))
  {
    var length := ToBe32((|payload| + 4) % WORD);
    CutAppend(length, payload, backend.Room());
    ok := backend.WriteAll(length);
    if ok {
      Assoc(old(backend.written), length, Cut(payload, backend.Room()));
      ok := backend.WriteAll(payload);
    }
  }

  method Tell(client: Sink, why: Reason, ip: string)
    requires client.Valid()
    modifies client
    ensures client.Valid() && client.shut == old(client.shut)
    ensures client.written == old(client.written) + Cut(Refusal(why, ip), old(client.Room()))
  {
    var error := MakeErrorResponse(ReasonText(why, ip), ReasonCode(why));
    var _ := client.WriteAll(error);
  }

  method RelayCancel(backend: Sink?, payload: seq<byte>)
    requires backend != null ==> backend.Valid()
    modifies backend
    ensures backend != null ==>
      && backend.Valid()
      && backend.written == old(backend.written) + old(Cut(Framed(payload), backend.Room()))
      && (old(Fits(|Framed(payload)|, backend.Room())) ==> backend.shut)
  {
    if backend == null {
      return;
    }
    var ok := SendFramed(backend, payload);
    if ok {
      backend.Shutdown();
    }
  }

  method ScreenStartup(rules: seq<Rule>, payload: seq<byte>, ip: string, now: Minute) returns (s: Screening)
    requires |payload| >= 4
    ensures s == Screen(rules, payload, ip, now)
  {
    if !IsSupportedStartup(Version(payload)) {
      return Fail(Unsupported);
    }
    var user, database := ExtractUserDb(payload);
    var context := CheckConnection(rules, ip, user, database, now);
    if context.action.Deny? {
      return Fail(Denied);
    }
    return Pass(context);
  }

  method Judge(rules: seq<Rule>, hello: Hello, ip: string, now: Minute) returns (e: Entry)
    requires IsAdmissible(hello)
    ensures e == Admit(rules, hello, ip, now)
  {
    match hello
    case Cancel(payload) => return Relay(payload);
    case Session(payload, rest, secure) =>
      var s := ScreenStartup(rules, payload, ip, now);
      match s {
        case Fail(why) => return Turned(why, ip, secure);
        case Pass(context) => return Start(payload, ip, context, rest, secure);
      }
    case _ => return Nothing;
  }

  /** What the forwarding tasks start from. */
  datatype Ready = Ready(context: Context, rest: Src, secure: bool)

  /** Acts on the judgement. `client` is the stream the session talks on, inside TLS
      if the handshake went there; `backend` is null when connecting fails. */
  method Act(e: Entry, client: Sink, backend: Sink?) returns (ready: Option<Ready>)
    requires client.Valid() && client != backend && (backend != null ==> backend.Valid())
    modifies client, backend
    ensures client.Valid() && client.shut == old(client.shut) && (backend != null ==> backend.Valid())
    ensures client.written == old(client.written) + old(Cut(Told(e, backend != null), client.Room()))
    ensures backend != null ==>
      && backend.written == old(backend.written) + old(Cut(Upstream(e), backend.Room()))
      && (e.Relay? && old(Fits(|Upstream(e)|, backend.Room())) ==> backend.shut)
    ensures ready == if e.Start? && backend != null && old(Fits(|Upstream(e)|, backend.Room()))
                     then Some(Ready(e.context, e.rest, e.secure)) else None
  {
    ready := None;
    match e
    case Nothing =>
    case Turned(why, ip, _) =>
      Tell(client, why, ip);
    case Relay(payload) =>
      RelayCancel(backend, payload);
    case Start(payload, ip, context, rest, secure) =>
      if backend == null {
        Tell(client, Unreachable, ip);
        return;
      }
      var newPayload := InjectIpStartup(payload, ip);
      var ok := SendFramed(backend, newPayload);
      if ok {
        ready := Some(Ready(context, rest, secure));
      }
  }

  /** The same, on the stream the session uses. */
  method ActOnSession(e: Entry, client: Sink, inner: Sink, backend: Sink?, ghost replies: seq<byte>)
    returns (ready: Option<Ready>)
    requires IsToldWhere(e, replies)
    requires client.Valid() && inner.Valid() && (backend != null ==> backend.Valid())
    requires client != inner && client != backend && inner != backend
    modifies client, inner, backend
    ensures var told := Told(e, backend != null);
      if Switched(replies) then
        && client.written == old(client.written)
        && inner.written == old(inner.written) + old(Cut(told, inner.Room()))
      else
        && client.written == old(client.written) + old(Cut(told, client.Room()))
        && inner.written == old(inner.written)
    ensures backend != null ==>
      && backend.written == old(backend.written) + old(Cut(Upstream(e), backend.Room()))
      && (e.Relay? && old(Fits(|Upstream(e)|, backend.Room())) ==> backend.shut)
    ensures ready == if e.Start? && backend != null && old(Fits(|Upstream(e)|, backend.Room()))
                     then Some(Ready(e.context, e.rest, e.secure)) else None
  {
    ready := Act(e, if TalksInside(e) then inner else client, backend);
  }

  /** The plaintext replies of the negotiation. An untrusted peer hears nothing. */
  function Replies(policy: Policy, a: Arrival): seq<byte> {
    if !IsTrusted(policy.nets, a.peer) then [] else Greet(a.wire, a.tls, a.room).replies
  }

  /** Whoever is told anything, or goes on to a session, is inside TLS if S was the last reply. */
  predicate IsToldWhere(e: Entry, replies: seq<byte>) {
    e.Turned? || e.Start? ==> (TalksInside(e) <==> Switched(replies))
  }

  lemma InsideIffAccepted(policy: Policy, a: Arrival)
    ensures IsToldWhere(EntryOf(policy, a), Replies(policy, a))
  {
    if IsTrusted(policy.nets, a.peer) && HeaderOf(All(a.wire)).Address? {
      EveryNegotiationRepliesInOrder(Headed(a.wire), a.tls, a.room);
    }
  }

  /** Allowlist, header, negotiation, judgement: nothing is sent upstream yet. */
  method Welcome(policy: Policy, a: Arrival, reader: BufReader, client: Sink) returns (e: Entry)
    requires reader.State() == a.wire && client.Valid() && client.Room() == a.room
    modifies reader, client
    ensures client.Valid() && client.shut == old(client.shut)
    ensures e == EntryOf(policy, a) && client.written == old(client.written) + Replies(policy, a)
  {
    var trusted := CheckTrusted(policy.nets, a.peer);
    if !trusted {
      return Nothing;
    }
    GreetingIsAdmissible(a.wire, a.tls, a.room);
    var hello, ip := ReadGreeting(reader, client, a.tls);
    e := Judge(policy.rules, hello, ip, a.now);
  }

  /** One connection, up to the split. `inner` is the client's side of TLS. The backend
      gets the bytes the gate admits, cut at its failure point, and no others; the
      client gets the replies, and the notice inside TLS if the last of them was S, right
      behind them otherwise. */
  method HandleClient(policy: Policy, a: Arrival, reader: BufReader, client: Sink, inner: Sink, backend: Sink?)
    returns (ready: Option<Ready>)
    requires reader.State() == a.wire
    requires client.Valid() && client.Room() == a.room && inner.Valid() && (backend != null ==> backend.Valid())
    requires client != inner && client != backend && inner != backend
    modifies reader, client, inner, backend
    ensures var e, replies := EntryOf(policy, a), Replies(policy, a);
      var told := Told(e, backend != null);
      if replies != [] && replies[|replies| - 1] == 0x53 then
        && client.written == old(client.written) + replies
        && inner.written == old(inner.written) + Cut(told, old(inner.Room()))
      else
        && client.written == old(client.written) + replies + Cut(told, Left(a.room, |replies|))
        && inner.written == old(inner.written)
    ensures backend != null ==> var e := EntryOf(policy, a);
      && backend.written == old(backend.written) + Cut(Upstream(e), old(backend.Room()))
      && (e.Relay? && Fits(|Upstream(e)|, old(backend.Room())) ==> backend.shut)
    ensures var e := EntryOf(policy, a);
      ready == if e.Start? && backend != null && Fits(|Upstream(e)|, old(backend.Room()))
               then Some(Ready(e.context, e.rest, e.secure)) else None
    ensures var replies := Replies(policy, a);
      ready.Some? ==> (ready.value.secure <==> replies != [] && replies[|replies| - 1] == 0x53)
  {
    InsideIffAccepted(policy, a);
    var e := Welcome(policy, a, reader, client);
    assert client.Room() == Left(a.room, |Replies(policy, a)|);
    ready := ActOnSession(e, client, inner, backend, Replies(policy, a));
  }
}
