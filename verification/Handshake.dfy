/** Startup negotiation. Models `perform_handshake` and `checked_startup_len` of proxy.rs. */
module Handshake {
  import opened Bytes
  import opened Startup
  import opened Streams
  import opened Wire

  const MIN_STARTUP_PACKET_LENGTH := 8
  const MAX_STARTUP_PACKET_LENGTH := 10000
  const REFUSE: byte := 0x4E   // N
  const ACCEPT: byte := 0x53   // S

  /** TLS is off; or switching to it fails; or it yields a fresh stream. */
  datatype Tls = Disabled | Failing | Accepting(inner: Src)

  /** What the client turned out to want. `rest` is what a new reader over the
      session's stream will see. */
  datatype Hello =
    | Session(payload: seq<byte>, rest: Src, secure: bool)
    | Cancel(payload: seq<byte>)
    | ProtocolError
    | IoError

  function CheckedStartupLen(n: nat): (payload: Option<nat>)
    ensures payload.Some? <==> 8 <= n <= 10000
    ensures payload.Some? ==> payload.value + 4 == n
  {
    if n < MIN_STARTUP_PACKET_LENGTH then None
    else if n > MAX_STARTUP_PACKET_LENGTH then None
    else Some(n - 4)
  }

  /** The first length-prefixed packet of a stream. */
  datatype Packet = Packet(payload: seq<byte>) | BadLength | Short

  function FirstPacket(s: seq<byte>): (p: Packet)
    ensures p.Packet? ==>
      && 4 <= |p.payload| <= MAX_STARTUP_PACKET_LENGTH - 4 && |p.payload| + 4 <= |s|
      && s[..|p.payload| + 4] == ToBe32(|p.payload| + 4) + p.payload
  {
    if |s| < 4 then Short
    else
      var n := Be32(s[..4]);
      if CheckedStartupLen(n).None? then BadLength
      else if |s| < n then Short
      else
        Be32Injective(s[..4], ToBe32(n));
        Packet(s[4..n])
  }

  lemma FramedIsFirst(payload: seq<byte>, more: seq<byte>)
    requires MIN_STARTUP_PACKET_LENGTH <= |payload| + 4 <= MAX_STARTUP_PACKET_LENGTH
    ensures FirstPacket(Framed(payload) + more) == Packet(payload)
    ensures |Framed(payload)| == |payload| + 4 && (Framed(payload) + more)[|payload| + 4..] == more
  {
    var a := Framed(payload) + more;
    assert a[..4] == ToBe32((|payload| + 4) % WORD);
    assert a[4..|payload| + 4] == payload;
  }

  /** Two reads: the length, then the payload. */
  method ReadPacket(reader: BufReader) returns (p: Packet)
    modifies reader
    ensures var s := old(reader.State());
      && p == FirstPacket(All(s))
      && (p.Packet? ==> reader.State() == Drop(s, |p.payload| + 4))
  {
    ghost var s := reader.State();
    var length := reader.ReadExact(4);
    if length.None? {
      return Short;
    }
    var n := CheckedStartupLen(Be32(length.value));
    if n.None? {
      return BadLength;
    }
    var payload := reader.ReadExact(n.value);
    if payload.None? {
      return Short;
    }
    DropTwice(s, 4, n.value);
    assert All(s)[4..][..n.value] == All(s)[4..n.value + 4];
    return Packet(payload.value);
  }

  // ---- The loop ----------------------------------------------------------

  /** What one turn of the loop decides. */
  datatype Move = Settle(hello: Hello) | Switch | Decline | Bad(error: Hello)

  /** The verdict on the next packet. */
  function NextMove(s: Src, tls: Tls): (m: Move)
    ensures m.Switch? ==> !tls.Disabled?
    ensures m.Decline? ==> FirstPacket(All(s)).Packet?
  {
    match FirstPacket(All(s))
    case Short => Bad(IoError)
    case BadLength => Bad(ProtocolError)
    case Packet(payload) =>
      if Version(payload) == CANCEL_REQUEST then Settle(Cancel(payload))
      else if Version(payload) == SSL_REQUEST then if tls.Disabled? then Decline else Switch
      else if Version(payload) == GSSENC_REQUEST then Decline
      else Settle(Session(payload, AfterFirst(s), false))
  }

  /** The socket behind the first packet. A reader is attached to it anew, so whatever
      was read ahead is gone. */
  function AfterFirst(s: Src): (t: Src)
    requires FirstPacket(All(s)).Packet?
    ensures |All(t)| < |All(s)|
  {
    Reattached(Drop(s, |FirstPacket(All(s)).payload| + 4))
  }

  /** Outcome and reply bytes, for a client socket that accepts `room` more bytes. */
  function Negotiate(s: Src, tls: Tls, room: Option<nat>): (Hello, seq<byte>)
    decreases |All(s)|
  {
    match NextMove(s, tls)
    case Settle(hello) => (hello, [])
    case Bad(error) => (error, [])
    case Switch => if Fits(1, room) then (Secured(tls), [ACCEPT]) else (IoError, [])
    case Decline =>
      if !Fits(1, room) then (IoError, [])
      else
        var (hello, replies) := Negotiate(AfterFirst(s), tls, Less(room, 1));
        (hello, [REFUSE] + replies)
  }

  /** Inside TLS one packet is read and taken as the startup message, whatever it says. */
  function Secured(tls: Tls): Hello
    requires !tls.Disabled?
  {
    match tls
    case Failing => IoError
    case Accepting(inner) =>
      match FirstPacket(All(inner))
      case Short => IoError
      case BadLength => ProtocolError
      case Packet(payload) => Session(payload, Reattached(Drop(inner, |payload| + 4)), true)
  }

  method Secure(tls: Tls) returns (hello: Hello)
    requires !tls.Disabled?
    ensures hello == Secured(tls)
  {
    if tls.Failing? {
      return IoError;
    }
    var reader := new BufReader(tls.inner.arrivals);
    reader.ahead := tls.inner.ahead;
    var p := ReadPacket(reader);
    match p
    case Short => return IoError;
    case BadLength => return ProtocolError;
    case Packet(payload) =>
      reader.Reattach();
      return Session(payload, reader.State(), true);
  }

  method Reply(client: Sink, answer: byte) returns (ok: bool)
    requires client.Valid()
    modifies client
    ensures client.Valid() && client.shut == old(client.shut)
    ensures ok <==> Fits(1, old(client.Room()))
    ensures client.written == old(client.written) + if ok then [answer] else []
    ensures ok ==> client.Room() == Less(old(client.Room()), 1)
  {
    ok := client.WriteAll([answer]);
  }

  /** What one turn replies and decides; `None` sends the loop round again. */
  function TurnResult(s: Src, tls: Tls, room: Option<nat>): (Option<Hello>, seq<byte>) {
    match NextMove(s, tls)
    case Settle(h) => (Some(h), [])
    case Bad(h) => (Some(h), [])
    case Switch => if Fits(1, room) then (Some(Secured(tls)), [ACCEPT]) else (Some(IoError), [])
    case Decline => if Fits(1, room) then (None, [REFUSE]) else (Some(IoError), [])
  }

  /** What a packet with this payload calls for, `after` being the socket behind it. */
  function Answer(payload: seq<byte>, after: Src, tls: Tls, room: Option<nat>): (Option<Hello>, seq<byte>)
    requires |payload| >= 4
  {
    if Version(payload) == CANCEL_REQUEST then (Some(Cancel(payload)), [])
    else if Version(payload) == SSL_REQUEST && !tls.Disabled? then
      if Fits(1, room) then (Some(Secured(tls)), [ACCEPT]) else (Some(IoError), [])
    else if Version(payload) == SSL_REQUEST || Version(payload) == GSSENC_REQUEST then
      if Fits(1, room) then (None, [REFUSE]) else (Some(IoError), [])
    else (Some(Session(payload, after, false)), [])
  }

  /** The negotiation by the bytes of its next packet: 04 D2 16 2E ends it without a
      reply; 04 D2 16 2F is answered S, or N where TLS is off; 04 D2 16 30 is always
      answered N; an N sends the client round again; anything else is a session. */
  lemma NegotiationByBytes(s: Src, tls: Tls, room: Option<nat>)
    requires FirstPacket(All(s)).Packet? && Fits(1, room)
    ensures var payload, (hello, replies) := FirstPacket(All(s)).payload, Negotiate(s, tls, room);
      var (hello', replies') := Negotiate(AfterFirst(s), tls, Less(room, 1));
      if payload[..4] == [0x04, 0xD2, 0x16, 0x2E] then hello == Cancel(payload) && replies == []
      else if payload[..4] == [0x04, 0xD2, 0x16, 0x2F] && !tls.Disabled? then hello == Secured(tls) && replies == [0x53]
      else if payload[..4] == [0x04, 0xD2, 0x16, 0x2F] || payload[..4] == [0x04, 0xD2, 0x16, 0x30] then
        hello == hello' && replies == [0x4E] + replies'
      else hello == Session(payload, AfterFirst(s), false) && replies == []
  {
    CodesInBytes(FirstPacket(All(s)).payload);
  }

  lemma TurnIsAnswer(s: Src, tls: Tls, room: Option<nat>)
    requires FirstPacket(All(s)).Packet?
    ensures TurnResult(s, tls, room) == Answer(FirstPacket(All(s)).payload, AfterFirst(s), tls, room)
    ensures TurnResult(s, tls, room).0.None? ==> NextMove(s, tls).Decline? && Fits(1, room)
  {
  }

  /** The match on the request code. */
  method Dispatch(reader: BufReader, client: Sink, tls: Tls, payload: seq<byte>) returns (again: bool, hello: Hello)
    requires client.Valid() && |payload| >= 4
    modifies reader, client
    ensures client.Valid() && client.shut == old(client.shut)
    ensures var (result, reply) := old(Answer(payload, Reattached(reader.State()), tls, client.Room()));
      && client.written == old(client.written) + reply
      && again == result.None?
      && (again ==> reader.State() == Reattached(old(reader.State())) && client.Room() == Less(old(client.Room()), 1))
      && (!again ==> hello == result.value)
  {
    hello := IoError;
    again := false;
    var code := Version(payload);
    if code == CANCEL_REQUEST {
      hello := Cancel(payload);
      return;
    }
    reader.Reattach();
    if code == SSL_REQUEST && !tls.Disabled? {
      var ok := Reply(client, ACCEPT);
      if ok {
        hello := Secure(tls);
      }
    } else if code == SSL_REQUEST || code == GSSENC_REQUEST {
      again := Reply(client, REFUSE);
    } else {
      hello := Session(payload, reader.State(), false);
    }
  }

  /** One turn. A declined request leaves a reader attached anew behind it. */
  method Turn(reader: BufReader, client: Sink, tls: Tls) returns (again: bool, hello: Hello)
    requires client.Valid()
    modifies reader, client
    ensures client.Valid() && client.shut == old(client.shut)
    ensures var (result, reply) := old(TurnResult(reader.State(), tls, client.Room()));
      && client.written == old(client.written) + reply
      && again == result.None?
      && (again ==> old(NextMove(reader.State(), tls).Decline? && Fits(1, client.Room())))
      && (again ==> reader.State() == AfterFirst(old(reader.State())))
      && (again ==> client.Room() == Less(old(client.Room()), 1))
      && (!again ==> hello == result.value)
  {
    hello := IoError;
    again := false;
    ghost var s, room := reader.State(), client.Room();
    var p := ReadPacket(reader);
    if p.Short? {
      return;
    }
    if p.BadLength? {
      hello := ProtocolError;
      return;
    }
    TurnIsAnswer(s, tls, room);
    again, hello := Dispatch(reader, client, tls, p.payload);
  }

  lemma NegotiateTurn(s: Src, tls: Tls, room: Option<nat>, replies: seq<byte>)
    ensures var (result, reply) := TurnResult(s, tls, room);
      var n := Negotiate(s, tls, room);
      match result
      case Some(h) => h == n.0 && replies + n.1 == replies + reply
      case None =>
        && NextMove(s, tls).Decline? && Fits(1, room)
        && var rest := Negotiate(AfterFirst(s), tls, Less(room, 1));
           n.0 == rest.0 && replies + n.1 == replies + reply + rest.1
  {
    if NextMove(s, tls).Decline? && Fits(1, room) {
      Assoc(replies, [REFUSE], Negotiate(AfterFirst(s), tls, Less(room, 1)).1);
    }
  }

  method PerformHandshake(reader: BufReader, client: Sink, tls: Tls) returns (hello: Hello)
    requires client.Valid()
    modifies reader, client
    ensures client.Valid() && client.shut == old(client.shut)
    ensures var n := old(Negotiate(reader.State(), tls, client.Room()));
      hello == n.0 && client.written == old(client.written) + n.1
  {
    ghost var goal := Negotiate(reader.State(), tls, client.Room());
    ghost var replies: seq<byte> := [];
    var again := true;
    hello := IoError;
    while again
      invariant client.Valid() && client.shut == old(client.shut)
      invariant client.written == old(client.written) + replies
      invariant again ==> goal.0 == Negotiate(reader.State(), tls, client.Room()).0
      invariant again ==> goal.1 == replies + Negotiate(reader.State(), tls, client.Room()).1
      invariant !again ==> goal == (hello, replies)
      decreases again, |All(reader.State())|
    {
      ghost var reply := TurnResult(reader.State(), tls, client.Room()).1;
      NegotiateTurn(reader.State(), tls, client.Room(), replies);
      Assoc(old(client.written), replies, reply);
      again, hello := Turn(reader, client, tls);
      replies := replies + reply;
    }
  }

  // ---- What every negotiation does ---------------------------------------

  /** Some number of refusals; an acceptance only if TLS is offered, and only last. */
  predicate IsReplySequence(r: seq<byte>, tls: Tls) {
    && (forall i :: 0 <= i < |r| - 1 ==> r[i] == REFUSE)
    && (r != [] ==> r[|r| - 1] == REFUSE || (r[|r| - 1] == ACCEPT && !tls.Disabled?))
  }

  predicate Switched(r: seq<byte>) {
    r != [] && r[|r| - 1] == ACCEPT
  }

  lemma OneMoreRefusal(rest: seq<byte>, tls: Tls)
    requires IsReplySequence(rest, tls)
    ensures var r := [REFUSE] + rest; IsReplySequence(r, tls) && Switched(r) == Switched(rest)
  {
    var r := [REFUSE] + rest;
    assert forall i :: 0 < i < |r| ==> r[i] == rest[i - 1];
  }

  /** On every input, whatever its segmentation: the loop ends, each reply byte has
      cost the client at least eight bytes, and a session is encrypted exactly when
      the last reply was an acceptance. */
  lemma {:induction false} EveryNegotiationRepliesInOrder(s: Src, tls: Tls, room: Option<nat>)
    ensures var (hello, r) := Negotiate(s, tls, room);
      && IsReplySequence(r, tls)
      && 8 * |r| <= |All(s)|
      && (hello.Session? ==> (hello.secure <==> Switched(r)))
      && (hello.Cancel? ==> !Switched(r))
    decreases |All(s)|
  {
    var m := NextMove(s, tls);
    if m.Decline? && Fits(1, room) {
      EveryNegotiationRepliesInOrder(AfterFirst(s), tls, Less(room, 1));
      OneMoreRefusal(Negotiate(AfterFirst(s), tls, Less(room, 1)).1, tls);
      assert |All(AfterFirst(s))| + 8 <= |All(s)|;
    }
  }

  /** The payload a session or a cancellation carries. */
  predicate IsAdmissible(hello: Hello) {
    match hello
    case Session(payload, _, secure) =>
      && 4 <= |payload| <= MAX_STARTUP_PACKET_LENGTH - 4
      && (!secure ==> Version(payload) != CANCEL_REQUEST && Version(payload) != SSL_REQUEST
                      && Version(payload) != GSSENC_REQUEST)
    case Cancel(payload) =>
      4 <= |payload| <= MAX_STARTUP_PACKET_LENGTH - 4 && Version(payload) == CANCEL_REQUEST
    case _ => true
  }

  /** A plaintext session never carries one of the request codes. */
  lemma {:induction false} OutcomesAreAdmissible(s: Src, tls: Tls, room: Option<nat>)
    ensures IsAdmissible(Negotiate(s, tls, room).0)
    decreases |All(s)|
  {
    if NextMove(s, tls).Decline? && Fits(1, room) {
      OutcomesAreAdmissible(AfterFirst(s), tls, Less(room, 1));
    }
  }

  /** A packet with this payload is among the bytes, length and all, and `rest` is a
      suffix of what follows it; `lost` was read ahead. */
  ghost predicate Yields(a: seq<byte>, payload: seq<byte>, rest: seq<byte>) {
    exists front, lost :: a == front + Framed(payload) + lost + rest
  }

  lemma YieldsBehind(a: seq<byte>, k: nat, payload: seq<byte>, rest: seq<byte>)
    requires k <= |a| && Yields(a[k..], payload, rest)
    ensures Yields(a, payload, rest)
  {
    var front, lost :| a[k..] == front + Framed(payload) + lost + rest;
    assert a == a[..k] + a[k..];
    assert a == (a[..k] + front) + Framed(payload) + lost + rest;
  }

  /** What is left behind the first packet is a suffix of the stream. */
  lemma AfterFirstIsSuffix(s: Src) returns (k: nat)
    requires FirstPacket(All(s)).Packet?
    ensures |FirstPacket(All(s)).payload| + 4 <= k <= |All(s)| && All(AfterFirst(s)) == All(s)[k..]
  {
    var n := |FirstPacket(All(s)).payload| + 4;
    var d := Drop(s, n);
    k := n + |d.ahead|;
    assert All(d)[|d.ahead|..] == All(AfterFirst(s));
    assert All(s)[n..][|d.ahead|..] == All(s)[k..];
  }

  lemma YieldedAtOnce(a: seq<byte>, payload: seq<byte>, k: nat)
    requires |payload| + 4 <= k <= |a| && a[..|payload| + 4] == Framed(payload)
    ensures Yields(a, payload, a[k..])
  {
    var n := |payload| + 4;
    assert a == [] + a[..n] + a[n..k] + a[k..];
  }

  lemma FirstIsFramed(a: seq<byte>)
    requires FirstPacket(a).Packet?
    ensures var p := FirstPacket(a).payload; |p| + 4 <= |a| && a[..|p| + 4] == Framed(p)
  {
  }

  lemma FirstPacketIsYielded(s: Src)
    requires FirstPacket(All(s)).Packet?
    ensures Yields(All(s), FirstPacket(All(s)).payload, All(AfterFirst(s)))
  {
    var k := AfterFirstIsSuffix(s);
    FirstIsFramed(All(s));
    YieldedAtOnce(All(s), FirstPacket(All(s)).payload, k);
  }

  /** Where an outcome comes from: a cancellation or a plaintext session is a packet the
      client sent, unchanged; a session inside TLS is the first packet there. The bytes
      to forward are a suffix of what that stream carries behind it. */
  ghost predicate IsFromTheClient(hello: Hello, a: seq<byte>, tls: Tls) {
    match hello
    case Cancel(payload) => exists rest :: Yields(a, payload, rest)
    case Session(payload, rest, secure) =>
      if secure then tls.Accepting? && Yields(All(tls.inner), payload, All(rest)) else Yields(a, payload, All(rest))
    case _ => true
  }

  lemma FromBehind(hello: Hello, a: seq<byte>, k: nat, tls: Tls)
    requires k <= |a| && IsFromTheClient(hello, a[k..], tls)
    ensures IsFromTheClient(hello, a, tls)
  {
    if hello.Cancel? {
      var rest :| Yields(a[k..], hello.payload, rest);
      YieldsBehind(a, k, hello.payload, rest);
    } else if hello.Session? && !hello.secure {
      YieldsBehind(a, k, hello.payload, All(hello.rest));
    }
  }

  lemma SecuredIsFromTheClient(a: seq<byte>, tls: Tls)
    requires !tls.Disabled?
    ensures IsFromTheClient(Secured(tls), a, tls)
  {
    if Secured(tls).Session? {
      FirstPacketIsYielded(tls.inner);
    }
  }

  lemma SettledIsFromTheClient(s: Src, tls: Tls)
    requires NextMove(s, tls).Settle?
    ensures IsFromTheClient(NextMove(s, tls).hello, All(s), tls)
  {
    FirstPacketIsYielded(s);
  }

  lemma {:induction false} OutcomeComesFromTheClient(s: Src, tls: Tls, room: Option<nat>)
    ensures IsFromTheClient(Negotiate(s, tls, room).0, All(s), tls)
    decreases |All(s)|
  {
    var m := NextMove(s, tls);
    if m.Settle? {
      SettledIsFromTheClient(s, tls);
    } else if m.Switch? {
      SecuredIsFromTheClient(All(s), tls);
    } else if m.Decline? && Fits(1, room) {
      OutcomeComesFromTheClient(AfterFirst(s), tls, Less(room, 1));
      var k := AfterFirstIsSuffix(s);
      FromBehind(Negotiate(s, tls, room).0, All(s), k, tls);
    }
  }

  // ---- Lock-step clients -------------------------------------------------

  /** The payloads of the well-formed packets a stream starts with. */
  function Packets(s: seq<byte>): (ps: seq<seq<byte>>)
    ensures forall i :: 0 <= i < |ps| ==> |ps[i]| >= 4
    decreases |s|
  {
    match FirstPacket(s)
    case Packet(payload) => [payload] + Packets(s[|payload| + 4..])
    case _ => []
  }

  /** What follows the first `n` packets. */
  function Behind(s: seq<byte>, n: nat): seq<byte>
    requires n <= |Packets(s)|
  {
    if n == 0 then s else Behind(s[|FirstPacket(s).payload| + 4..], n - 1)
  }

  predicate IsDeclined(payload: seq<byte>, tls: Tls)
    requires |payload| >= 4
  {
    Version(payload) == GSSENC_REQUEST || (Version(payload) == SSL_REQUEST && tls.Disabled?)
  }

  /** How many packets come before the first one that is not declined. */
  function Declined(s: seq<byte>, tls: Tls): (k: nat)
    ensures k <= |Packets(s)|
    decreases |s|
  {
    match FirstPacket(s)
    case Packet(payload) =>
      if IsDeclined(payload, tls) then 1 + Declined(s[|payload| + 4..], tls) else 0
    case _ => 0
  }

  /** The client waits for each reply before it sends on: at every `into_inner`
      nothing has been read ahead. */
  predicate LockStep(s: Src, tls: Tls)
    decreases |All(s)|
  {
    var m := NextMove(s, tls);
    if m.Decline? then NothingAhead(s) && LockStep(AfterFirst(s), tls)
    else m.Settle? && m.hello.Session? ==> NothingAhead(s)
  }

  predicate NothingAhead(s: Src) {
    FirstPacket(All(s)).Packet? ==> Drop(s, |FirstPacket(All(s)).payload| + 4).ahead == []
  }

  lemma NothingAheadKeepsAll(s: Src)
    requires FirstPacket(All(s)).Packet? && NothingAhead(s)
    ensures All(AfterFirst(s)) == All(s)[|FirstPacket(All(s)).payload| + 4..]
  {
    var d := Drop(s, |FirstPacket(All(s)).payload| + 4);
    assert All(d) == All(AfterFirst(s));
  }

  /** Why a stream that has no packet next fails: a length out of bounds is a protocol
      error, a stream that ends too soon is not. */
  function Failure(a: seq<byte>): Hello {
    if FirstPacket(a).BadLength? then ProtocolError else IoError
  }

  /** The outcome a byte stream calls for: declined requests are answered N, and the
      first packet that is not declined decides. A reply that cannot be sent ends it. */
  predicate IsOutcomeOf(hello: Hello, r: seq<byte>, a: seq<byte>, tls: Tls, room: Option<nat>) {
    var ps, k := Packets(a), Declined(a, tls);
    if !Fits(k, room) then
      hello.IoError? && r == Repeat(REFUSE, room.value)
    else if k == |ps| then
      hello == Failure(Behind(a, k)) && r == Repeat(REFUSE, k)
    else if Version(ps[k]) == CANCEL_REQUEST then
      hello == Cancel(ps[k]) && r == Repeat(REFUSE, k)
    else if Version(ps[k]) == SSL_REQUEST then
      && !tls.Disabled?
      && if Fits(k + 1, room) then hello == Secured(tls) && r == Repeat(REFUSE, k) + [ACCEPT]
         else hello.IoError? && r == Repeat(REFUSE, k)
    else
      && hello.Session? && hello.payload == ps[k] && !hello.secure
      && All(hello.rest) == Behind(a, k + 1) && r == Repeat(REFUSE, k)
  }

  /** One more declined request in front. */
  lemma DeclinedInFront(a: seq<byte>, tls: Tls)
    requires FirstPacket(a).Packet? && IsDeclined(FirstPacket(a).payload, tls)
    ensures var rest := a[|FirstPacket(a).payload| + 4..];
      var ps, k := Packets(rest), Declined(rest, tls);
      && Declined(a, tls) == k + 1 && |Packets(a)| == |ps| + 1
      && Behind(a, k + 1) == Behind(rest, k)
      && (k < |ps| ==> Packets(a)[k + 1] == ps[k] && Behind(a, k + 2) == Behind(rest, k + 1))
  {
    var rest := a[|FirstPacket(a).payload| + 4..];
    assert Packets(a)[1..] == Packets(rest);
  }

  lemma OneMoreReply(n: nat)
    ensures [REFUSE] + Repeat(REFUSE, n) == Repeat(REFUSE, n + 1)
    ensures [REFUSE] + (Repeat(REFUSE, n) + [ACCEPT]) == Repeat(REFUSE, n + 1) + [ACCEPT]
  {
  }

  lemma OutcomeBehindDeclined(hello: Hello, r: seq<byte>, a: seq<byte>, rest: seq<byte>, tls: Tls, room: Option<nat>)
    requires FirstPacket(a).Packet? && IsDeclined(FirstPacket(a).payload, tls) && Fits(1, room)
    requires rest == a[|FirstPacket(a).payload| + 4..] && IsOutcomeOf(hello, r, rest, tls, Less(room, 1))
    ensures IsOutcomeOf(hello, [REFUSE] + r, a, tls, room)
  {
    var k := Declined(rest, tls);
    DeclinedInFront(a, tls);
    OneMoreReply(if Fits(k, Less(room, 1)) then k else room.value - 1);
  }

  lemma OutcomeAtOnce(a: seq<byte>, tls: Tls, room: Option<nat>, hello: Hello, r: seq<byte>)
    requires FirstPacket(a).Packet? && !IsDeclined(FirstPacket(a).payload, tls)
    requires var p := FirstPacket(a).payload;
      if Version(p) == CANCEL_REQUEST then hello == Cancel(p) && r == []
      else if Version(p) == SSL_REQUEST then
        if Fits(1, room) then hello == Secured(tls) && r == [ACCEPT] else hello.IoError? && r == []
      else hello.Session? && hello.payload == p && !hello.secure && All(hello.rest) == a[|p| + 4..] && r == []
    ensures IsOutcomeOf(hello, r, a, tls, room)
  {
    var p := FirstPacket(a).payload;
    assert Packets(a)[0] == p && Declined(a, tls) == 0;
    assert Behind(a, 1) == Behind(a[|p| + 4..], 0);
    assert Repeat(REFUSE, 0) + [ACCEPT] == [ACCEPT];
  }

  lemma LockStepDeclines(s: Src, tls: Tls, room: Option<nat>)
    requires NothingAhead(s) && NextMove(s, tls).Decline? && Fits(1, room)
    requires var rest := Negotiate(AfterFirst(s), tls, Less(room, 1));
      IsOutcomeOf(rest.0, rest.1, All(AfterFirst(s)), tls, Less(room, 1))
    ensures IsOutcomeOf(Negotiate(s, tls, room).0, Negotiate(s, tls, room).1, All(s), tls, room)
  {
    var (hello, r) := Negotiate(AfterFirst(s), tls, Less(room, 1));
    DeclineIsDeclined(s, tls, room);
    NothingAheadKeepsAll(s);
    OutcomeBehindDeclined(hello, r, All(s), All(AfterFirst(s)), tls, room);
    assert Negotiate(s, tls, room) == (hello, [REFUSE] + r);
  }

  lemma DeclineIsDeclined(s: Src, tls: Tls, room: Option<nat>)
    requires NextMove(s, tls).Decline?
    ensures FirstPacket(All(s)).Packet? && IsDeclined(FirstPacket(All(s)).payload, tls)
    ensures if Fits(1, room) then
        var rest := Negotiate(AfterFirst(s), tls, Less(room, 1)); Negotiate(s, tls, room) == (rest.0, [REFUSE] + rest.1)
      else Negotiate(s, tls, room) == (IoError, [])
  {
  }

  lemma NoRoomForTheFirst(s: Src, tls: Tls, room: Option<nat>)
    requires NextMove(s, tls).Decline? && !Fits(1, room)
    ensures IsOutcomeOf(Negotiate(s, tls, room).0, Negotiate(s, tls, room).1, All(s), tls, room)
  {
    DeclineIsDeclined(s, tls, room);
    assert Repeat(REFUSE, 0) == [];
  }

  lemma LockStepSettles(s: Src, tls: Tls, room: Option<nat>)
    requires LockStep(s, tls) && (NextMove(s, tls).Settle? || NextMove(s, tls).Switch?)
    ensures IsOutcomeOf(Negotiate(s, tls, room).0, Negotiate(s, tls, room).1, All(s), tls, room)
  {
    var m := NextMove(s, tls);
    var (hello, r) := Negotiate(s, tls, room);
    if m.Settle? && m.hello.Session? {
      NothingAheadKeepsAll(s);
    }
    OutcomeAtOnce(All(s), tls, room, hello, r);
  }

  lemma NoPacketFails(s: Src, tls: Tls, room: Option<nat>)
    requires NextMove(s, tls).Bad?
    ensures IsOutcomeOf(Negotiate(s, tls, room).0, Negotiate(s, tls, room).1, All(s), tls, room)
  {
    assert Packets(All(s)) == [] && Declined(All(s), tls) == 0;
  }

  /** For a lock-step client the negotiation depends only on the bytes sent and on how
      many replies they take: every declined request is answered N, and the outcome is
      that of the first packet that is not declined, or of what is there instead. A
      session's stream starts right behind it. */
  lemma {:induction false} LockStepOutcome(s: Src, tls: Tls, room: Option<nat>)
    requires LockStep(s, tls)
    ensures IsOutcomeOf(Negotiate(s, tls, room).0, Negotiate(s, tls, room).1, All(s), tls, room)
    decreases |All(s)|
  {
    var m := NextMove(s, tls);
    if m.Bad? {
      NoPacketFails(s, tls, room);
    } else if !m.Decline? {
      LockStepSettles(s, tls, room);
    } else if Fits(1, room) {
      LockStepOutcome(AfterFirst(s), tls, Less(room, 1));
      LockStepDeclines(s, tls, room);
    } else {
      NoRoomForTheFirst(s, tls, room);
    }
  }

  /** A client that does not wait: whatever arrived in the same read as a declined
      request is never seen, for every `extra`. */
  lemma ReadAheadIsLost(request: seq<byte>, extra: seq<byte>, later: seq<seq<byte>>, tls: Tls)
    requires FirstPacket(request).Packet? && |FirstPacket(request).payload| + 4 == |request|
    requires IsDeclined(FirstPacket(request).payload, tls)
    ensures var lost := Negotiate(Src([], later), tls, None);
      Negotiate(Src([], [request + extra] + later), tls, None) == (lost.0, [REFUSE] + lost.1)
  {
    var s := Src([], [request + extra] + later);
    assert s.arrivals[1..] == later;
    assert All(s) == request + (extra + Concat(later));
    SamePacket(request, extra + Concat(later));
    assert Drop(s, |request|) == Drop(Src([] + (request + extra), later), |request|);
    assert AfterFirst(s) == Src([], later);
  }

  /** A packet is the same whatever follows it. */
  lemma SamePacket(request: seq<byte>, more: seq<byte>)
    requires FirstPacket(request).Packet? && |FirstPacket(request).payload| + 4 == |request|
    ensures FirstPacket(request + more) == FirstPacket(request)
  {
    var all, n := request + more, |request|;
    assert all[..4] == request[..4] && all[4..n] == request[4..n];
  }
}
