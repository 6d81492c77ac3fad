/** Clients as they are meant to be: a printed header, requests that are declined, a
    startup packet in plaintext or inside TLS, each sent when the one before has been
    answered. And some that are not. */
module Clients {
  import opened Bytes
  import opened Utf8
  import opened Text
  import opened Wire
  import opened Address
  import opened ClockWindow
  import opened Guardian
  import opened Trust
  import opened ProxyHeader
  import opened Startup
  import opened Messages
  import opened Handshake
  import opened Gate
  import opened Admission

  /** The three fields of the header, what follows them, the payloads of the requests
      and of the startup packet. */
  datatype Client = Client(proto: string, source: string, tail: string, requests: seq<seq<byte>>, payload: seq<byte>)

  predicate IsPrinted(p: Client, tls: Tls) {
    && IsPrintable(p.proto, p.source, p.tail)
    && (forall r :: r in p.requests ==> IsInBounds(r) && IsDeclined(r, tls))
    && IsInBounds(p.payload)
  }

  predicate IsClient(p: Client, tls: Tls) {
    IsPrinted(p, tls) && !IsRequestCode(Version(p.payload))
  }

  function Line(p: Client): seq<byte> {
    PrintHeader(p.proto, p.source, p.tail)
  }

  /** What the client sends behind its header, and then `more`. */
  function Packed(p: Client, more: seq<byte>): seq<byte> {
    FramedAll(p.requests) + (Framed(p.payload) + more)
  }

  /** The arrival is this client's: it waits for every answer and takes it. */
  predicate Speaks(p: Client, a: Arrival, more: seq<byte>) {
    && IsClient(p, a.tls)
    && All(a.wire) == Line(p) + Packed(p, more)
    && LockStep(Headed(a.wire), a.tls) && Fits(|p.requests|, a.room)
  }

  function FramedAll(payloads: seq<seq<byte>>): seq<byte> {
    if payloads == [] then [] else Framed(payloads[0]) + FramedAll(payloads[1..])
  }

  /** Declined requests, then a packet that is not one: that packet decides. */
  lemma {:induction false} FirstUndeclined(requests: seq<seq<byte>>, payload: seq<byte>, more: seq<byte>, tls: Tls)
    requires forall r :: r in requests ==> IsInBounds(r) && IsDeclined(r, tls)
    requires IsInBounds(payload) && !IsDeclined(payload, tls)
    ensures var a, k := FramedAll(requests) + (Framed(payload) + more), |requests|;
      Declined(a, tls) == k < |Packets(a)| && Packets(a)[k] == payload && Behind(a, k + 1) == more
  {
    var a := FramedAll(requests) + (Framed(payload) + more);
    if requests == [] {
      assert a == Framed(payload) + more;
      FramedIsFirst(payload, more);
      assert Behind(a, 1) == Behind(more, 0);
    } else {
      var rest := FramedAll(requests[1..]) + (Framed(payload) + more);
      assert requests[0] in requests;
      assert a == Framed(requests[0]) + rest;
      FramedIsFirst(requests[0], rest);
      FirstUndeclined(requests[1..], payload, more, tls);
    }
  }

  lemma ClientSession(p: Client, s: Src, tls: Tls, room: Option<nat>, more: seq<byte>)
    requires IsClient(p, tls) && All(s) == Packed(p, more) && LockStep(s, tls) && Fits(|p.requests|, room)
    ensures var (hello, replies) := Negotiate(s, tls, room);
      && hello.Session? && hello.payload == p.payload && !hello.secure && All(hello.rest) == more
      && replies == Repeat(REFUSE, |p.requests|)
  {
    FirstUndeclined(p.requests, p.payload, more, tls);
    LockStepOutcome(s, tls, room);
  }

  lemma BehindTheHeader(s: Src, proto: string, source: string, tail: string, more: seq<byte>)
    requires IsPrintable(proto, source, tail) && All(s) == PrintHeader(proto, source, tail) + more
    ensures HeaderOf(All(s)) == HeaderResult.Address(source) && All(Headed(s)) == more
  {
    PrintedHeaderIsRead(proto, source, tail, more);
  }

  lemma EntryIsScreened(rules: seq<Rule>, hello: Hello, ip: string, now: Minute)
    requires hello.Session? && IsAdmissible(hello)
    ensures Admit(rules, hello, ip, now) ==
      match Screen(rules, hello.payload, ip, now)
      case Fail(why) => Turned(why, ip, hello.secure)
      case Pass(context) => Start(hello.payload, ip, context, hello.rest, hello.secure)
  {
  }

  /** What becomes of such a client: its startup packet is judged with the address from
      its header, every request was answered N, and a session's stream is what follows. */
  lemma ClientIsJudged(policy: Policy, a: Arrival, p: Client, more: seq<byte>)
    requires IsTrusted(policy.nets, a.peer) && Speaks(p, a, more)
    ensures Replies(policy, a) == Repeat(REFUSE, |p.requests|)
    ensures var e := EntryOf(policy, a);
      match Screen(policy.rules, p.payload, p.source, a.now)
      case Fail(why) => e == Turned(why, p.source, false)
      case Pass(context) =>
        && e.Start? && e.payload == p.payload && e.ip == p.source && e.context == context
        && !e.secure && All(e.rest) == more
  {
    BehindTheHeader(a.wire, p.proto, p.source, p.tail, Packed(p, more));
    ClientSession(p, Headed(a.wire), a.tls, a.room, more);
    GreetingIsAdmissible(a.wire, a.tls, a.room);
    EntryIsScreened(policy.rules, Greet(a.wire, a.tls, a.room).hello, p.source, a.now);
  }

  // ---- Inside TLS --------------------------------------------------------

  /** The arrival is that of a client that asks for TLS behind its declined requests and
      sends its startup packet there; `hello` is what it says to TLS itself. */
  predicate SpeaksInside(p: Client, request: seq<byte>, hello: seq<byte>, a: Arrival, more: seq<byte>) {
    && IsPrinted(p, a.tls) && IsInBounds(request) && Version(request) == SSL_REQUEST
    && All(a.wire) == Line(p) + (FramedAll(p.requests) + (Framed(request) + hello))
    && LockStep(Headed(a.wire), a.tls) && Fits(|p.requests| + 1, a.room)
    && a.tls.Accepting? && All(a.tls.inner) == Framed(p.payload) + more && NothingAhead(a.tls.inner)
  }

  lemma SecuredSession(inner: Src, payload: seq<byte>, more: seq<byte>)
    requires IsInBounds(payload) && All(inner) == Framed(payload) + more && NothingAhead(inner)
    ensures var hello := Secured(Accepting(inner));
      hello.Session? && hello.payload == payload && hello.secure && All(hello.rest) == more
  {
    FramedIsFirst(payload, more);
    NothingAheadKeepsAll(inner);
  }

  lemma TlsClientSession(requests: seq<seq<byte>>, request: seq<byte>, hello: seq<byte>,
                         s: Src, tls: Tls, room: Option<nat>)
    requires forall r :: r in requests ==> IsInBounds(r) && IsDeclined(r, tls)
    requires IsInBounds(request) && Version(request) == SSL_REQUEST && tls.Accepting?
    requires All(s) == FramedAll(requests) + (Framed(request) + hello)
    requires LockStep(s, tls) && Fits(|requests| + 1, room)
    ensures Negotiate(s, tls, room) == (Secured(tls), Repeat(REFUSE, |requests|) + [ACCEPT])
  {
    FirstUndeclined(requests, request, hello, tls);
    LockStepOutcome(s, tls, room);
  }

  /** The packet inside TLS is judged like any other, and the session is what follows it
      there; every declined request was answered N, and the last one S. */
  lemma TlsClientIsJudged(policy: Policy, a: Arrival, p: Client, request: seq<byte>, hello: seq<byte>, more: seq<byte>)
    requires IsTrusted(policy.nets, a.peer) && SpeaksInside(p, request, hello, a, more)
    ensures Replies(policy, a) == Repeat(REFUSE, |p.requests|) + [ACCEPT]
    ensures var e := EntryOf(policy, a);
      match Screen(policy.rules, p.payload, p.source, a.now)
      case Fail(why) => e == Turned(why, p.source, true)
      case Pass(context) =>
        && e.Start? && e.payload == p.payload && e.ip == p.source && e.context == context
        && e.secure && All(e.rest) == more
  {
    BehindTheHeader(a.wire, p.proto, p.source, p.tail, FramedAll(p.requests) + (Framed(request) + hello));
    TlsClientSession(p.requests, request, hello, Headed(a.wire), a.tls, a.room);
    SecuredSession(a.tls.inner, p.payload, more);
    GreetingIsAdmissible(a.wire, a.tls, a.room);
    EntryIsScreened(policy.rules, Greet(a.wire, a.tls, a.room).hello, p.source, a.now);
  }

  // ---- One packet to a read ----------------------------------------------

  /** Each packet arrives in a read of its own. */
  function EachFramed(payloads: seq<seq<byte>>): seq<seq<byte>> {
    if payloads == [] then [] else [Framed(payloads[0])] + EachFramed(payloads[1..])
  }

  lemma TakesOneRead(first: seq<byte>, later: seq<seq<byte>>)
    requires first != []
    ensures All(Src([], [first] + later)) == first + Concat(later)
    ensures Drop(Src([], [first] + later), |first|) == Src([], later)
  {
    var s := Src([], [first] + later);
    assert s.arrivals[1..] == later;
    assert [] + first == first;
    assert Drop(s, |first|) == Drop(Src(first, later), |first|);
  }

  lemma FirstReadIsFirstPacket(payload: seq<byte>, later: seq<seq<byte>>)
    requires IsInBounds(payload)
    ensures var s := Src([], [Framed(payload)] + later);
      && FirstPacket(All(s)) == Packet(payload) && NothingAhead(s) && AfterFirst(s) == Src([], later)
  {
    TakesOneRead(Framed(payload), later);
    FramedIsFirst(payload, Concat(later));
  }

  lemma OneMoreDeclinedRead(request: seq<byte>, later: seq<seq<byte>>, tls: Tls)
    requires IsInBounds(request) && IsDeclined(request, tls) && LockStep(Src([], later), tls)
    ensures LockStep(Src([], [Framed(request)] + later), tls)
  {
    FirstReadIsFirstPacket(request, later);
  }

  /** A client whose packets arrive one to a read, nothing of what follows among them,
      is lock-step. */
  lemma {:induction false} SeparateReadsAreLockStep(requests: seq<seq<byte>>, payload: seq<byte>,
                                                    later: seq<seq<byte>>, tls: Tls)
    requires forall r :: r in requests ==> IsInBounds(r) && IsDeclined(r, tls)
    requires IsInBounds(payload) && !IsRequestCode(Version(payload))
    ensures LockStep(Src([], EachFramed(requests) + ([Framed(payload)] + later)), tls)
  {
    if requests == [] {
      FirstReadIsFirstPacket(payload, later);
      assert EachFramed(requests) + ([Framed(payload)] + later) == [Framed(payload)] + later;
    } else {
      var rest := EachFramed(requests[1..]) + ([Framed(payload)] + later);
      assert requests[0] in requests;
      SeparateReadsAreLockStep(requests[1..], payload, later, tls);
      OneMoreDeclinedRead(requests[0], rest, tls);
      Assoc([Framed(requests[0])], EachFramed(requests[1..]), [Framed(payload)] + later);
    }
  }

  lemma {:induction false} SeparateReadsJoin(requests: seq<seq<byte>>, payload: seq<byte>, later: seq<seq<byte>>)
    ensures Concat(EachFramed(requests) + ([Framed(payload)] + later))
         == FramedAll(requests) + (Framed(payload) + Concat(later))
  {
    if requests == [] {
      assert EachFramed(requests) + ([Framed(payload)] + later) == [Framed(payload)] + later;
    } else {
      var rest := EachFramed(requests[1..]) + ([Framed(payload)] + later);
      SeparateReadsJoin(requests[1..], payload, later);
      Assoc([Framed(requests[0])], EachFramed(requests[1..]), [Framed(payload)] + later);
      assert Concat([Framed(requests[0])] + rest) == Framed(requests[0]) + Concat(rest);
      Assoc(Framed(requests[0]), FramedAll(requests[1..]), Framed(payload) + Concat(later));
    }
  }

  lemma HeaderInOneRead(proto: string, source: string, tail: string, later: seq<seq<byte>>)
    requires IsPrintable(proto, source, tail)
    ensures var s := Src([], [PrintHeader(proto, source, tail)] + later);
      All(s) == PrintHeader(proto, source, tail) + Concat(later) && Headed(s) == Src([], later)
  {
    PrintedHeaderIsRead(proto, source, tail, Concat(later));
    HeaderIsNotEmpty(proto, source, tail);
    TakesOneRead(PrintHeader(proto, source, tail), later);
  }

  /** The arrival is this client's, its header and its packets one to a read; `later` is
      in reads of any size. */
  predicate SpeaksInReads(p: Client, a: Arrival, later: seq<seq<byte>>) {
    && IsClient(p, a.tls) && Fits(|p.requests|, a.room)
    && a.wire == Src([], [Line(p)] + (EachFramed(p.requests) + ([Framed(p.payload)] + later)))
  }

  lemma ReadsAreLockStep(p: Client, a: Arrival, later: seq<seq<byte>>)
    requires SpeaksInReads(p, a, later)
    ensures Speaks(p, a, Concat(later))
  {
    HeaderInOneRead(p.proto, p.source, p.tail, EachFramed(p.requests) + ([Framed(p.payload)] + later));
    SeparateReadsJoin(p.requests, p.payload, later);
    SeparateReadsAreLockStep(p.requests, p.payload, later, a.tls);
  }

  // ---- Addresses that are none -------------------------------------------

  lemma NulIsInNoAddress(ip: string)
    requires NUL as char in ip
    ensures ParseIp(ip).None?
  {
    assert !IsAddressChar(NUL as char);
    if ParseIp(ip).Some? {
      LiteralShape(ip);
      assert false;
    }
  }

  /** Whatever the rules, an address field with a NUL in it is denied. */
  lemma NulAddressesAreDenied(rules: seq<Rule>, payload: seq<byte>, ip: string, now: Minute)
    requires |payload| >= 4 && IsSupportedStartup(Version(payload)) && NUL as char in ip
    ensures Screen(rules, payload, ip, now) == Fail(Denied)
  {
    NulIsInNoAddress(ip);
  }

  /** A notice that cannot be read back as what it says. */
  predicate IsUnreadable(why: Reason, ip: string) {
    ReadFields(Refusal(why, ip)[5..]) != Some(ErrorFields(Encode(ReasonCode(why)), Encode(ReasonText(why, ip))))
  }

  /** A client whose source field has a NUL in it is told so in a notice it cannot read,
      whatever the policy, as long as it is trusted and asks for a supported version. */
  lemma NulAddressesAreDeniedUnreadably(policy: Policy, a: Arrival, p: Client, more: seq<byte>)
    requires IsTrusted(policy.nets, a.peer) && Speaks(p, a, more)
    requires IsSupportedStartup(Version(p.payload)) && NUL as char in p.source
    ensures EntryOf(policy, a) == Turned(Denied, p.source, false) && IsUnreadable(Denied, p.source)
  {
    ClientIsJudged(policy, a, p, more);
    NulAddressesAreDenied(policy.rules, p.payload, p.source, a.now);
    DenialIsReadableIffNulFree(p.source);
  }

  lemma NulSourceIsPrintable()
    ensures IsPrintable("TCP4", [NUL as char], [])
  {
    var text := Head("TCP4", [NUL as char]) + [] + "\r\n";
    assert |text| == 14;
    forall i | 0 <= i < |text| ensures text[i] as int < 0x80 {
      assert text == ['P', 'R', 'O', 'X', 'Y', ' ', 'T', 'C', 'P', '4', ' ', NUL as char, '\r', '\n'];
    }
    EncodeAscii(text);
    assert !IsWhitespace(NUL as char);
  }

  /** The client with this packet whose source field is one NUL. */
  function NulClient(payload: seq<byte>): Client {
    Client("TCP4", [NUL as char], [], [], payload)
  }

  function NulArrival(peer: IpAddr, tls: Tls, payload: seq<byte>, now: Minute): Arrival {
    var p := NulClient(payload);
    Arrival(peer, Src([], [Line(p)] + (EachFramed(p.requests) + ([Framed(payload)] + []))), tls, None, now)
  }

  lemma NulClientSpeaks(peer: IpAddr, tls: Tls, payload: seq<byte>, now: Minute)
    requires IsInBounds(payload) && IsSupportedStartup(Version(payload))
    ensures Speaks(NulClient(payload), NulArrival(peer, tls, payload, now), Concat([]))
  {
    NulSourceIsPrintable();
    if IsRequestCode(Version(payload)) {
      RequestCodesAreUnsupported(Version(payload));
    }
    ReadsAreLockStep(NulClient(payload), NulArrival(peer, tls, payload, now), []);
  }

  /** And there is such a client for every policy, trusted peer and supported packet. */
  lemma UnreadableDenialsHappen(policy: Policy, peer: IpAddr, tls: Tls, payload: seq<byte>, now: Minute)
    requires IsTrusted(policy.nets, peer) && IsInBounds(payload) && IsSupportedStartup(Version(payload))
    ensures var a, ip := NulArrival(peer, tls, payload, now), NulClient(payload).source;
      a.peer == peer && NUL as char in ip && EntryOf(policy, a) == Turned(Denied, ip, false) && IsUnreadable(Denied, ip)
  {
    NulClientSpeaks(peer, tls, payload, now);
    NulAddressesAreDeniedUnreadably(policy, NulArrival(peer, tls, payload, now), NulClient(payload), Concat([]));
  }
}
