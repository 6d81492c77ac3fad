/** What the gate admits, for every policy and every connection. */
module Admission {
  import opened Bytes
  import opened Utf8
  import opened Wire
  import opened Address
  import opened ApplicationName
  import opened ClockWindow
  import opened Guardian
  import opened Trust
  import opened ProxyHeader
  import opened Startup
  import opened Handshake
  import opened Segmentation
  import opened Gate

  /** The peer is on the allowlist and began with an accepted header. */
  predicate IsIntroduced(policy: Policy, a: Arrival) {
    IsTrusted(policy.nets, a.peer) && HeaderOf(All(a.wire)).Address?
  }

  predicate IsInBounds(payload: seq<byte>) {
    MIN_STARTUP_PACKET_LENGTH <= |payload| + 4 <= MAX_STARTUP_PACKET_LENGTH
  }

  /** A cancellation: sent by the client behind the header, unchanged. */
  ghost predicate IsGenuineCancel(a: Arrival, payload: seq<byte>) {
    && IsInBounds(payload) && Version(payload) == CANCEL_REQUEST
    && exists rest :: Yields(All(Headed(a.wire)), payload, rest)
  }

  /** A session: a packet the client sent behind the header, or first inside TLS, whose
      major version is three and whose user and database Guardian lets in from the
      address in the header; `rest` is the client's stream behind it. */
  ghost predicate IsGenuineStart(policy: Policy, a: Arrival, payload: seq<byte>, ip: string, context: Context, rest: Src) {
    && IsInBounds(payload) && StartupMajor(Version(payload)) == 3
    && HeaderOf(All(a.wire)) == HeaderResult.Address(ip) && ParseIp(ip).Some?
    && (Yields(All(Headed(a.wire)), payload, All(rest))
        || (a.tls.Accepting? && Yields(All(a.tls.inner), payload, All(rest))))
    && var (user, database) := UserDb(payload);
       context == Decide(policy.rules, ip, user, database, a.now) && !context.action.Deny?
  }

  /** Nothing goes upstream but a genuine cancellation or a genuine session's startup. */
  lemma OnlyGenuineEntries(policy: Policy, a: Arrival)
    ensures var e := EntryOf(policy, a);
      && (e.Relay? || e.Start? ==> IsIntroduced(policy, a))
      && (e.Relay? ==> IsGenuineCancel(a, e.payload))
      && (e.Start? ==> IsGenuineStart(policy, a, e.payload, e.ip, e.context, e.rest))
      && (!e.Relay? && !e.Start? ==> Upstream(e) == [])
  {
    if IsIntroduced(policy, a) {
      var s := Headed(a.wire);
      OutcomesAreAdmissible(s, a.tls, a.room);
      OutcomeComesFromTheClient(s, a.tls, a.room);
    }
  }

  // ---- Reasons -----------------------------------------------------------

  /** The client sent this packet, behind the header or first inside TLS. */
  ghost predicate IsSent(a: Arrival, payload: seq<byte>) {
    exists rest ::
      Yields(All(Headed(a.wire)), payload, rest) || (a.tls.Accepting? && Yields(All(a.tls.inner), payload, rest))
  }

  predicate IsDenied(policy: Policy, payload: seq<byte>, ip: string, now: Minute) {
    var (user, database) := UserDb(payload);
    Decide(policy.rules, ip, user, database, now).action.Deny?
  }

  /** The packet a lock-step client decides its handshake with: the first one that is
      not declined. */
  function Decisive(a: seq<byte>, tls: Tls): seq<byte>
    requires Declined(a, tls) < |Packets(a)|
  {
    Packets(a)[Declined(a, tls)]
  }

  predicate AsksForTls(a: seq<byte>, tls: Tls)
    requires Declined(a, tls) < |Packets(a)|
  {
    |Decisive(a, tls)| >= 4 && Version(Decisive(a, tls)) == SSL_REQUEST
  }

  /** Why a lock-step client that sent `a` behind its header gets nowhere: an answer it
      would not take, no packet but declined ones, or a TLS that fails or has no packet
      inside. */
  predicate HandshakeFails(a: seq<byte>, tls: Tls, room: Option<nat>) {
    var k := Declined(a, tls);
    || !Fits(k, room)
    || k == |Packets(a)|
    || (AsksForTls(a, tls) && (!Fits(k + 1, room) || !tls.Accepting? || !FirstPacket(All(tls.inner)).Packet?))
  }

  /** The packet taken for its startup message. */
  function StartupOf(a: seq<byte>, tls: Tls, room: Option<nat>): (p: seq<byte>)
    requires !HandshakeFails(a, tls, room)
    ensures |p| >= 4
  {
    if AsksForTls(a, tls) then FirstPacket(All(tls.inner)).payload else Decisive(a, tls)
  }

  /** What the bytes a lock-step client sent call for. */
  predicate IsCalledFor(policy: Policy, a: Arrival, e: Entry) {
    var s := All(Headed(a.wire));
    if !IsIntroduced(policy, a) || HandshakeFails(s, a.tls, a.room) then e.Nothing?
    else
      var p, ip := StartupOf(s, a.tls, a.room), HeaderOf(All(a.wire)).ip;
      var secure := AsksForTls(s, a.tls);
      if !secure && Version(p) == CANCEL_REQUEST then e == Relay(p)
      else if StartupMajor(Version(p)) != 3 then e == Turned(Unsupported, ip, secure)
      else if IsDenied(policy, p, ip, a.now) then e == Turned(Denied, ip, secure)
      else
        && e.Start? && e.payload == p && e.ip == ip && e.secure == secure
        && (!secure ==> All(e.rest) == Behind(s, Declined(s, a.tls) + 1))
        && (secure ==> (All(e.rest) == Rest(All(a.tls.inner)) <==> NothingAhead(a.tls.inner)))
  }

  /** What the handshake then makes of the bytes. */
  predicate IsSettled(hello: Hello, a: seq<byte>, tls: Tls, room: Option<nat>) {
    if HandshakeFails(a, tls, room) then hello.IoError? || hello.ProtocolError?
    else
      var p := StartupOf(a, tls, room);
      if !AsksForTls(a, tls) && Version(p) == CANCEL_REQUEST then hello == Cancel(p)
      else
        && hello.Session? && hello.payload == p && hello.secure == AsksForTls(a, tls)
        && (!hello.secure ==> All(hello.rest) == Behind(a, Declined(a, tls) + 1))
        && (hello.secure ==> (All(hello.rest) == Rest(All(tls.inner)) <==> NothingAhead(tls.inner)))
  }

  lemma TlsSettles(hello: Hello, r: seq<byte>, a: seq<byte>, tls: Tls, room: Option<nat>)
    requires IsOutcomeOf(hello, r, a, tls, room) && Fits(Declined(a, tls), room)
    requires Declined(a, tls) < |Packets(a)| && AsksForTls(a, tls)
    ensures IsSettled(hello, a, tls, room)
  {
    SslOutcome(hello, r, a, tls, room);
    if !HandshakeFails(a, tls, room) {
      TlsSessionIsWholeIff(tls.inner);
    }
  }

  lemma SslOutcome(hello: Hello, r: seq<byte>, a: seq<byte>, tls: Tls, room: Option<nat>)
    requires IsOutcomeOf(hello, r, a, tls, room) && Fits(Declined(a, tls), room)
    requires Declined(a, tls) < |Packets(a)| && AsksForTls(a, tls)
    ensures !tls.Disabled? && hello == if Fits(Declined(a, tls) + 1, room) then Secured(tls) else IoError
  {
  }

  lemma OutcomeSettles(hello: Hello, r: seq<byte>, a: seq<byte>, tls: Tls, room: Option<nat>)
    requires IsOutcomeOf(hello, r, a, tls, room)
    ensures IsSettled(hello, a, tls, room)
  {
    var k := Declined(a, tls);
    if Fits(k, room) && k < |Packets(a)| && AsksForTls(a, tls) {
      TlsSettles(hello, r, a, tls, room);
    }
  }

  lemma HandshakeSettles(s: Src, tls: Tls, room: Option<nat>)
    requires LockStep(s, tls)
    ensures IsSettled(Negotiate(s, tls, room).0, All(s), tls, room)
  {
    LockStepOutcome(s, tls, room);
    var (hello, r) := Negotiate(s, tls, room);
    OutcomeSettles(hello, r, All(s), tls, room);
  }

  lemma SessionIsJudged(policy: Policy, hello: Hello, ip: string, now: Minute)
    requires hello.Session? && IsAdmissible(hello)
    ensures var e, p := Admit(policy.rules, hello, ip, now), hello.payload;
      if StartupMajor(Version(p)) != 3 then e == Turned(Unsupported, ip, hello.secure)
      else if IsDenied(policy, p, ip, now) then e == Turned(Denied, ip, hello.secure)
      else e.Start? && e.payload == p && e.ip == ip && e.secure == hello.secure && e.rest == hello.rest
  {
  }

  /** Every refusal has its reason in the bytes. However they are segmented, a connection
      is turned away for a packet the client sent: as unsupported exactly when its major
      version is not three, as denied exactly when it is and Guardian denies it. For a
      client that waits for each answer the bytes say which packet that is, and every
      other outcome with it: the connection comes to nothing exactly when the peer is
      untrusted, the header is not accepted or the handshake fails on these bytes. */
  lemma RefusalsHaveTheirReason(policy: Policy, a: Arrival)
    ensures var e := EntryOf(policy, a);
      e.Turned? ==>
        && IsIntroduced(policy, a)
        && exists payload :: IsSent(a, payload) && IsInBounds(payload)
             && (e.why.Unsupported? <==> StartupMajor(Version(payload)) != 3)
             && (e.why.Denied? <==> StartupMajor(Version(payload)) == 3 && IsDenied(policy, payload, e.ip, a.now))
    ensures LockStep(Headed(a.wire), a.tls) ==> IsCalledFor(policy, a, EntryOf(policy, a))
  {
    if EntryOf(policy, a).Turned? {
      TurnedForWhatWasSent(policy, a);
    }
    if LockStep(Headed(a.wire), a.tls) {
      LockStepIsCalledFor(policy, a);
    }
  }

  lemma TurnedForWhatWasSent(policy: Policy, a: Arrival)
    requires EntryOf(policy, a).Turned?
    ensures IsIntroduced(policy, a)
    ensures var e, hello := EntryOf(policy, a), Greet(a.wire, a.tls, a.room).hello;
      && hello.Session? && IsSent(a, hello.payload) && IsInBounds(hello.payload)
      && (e.why.Unsupported? <==> StartupMajor(Version(hello.payload)) != 3)
      && (e.why.Denied? <==> StartupMajor(Version(hello.payload)) == 3 && IsDenied(policy, hello.payload, e.ip, a.now))
  {
    var g := Greet(a.wire, a.tls, a.room);
    GreetingIsAdmissible(a.wire, a.tls, a.room);
    OutcomeComesFromTheClient(Headed(a.wire), a.tls, a.room);
    SessionIsJudged(policy, g.hello, g.ip, a.now);
  }

  lemma LockStepIsCalledFor(policy: Policy, a: Arrival)
    requires LockStep(Headed(a.wire), a.tls)
    ensures IsCalledFor(policy, a, EntryOf(policy, a))
  {
    if IsIntroduced(policy, a) {
      var g := Greet(a.wire, a.tls, a.room);
      HandshakeSettles(Headed(a.wire), a.tls, a.room);
      GreetingIsAdmissible(a.wire, a.tls, a.room);
      if g.hello.Session? {
        SessionIsJudged(policy, g.hello, g.ip, a.now);
      }
    }
  }

  // ---- What never gets through -------------------------------------------

  /** A packet with one of the request codes is turned away whatever the rules. */
  lemma RequestsAreTurnedAway(rules: seq<Rule>, payload: seq<byte>, ip: string, now: Minute)
    requires |payload| >= 4 && IsRequestCode(Version(payload))
    ensures Screen(rules, payload, ip, now) == Fail(Unsupported)
  {
    RequestCodesAreUnsupported(Version(payload));
  }

  /** The request codes never reach the rewriter, in plaintext or inside TLS. */
  lemma RequestsAreNeverRewritten(policy: Policy, a: Arrival)
    ensures var e := EntryOf(policy, a);
      e.Start? ==> |e.payload| >= 4 && !IsRequestCode(Version(e.payload))
  {
    OnlyGenuineEntries(policy, a);
    var e := EntryOf(policy, a);
    if e.Start? && IsRequestCode(Version(e.payload)) {
      RequestCodesAreUnsupported(Version(e.payload));
    }
  }

  lemma LiteralsLeaveRoom(ip: string)
    requires ParseIp(ip).Some?
    ensures 1 <= |ip| <= 45 && AllAddressChars(ip) && NUL as char !in ip
    ensures |Encode(Suffix(ip))| < NAMEDATALEN_LIMIT
  {
    LiteralShape(ip);
    SuffixIsPrintable(ip);
    assert forall i :: 0 <= i < |ip| ==> IsAddressChar(ip[i]);
  }

  /** An address that reaches the rewriter is a literal: short, visible ASCII without
      NUL, so the suffix always leaves room and the branch for an overlong one is dead. */
  lemma AddressesReachingTheRewriter(policy: Policy, a: Arrival)
    ensures var e := EntryOf(policy, a);
      e.Start? ==>
        && ParseIp(e.ip).Some?
        && 1 <= |e.ip| <= 45 && AllAddressChars(e.ip) && NUL as char !in e.ip
        && |Encode(Suffix(e.ip))| < NAMEDATALEN_LIMIT
  {
    OnlyGenuineEntries(policy, a);
    var e := EntryOf(policy, a);
    if e.Start? {
      LiteralsLeaveRoom(e.ip);
    }
  }

  /** Every application name is stored uncut and ends in the address; there is one. */
  ghost predicate NamesEndIn(ps: seq<Pair>, ip: string) {
    && HasAppName(ps)
    && forall i :: 0 <= i < |ps| && IsAppName(ps[i]) ==>
         Stored(ps[i].value) == Escape(ps[i].value) && EndsWith(Stored(ps[i].value), Encode(" " + ip))
  }

  /** A packet as PostgreSQL takes it: it announces its true length and the version the
      client asked for, and its parameters are these. */
  ghost predicate IsReadAs(packet: seq<byte>, version: seq<byte>, ps: seq<Pair>) {
    && |packet| >= 8 && Be32(packet[..4]) == |packet| && packet[4..8] == version
    && ServerRead(packet[8..]) == Some(ps)
  }

  lemma RewrittenNamesEndIn(ps: seq<Pair>, ip: string)
    requires ParseIp(ip).Some?
    ensures NamesEndIn(Rewritten(ps, ip), ip)
  {
    var rs := Rewritten(ps, ip);
    RewrittenShape(ps, ip);
    forall i | 0 <= i < |rs| && IsAppName(rs[i])
      ensures Stored(rs[i].value) == Escape(rs[i].value) && EndsWith(Stored(rs[i].value), Encode(" " + ip))
    {
      EveryStoredNameEndsInTheAddress(ps, ip, i);
    }
  }

  lemma FramedSlices(out: seq<byte>)
    requires |out| >= 4
    ensures |Framed(out)| >= 8 && Framed(out)[4..8] == out[..4] && Framed(out)[8..] == out[4..]
  {
    var packet := Framed(out);
    assert packet[4..8] == out[..4];
    assert packet[8..] == out[4..];
  }

  lemma PacketIsSound(payload: seq<byte>, ip: string)
    requires IsInBounds(payload) && ParseIp(ip).Some?
    ensures var ps := Rewritten(ParsePairs(payload), ip);
      && IsReadAs(Framed(Injected(payload, ip)), payload[..4], ps)
      && NamesEndIn(ps, ip)
      && UserDb(payload) == (Decode(ServerUser(ps)), Decode(ServerDatabase(ps)))
  {
    LiteralsLeaveRoom(ip);
    RewrittenLengthNeverWraps(payload, ip);
    RewriteIsReadBack(payload, ip);
    GuardianJudgesWhatTheServerReads(payload, ip);
    RewrittenNamesEndIn(ParsePairs(payload), ip);
    FramedSlices(Injected(payload, ip));
  }

  /** The server reads the packet strictly, at its true length; the user and database
      it reads are those Guardian let in; and every application name it stores
      ends in the client's address. */
  lemma ServerGetsWhatGuardianJudged(policy: Policy, a: Arrival)
    ensures var e := EntryOf(policy, a);
      e.Start? ==> |e.payload| >= 4 && exists ps ::
        && IsReadAs(Upstream(e), e.payload[..4], ps) && NamesEndIn(ps, e.ip)
        && e.context == Decide(policy.rules, e.ip, Decode(ServerUser(ps)), Decode(ServerDatabase(ps)), a.now)
        && !e.context.action.Deny?
  {
    OnlyGenuineEntries(policy, a);
    var e := EntryOf(policy, a);
    if e.Start? {
      PacketIsSound(e.payload, e.ip);
      assert IsReadAs(Upstream(e), e.payload[..4], Rewritten(ParsePairs(e.payload), e.ip));
    }
  }
}
