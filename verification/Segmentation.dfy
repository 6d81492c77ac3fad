/** What the reads a client's bytes arrive in do to the negotiation. A reader that is
    taken apart forgets what it read ahead; these are exactly the byte streams for which
    that cannot matter. */
module Segmentation {
  import opened Bytes
  import opened Startup
  import opened Wire
  import opened Handshake

  /** The buffer of a `BufReader`, in bytes: what one read takes at most. */
  const CAPACITY := 8192

  /** No read takes more than `cap` bytes. */
  predicate IsBounded(s: Src, cap: nat) {
    |s.ahead| <= cap && forall r :: r in s.arrivals ==> |r| <= cap
  }

  // ---- What a bounded reader loses ---------------------------------------

  lemma {:induction false} DropLeavesLess(s: Src, n: nat, cap: nat)
    requires n <= |All(s)| && |s.ahead| < n + cap
    requires forall r :: r in s.arrivals ==> |r| <= cap
    ensures var d := Drop(s, n);
      |d.ahead| < cap && forall r :: r in d.arrivals ==> |r| <= cap
    decreases |s.arrivals|
  {
    if n > |s.ahead| {
      var t := Src(s.ahead + s.arrivals[0], s.arrivals[1..]);
      assert All(s) == All(t);
      assert s.arrivals[0] in s.arrivals;
      DropLeavesLess(t, n, cap);
    }
  }

  /** Behind the first packet the loop sees a suffix that is short of at most one read. */
  lemma AfterFirstLosesLess(s: Src, cap: nat) returns (j: nat)
    requires FirstPacket(All(s)).Packet? && IsBounded(s, cap)
    ensures var rest := All(s)[|FirstPacket(All(s)).payload| + 4..];
      j < cap && j <= |rest| && All(AfterFirst(s)) == rest[j..] && IsBounded(AfterFirst(s), cap)
  {
    var n := |FirstPacket(All(s)).payload| + 4;
    DropLeavesLess(s, n, cap);
    var d := Drop(s, n);
    j := |d.ahead|;
    assert All(d)[j..] == All(AfterFirst(s));
  }

  // ---- Reads of one byte -------------------------------------------------

  /** Every byte in a read of its own. */
  function Singles(b: seq<byte>): (r: seq<seq<byte>>)
    ensures |r| == |b| && forall i :: 0 <= i < |b| ==> r[i] == [b[i]]
  {
    seq(|b|, i requires 0 <= i < |b| => [b[i]])
  }

  lemma {:induction false} AllOfSingles(b: seq<byte>)
    ensures Concat(Singles(b)) == b
  {
    if b != [] {
      assert Singles(b)[1..] == Singles(b[1..]);
      AllOfSingles(b[1..]);
      assert [b[0]] + b[1..] == b;
    }
  }

  lemma AllBehindSingles(x: seq<byte>, f: seq<byte>, more: seq<seq<byte>>)
    ensures All(Src(x, Singles(f) + more)) == x + f + Concat(more)
  {
    ConcatAppend(Singles(f), more);
    AllOfSingles(f);
    Assoc(x, f, Concat(more));
  }

  lemma OneSingle(x: seq<byte>, f: seq<byte>, more: seq<seq<byte>>)
    requires f != []
    ensures (Singles(f) + more)[0] == [f[0]] && (Singles(f) + more)[1..] == Singles(f[1..]) + more
    ensures x + [f[0]] + f[1..] == x + f
  {
  }

  /** Bytes that come one by one are taken in one by one. */
  lemma {:induction false} DropSingles(x: seq<byte>, f: seq<byte>, more: seq<seq<byte>>, n: nat)
    requires |x| + |f| < n <= |x| + |f| + |Concat(more)|
    ensures |All(Src(x, Singles(f) + more))| == |All(Src(x + f, more))| >= n
    ensures Drop(Src(x, Singles(f) + more), n) == Drop(Src(x + f, more), n)
    decreases |f|
  {
    AllBehindSingles(x, f, more);
    if f == [] {
      assert x + f == x && Singles(f) + more == more;
    } else {
      OneSingle(x, f, more);
      DropSingles(x + [f[0]], f[1..], more, n);
    }
  }

  /** Reads that lose `lost` behind the packet `front`: its bytes come one by one, but the
      last one with `lost`. */
  function Losing(front: seq<byte>, lost: seq<byte>, later: seq<seq<byte>>): Src
    requires front != []
  {
    var k := |front| - 1;
    Src([], Singles(front[..k]) + ([[front[k]] + lost] + later))
  }

  lemma LastChunk(f: seq<byte>, last: byte, lost: seq<byte>, later: seq<seq<byte>>)
    ensures var more := [[last] + lost] + later; var front := f + [last];
      && f + Concat(more) == front + lost + Concat(later)
      && |Concat(more)| >= 1
      && Drop(Src(f, more), |front|) == Src(lost, later)
  {
    var more, front := [[last] + lost] + later, f + [last];
    assert more[1..] == later && more[0] == [last] + lost;
    Assoc(f, [last] + lost, Concat(later));
    assert f + ([last] + lost) == front + lost;
    assert (f + ([last] + lost))[|front|..] == lost;
  }

  lemma LosingLoses(front: seq<byte>, lost: seq<byte>, later: seq<seq<byte>>)
    requires front != []
    ensures var s := Losing(front, lost, later);
      All(s) == front + lost + Concat(later) && Drop(s, |front|) == Src(lost, later)
  {
    var k := |front| - 1;
    var f, more := front[..k], [[front[k]] + lost] + later;
    assert f + [front[k]] == front && [] + f == f;
    LastChunk(f, front[k], lost, later);
    AllBehindSingles([], f, more);
    DropSingles([], f, more, |front|);
  }

  lemma NothingLost(front: seq<byte>, rest: seq<byte>)
    requires front != []
    ensures Losing(front, [], Singles(rest)) == Src([], Singles(front + rest))
  {
    var k := |front| - 1;
    assert [front[k]] + [] == [front[k]];
    assert Singles(front[..k]) + ([[front[k]]] + Singles(rest)) == Singles(front + rest);
  }

  lemma AllOneByOne(b: seq<byte>)
    ensures All(Src([], Singles(b))) == b
  {
    AllOfSingles(b);
    assert [] + b == b;
  }

  lemma NoPacketIsLockStep(s: Src, tls: Tls)
    requires !FirstPacket(All(s)).Packet?
    ensures LockStep(s, tls)
  {
  }

  /** A client whose bytes come one by one has nothing read ahead. */
  lemma {:induction false} SinglesAreLockStep(b: seq<byte>, tls: Tls)
    ensures LockStep(Src([], Singles(b)), tls)
    decreases |b|
  {
    var s := Src([], Singles(b));
    AllOneByOne(b);
    if FirstPacket(b).Packet? {
      var n := |FirstPacket(b).payload| + 4;
      OneByOne(b, n);
      SinglesAreLockStep(b[n..], tls);
      StepBehind(s, Src([], Singles(b[n..])), tls);
    } else {
      NoPacketIsLockStep(s, tls);
    }
  }

  lemma OneByOne(b: seq<byte>, n: nat)
    requires 0 < n <= |b|
    ensures |All(Src([], Singles(b)))| == |b| && Drop(Src([], Singles(b)), n) == Src([], Singles(b[n..]))
  {
    assert b[..n] + b[n..] == b;
    NothingLost(b[..n], b[n..]);
    LosingLoses(b[..n], [], Singles(b[n..]));
    AllOfSingles(b[n..]);
  }

  lemma StepBehind(s: Src, t: Src, tls: Tls)
    requires FirstPacket(All(s)).Packet? && Drop(s, |FirstPacket(All(s)).payload| + 4) == t
    requires t.ahead == [] && LockStep(t, tls)
    ensures LockStep(s, tls)
  {
    assert AfterFirst(s) == t;
  }

  // ---- What an outcome says of the bytes ---------------------------------

  /** The negotiation has the outcome the bytes call for. */
  predicate IsRight(s: Src, tls: Tls) {
    IsOutcomeOf(Negotiate(s, tls, None).0, Negotiate(s, tls, None).1, All(s), tls, None)
  }

  /** What an outcome tells of the first packet. */
  predicate Tells(hello: Hello, r: seq<byte>, x: seq<byte>, tls: Tls) {
    match FirstPacket(x)
    case Short => hello.IoError? && r == []
    case BadLength => hello.ProtocolError? && r == []
    case Packet(p) =>
      if IsDeclined(p, tls) then r != [] && r[0] == REFUSE
      else if Version(p) == CANCEL_REQUEST then hello == Cancel(p) && r == []
      else if Version(p) == SSL_REQUEST then r == [ACCEPT]
      else hello.Session? && hello.payload == p && r == [] && All(hello.rest) == x[|p| + 4..]
  }

  lemma DeclinedCount(x: seq<byte>, tls: Tls)
    requires FirstPacket(x).Packet?
    ensures |Packets(x)| > 0 && Packets(x)[0] == FirstPacket(x).payload
    ensures Declined(x, tls) > 0 <==> IsDeclined(FirstPacket(x).payload, tls)
    ensures Behind(x, 1) == x[|FirstPacket(x).payload| + 4..]
  {
    assert Behind(x, 1) == Behind(x[|FirstPacket(x).payload| + 4..], 0);
  }

  lemma OutcomeTells(hello: Hello, r: seq<byte>, x: seq<byte>, tls: Tls)
    requires IsOutcomeOf(hello, r, x, tls, None)
    ensures Tells(hello, r, x, tls)
  {
    if FirstPacket(x).Packet? {
      DeclinedCount(x, tls);
      assert Repeat(REFUSE, 0) + [ACCEPT] == [ACCEPT];
    } else {
      assert Packets(x) == [] && Declined(x, tls) == 0;
    }
  }

  lemma RequestCodeBytes(b: seq<byte>)
    requires |b| == 4 && IsRequestCode(Be32(b))
    ensures b[0] == 4 && b[1] == 210
  {
    assert Be32([4, 210, 22, 46]) == CANCEL_REQUEST;
    assert Be32([4, 210, 22, 47]) == SSL_REQUEST;
    assert Be32([4, 210, 22, 48]) == GSSENC_REQUEST;
    Be32Injective(b, [4, 210, 22, if Be32(b) == CANCEL_REQUEST then 46 else if Be32(b) == SSL_REQUEST then 47 else 48]);
  }

  lemma CodeOfFirst(x: seq<byte>)
    requires FirstPacket(x).Packet?
    ensures |x| >= 8 && Version(FirstPacket(x).payload) == Be32(x[4..8])
  {
    var p := FirstPacket(x).payload;
    assert x[..|p| + 4][4..] == p;
    assert p[..4] == x[4..8];
  }

  /** Two packets that start one byte apart are not both requests. */
  lemma ShiftedRequests(x: seq<byte>)
    requires FirstPacket(x).Packet? && FirstPacket(x[1..]).Packet?
    ensures !(IsRequestCode(Version(FirstPacket(x).payload)) && IsRequestCode(Version(FirstPacket(x[1..]).payload)))
  {
    CodeOfFirst(x);
    CodeOfFirst(x[1..]);
    assert x[1..][4..8] == x[5..9];
    if IsRequestCode(Be32(x[4..8])) && IsRequestCode(Be32(x[5..9])) {
      RequestCodeBytes(x[4..8]);
      RequestCodeBytes(x[5..9]);
      assert false;
    }
  }

  /** No outcome is right for two streams whose first packets differ in kind, nor for a
      packet and what starts one byte behind it. */
  lemma NoCommonOutcome(hello: Hello, r: seq<byte>, x: seq<byte>, y: seq<byte>, tls: Tls)
    requires if FirstPacket(x).Packet? then y == x[1..] else FirstPacket(y) != FirstPacket(x)
    ensures !(Tells(hello, r, x, tls) && Tells(hello, r, y, tls))
  {
    if FirstPacket(x).Packet? && FirstPacket(y).Packet? {
      ShiftedRequests(x);
    }
  }

  // ---- Which bytes are safe ----------------------------------------------

  /** The bytes behind the first packet. */
  function Rest(a: seq<byte>): seq<byte>
    requires FirstPacket(a).Packet?
  {
    a[|FirstPacket(a).payload| + 4..]
  }

  /** Whatever is lost of a stream, up to `cap` bytes less one, its first packet is the same
      kind of failure. */
  predicate FailsAlike(rest: seq<byte>, cap: nat) {
    && !FirstPacket(rest).Packet?
    && forall j :: 0 <= j < cap && j <= |rest| ==> FirstPacket(rest[j..]) == FirstPacket(rest)
  }

  /** What a reader of up to `cap` bytes a read can lose of these bytes does not matter. */
  predicate IsSafe(a: seq<byte>, tls: Tls, cap: nat) {
    match FirstPacket(a)
    case Packet(p) =>
      if IsDeclined(p, tls) then FailsAlike(Rest(a), cap)
      else IsRequestCode(Version(p)) || Rest(a) == []
    case _ => true
  }

  ghost predicate IsRightInAnyReads(a: seq<byte>, tls: Tls, cap: nat) {
    forall s :: All(s) == a && IsBounded(s, cap) ==> IsRight(s, tls)
  }

  // ---- Safe bytes --------------------------------------------------------

  lemma SafeSession(s: Src, tls: Tls)
    requires FirstPacket(All(s)).Packet? && !IsDeclined(FirstPacket(All(s)).payload, tls)
    requires IsRequestCode(Version(FirstPacket(All(s)).payload)) || Rest(All(s)) == []
    ensures IsRight(s, tls)
  {
    if Rest(All(s)) == [] {
      NothingBehind(s);
    }
    LockStepOutcome(s, tls, None);
  }

  lemma SafeDecline(s: Src, tls: Tls, cap: nat)
    requires FirstPacket(All(s)).Packet? && IsDeclined(FirstPacket(All(s)).payload, tls) && IsBounded(s, cap)
    requires FailsAlike(Rest(All(s)), cap)
    ensures IsRight(s, tls)
  {
    var rest := Rest(All(s));
    var j := AfterFirstLosesLess(s, cap);
    assert FirstPacket(rest[j..]) == FirstPacket(rest);
    FailsAtOnce(AfterFirst(s), tls);
    FailureIsRight(rest, tls);
    DeclinedReadsOn(s, tls);
    OutcomeBehindDeclined(Failure(rest), [], All(s), rest, tls, None);
  }

  lemma FailsAtOnce(s: Src, tls: Tls)
    requires !FirstPacket(All(s)).Packet?
    ensures Negotiate(s, tls, None) == (Failure(All(s)), [])
  {
  }

  lemma FailureIsRight(rest: seq<byte>, tls: Tls)
    requires !FirstPacket(rest).Packet?
    ensures IsOutcomeOf(Failure(rest), [], rest, tls, None)
  {
    assert Packets(rest) == [] && Declined(rest, tls) == 0;
    assert Repeat(REFUSE, 0) == [];
  }

  lemma SafeBytesAreRight(s: Src, tls: Tls, cap: nat)
    requires IsBounded(s, cap) && IsSafe(All(s), tls, cap)
    ensures IsRight(s, tls)
  {
    if !FirstPacket(All(s)).Packet? {
      NoPacketFails(s, tls, None);
    } else if IsDeclined(FirstPacket(All(s)).payload, tls) {
      SafeDecline(s, tls, cap);
    } else {
      SafeSession(s, tls);
    }
  }

  // ---- Bytes that are not ------------------------------------------------

  /** Reads of `a` that lose `j` of its bytes behind the first `n`, and no more. */
  function CutReads(a: seq<byte>, n: nat, j: nat): Src
    requires 0 < n && n + j <= |a|
  {
    Losing(a[..n], a[n..][..j], Singles(a[n..][j..]))
  }

  lemma InThree(a: seq<byte>, n: nat, j: nat)
    requires n + j <= |a|
    ensures a[..n] + a[n..][..j] + a[n..][j..] == a && |a[n..][..j]| == j
  {
  }

  lemma LosingIsBounded(front: seq<byte>, lost: seq<byte>, later: seq<seq<byte>>)
    requires front != [] && forall r :: r in later ==> |r| <= 1
    ensures IsBounded(Losing(front, lost, later), |lost| + 1)
  {
  }

  lemma CutReadsLose(a: seq<byte>, n: nat, j: nat)
    requires 0 < n && n + j <= |a|
    ensures var s := CutReads(a, n, j);
      All(s) == a && IsBounded(s, j + 1) && Drop(s, n) == Src(a[n..][..j], Singles(a[n..][j..]))
  {
    var later := Singles(a[n..][j..]);
    InThree(a, n, j);
    LosingLoses(a[..n], a[n..][..j], later);
    AllOfSingles(a[n..][j..]);
    LosingIsBounded(a[..n], a[n..][..j], later);
  }

  /** Reads of `a` that lose the first `j` bytes behind its first packet, and no more. */
  function LosingReads(a: seq<byte>, j: nat): Src
    requires FirstPacket(a).Packet? && j <= |Rest(a)|
  {
    CutReads(a, |FirstPacket(a).payload| + 4, j)
  }

  lemma BehindDropped(s: Src, a: seq<byte>, n: nat, d: Src)
    requires All(s) == a && FirstPacket(a).Packet? && n == |FirstPacket(a).payload| + 4 && Drop(s, n) == d
    ensures AfterFirst(s) == Reattached(d)
  {
  }

  lemma LosingReadsLose(a: seq<byte>, j: nat)
    requires FirstPacket(a).Packet? && j <= |Rest(a)|
    ensures var s := LosingReads(a, j);
      All(s) == a && IsBounded(s, j + 1) && AfterFirst(s) == Src([], Singles(Rest(a)[j..]))
  {
    var n := |FirstPacket(a).payload| + 4;
    CutReadsLose(a, n, j);
    BehindDropped(LosingReads(a, j), a, n, Src(a[n..][..j], Singles(a[n..][j..])));
  }

  lemma RightBehindDeclined(hello: Hello, r: seq<byte>, a: seq<byte>, tls: Tls)
    requires FirstPacket(a).Packet? && IsDeclined(FirstPacket(a).payload, tls)
    requires IsOutcomeOf(hello, [REFUSE] + r, a, tls, None)
    ensures IsOutcomeOf(hello, r, Rest(a), tls, None)
  {
    var k := Declined(Rest(a), tls);
    DeclinedInFront(a, tls);
    OneMoreReply(k);
    assert ([REFUSE] + r)[1..] == r;
    assert ([REFUSE] + Repeat(REFUSE, k))[1..] == Repeat(REFUSE, k);
    assert ([REFUSE] + (Repeat(REFUSE, k) + [ACCEPT]))[1..] == Repeat(REFUSE, k) + [ACCEPT];
  }

  lemma LostDeclineIsWrong(a: seq<byte>, tls: Tls, j: nat)
    requires FirstPacket(a).Packet? && IsDeclined(FirstPacket(a).payload, tls) && j <= |Rest(a)|
    requires if FirstPacket(Rest(a)).Packet? then j == 1 else FirstPacket(Rest(a)[j..]) != FirstPacket(Rest(a))
    ensures !IsRight(LosingReads(a, j), tls)
  {
    var s, rest := LosingReads(a, j), Rest(a);
    var t := Src([], Singles(rest[j..]));
    LosingReadsLose(a, j);
    AllOneByOne(rest[j..]);
    SinglesAreLockStep(rest[j..], tls);
    LockStepOutcome(t, tls, None);
    var (hello, r) := Negotiate(t, tls, None);
    OutcomeTells(hello, r, rest[j..], tls);
    DeclinedReadsOn(s, tls);
    if IsRight(s, tls) {
      RightBehindDeclined(hello, r, a, tls);
      OutcomeTells(hello, r, rest, tls);
      NoCommonOutcome(hello, r, rest, rest[j..], tls);
    }
  }

  lemma DeclinedReadsOn(s: Src, tls: Tls)
    requires FirstPacket(All(s)).Packet? && IsDeclined(FirstPacket(All(s)).payload, tls)
    ensures var rest := Negotiate(AfterFirst(s), tls, None); Negotiate(s, tls, None) == (rest.0, [REFUSE] + rest.1)
  {
    assert NextMove(s, tls).Decline?;
    DeclineIsDeclined(s, tls, None);
  }

  lemma LostSessionIsWrong(a: seq<byte>, tls: Tls)
    requires FirstPacket(a).Packet? && !IsRequestCode(Version(FirstPacket(a).payload)) && Rest(a) != []
    ensures !IsRight(LosingReads(a, 1), tls)
  {
    var s := LosingReads(a, 1);
    LosingReadsLose(a, 1);
    AllOneByOne(Rest(a)[1..]);
    var (hello, r) := Negotiate(s, tls, None);
    assert hello.Session? && All(hello.rest) == Rest(a)[1..];
    if IsRight(s, tls) {
      OutcomeTells(hello, r, a, tls);
    }
  }

  lemma UnsafeBytesGoWrong(a: seq<byte>, tls: Tls, cap: nat) returns (s: Src)
    requires cap >= 2 && !IsSafe(a, tls, cap)
    ensures All(s) == a && IsBounded(s, cap) && !IsRight(s, tls)
  {
    var j: nat := 1;
    if !IsDeclined(FirstPacket(a).payload, tls) {
      LostSessionIsWrong(a, tls);
    } else {
      if FirstPacket(Rest(a)).Packet? {
        assert Rest(a) != [];
      } else {
        j :| 0 <= j < cap && j <= |Rest(a)| && FirstPacket(Rest(a)[j..]) != FirstPacket(Rest(a));
      }
      LostDeclineIsWrong(a, tls, j);
    }
    LosingReadsLose(a, j);
    s := LosingReads(a, j);
  }

  /** The negotiation has the outcome its bytes call for, whatever reads of up to `cap`
      bytes they arrive in, if and only if nothing that can be lost matters: the bytes
      start with no packet, a cancellation or a request TLS answers; or with a startup
      packet and nothing behind it; or with a declined request and, behind it, what fails
      in the same way wherever it is taken up. */
  lemma RightInAnyReadsIff(a: seq<byte>, tls: Tls, cap: nat)
    requires cap >= 2
    ensures IsRightInAnyReads(a, tls, cap) <==> IsSafe(a, tls, cap)
  {
    if IsSafe(a, tls, cap) {
      forall s | All(s) == a && IsBounded(s, cap) ensures IsRight(s, tls) {
        SafeBytesAreRight(s, tls, cap);
      }
    } else {
      var s := UnsafeBytesGoWrong(a, tls, cap);
    }
  }

  /** For the reader the code uses. */
  lemma NegotiationIsRightIff(a: seq<byte>, tls: Tls)
    ensures IsRightInAnyReads(a, tls, CAPACITY) <==> IsSafe(a, tls, CAPACITY)
  {
    RightInAnyReadsIff(a, tls, CAPACITY);
  }

  // ---- Reads of any size -------------------------------------------------

  /** Nothing behind the first packet, or every end of it too short to be anything. */
  predicate IsSafeInAnyReads(a: seq<byte>, tls: Tls) {
    match FirstPacket(a)
    case Packet(p) =>
      if IsDeclined(p, tls) then forall j :: 0 <= j <= |Rest(a)| ==> FirstPacket(Rest(a)[j..]).Short?
      else IsRequestCode(Version(p)) || Rest(a) == []
    case _ => true
  }

  lemma {:induction false} ArrivalsFit(arrivals: seq<seq<byte>>)
    ensures forall r :: r in arrivals ==> |r| <= |Concat(arrivals)|
  {
    if arrivals != [] {
      ArrivalsFit(arrivals[1..]);
    }
  }

  lemma SafeInAnyReads(a: seq<byte>, tls: Tls)
    ensures IsSafeInAnyReads(a, tls) <==> IsSafe(a, tls, |a| + 2)
  {
    if FirstPacket(a).Packet? && IsSafe(a, tls, |a| + 2) && IsDeclined(FirstPacket(a).payload, tls) {
      var rest := Rest(a);
      assert rest[|rest|..] == [] && FirstPacket([]).Short?;
    }
    if FirstPacket(a).Packet? && IsSafeInAnyReads(a, tls) && IsDeclined(FirstPacket(a).payload, tls) {
      assert Rest(a)[0..] == Rest(a);
    }
  }

  /** The same for a reader that takes in whole reads of any size. */
  lemma RightInReadsOfAnySizeIff(a: seq<byte>, tls: Tls)
    ensures (forall s :: All(s) == a ==> IsRight(s, tls)) <==> IsSafeInAnyReads(a, tls)
  {
    SafeInAnyReads(a, tls);
    RightInAnyReadsIff(a, tls, |a| + 2);
    forall s | All(s) == a ensures IsBounded(s, |a| + 2) {
      ArrivalsFit(s.arrivals);
    }
  }

  // ---- What is lost, and where -------------------------------------------

  /** Whatever arrives in the same read as a plaintext startup packet is lost: the session
      goes on with what comes later. */
  lemma ReadAheadOfTheSessionIsLost(payload: seq<byte>, extra: seq<byte>, later: seq<seq<byte>>, tls: Tls)
    requires 4 <= |payload| <= MAX_STARTUP_PACKET_LENGTH - 4 && !IsRequestCode(Version(payload))
    ensures Negotiate(Src([], [Framed(payload) + extra] + later), tls, None)
         == (Session(payload, Src([], later), false), [])
  {
    var s, packet := Src([], [Framed(payload) + extra] + later), Framed(payload);
    assert s.arrivals[1..] == later;
    assert All(s) == packet + (extra + Concat(later));
    FramedIsFirst(payload, extra + Concat(later));
    assert Drop(s, |packet|) == Drop(Src([] + (packet + extra), later), |packet|);
    assert AfterFirst(s) == Src([], later);
  }

  /** Inside TLS a session goes on right behind its startup packet if and only if nothing
      was read ahead of it. */
  lemma TlsSessionIsWholeIff(inner: Src)
    requires FirstPacket(All(inner)).Packet?
    ensures Secured(Accepting(inner)).Session?
    ensures All(Secured(Accepting(inner)).rest) == Rest(All(inner)) <==> NothingAhead(inner)
  {
    var d := Drop(inner, |FirstPacket(All(inner)).payload| + 4);
    assert |All(d)| == |d.ahead| + |Concat(d.arrivals)|;
    assert All(Reattached(d)) == Concat(d.arrivals);
    if d.ahead == [] {
      assert All(d) == All(Reattached(d));
    }
  }

  /** And on bytes: however they arrive, if and only if nothing is behind the packet. */
  lemma TlsSessionIsWholeInAnyReadsIff(b: seq<byte>, cap: nat)
    requires cap >= 2 && FirstPacket(b).Packet?
    ensures (forall inner :: All(inner) == b && IsBounded(inner, cap) ==>
               All(Secured(Accepting(inner)).rest) == Rest(b)) <==> Rest(b) == []
  {
    if Rest(b) == [] {
      forall inner | All(inner) == b && IsBounded(inner, cap)
        ensures All(Secured(Accepting(inner)).rest) == Rest(b)
      {
        NothingBehind(inner);
        TlsSessionIsWholeIff(inner);
      }
    } else {
      var inner := LosingReads(b, 1);
      LosingReadsLose(b, 1);
      LostTlsSession(b);
    }
  }

  lemma NothingBehind(inner: Src)
    requires FirstPacket(All(inner)).Packet? && Rest(All(inner)) == []
    ensures NothingAhead(inner)
  {
    assert All(Drop(inner, |FirstPacket(All(inner)).payload| + 4)) == [];
  }

  lemma LostTlsSession(b: seq<byte>)
    requires FirstPacket(b).Packet? && Rest(b) != []
    ensures var hello := Secured(Accepting(LosingReads(b, 1))); hello.Session? && All(hello.rest) != Rest(b)
  {
    LosingReadsLose(b, 1);
    AllOneByOne(Rest(b)[1..]);
    SecuredIsBehindFirst(LosingReads(b, 1));
  }

  lemma SecuredIsBehindFirst(inner: Src)
    requires FirstPacket(All(inner)).Packet?
    ensures Secured(Accepting(inner)) == Session(FirstPacket(All(inner)).payload, AfterFirst(inner), true)
  {
  }
}
