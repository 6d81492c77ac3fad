/** The client-to-server task of every run of the session does what the loop does alone:
    whatever the interleaving, its count of refusals is that of the loop on a backend
    that fails where this one did. */
module SessionLoop {
  import opened Bytes
  import opened Guardian
  import opened Frames
  import opened Loop
  import opened Session
  import opened SessionBackend
  import opened SessionPending

  /** Where the loop stands, for a backend that takes `room` more bytes: before a frame,
      inside a payload, or at the end. */
  datatype Position = AtFrame(s: seq<byte>, room: nat) | InPayload(left: nat, s: seq<byte>, room: nat) | AtEnd

  /** The refusals the loop decides from there. */
  function Count(p: Position, g: Context): nat {
    match p
    case AtFrame(s, room) => Run(s, g, Some(room)).notices
    case InPayload(left, s, room) => var t := Chunks(left, s, Some(room)); Run(t.rest, g, t.room).notices
    case AtEnd => 0
  }

  /** Where the task leaves the loop: a write with no room for all of it fails. */
  function PositionOf(c: ClientTask, r: seq<byte>, room: nat): Position {
    match c
    case ReadTag => AtFrame(r, room)
    case ReadLength(tag) => AtFrame([tag] + r, room)
    case ReadQuery(tag, length) => AtFrame([tag] + length + r, room)
    case WantLock => AtFrame(r, room)
    case SendError(_, _) => AtFrame(r, room)
    case SendReady(_, _) => AtFrame(r, room)
    case SendFrame(todo) => if |todo| <= room then AtFrame(r, room - |todo|) else AtEnd
    case SendHead(todo, left) => if |todo| <= room then InPayload(left, r, room - |todo|) else AtEnd
    case ReadChunk(left) => InPayload(left, r, room)
    case SendChunk(todo, left) => if |todo| <= room then InPayload(left, r, room - |todo|) else AtFrame(r, 0)
    case _ => AtEnd
  }

  /** The refusals the task would still decide. */
  function ToCome(c: ClientTask, r: seq<byte>, g: Context, room: nat): nat {
    Count(PositionOf(c, r, room), g)
  }

  /** What the backend has taken beyond the startup message. */
  function Taken(cfg: Config, x: State): int {
    |x.back| - |cfg.startup|
  }

  /** The refusals decided so far and still to come. */
  function LoopCount(x: State, g: Context, room: nat): nat {
    x.refusals + ToCome(x.c, x.clientRest, g, room)
  }

  /** The loop's count, for a failure point the backend can still have. */
  ghost predicate LoopInv(cfg: Config, x: State) {
    && Taken(cfg, x) >= 0
    && (!x.c.Cancelled? ==> forall room: nat :: IsFailurePoint(cfg, x, room) ==>
          Run(cfg.clientBytes, cfg.context, Some(room)).notices == LoopCount(x, cfg.context, room - Taken(cfg, x)))
  }

  /** A backend that has failed has failed here; one that has not can fail anywhere on. */
  predicate IsFailurePoint(cfg: Config, x: State, room: nat) {
    if x.backDead then room == Taken(cfg, x) else room >= Taken(cfg, x)
  }

  // ---- Reading -----------------------------------------------------------

  /** Reading decides nothing the loop would not. */
  predicate SameCount(x: State, y: State, g: Context, room: nat) {
    LoopCount(x, g, room) == LoopCount(y, g, room)
  }

  lemma ShortIsNothing(s: seq<byte>, g: Context, room: nat)
    requires |s| < 5
    ensures Count(AtFrame(s, room), g) == 0
  {
  }

  lemma TagCounts(cfg: Config, x: State, y: State, room: nat)
    requires x.c.ReadTag? && ClientRead(cfg, x) == Some(y)
    ensures SameCount(x, y, cfg.context, room)
  {
    var r := x.clientRest;
    if r == [] {
      ShortIsNothing(r, cfg.context, room);
    } else {
      assert [r[0]] + r[1..] == r;
    }
  }

  lemma LengthTurn(tag: byte, r: seq<byte>, g: Context, room: nat)
    requires |r| >= 4
    ensures [tag] + r == [tag] + r[..4] + r[4..]
    ensures var n := PayloadLength(r[..4]);
      !IsInspected(tag, n) ==>
        Count(AtFrame([tag] + r, room), g) == Count(if 5 <= room then InPayload(n, r[4..], room - 5) else AtEnd, g)
  {
    var s := [tag] + r;
    assert s[0] == tag && s[1..5] == r[..4] && s[5..] == r[4..];
  }

  lemma LengthNext(cfg: Config, x: State, y: State)
    requires x.c.ReadLength? && ClientRead(cfg, x) == Some(y)
    ensures var tag, r := x.c.tag, x.clientRest;
      if |r| < 4 then y == x.(c := Closing, clientRest := [])
      else if IsInspected(tag, PayloadLength(r[..4])) then y == x.(c := ReadQuery(tag, r[..4]), clientRest := r[4..])
      else y == x.(c := SendHead([tag] + r[..4], PayloadLength(r[..4])), clientRest := r[4..])
  {
  }

  lemma LengthToCome(tag: byte, r: seq<byte>, g: Context, room: nat)
    ensures |r| < 4 ==> ToCome(ReadLength(tag), r, g, room) == 0
    ensures |r| >= 4 ==> var n := PayloadLength(r[..4]);
      ToCome(ReadLength(tag), r, g, room) ==
        ToCome(if IsInspected(tag, n) then ReadQuery(tag, r[..4]) else SendHead([tag] + r[..4], n), r[4..], g, room)
  {
    if |r| < 4 {
      ShortIsNothing([tag] + r, g, room);
    } else {
      LengthTurn(tag, r, g, room);
      assert |[tag] + r[..4]| == 5;
    }
  }

  lemma LengthCounts(cfg: Config, x: State, y: State, room: nat)
    requires x.c.ReadLength? && ClientRead(cfg, x) == Some(y)
    ensures SameCount(x, y, cfg.context, room)
  {
    LengthNext(cfg, x, y);
    LengthToCome(x.c.tag, x.clientRest, cfg.context, room);
    assert ToCome(Closing, [], cfg.context, room) == 0;
  }

  lemma QueryTurn(tag: byte, length: seq<byte>, r: seq<byte>, g: Context, room: nat)
    requires |length| == 4 && IsInspected(tag, PayloadLength(length))
    ensures var n := PayloadLength(length);
      var count := Count(AtFrame([tag] + length + r, room), g);
      if |r| < n then count == 0
      else if !Verdict(r[..n], g) then count == 1 + Count(AtFrame(r[n..], room), g)
      else count == Count(if 5 + n <= room then AtFrame(r[n..], room - (5 + n)) else AtEnd, g)
  {
    var s, n := [tag] + length + r, PayloadLength(length);
    assert s[0] == tag && s[1..5] == length;
    if |r| >= n {
      assert s[5..5 + n] == r[..n] && s[5 + n..] == r[n..];
    }
  }

  lemma FrameToCome(todo: seq<byte>, r: seq<byte>, g: Context, room: nat)
    ensures ToCome(SendFrame(todo), r, g, room)
         == Count(if |todo| <= room then AtFrame(r, room - |todo|) else AtEnd, g)
  {
  }

  lemma QueryToCome(tag: byte, length: seq<byte>, r: seq<byte>, g: Context, room: nat)
    requires |length| == 4 && IsInspected(tag, PayloadLength(length))
    ensures var n := PayloadLength(length);
      ToCome(ReadQuery(tag, length), r, g, room) ==
        if |r| < n then 0
        else if Verdict(r[..n], g) then ToCome(SendFrame([tag] + length + r[..n]), r[n..], g, room)
        else 1 + ToCome(WantLock, r[n..], g, room)
  {
    var n := PayloadLength(length);
    QueryTurn(tag, length, r, g, room);
    if |r| >= n {
      assert |[tag] + length + r[..n]| == 5 + n;
      FrameToCome([tag] + length + r[..n], r[n..], g, room);
    }
  }

  lemma QueryCounts(cfg: Config, x: State, y: State, room: nat)
    requires x.c.ReadQuery? && IsLengthTask(x.c) && ClientRead(cfg, x) == Some(y)
    ensures SameCount(x, y, cfg.context, room)
  {
    QueryNext(cfg, x, y);
    QueryToCome(x.c.tag, x.c.length, x.clientRest, cfg.context, room);
    assert ToCome(Closing, [], cfg.context, room) == 0;
  }

  lemma ChunkTurn(left: nat, r: seq<byte>, g: Context, room: nat)
    requires left > 0
    ensures var k := Min(left, CHUNK);
      Count(InPayload(left, r, room), g) ==
        if |r| < k then Count(AtFrame([], room), g)
        else Count(if k <= room then InPayload(left - k, r[k..], room - k) else AtFrame(r[k..], 0), g)
  {
  }

  lemma ChunkToCome(left: nat, r: seq<byte>, g: Context, room: nat)
    requires left > 0
    ensures var k := Min(left, CHUNK);
      ToCome(ReadChunk(left), r, g, room) ==
        if |r| < k then ToCome(ReadTag, [], g, room) else ToCome(SendChunk(r[..k], left - k), r[k..], g, room)
  {
    ChunkTurn(left, r, g, room);
  }

  lemma ChunkCounts(cfg: Config, x: State, y: State, room: nat)
    requires x.c.ReadChunk? && IsLengthTask(x.c) && ClientRead(cfg, x) == Some(y)
    ensures SameCount(x, y, cfg.context, room)
  {
    ChunkNext(cfg, x, y);
    ChunkToCome(x.c.left, x.clientRest, cfg.context, room);
  }

  lemma ReadCounts(cfg: Config, x: State, y: State, room: nat)
    requires IsLengthTask(x.c) && ClientRead(cfg, x) == Some(y)
    ensures SameCount(x, y, cfg.context, room)
  {
    if x.c.ReadTag? {
      TagCounts(cfg, x, y, room);
    } else if x.c.ReadLength? {
      LengthCounts(cfg, x, y, room);
    } else if x.c.ReadQuery? {
      QueryCounts(cfg, x, y, room);
    } else if x.c.ReadChunk? {
      ChunkCounts(cfg, x, y, room);
    } else {
      assert x.c.Closing?;
    }
  }

  /** More bytes taken, the same count for every failure point that is left. */
  lemma SameCountsKeepLoopInv(cfg: Config, x: State, y: State)
    requires LoopInv(cfg, x) && !x.c.Cancelled? && x.backDead == y.backDead
    requires if x.backDead then Taken(cfg, y) == Taken(cfg, x) else Taken(cfg, y) >= Taken(cfg, x)
    requires forall room: nat :: IsFailurePoint(cfg, y, room) ==>
      LoopCount(x, cfg.context, room - Taken(cfg, x)) == LoopCount(y, cfg.context, room - Taken(cfg, y))
    ensures LoopInv(cfg, y)
  {
    forall room: nat | IsFailurePoint(cfg, y, room)
      ensures Run(cfg.clientBytes, cfg.context, Some(room)).notices == LoopCount(y, cfg.context, room - Taken(cfg, y))
    {
      assert IsFailurePoint(cfg, x, room);
    }
  }

  lemma ReadKeepsLoopInv(cfg: Config, x: State, y: State)
    requires IsLengthTask(x.c) && LoopInv(cfg, x) && ClientRead(cfg, x) == Some(y)
    ensures LoopInv(cfg, y)
  {
    ReadShape(cfg, x, y);
    forall room: nat | IsFailurePoint(cfg, y, room)
      ensures LoopCount(x, cfg.context, room - Taken(cfg, x)) == LoopCount(y, cfg.context, room - Taken(cfg, y))
    {
      ReadCounts(cfg, x, y, room - Taken(cfg, x));
    }
    SameCountsKeepLoopInv(cfg, x, y);
  }

  // ---- Writing -----------------------------------------------------------

  lemma AfterChunkCounts(left: nat, r: seq<byte>, g: Context, room: nat)
    ensures ToCome(AfterChunk(left), r, g, room) == Count(InPayload(left, r, room), g)
  {
  }

  lemma FrameWriteCounts(todo: seq<byte>, r: seq<byte>, g: Context, room: nat, n: nat)
    requires 0 < n <= |todo| && n <= room
    ensures ToCome(SendFrame(todo), r, g, room)
         == ToCome(if n == |todo| then ReadTag else SendFrame(todo[n..]), r, g, room - n)
  {
  }

  lemma HeadWriteCounts(todo: seq<byte>, left: nat, r: seq<byte>, g: Context, room: nat, n: nat)
    requires 0 < n <= |todo| && n <= room
    ensures ToCome(SendHead(todo, left), r, g, room)
         == ToCome(if n == |todo| then AfterChunk(left) else SendHead(todo[n..], left), r, g, room - n)
  {
    if n == |todo| {
      AfterChunkCounts(left, r, g, room - n);
    }
  }

  lemma ChunkWriteCounts(todo: seq<byte>, left: nat, r: seq<byte>, g: Context, room: nat, n: nat)
    requires 0 < n <= |todo| && n <= room
    ensures ToCome(SendChunk(todo, left), r, g, room)
         == ToCome(if n == |todo| then AfterChunk(left) else SendChunk(todo[n..], left), r, g, room - n)
  {
    if n == |todo| {
      AfterChunkCounts(left, r, g, room - n);
    }
  }

  lemma WriteNext(x: State, y: State, n: nat)
    requires BackendWrite(x, n) == Some(y)
    ensures x.c.SendFrame? || x.c.SendHead? || x.c.SendChunk?
    ensures 0 < n <= |x.c.todo| && y.clientRest == x.clientRest
    ensures y.refusals == x.refusals && |y.back| == |x.back| + n && !x.backDead && !y.backDead && !y.c.Cancelled?
    ensures y.c == match x.c
      case SendFrame(todo) => if n == |todo| then ReadTag else SendFrame(todo[n..])
      case SendHead(todo, left) => if n == |todo| then AfterChunk(left) else SendHead(todo[n..], left)
      case SendChunk(todo, left) => if n == |todo| then AfterChunk(left) else SendChunk(todo[n..], left)
  {
  }

  lemma WriteCounts(x: State, y: State, n: nat, g: Context, room: nat)
    requires BackendWrite(x, n) == Some(y) && room >= n
    ensures ToCome(x.c, x.clientRest, g, room) == ToCome(y.c, y.clientRest, g, room - n)
  {
    WriteNext(x, y, n);
    match x.c
    case SendFrame(todo) => FrameWriteCounts(todo, x.clientRest, g, room, n);
    case SendHead(todo, left) => HeadWriteCounts(todo, left, x.clientRest, g, room, n);
    case SendChunk(todo, left) => ChunkWriteCounts(todo, left, x.clientRest, g, room, n);
  }

  lemma WriteKeepsLoopInv(cfg: Config, x: State, y: State, n: nat)
    requires LoopInv(cfg, x) && BackendWrite(x, n) == Some(y)
    ensures LoopInv(cfg, y)
  {
    WriteNext(x, y, n);
    forall room: nat | IsFailurePoint(cfg, y, room)
      ensures LoopCount(x, cfg.context, room - Taken(cfg, x)) == LoopCount(y, cfg.context, room - Taken(cfg, y))
    {
      WriteCounts(x, y, n, cfg.context, room - Taken(cfg, x));
    }
    SameCountsKeepLoopInv(cfg, x, y);
  }

  lemma FailCounts(c: ClientTask, r: seq<byte>, g: Context)
    ensures c.SendFrame? && c.todo != [] ==> ToCome(c, r, g, 0) == ToCome(Closing, r, g, 0)
    ensures c.SendHead? && c.todo != [] ==> ToCome(c, r, g, 0) == ToCome(Closing, r, g, 0)
    ensures c.SendChunk? && c.todo != [] ==> ToCome(c, r, g, 0) == ToCome(ReadTag, r, g, 0)
  {
  }

  /** A write that fails here has no room for what it holds. */
  lemma FailKeepsLoopInv(cfg: Config, x: State, y: State)
    requires HasBytes(cfg, x.c) && LoopInv(cfg, x) && BackendFail(x) == Some(y)
    ensures LoopInv(cfg, y)
  {
    assert IsFailurePoint(cfg, x, Taken(cfg, x));
    FailCounts(x.c, x.clientRest, cfg.context);
    assert y.c == (if x.c.SendChunk? then ReadTag else Closing) && y.refusals == x.refusals;
  }

  // ---- Every step --------------------------------------------------------

  lemma RefusingCounts(c: ClientTask, d: ClientTask, r: seq<byte>, g: Context, room: nat)
    requires d == c || (IsRefusing(c) && (IsRefusing(d) || d.ReadTag?))
    ensures ToCome(c, r, g, room) == ToCome(d, r, g, room)
  {
  }

  lemma AccountKeepsLoopInv(cfg: Config, x: State, y: State)
    requires LoopInv(cfg, x) && SameAccount(x, y)
    ensures LoopInv(cfg, y)
  {
    if !y.c.Cancelled? {
      forall room: nat | IsFailurePoint(cfg, y, room)
        ensures LoopCount(x, cfg.context, room - Taken(cfg, x)) == LoopCount(y, cfg.context, room - Taken(cfg, y))
      {
        RefusingCounts(x.c, y.c, x.clientRest, cfg.context, room - Taken(cfg, x));
      }
      SameCountsKeepLoopInv(cfg, x, y);
    }
  }

  lemma ClientKeepsLoopInv(cfg: Config, x: State, y: State)
    requires IsLengthTask(x.c) && HasBytes(cfg, x.c) && LoopInv(cfg, x) && ClientStep(cfg, x, y)
    ensures LoopInv(cfg, y)
  {
    if ClientRead(cfg, x) == Some(y) {
      ReadKeepsLoopInv(cfg, x, y);
    } else if BackendFail(x) == Some(y) {
      FailKeepsLoopInv(cfg, x, y);
    } else if n: nat :| BackendWrite(x, n) == Some(y) {
      WriteKeepsLoopInv(cfg, x, y, n);
    } else {
      var n: nat :| ClientLocks(cfg, x) == Some(y) || RefusalFail(x) == Some(y) || RefusalWrite(x, n) == Some(y);
      RefusalStep(cfg, x, y, n);
      AccountKeepsLoopInv(cfg, x, y);
    }
  }

  lemma StepKeepsLoopInv(cfg: Config, x: State, y: State)
    requires IsLengthTask(x.c) && HasBytes(cfg, x.c) && LoopInv(cfg, x) && Next(cfg, x, y)
    ensures LoopInv(cfg, y)
  {
    if ServerStep(x, y) {
      ServerStepAccount(x, y);
      AccountKeepsLoopInv(cfg, x, y);
    } else if JoinStep(x, y) {
      JoinStepAccount(x, y);
      AccountKeepsLoopInv(cfg, x, y);
    } else {
      ClientKeepsLoopInv(cfg, x, y);
    }
  }

  lemma InitialLoopInv(cfg: Config)
    ensures LoopInv(cfg, Initial(cfg))
  {
  }
}
