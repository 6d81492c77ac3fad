/** What the backend receives in every run of the session. */
module SessionBackend {
  import opened Bytes
  import opened Guardian
  import opened Frames
  import opened Session

  /** A blind payload with `left` bytes to go, then everything after it. */
  function ChunkResidual(left: nat, r: seq<byte>, g: Context): seq<byte> {
    BlindSent(left, r) + Forwarded(BlindRest(left, r), g)
  }

  /** What the task would still send, from where it stands, to a backend that stays up. */
  function Residual(c: ClientTask, r: seq<byte>, g: Context): seq<byte> {
    match c
    case ReadTag => Forwarded(r, g)
    case ReadLength(tag) => Forwarded([tag] + r, g)
    case ReadQuery(tag, length) => Forwarded([tag] + length + r, g)
    case WantLock => Forwarded(r, g)
    case SendError(_, _) => Forwarded(r, g)
    case SendReady(_, _) => Forwarded(r, g)
    case SendFrame(todo) => todo + Forwarded(r, g)
    case SendHead(todo, left) => todo + ChunkResidual(left, r, g)
    case ReadChunk(left) => ChunkResidual(left, r, g)
    case SendChunk(todo, left) => todo + ChunkResidual(left, r, g)
    case _ => []
  }

  /** The refusals still to come. */
  function Pending(c: ClientTask, r: seq<byte>, g: Context): nat {
    match c
    case ReadLength(tag) => Refusals([tag] + r, g)
    case ReadQuery(tag, length) => Refusals([tag] + length + r, g)
    case SendHead(_, left) => Refusals(BlindRest(left, r), g)
    case ReadChunk(left) => Refusals(BlindRest(left, r), g)
    case SendChunk(_, left) => Refusals(BlindRest(left, r), g)
    case Closing => 0
    case ClientDone => 0
    case Cancelled => 0
    case _ => Refusals(r, g)
  }

  predicate IsLengthTask(c: ClientTask) {
    match c
    case ReadQuery(tag, length) => |length| == 4 && IsInspected(tag, PayloadLength(length))
    case ReadChunk(left) => left > 0
    case _ => true
  }

  function Ideal(cfg: Config): seq<byte> {
    cfg.startup + Forwarded(cfg.clientBytes, cfg.context)
  }

  /** While the backend is up, what it has and what it has still to get make up the
      ideal stream; at all times what it has is a prefix of that stream. */
  ghost predicate BackendInv(cfg: Config, x: State) {
    && IsLengthTask(x.c)
    && x.back <= Ideal(cfg)
    && (!x.backDead && !x.c.Cancelled? ==>
          && x.back + Residual(x.c, x.clientRest, cfg.context) == Ideal(cfg)
          && x.refusals + Pending(x.c, x.clientRest, cfg.context) == Refusals(cfg.clientBytes, cfg.context))
  }

  // ---- Reading keeps the balance -----------------------------------------

  lemma TagRead(r: seq<byte>, g: Context)
    ensures r != [] ==> [r[0]] + r[1..] == r
    ensures r == [] ==> Forwarded(r, g) == [] && Refusals(r, g) == 0
  {
  }

  lemma LengthMissing(tag: byte, r: seq<byte>, g: Context)
    requires |r| < 4
    ensures Forwarded([tag] + r, g) == [] && Refusals([tag] + r, g) == 0
  {
  }

  lemma TagInFront(tag: byte, r: seq<byte>)
    requires |r| >= 4
    ensures var s := [tag] + r;
      && s == [tag] + r[..4] + r[4..] && s[0] == tag
      && s[1..5] == r[..4] && s[5..] == r[4..] && s[..5] == [tag] + r[..4]
  {
  }

  lemma LengthRead(tag: byte, r: seq<byte>, g: Context)
    requires |r| >= 4
    ensures [tag] + r == [tag] + r[..4] + r[4..]
    ensures var n := PayloadLength(r[..4]);
      !IsInspected(tag, n) ==>
        && Forwarded([tag] + r, g) == [tag] + r[..4] + ChunkResidual(n, r[4..], g)
        && Refusals([tag] + r, g) == Refusals(BlindRest(n, r[4..]), g)
  {
    var s, n := [tag] + r, PayloadLength(r[..4]);
    TagInFront(tag, r);
    if !IsInspected(tag, n) {
      BlindHeader(s, g);
      Assoc(s[..5], BlindSent(n, s[5..]), Forwarded(BlindRest(n, s[5..]), g));
    }
  }

  lemma QueryMissing(tag: byte, length: seq<byte>, r: seq<byte>, g: Context)
    requires |length| == 4 && |r| < PayloadLength(length) && IsInspected(tag, PayloadLength(length))
    ensures var s := [tag] + length + r; Forwarded(s, g) == [] && Refusals(s, g) == 0
  {
    var s := [tag] + length + r;
    assert s[1..5] == length;
  }

  lemma QueryRead(tag: byte, length: seq<byte>, r: seq<byte>, g: Context)
    requires |length| == 4 && |r| >= PayloadLength(length) && IsInspected(tag, PayloadLength(length))
    ensures var n := PayloadLength(length); var s := [tag] + length + r;
      if Verdict(r[..n], g) then
        && Forwarded(s, g) == [tag] + length + r[..n] + Forwarded(r[n..], g)
        && Refusals(s, g) == Refusals(r[n..], g)
      else
        Forwarded(s, g) == Forwarded(r[n..], g) && Refusals(s, g) == 1 + Refusals(r[n..], g)
  {
    var n := PayloadLength(length);
    var f := Frame(tag, length, r[..n]);
    FirstFrameOfPrinted(f, r[n..]);
    assert [tag] + length + r == Raw(f) + r[n..];
  }

  lemma ChunkRead(left: nat, r: seq<byte>, g: Context)
    requires left > 0
    ensures var k := Min(left, CHUNK);
      if |r| < k then
        ChunkResidual(left, r, g) == [] && Refusals(BlindRest(left, r), g) == 0
      else
        && ChunkResidual(left, r, g) == r[..k] + ChunkResidual(left - k, r[k..], g)
        && BlindRest(left, r) == BlindRest(left - k, r[k..])
  {
    var k := Min(left, CHUNK);
    if |r| >= k {
      BlindRestStep(left, r);
      Assoc(r[..k], BlindSent(left - k, r[k..]), Forwarded(BlindRest(left, r), g));
    }
  }

  /** The same total before and after. */
  ghost predicate SameTotals(x: State, y: State, g: Context) {
    && x.back + Residual(x.c, x.clientRest, g) == y.back + Residual(y.c, y.clientRest, g)
    && x.refusals + Pending(x.c, x.clientRest, g) == y.refusals + Pending(y.c, y.clientRest, g)
  }

  lemma TagStep(cfg: Config, x: State, y: State)
    requires x.c.ReadTag? && ClientRead(cfg, x) == Some(y)
    ensures SameTotals(x, y, cfg.context) && IsLengthTask(y.c)
  {
    TagRead(x.clientRest, cfg.context);
  }

  lemma LengthStep(cfg: Config, x: State, y: State)
    requires x.c.ReadLength? && ClientRead(cfg, x) == Some(y)
    ensures SameTotals(x, y, cfg.context) && IsLengthTask(y.c)
  {
    if |x.clientRest| < 4 {
      LengthMissing(x.c.tag, x.clientRest, cfg.context);
    } else {
      LengthRead(x.c.tag, x.clientRest, cfg.context);
    }
  }

  lemma QueryResidual(tag: byte, length: seq<byte>, r: seq<byte>, g: Context)
    requires |length| == 4 && IsInspected(tag, PayloadLength(length))
    ensures var n, c := PayloadLength(length), ReadQuery(tag, length);
      if |r| < n then Residual(c, r, g) == [] && Pending(c, r, g) == 0
      else if Verdict(r[..n], g) then
        var d := SendFrame([tag] + length + r[..n]);
        Residual(c, r, g) == Residual(d, r[n..], g) && Pending(c, r, g) == Pending(d, r[n..], g)
      else
        Residual(c, r, g) == Residual(WantLock, r[n..], g) && Pending(c, r, g) == 1 + Pending(WantLock, r[n..], g)
  {
    if |r| < PayloadLength(length) {
      QueryMissing(tag, length, r, g);
    } else {
      QueryRead(tag, length, r, g);
    }
  }

  lemma QueryNext(cfg: Config, x: State, y: State)
    requires x.c.ReadQuery? && IsLengthTask(x.c) && ClientRead(cfg, x) == Some(y)
    ensures var r, n := x.clientRest, PayloadLength(x.c.length);
      if |r| < n then y == x.(c := Closing, clientRest := [])
      else if Verdict(r[..n], cfg.context) then
        y == x.(c := SendFrame([x.c.tag] + x.c.length + r[..n]), clientRest := r[n..])
      else y == x.(c := WantLock, clientRest := r[n..], refusals := x.refusals + 1)
  {
  }

  lemma QueryStep(cfg: Config, x: State, y: State)
    requires x.c.ReadQuery? && IsLengthTask(x.c) && ClientRead(cfg, x) == Some(y)
    ensures SameTotals(x, y, cfg.context) && IsLengthTask(y.c)
  {
    QueryNext(cfg, x, y);
    QueryResidual(x.c.tag, x.c.length, x.clientRest, cfg.context);
  }

  lemma ChunkNext(cfg: Config, x: State, y: State)
    requires x.c.ReadChunk? && ClientRead(cfg, x) == Some(y)
    ensures var r, left := x.clientRest, x.c.left; var k := Min(left, CHUNK);
      if |r| < k then y == x.(c := ReadTag, clientRest := [])
      else y == x.(c := SendChunk(r[..k], left - k), clientRest := r[k..])
  {
  }

  lemma ChunkReadResidual(left: nat, r: seq<byte>, g: Context)
    requires left > 0
    ensures var k, c := Min(left, CHUNK), ReadChunk(left);
      if |r| < k then Residual(c, r, g) == Residual(ReadTag, [], g) && Pending(c, r, g) == Pending(ReadTag, [], g)
      else
        var d := SendChunk(r[..k], left - k);
        Residual(c, r, g) == Residual(d, r[k..], g) && Pending(c, r, g) == Pending(d, r[k..], g)
  {
    ChunkRead(left, r, g);
    if |r| < Min(left, CHUNK) {
      TagRead([], g);
    }
  }

  lemma ChunkStep(cfg: Config, x: State, y: State)
    requires x.c.ReadChunk? && IsLengthTask(x.c) && ClientRead(cfg, x) == Some(y)
    ensures SameTotals(x, y, cfg.context) && IsLengthTask(y.c)
  {
    ChunkNext(cfg, x, y);
    ChunkReadResidual(x.c.left, x.clientRest, cfg.context);
  }

  lemma ReadShape(cfg: Config, x: State, y: State)
    requires IsLengthTask(x.c) && ClientRead(cfg, x) == Some(y)
    ensures IsLengthTask(y.c) && y.back == x.back && y.backDead == x.backDead && !x.c.Cancelled?
  {
  }

  // ---- Writing keeps the balance -----------------------------------------

  lemma AfterChunkResidual(left: nat, r: seq<byte>, g: Context)
    ensures Residual(AfterChunk(left), r, g) == ChunkResidual(left, r, g)
    ensures Pending(AfterChunk(left), r, g) == Refusals(BlindRest(left, r), g)
    ensures IsLengthTask(AfterChunk(left))
  {
    if left == 0 {
      assert r[0..] == r;
    }
  }

  lemma Moved(back: seq<byte>, todo: seq<byte>, n: nat, rest: seq<byte>)
    requires n <= |todo|
    ensures back + (todo + rest) == back + todo[..n] + (todo[n..] + rest)
    ensures n == |todo| ==> back + (todo + rest) == back + todo[..n] + rest
  {
    assert todo == todo[..n] + todo[n..];
    Assoc(back, todo[..n], todo[n..] + rest);
    Assoc(todo[..n], todo[n..], rest);
  }

  lemma WriteStep(x: State, y: State, n: nat, g: Context)
    requires IsLengthTask(x.c) && BackendWrite(x, n) == Some(y)
    ensures SameTotals(x, y, g) && IsLengthTask(y.c)
    ensures !x.backDead && !y.backDead && !y.c.Cancelled?
  {
    var r := x.clientRest;
    match x.c
    case SendFrame(todo) => Moved(x.back, todo, n, Forwarded(r, g));
    case SendHead(todo, left) =>
      AfterChunkResidual(left, r, g);
      Moved(x.back, todo, n, ChunkResidual(left, r, g));
    case SendChunk(todo, left) =>
      AfterChunkResidual(left, r, g);
      Moved(x.back, todo, n, ChunkResidual(left, r, g));
    case _ =>
  }

  // ---- The invariant -----------------------------------------------------

  lemma InitiallyBalanced(cfg: Config)
    ensures BackendInv(cfg, Initial(cfg))
  {
  }

  /** Steps at the client's side of things leave the balance alone. */
  ghost predicate SameAccount(x: State, y: State) {
    && y.back == x.back && y.backDead == x.backDead && y.clientRest == x.clientRest && y.refusals == x.refusals
    && (y.c == x.c || y.c.Cancelled? || (IsRefusing(x.c) && (IsRefusing(y.c) || y.c.ReadTag?)))
  }

  predicate IsRefusing(c: ClientTask) {
    c.WantLock? || c.SendError? || c.SendReady?
  }

  lemma SameAccountKeepsInv(cfg: Config, x: State, y: State)
    requires BackendInv(cfg, x) && SameAccount(x, y)
    ensures BackendInv(cfg, y)
  {
  }

  lemma SameTotalsKeepsInv(cfg: Config, x: State, y: State)
    requires BackendInv(cfg, x) && SameTotals(x, y, cfg.context) && IsLengthTask(y.c)
    requires !x.backDead && !x.c.Cancelled?
    ensures BackendInv(cfg, y)
  {
  }

  lemma RefusalStep(cfg: Config, x: State, y: State, n: nat)
    requires ClientLocks(cfg, x) == Some(y) || RefusalFail(x) == Some(y) || RefusalWrite(x, n) == Some(y)
    ensures SameAccount(x, y)
  {
  }

  lemma ServerStepAccount(x: State, y: State)
    requires ServerStep(x, y)
    ensures SameAccount(x, y)
  {
  }

  lemma JoinStepAccount(x: State, y: State)
    requires JoinStep(x, y)
    ensures SameAccount(x, y)
  {
  }

  lemma ReadKeepsInv(cfg: Config, x: State, y: State)
    requires BackendInv(cfg, x) && ClientRead(cfg, x) == Some(y)
    ensures BackendInv(cfg, y)
  {
    ReadShape(cfg, x, y);
    if !x.backDead {
      ReadKeepsTotals(cfg, x, y);
      SameTotalsKeepsInv(cfg, x, y);
    }
  }

  lemma ReadKeepsTotals(cfg: Config, x: State, y: State)
    requires IsLengthTask(x.c) && ClientRead(cfg, x) == Some(y)
    ensures SameTotals(x, y, cfg.context)
  {
    if x.c.ReadTag? {
      TagStep(cfg, x, y);
    } else if x.c.ReadLength? {
      LengthStep(cfg, x, y);
    } else if x.c.ReadQuery? {
      QueryStep(cfg, x, y);
    } else if x.c.ReadChunk? {
      ChunkStep(cfg, x, y);
    } else {
      assert x.c.Closing?;
    }
  }

  lemma FailKeepsInv(cfg: Config, x: State, y: State)
    requires BackendInv(cfg, x) && BackendFail(x) == Some(y)
    ensures BackendInv(cfg, y)
  {
  }

  lemma WriteKeepsInv(cfg: Config, x: State, y: State, n: nat)
    requires BackendInv(cfg, x) && BackendWrite(x, n) == Some(y)
    ensures BackendInv(cfg, y)
  {
    WriteStep(x, y, n, cfg.context);
    SameTotalsKeepsInv(cfg, x, y);
  }

  /** Every step keeps the invariant. */
  lemma StepKeepsBackendInv(cfg: Config, x: State, y: State)
    requires BackendInv(cfg, x) && Next(cfg, x, y)
    ensures BackendInv(cfg, y)
  {
    if ServerStep(x, y) {
      ServerStepAccount(x, y);
      SameAccountKeepsInv(cfg, x, y);
    } else if JoinStep(x, y) {
      JoinStepAccount(x, y);
      SameAccountKeepsInv(cfg, x, y);
    } else {
      ClientStepKeepsBackendInv(cfg, x, y);
    }
  }

  lemma ClientStepKeepsBackendInv(cfg: Config, x: State, y: State)
    requires BackendInv(cfg, x) && ClientStep(cfg, x, y)
    ensures BackendInv(cfg, y)
  {
    if ClientRead(cfg, x) == Some(y) {
      ReadKeepsInv(cfg, x, y);
    } else if BackendFail(x) == Some(y) {
      FailKeepsInv(cfg, x, y);
    } else if n: nat :| BackendWrite(x, n) == Some(y) {
      WriteKeepsInv(cfg, x, y, n);
    } else {
      var n: nat :| ClientLocks(cfg, x) == Some(y) || RefusalFail(x) == Some(y) || RefusalWrite(x, n) == Some(y);
      RefusalStep(cfg, x, y, n);
      SameAccountKeepsInv(cfg, x, y);
    }
  }

  // ---- Refusals after a failure ------------------------------------------

  /** The write of a chunk fails with payload still to go and input behind the chunk: the
      loop goes on in the middle of a frame. */
  predicate Strays(x: State, y: State) {
    x.c.SendChunk? && x.c.left > 0 && x.clientRest != [] && BackendFail(x) == Some(y)
  }

  /** The refusals decided and still to come are no more than the frames to refuse. */
  predicate WithinRefusals(cfg: Config, x: State) {
    x.refusals + Pending(x.c, x.clientRest, cfg.context) <= Refusals(cfg.clientBytes, cfg.context)
  }

  lemma FailureStaysWithin(cfg: Config, x: State, y: State)
    requires WithinRefusals(cfg, x) && BackendFail(x) == Some(y) && !Strays(x, y)
    ensures WithinRefusals(cfg, y)
  {
    if x.c.SendChunk? && x.c.left == 0 {
      assert BlindRest(0, x.clientRest) == x.clientRest;
    }
  }

  lemma AccountStaysWithin(cfg: Config, x: State, y: State)
    requires WithinRefusals(cfg, x) && SameAccount(x, y)
    ensures WithinRefusals(cfg, y)
  {
  }

  lemma ClientStaysWithin(cfg: Config, x: State, y: State)
    requires IsLengthTask(x.c) && WithinRefusals(cfg, x) && ClientStep(cfg, x, y) && !Strays(x, y)
    ensures WithinRefusals(cfg, y)
  {
    if ClientRead(cfg, x) == Some(y) {
      ReadKeepsTotals(cfg, x, y);
    } else if BackendFail(x) == Some(y) {
      FailureStaysWithin(cfg, x, y);
    } else if n: nat :| BackendWrite(x, n) == Some(y) {
      WriteStep(x, y, n, cfg.context);
    } else {
      var n: nat :| ClientLocks(cfg, x) == Some(y) || RefusalFail(x) == Some(y) || RefusalWrite(x, n) == Some(y);
      RefusalStep(cfg, x, y, n);
      AccountStaysWithin(cfg, x, y);
    }
  }

  /** Every step that does not stray keeps within the frames to refuse, whatever fails. */
  lemma StepStaysWithinRefusals(cfg: Config, x: State, y: State)
    requires IsLengthTask(x.c) && WithinRefusals(cfg, x) && Next(cfg, x, y) && !Strays(x, y)
    ensures WithinRefusals(cfg, y)
  {
    if ServerStep(x, y) {
      ServerStepAccount(x, y);
      AccountStaysWithin(cfg, x, y);
    } else if JoinStep(x, y) {
      JoinStepAccount(x, y);
      AccountStaysWithin(cfg, x, y);
    } else {
      ClientStaysWithin(cfg, x, y);
    }
  }
}
