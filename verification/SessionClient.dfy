/** What the client receives in every run of the session. */
module SessionClient {
  import opened Bytes
  import opened Guardian
  import opened Frames
  import opened Session

  // ---- Pieces ------------------------------------------------------------

  function Flat(ps: seq<Piece>): seq<byte> {
    if ps == [] then [] else Flat(ps[..|ps| - 1]) + ps[|ps| - 1].bytes
  }

  /** The backend's bytes: the pieces with every refusal erased. */
  function Erased(ps: seq<Piece>): seq<byte> {
    if ps == [] then []
    else Erased(ps[..|ps| - 1]) + if ps[|ps| - 1].Data? then ps[|ps| - 1].bytes else []
  }

  function RefusalCount(ps: seq<Piece>): nat {
    if ps == [] then 0 else RefusalCount(ps[..|ps| - 1]) + if ps[|ps| - 1].Refusal? then 1 else 0
  }

  /** Every refusal among the pieces is the whole block. */
  ghost predicate AllWhole(ps: seq<Piece>, block: seq<byte>) {
    forall i :: 0 <= i < |ps| && ps[i].Refusal? ==> ps[i].bytes == block
  }

  /** Every refusal among the pieces is a beginning of the block. */
  ghost predicate AllStarts(ps: seq<Piece>, block: seq<byte>) {
    forall i :: 0 <= i < |ps| && ps[i].Refusal? ==> ps[i].bytes <= block
  }

  /** `start`, if anything of it went out, is the last piece. */
  ghost predicate EndsIn(ps: seq<Piece>, start: Piece) {
    start.bytes != [] ==> ps != [] && ps[|ps| - 1] == start
  }

  /** The pieces before the one in hand. */
  function Before(ps: seq<Piece>, start: Piece): seq<Piece> {
    if start.bytes == [] || ps == [] then ps else ps[..|ps| - 1]
  }

  lemma PutAddsBytes(ps: seq<Piece>, start: Piece, w: seq<byte>)
    requires EndsIn(ps, start)
    ensures var qs := Put(ps, start, w);
      && Flat(qs) == Flat(ps) + w
      && Erased(qs) == Erased(ps) + (if start.Data? then w else [])
      && qs != [] && qs[|qs| - 1] == start.(bytes := start.bytes + w)
      && qs[..|qs| - 1] == Before(ps, start)
      && RefusalCount(qs) == RefusalCount(ps) + (if start.Refusal? && start.bytes == [] then 1 else 0)
  {
    var qs := Put(ps, start, w);
    assert qs[..|qs| - 1] == Before(ps, start);
  }

  /** More of a refusal: it stays a beginning of the block, and what came before it
      stays whole. */
  lemma PutRefusal(ps: seq<Piece>, done: seq<byte>, w: seq<byte>, block: seq<byte>)
    requires EndsIn(ps, Refusal(done)) && done + w <= block && w != []
    requires AllStarts(ps, block) && AllWhole(Before(ps, Refusal(done)), block)
    ensures var qs := Put(ps, Refusal(done), w);
      && AllStarts(qs, block) && EndsIn(qs, Refusal(done + w))
      && AllWhole(Before(qs, Refusal(done + w)), block)
      && (done + w == block ==> AllWhole(qs, block))
  {
    var qs := Put(ps, Refusal(done), w);
    PutAddsBytes(ps, Refusal(done), w);
    assert forall i :: 0 <= i < |qs| - 1 ==> qs[i] == ps[i];
    assert forall i :: 0 <= i < |qs| - 1 ==> qs[i] == Before(ps, Refusal(done))[i];
  }

  /** More of the backend's bytes: no refusal changes. */
  lemma PutData(ps: seq<Piece>, done: seq<byte>, w: seq<byte>, block: seq<byte>)
    requires EndsIn(ps, Data(done)) && AllStarts(ps, block) && AllWhole(ps, block)
    ensures var qs := Put(ps, Data(done), w);
      AllStarts(qs, block) && AllWhole(qs, block) && EndsIn(qs, Data(done + w))
  {
    var qs := Put(ps, Data(done), w);
    PutAddsBytes(ps, Data(done), w);
    forall i | 0 <= i < |qs| && qs[i].Refusal?
      ensures i < |ps| && qs[i] == ps[i]
    {
      assert i < |qs| - 1 && qs[..|qs| - 1][i] == qs[i];
    }
  }

  // ---- The shape of steps ------------------------------------------------

  predicate IsSending(c: ClientTask) {
    c.SendError? || c.SendReady?
  }

  /** A step that stays on the client-to-backend side. */
  predicate Quiet(x: State, y: State) {
    && y == x.(c := y.c, clientRest := y.clientRest, back := y.back, backDead := y.backDead, refusals := y.refusals)
    && !IsSending(x.c) && !IsSending(y.c) && !y.c.Cancelled? && !x.c.ClientDone?
    && y.refusals == x.refusals + (if y.c.WantLock? then 1 else 0) && !x.c.WantLock?
  }

  lemma ReadIsQuiet(cfg: Config, x: State, y: State)
    requires ClientRead(cfg, x) == Some(y)
    ensures Quiet(x, y)
  {
    if x.c.ReadQuery? {
      QueryReadIsQuiet(cfg, x, y);
    }
  }

  lemma QueryReadIsQuiet(cfg: Config, x: State, y: State)
    requires x.c.ReadQuery? && ClientRead(cfg, x) == Some(y)
    ensures Quiet(x, y)
  {
    var n := PayloadLength(x.c.length);
    if |x.clientRest| < n {
      assert y.c.Closing?;
    } else if !Verdict(x.clientRest[..n], cfg.context) {
      assert y.c.WantLock?;
    } else {
      assert y.c.SendFrame?;
    }
  }

  lemma WriteIsQuiet(x: State, y: State, n: nat)
    requires BackendWrite(x, n) == Some(y)
    ensures Quiet(x, y)
  {
  }

  lemma FailIsQuiet(x: State, y: State)
    requires BackendFail(x) == Some(y)
    ensures Quiet(x, y)
  {
  }

  /** The five things a step of the client-to-server task can be. */
  lemma ClientStepShape(cfg: Config, x: State, y: State)
    requires ClientStep(cfg, x, y)
    ensures ClientRuns(x)
    ensures Quiet(x, y) || ClientLocks(cfg, x) == Some(y) || RefusalFail(x) == Some(y)
         || exists n: nat :: RefusalWrite(x, n) == Some(y)
  {
    if ClientRead(cfg, x) == Some(y) {
      ReadIsQuiet(cfg, x, y);
    } else if BackendFail(x) == Some(y) {
      FailIsQuiet(x, y);
    } else if n: nat :| BackendWrite(x, n) == Some(y) {
      WriteIsQuiet(x, y, n);
    }
  }

  // ---- The lock and the join ---------------------------------------------

  /** Who holds the lock, and who has ended when. */
  predicate ShapeInv(x: State) {
    && (x.lock.HeldByClient? <==> IsSending(x.c))
    && (x.lock.HeldByServer? <==> x.s.Sending? || x.s.Shutting?)
    && (x.shut <==> x.s.ServerDone?)
    && (x.c.Cancelled? ==> x.join.Ended?)
    && (x.join.AwaitServer? ==> x.c.ClientDone?)
    && (x.join.Draining? ==> x.s.ServerDone?)
    && (x.join.Ended? ==> x.s.ServerDone? && (x.c.ClientDone? || x.c.Cancelled?))
  }

  lemma QuietKeepsShape(x: State, y: State)
    requires ShapeInv(x) && Quiet(x, y) && ClientRuns(x)
    ensures ShapeInv(y)
  {
  }

  lemma RefusalKeepsShape(cfg: Config, x: State, y: State, n: nat)
    requires ShapeInv(x) && ClientRuns(x)
    requires ClientLocks(cfg, x) == Some(y) || RefusalFail(x) == Some(y) || RefusalWrite(x, n) == Some(y)
    ensures ShapeInv(y)
  {
  }

  lemma ServerKeepsShape(x: State, y: State, n: nat)
    requires ShapeInv(x) && ServerRuns(x)
    requires ServerLocks(x) == Some(y) || ServerFail(x) == Some(y) || ServerShuts(x) == Some(y)
          || ServerRead(x, n) == Some(y) || ServerWrite(x, n) == Some(y)
    ensures ShapeInv(y)
  {
  }

  lemma JoinKeepsShape(x: State, y: State)
    requires ShapeInv(x) && JoinStep(x, y)
    ensures ShapeInv(y)
  {
  }

  lemma StepKeepsShapeInv(cfg: Config, x: State, y: State)
    requires ShapeInv(x) && Next(cfg, x, y)
    ensures ShapeInv(y)
  {
    if JoinStep(x, y) {
      JoinKeepsShape(x, y);
    } else if ServerStep(x, y) {
      var n: nat :| ServerLocks(x) == Some(y) || ServerFail(x) == Some(y) || ServerShuts(x) == Some(y)
          || ServerRead(x, n) == Some(y) || ServerWrite(x, n) == Some(y);
      ServerKeepsShape(x, y, n);
    } else {
      ClientStepShape(cfg, x, y);
      if Quiet(x, y) {
        QuietKeepsShape(x, y);
      } else {
        var n: nat :| ClientLocks(cfg, x) == Some(y) || RefusalFail(x) == Some(y) || RefusalWrite(x, n) == Some(y);
        RefusalKeepsShape(cfg, x, y, n);
      }
    }
  }

  // ---- The bytes ---------------------------------------------------------

  /** What a task holding the lock has sent of its piece. */
  function ClientPiece(c: ClientTask): Piece {
    match c
    case SendError(done, _) => Refusal(done)
    case SendReady(done, _) => Refusal(done)
    case _ => Refusal([])
  }

  function ServerPiece(s: ServerTask): Piece {
    match s
    case Sending(done, _) => Data(done)
    case _ => Data([])
  }

  /** The chunk read from the backend and not yet with the client. */
  function InHand(s: ServerTask): seq<byte> {
    match s
    case WantToSend(chunk) => chunk
    case Sending(_, todo) => todo
    case _ => []
  }

  /** What a refusal has sent and has still to send is the error, then ReadyForQuery. */
  ghost predicate IsBlock(cfg: Config, c: ClientTask) {
    match c
    case SendError(done, todo) => done + todo == cfg.error
    case SendReady(done, todo) => done + todo == Notice(cfg) && done != []
    case _ => true
  }

  predicate ServerIsPast(s: ServerTask) {
    s.WantToShut? || s.Shutting? || s.ServerDone?
  }

  /** Always: the pieces are the bytes received, every refusal is the block or a
      beginning of it, and erasing refusals leaves a prefix of the backend's bytes. */
  ghost predicate ClientInv(cfg: Config, x: State) {
    && x.received == Flat(x.pieces)
    && AllStarts(x.pieces, Notice(cfg))
    && Erased(x.pieces) <= cfg.backendBytes
    && IsBlock(cfg, x.c)
    && |InHand(x.s)| <= CHUNK
  }

  /** While no client write has failed: only a refusal in hand is incomplete, and the
      backend's bytes lag by the chunk in hand. */
  ghost predicate LiveInv(cfg: Config, x: State) {
    && EndsIn(x.pieces, ClientPiece(x.c)) && EndsIn(x.pieces, ServerPiece(x.s))
    && AllWhole(Before(x.pieces, ClientPiece(x.c)), Notice(cfg))
    && Erased(x.pieces) + InHand(x.s) + x.backendRest == cfg.backendBytes
    && (ServerIsPast(x.s) ==> x.backendRest == [])
    && (x.shut ==> ClientPiece(x.c).bytes == [])
  }

  ghost predicate BytesInv(cfg: Config, x: State) {
    ClientInv(cfg, x) && (!x.clientDead ==> LiveInv(cfg, x))
  }

  lemma QuietKeepsBytes(cfg: Config, x: State, y: State)
    requires BytesInv(cfg, x) && Quiet(x, y)
    ensures BytesInv(cfg, y)
  {
  }

  lemma LockKeepsBytes(cfg: Config, x: State, y: State)
    requires ShapeInv(x) && BytesInv(cfg, x) && (ClientLocks(cfg, x) == Some(y) || RefusalFail(x) == Some(y))
    ensures BytesInv(cfg, y)
  {
  }

  /** Some bytes of a refusal have gone out, and the refusal goes on or is whole. */
  ghost predicate SendsRefusal(cfg: Config, x: State, y: State, w: seq<byte>) {
    var done := ClientPiece(x.c).bytes;
    && IsSending(x.c) && !x.clientDead && !x.shut
    && w != [] && done + w <= Notice(cfg) && IsBlock(cfg, y.c)
    && y == x.(received := x.received + w, pieces := Put(x.pieces, Refusal(done), w), c := y.c, lock := y.lock)
    && (ClientPiece(y.c) == Refusal(done + w) || (ClientPiece(y.c) == Refusal([]) && done + w == Notice(cfg)))
  }

  lemma RefusalBytesKeepClientInv(cfg: Config, x: State, y: State, w: seq<byte>)
    requires BytesInv(cfg, x) && SendsRefusal(cfg, x, y, w)
    ensures ClientInv(cfg, y)
  {
    var done := ClientPiece(x.c).bytes;
    PutRefusal(x.pieces, done, w, Notice(cfg));
    PutAddsBytes(x.pieces, Refusal(done), w);
    assert Erased(x.pieces) + [] == Erased(x.pieces);
  }

  lemma RefusalBytesKeepLiveInv(cfg: Config, x: State, y: State, w: seq<byte>)
    requires ShapeInv(x) && BytesInv(cfg, x) && SendsRefusal(cfg, x, y, w)
    ensures LiveInv(cfg, y)
  {
    var done := ClientPiece(x.c).bytes;
    PutRefusal(x.pieces, done, w, Notice(cfg));
    PutAddsBytes(x.pieces, Refusal(done), w);
    assert Erased(x.pieces) + [] == Erased(x.pieces);
    assert ServerPiece(x.s).bytes == [];
  }

  lemma RefusalBytesKeepInv(cfg: Config, x: State, y: State, w: seq<byte>)
    requires ShapeInv(x) && BytesInv(cfg, x) && SendsRefusal(cfg, x, y, w)
    ensures BytesInv(cfg, y)
  {
    RefusalBytesKeepClientInv(cfg, x, y, w);
    RefusalBytesKeepLiveInv(cfg, x, y, w);
  }

  lemma ErrorWriteKeepsBytes(cfg: Config, x: State, y: State, n: nat)
    requires ShapeInv(x) && BytesInv(cfg, x) && x.c.SendError? && RefusalWrite(x, n) == Some(y)
    ensures BytesInv(cfg, y)
  {
    var done, todo := x.c.done, x.c.todo;
    var w := todo[..n];
    assert todo == w + todo[n..] && done + w + todo[n..] == cfg.error;
    RefusalBytesKeepInv(cfg, x, y, w);
  }

  lemma ReadyWriteKeepsBytes(cfg: Config, x: State, y: State, n: nat)
    requires ShapeInv(x) && BytesInv(cfg, x) && x.c.SendReady? && RefusalWrite(x, n) == Some(y)
    ensures BytesInv(cfg, y)
  {
    var done, todo := x.c.done, x.c.todo;
    var w := todo[..n];
    assert todo == w + todo[n..] && done + w + todo[n..] == Notice(cfg);
    RefusalBytesKeepInv(cfg, x, y, w);
  }

  lemma DataWriteKeepsBytes(cfg: Config, x: State, y: State, n: nat)
    requires ShapeInv(x) && BytesInv(cfg, x) && ServerWrite(x, n) == Some(y)
    ensures BytesInv(cfg, y)
  {
    var done, todo := x.s.done, x.s.todo;
    var w := todo[..n];
    assert todo == w + todo[n..];
    PutData(x.pieces, done, w, Notice(cfg));
    PutAddsBytes(x.pieces, Data(done), w);
    DataMoves(Erased(x.pieces), todo, n, x.backendRest);
  }

  lemma DataMoves(sent: seq<byte>, todo: seq<byte>, n: nat, rest: seq<byte>)
    requires n <= |todo|
    ensures sent + todo + rest == sent + todo[..n] + todo[n..] + rest
    ensures sent + todo[..n] <= sent + todo + rest
  {
    assert todo == todo[..n] + todo[n..];
  }

  lemma ServerReadKeepsBytes(cfg: Config, x: State, y: State, n: nat)
    requires BytesInv(cfg, x) && ServerRead(x, n) == Some(y)
    ensures BytesInv(cfg, y)
  {
    assert x.backendRest != [] ==> x.backendRest == x.backendRest[..n] + x.backendRest[n..];
  }

  lemma ServerLockKeepsBytes(cfg: Config, x: State, y: State)
    requires ShapeInv(x) && BytesInv(cfg, x)
    requires ServerLocks(x) == Some(y) || ServerFail(x) == Some(y) || ServerShuts(x) == Some(y)
    ensures BytesInv(cfg, y)
  {
  }

  lemma JoinKeepsBytes(cfg: Config, x: State, y: State)
    requires ShapeInv(x) && BytesInv(cfg, x) && JoinStep(x, y)
    requires DrainTimeout(x) == Some(y) ==> x.clientDead || ClientPiece(x.c).bytes == []
    ensures BytesInv(cfg, y)
  {
  }

  /** Every step keeps the invariants. */
  lemma StepKeepsBytesInv(cfg: Config, x: State, y: State)
    requires ShapeInv(x) && BytesInv(cfg, x) && Next(cfg, x, y)
    ensures BytesInv(cfg, y)
  {
    if JoinStep(x, y) {
      JoinKeepsBytes(cfg, x, y);
    } else if ServerStep(x, y) {
      ServerStepKeepsBytes(cfg, x, y);
    } else {
      ClientStepKeepsBytes(cfg, x, y);
    }
  }

  lemma ServerStepKeepsBytes(cfg: Config, x: State, y: State)
    requires ShapeInv(x) && BytesInv(cfg, x) && ServerStep(x, y)
    ensures BytesInv(cfg, y)
  {
    if ServerLocks(x) == Some(y) || ServerFail(x) == Some(y) || ServerShuts(x) == Some(y) {
      ServerLockKeepsBytes(cfg, x, y);
    } else {
      var n: nat :| ServerRead(x, n) == Some(y) || ServerWrite(x, n) == Some(y);
      if ServerRead(x, n) == Some(y) {
        ServerReadKeepsBytes(cfg, x, y, n);
      } else {
        DataWriteKeepsBytes(cfg, x, y, n);
      }
    }
  }

  lemma ClientStepKeepsBytes(cfg: Config, x: State, y: State)
    requires ShapeInv(x) && BytesInv(cfg, x) && ClientStep(cfg, x, y)
    ensures BytesInv(cfg, y)
  {
    ClientStepShape(cfg, x, y);
    if Quiet(x, y) {
      QuietKeepsBytes(cfg, x, y);
    } else if ClientLocks(cfg, x) == Some(y) || RefusalFail(x) == Some(y) {
      LockKeepsBytes(cfg, x, y);
    } else {
      var n: nat :| RefusalWrite(x, n) == Some(y);
      if x.c.SendError? {
        ErrorWriteKeepsBytes(cfg, x, y, n);
      } else {
        ReadyWriteKeepsBytes(cfg, x, y, n);
      }
    }
  }

  // ---- The count ---------------------------------------------------------

  /** A refusal decided but not begun. */
  function Owed(c: ClientTask): nat {
    match c
    case WantLock => 1
    case SendError(done, _) => if done == [] then 1 else 0
    case _ => 0
  }

  /** While the client can receive, each frame refused has its block, begun or owed. */
  ghost predicate CountInv(x: State) {
    CanReceive(x) ==> RefusalCount(x.pieces) + Owed(x.c) == x.refusals
  }

  lemma QuietKeepsCount(x: State, y: State)
    requires CountInv(x) && Quiet(x, y)
    ensures CountInv(y)
  {
  }

  lemma RefusalWriteKeepsCount(cfg: Config, x: State, y: State, n: nat)
    requires BytesInv(cfg, x) && CountInv(x) && RefusalWrite(x, n) == Some(y)
    ensures CountInv(y)
  {
    var start := ClientPiece(x.c);
    PutAddsBytes(x.pieces, start, x.c.todo[..n]);
  }

  lemma LockKeepsCount(cfg: Config, x: State, y: State)
    requires BytesInv(cfg, x) && CountInv(x) && (ClientLocks(cfg, x) == Some(y) || RefusalFail(x) == Some(y))
    ensures CountInv(y)
  {
  }

  lemma ServerKeepsCount(cfg: Config, x: State, y: State)
    requires BytesInv(cfg, x) && CountInv(x) && ServerStep(x, y)
    ensures CountInv(y)
  {
    if n: nat :| ServerWrite(x, n) == Some(y) {
      PutAddsBytes(x.pieces, ServerPiece(x.s), x.s.todo[..n]);
    }
  }

  lemma StepKeepsCountInv(cfg: Config, x: State, y: State)
    requires ShapeInv(x) && BytesInv(cfg, x) && CountInv(x) && Next(cfg, x, y)
    ensures CountInv(y)
  {
    if ServerStep(x, y) {
      ServerKeepsCount(cfg, x, y);
    } else if ClientStep(cfg, x, y) {
      ClientStepShape(cfg, x, y);
      if Quiet(x, y) {
        QuietKeepsCount(x, y);
      } else if ClientLocks(cfg, x) == Some(y) || RefusalFail(x) == Some(y) {
        LockKeepsCount(cfg, x, y);
      } else {
        var n: nat :| RefusalWrite(x, n) == Some(y);
        RefusalWriteKeepsCount(cfg, x, y, n);
      }
    }
  }
}
