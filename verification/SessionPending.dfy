/** No task of a session is ever left with nothing to write, so every pending write can
    make progress. */
module SessionPending {
  import opened Bytes
  import opened Frames
  import opened Guardian
  import opened Session
  import opened SessionBackend

  /** A write in hand has bytes to go. */
  predicate HasBytes(cfg: Config, c: ClientTask) {
    match c
    case SendError(_, todo) => cfg.error != [] ==> todo != []
    case SendReady(_, todo) => todo != []
    case SendFrame(todo) => todo != []
    case SendHead(todo, _) => todo != []
    case SendChunk(todo, _) => todo != []
    case _ => true
  }

  predicate HasChunk(s: ServerTask) {
    match s
    case WantToSend(chunk) => chunk != []
    case Sending(_, todo) => todo != []
    case _ => true
  }

  predicate PendingInv(cfg: Config, x: State) {
    HasBytes(cfg, x.c) && HasChunk(x.s)
  }

  lemma ReadHasBytes(cfg: Config, x: State, y: State)
    requires IsLengthTask(x.c) && ClientRead(cfg, x) == Some(y)
    ensures HasBytes(cfg, y.c)
  {
    if x.c.ReadQuery? {
      var n := PayloadLength(x.c.length);
      if |x.clientRest| >= n && Verdict(x.clientRest[..n], cfg.context) {
        assert y.c == SendFrame([x.c.tag] + x.c.length + x.clientRest[..n]);
      }
    }
  }

  lemma WriteHasBytes(cfg: Config, x: State, y: State, n: nat)
    requires BackendFail(x) == Some(y) || ClientLocks(cfg, x) == Some(y) || RefusalFail(x) == Some(y)
          || BackendWrite(x, n) == Some(y) || RefusalWrite(x, n) == Some(y)
    ensures HasBytes(cfg, y.c)
  {
  }

  lemma ServerHasChunk(x: State, y: State)
    requires HasChunk(x.s) && ServerStep(x, y)
    ensures HasChunk(y.s) && y.c == x.c
  {
  }

  lemma StepKeepsPendingInv(cfg: Config, x: State, y: State)
    requires IsLengthTask(x.c) && PendingInv(cfg, x) && Next(cfg, x, y)
    ensures PendingInv(cfg, y)
  {
    if ServerStep(x, y) {
      ServerHasChunk(x, y);
    } else if ClientStep(cfg, x, y) {
      ClientKeepsPendingInv(cfg, x, y);
    }
  }

  lemma ClientKeepsPendingInv(cfg: Config, x: State, y: State)
    requires IsLengthTask(x.c) && PendingInv(cfg, x) && ClientStep(cfg, x, y)
    ensures PendingInv(cfg, y)
  {
    ClientLeavesServer(cfg, x, y);
    if ClientRead(cfg, x) == Some(y) {
      ReadHasBytes(cfg, x, y);
    } else {
      var n: nat :| BackendFail(x) == Some(y) || ClientLocks(cfg, x) == Some(y) || RefusalFail(x) == Some(y)
        || BackendWrite(x, n) == Some(y) || RefusalWrite(x, n) == Some(y);
      WriteHasBytes(cfg, x, y, n);
    }
  }

  lemma ClientLeavesServer(cfg: Config, x: State, y: State)
    requires ClientStep(cfg, x, y)
    ensures y.s == x.s
  {
  }
}
