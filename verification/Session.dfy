/** The session phase as a state machine: the two forwarding tasks, the mutex around
    the client writer, and the join that ends them. One step is one await: a read, a
    write that takes some of its bytes, a failure, a lock acquisition. Any enabled
    step may come next. Models proxy.rs from the split of the client stream on. */
module Session {
  import opened Bytes
  import opened Guardian
  import opened Frames
  import opened Messages

  /** What does not change during a session: all the client and the backend will ever
      send, the context, what the backend has already been sent, the refusal. */
  datatype Config = Config(clientBytes: seq<byte>, backendBytes: seq<byte>, context: Context,
                           startup: seq<byte>, error: seq<byte>)

  function Notice(cfg: Config): seq<byte> {
    cfg.error + READY
  }

  /** The client-to-server task, at its next await. */
  datatype ClientTask =
    | ReadTag
    | ReadLength(tag: byte)
    | ReadQuery(tag: byte, length: seq<byte>)
    | WantLock
    | SendError(done: seq<byte>, todo: seq<byte>)
    | SendReady(done: seq<byte>, todo: seq<byte>)
    | SendFrame(todo: seq<byte>)
    | SendHead(todo: seq<byte>, left: nat)
    | ReadChunk(left: nat)
    | SendChunk(todo: seq<byte>, left: nat)
    | Closing
    | ClientDone
    | Cancelled

  /** The server-to-client task. */
  datatype ServerTask =
    | ReadBackend
    | WantToSend(chunk: seq<byte>)
    | Sending(done: seq<byte>, todo: seq<byte>)
    | WantToShut
    | Shutting
    | ServerDone

  datatype Lock = Free | HeldByClient | HeldByServer

  datatype Join = Racing | AwaitServer | Draining | Ended

  /** What the client received, piece by piece: a stretch of one hold of the lock. */
  datatype Piece = Data(bytes: seq<byte>) | Refusal(bytes: seq<byte>)

  datatype State = State(
    c: ClientTask, clientRest: seq<byte>, back: seq<byte>, backDead: bool, refusals: nat,
    s: ServerTask, backendRest: seq<byte>,
    lock: Lock, received: seq<byte>, pieces: seq<Piece>, clientDead: bool, shut: bool,
    join: Join)

  function Initial(cfg: Config): State {
    State(ReadTag, cfg.clientBytes, cfg.startup, false, 0,
          ReadBackend, cfg.backendBytes,
          Free, [], [], false, false, Racing)
  }

  // ---- Steps of the client-to-server task --------------------------------

  predicate ClientRuns(x: State) {
    x.join.Racing? || x.join.Draining?
  }

  function ClientRead(cfg: Config, x: State): Option<State> {
    var r := x.clientRest;
    match x.c
    case ReadTag =>
      if r == [] then Some(x.(c := Closing)) else Some(x.(c := ReadLength(r[0]), clientRest := r[1..]))
    case ReadLength(tag) =>
      if |r| < 4 then Some(x.(c := Closing, clientRest := []))
      else
        var n := PayloadLength(r[..4]);
        var next := if IsInspected(tag, n) then ReadQuery(tag, r[..4]) else SendHead([tag] + r[..4], n);
        Some(x.(c := next, clientRest := r[4..]))
    case ReadQuery(tag, length) =>
      if |length| != 4 then None
      else
        var n := PayloadLength(length);
        if |r| < n then Some(x.(c := Closing, clientRest := []))
        else if !Verdict(r[..n], cfg.context) then
          Some(x.(c := WantLock, clientRest := r[n..], refusals := x.refusals + 1))
        else Some(x.(c := SendFrame([tag] + length + r[..n]), clientRest := r[n..]))
    case ReadChunk(left) =>
      var k := Min(left, CHUNK);
      if |r| < k then Some(x.(c := ReadTag, clientRest := []))
      else Some(x.(c := SendChunk(r[..k], left - k), clientRest := r[k..]))
    case Closing => Some(x.(c := ClientDone))
    case _ => None
  }

  /** After a payload with `left` bytes to go: the chunk loop, or the next message. */
  function AfterChunk(left: nat): ClientTask {
    if left == 0 then ReadTag else ReadChunk(left)
  }

  /** `n` more bytes of a write to the backend. */
  function BackendWrite(x: State, n: nat): Option<State> {
    match x.c
    case SendFrame(todo) =>
      if x.backDead || !(0 < n <= |todo|) then None
      else Some(x.(back := x.back + todo[..n], c := if n == |todo| then ReadTag else SendFrame(todo[n..])))
    case SendHead(todo, left) =>
      if x.backDead || !(0 < n <= |todo|) then None
      else Some(x.(back := x.back + todo[..n], c := if n == |todo| then AfterChunk(left) else SendHead(todo[n..], left)))
    case SendChunk(todo, left) =>
      if x.backDead || !(0 < n <= |todo|) then None
      else Some(x.(back := x.back + todo[..n], c := if n == |todo| then AfterChunk(left) else SendChunk(todo[n..], left)))
    case _ => None
  }

  /** A failed write to the backend, for good. In the chunk loop it only ends that loop. */
  function BackendFail(x: State): Option<State> {
    match x.c
    case SendFrame(_) => Some(x.(backDead := true, c := Closing))
    case SendHead(_, _) => Some(x.(backDead := true, c := Closing))
    case SendChunk(_, _) => Some(x.(backDead := true, c := ReadTag))
    case _ => None
  }

  function ClientLocks(cfg: Config, x: State): Option<State> {
    if x.c.WantLock? && x.lock.Free? then Some(x.(c := SendError([], cfg.error), lock := HeldByClient)) else None
  }

  /** Adds `w` to what the client has of the current piece, `done` being its start. */
  function Put(pieces: seq<Piece>, start: Piece, w: seq<byte>): seq<Piece> {
    if start.bytes == [] || pieces == [] then pieces + [start.(bytes := w)]
    else pieces[..|pieces| - 1] + [start.(bytes := start.bytes + w)]
  }

  predicate CanReceive(x: State) {
    !x.clientDead && !x.shut
  }

  function RefusalWrite(x: State, n: nat): Option<State> {
    match x.c
    case SendError(done, todo) =>
      if !CanReceive(x) || !(0 < n <= |todo|) then None
      else Some(x.(received := x.received + todo[..n], pieces := Put(x.pieces, Refusal(done), todo[..n]),
                   c := if n == |todo| then SendReady(done + todo[..n], READY) else SendError(done + todo[..n], todo[n..])))
    case SendReady(done, todo) =>
      if !CanReceive(x) || !(0 < n <= |todo|) then None
      else Some(x.(received := x.received + todo[..n], pieces := Put(x.pieces, Refusal(done), todo[..n]),
                   c := if n == |todo| then ReadTag else SendReady(done + todo[..n], todo[n..]),
                   lock := if n == |todo| then Free else x.lock))
    case _ => None
  }

  /** A failed write to the client. After the error failed, ReadyForQuery is not tried;
      either way the loop goes on. */
  function RefusalFail(x: State): Option<State> {
    if x.c.SendError? || x.c.SendReady? then
      Some(x.(c := ReadTag, lock := Free, clientDead := x.clientDead || !x.shut))
    else None
  }

  // ---- Steps of the server-to-client task --------------------------------

  predicate ServerRuns(x: State) {
    x.join.Racing? || x.join.AwaitServer?
  }

  function ServerRead(x: State, n: nat): Option<State> {
    if !x.s.ReadBackend? then None
    else if x.backendRest == [] then Some(x.(s := WantToShut))
    else if !(0 < n <= CHUNK && n <= |x.backendRest|) then None
    else Some(x.(s := WantToSend(x.backendRest[..n]), backendRest := x.backendRest[n..]))
  }

  function ServerLocks(x: State): Option<State> {
    if !x.lock.Free? then None
    else
      match x.s
      case WantToSend(chunk) => Some(x.(s := Sending([], chunk), lock := HeldByServer))
      case WantToShut => Some(x.(s := Shutting, lock := HeldByServer))
      case _ => None
  }

  function ServerWrite(x: State, n: nat): Option<State> {
    match x.s
    case Sending(done, todo) =>
      if !CanReceive(x) || !(0 < n <= |todo|) then None
      else Some(x.(received := x.received + todo[..n], pieces := Put(x.pieces, Data(done), todo[..n]),
                   s := if n == |todo| then ReadBackend else Sending(done + todo[..n], todo[n..]),
                   lock := if n == |todo| then Free else x.lock))
    case _ => None
  }

  function ServerFail(x: State): Option<State> {
    if x.s.Sending? then Some(x.(s := WantToShut, lock := Free, clientDead := x.clientDead || !x.shut)) else None
  }

  function ServerShuts(x: State): Option<State> {
    if x.s.Shutting? then Some(x.(s := ServerDone, lock := Free, shut := true)) else None
  }

  // ---- Steps of the join -------------------------------------------------

  function SeeDone(x: State): Option<State> {
    match x.join
    case Racing =>
      if x.c.ClientDone? then Some(x.(join := AwaitServer))
      else if x.s.ServerDone? then Some(x.(join := Draining))
      else None
    case AwaitServer => if x.s.ServerDone? then Some(x.(join := Ended)) else None
    case Draining => if x.c.ClientDone? then Some(x.(join := Ended)) else None
    case Ended => None
  }

  /** When both tasks are done at once, `select!` may see either first. */
  function SeeServerFirst(x: State): Option<State> {
    if x.join.Racing? && x.s.ServerDone? then Some(x.(join := Draining)) else None
  }

  /** The drain deadline. Dropping the task drops the lock it holds. */
  function DrainTimeout(x: State): Option<State> {
    if x.join.Draining? && !x.c.ClientDone? then
      Some(x.(join := Ended, c := Cancelled, lock := if x.lock.HeldByClient? then Free else x.lock))
    else None
  }

  // ---- Runs --------------------------------------------------------------

  ghost predicate ClientStep(cfg: Config, x: State, y: State) {
    && ClientRuns(x)
    && (ClientRead(cfg, x) == Some(y) || BackendFail(x) == Some(y) || ClientLocks(cfg, x) == Some(y)
        || RefusalFail(x) == Some(y) || (exists n: nat :: BackendWrite(x, n) == Some(y) || RefusalWrite(x, n) == Some(y)))
  }

  ghost predicate ServerStep(x: State, y: State) {
    && ServerRuns(x)
    && (ServerLocks(x) == Some(y) || ServerFail(x) == Some(y) || ServerShuts(x) == Some(y)
        || (exists n: nat :: ServerRead(x, n) == Some(y) || ServerWrite(x, n) == Some(y)))
  }

  ghost predicate JoinStep(x: State, y: State) {
    SeeDone(x) == Some(y) || SeeServerFirst(x) == Some(y) || DrainTimeout(x) == Some(y)
  }

  ghost predicate Next(cfg: Config, x: State, y: State) {
    ClientStep(cfg, x, y) || ServerStep(x, y) || JoinStep(x, y)
  }

  /** A run: it starts at the beginning and each state follows from the one before. */
  ghost predicate IsRun(cfg: Config, xs: seq<State>) {
    && xs != [] && xs[0] == Initial(cfg)
    && forall i :: 0 <= i < |xs| - 1 ==> Next(cfg, xs[i], xs[i + 1])
  }

  // ---- Steps at which nothing fails --------------------------------------

  /** A refusal that finds the writer already shut is dropped: that is no failure. */
  ghost predicate HealthyClientStep(cfg: Config, x: State, y: State) {
    && ClientRuns(x)
    && (ClientRead(cfg, x) == Some(y) || ClientLocks(cfg, x) == Some(y) || (x.shut && RefusalFail(x) == Some(y))
        || (exists n: nat :: BackendWrite(x, n) == Some(y) || RefusalWrite(x, n) == Some(y)))
  }

  ghost predicate HealthyServerStep(x: State, y: State) {
    && ServerRuns(x)
    && (ServerLocks(x) == Some(y) || ServerShuts(x) == Some(y)
        || (exists n: nat :: ServerRead(x, n) == Some(y) || ServerWrite(x, n) == Some(y)))
  }

  /** Nothing fails and no deadline strikes. */
  ghost predicate HealthyStep(cfg: Config, x: State, y: State) {
    HealthyClientStep(cfg, x, y) || HealthyServerStep(x, y) || SeeDone(x) == Some(y) || SeeServerFirst(x) == Some(y)
  }

  ghost predicate IsHealthyRun(cfg: Config, xs: seq<State>) {
    && xs != [] && xs[0] == Initial(cfg)
    && forall i :: 0 <= i < |xs| - 1 ==> HealthyStep(cfg, xs[i], xs[i + 1])
  }
}
