/** Results over every run of the session, whatever the interleaving, the sizes of
    reads and writes, and the points of failure. */
module SessionRuns {
  import opened Bytes
  import opened Frames
  import opened Loop
  import opened Misreading
  import opened Session
  import opened SessionBackend
  import opened SessionClient
  import opened SessionLoop
  import opened SessionPending

  ghost predicate Inv(cfg: Config, x: State) {
    BackendInv(cfg, x) && ShapeInv(x) && BytesInv(cfg, x) && CountInv(x) && PendingInv(cfg, x)
  }

  lemma StepKeepsInv(cfg: Config, x: State, y: State)
    requires Inv(cfg, x) && Next(cfg, x, y)
    ensures Inv(cfg, y)
  {
    StepKeepsBackendInv(cfg, x, y);
    StepKeepsShapeInv(cfg, x, y);
    StepKeepsBytesInv(cfg, x, y);
    StepKeepsCountInv(cfg, x, y);
    StepKeepsPendingInv(cfg, x, y);
  }

  lemma InitialInv(cfg: Config)
    ensures Inv(cfg, Initial(cfg))
  {
    InitiallyBalanced(cfg);
  }

  lemma {:induction false} RunKeepsInv(cfg: Config, xs: seq<State>, i: nat)
    requires IsRun(cfg, xs) && i < |xs|
    ensures Inv(cfg, xs[i])
  {
    if i == 0 {
      InitialInv(cfg);
    } else {
      RunKeepsInv(cfg, xs, i - 1);
      assert Next(cfg, xs[i - 1], xs[i - 1 + 1]);
      StepKeepsInv(cfg, xs[i - 1], xs[i]);
    }
  }

  // ---- The backend -------------------------------------------------------

  /** In every reachable state the backend has a prefix of the startup packet followed
      by the ideal stream; when the task is done and no write failed, all of it, and
      exactly the frames to refuse were refused. */
  lemma BackendGetsThePrefix(cfg: Config, xs: seq<State>, i: nat)
    requires IsRun(cfg, xs) && i < |xs|
    ensures var x := xs[i];
      && x.back <= cfg.startup + Forwarded(cfg.clientBytes, cfg.context)
      && (!x.backDead && !x.c.Cancelled? ==> x.refusals <= Refusals(cfg.clientBytes, cfg.context))
      && (!x.backDead && x.c.ClientDone? ==>
            && x.back == cfg.startup + Forwarded(cfg.clientBytes, cfg.context)
            && x.refusals == Refusals(cfg.clientBytes, cfg.context))
  {
    RunKeepsInv(cfg, xs, i);
  }

  // ---- The client --------------------------------------------------------

  lemma Inits(ps: seq<Piece>, k: nat)
    requires k < |ps| - 1
    ensures var n, tail := |ps| - 1, ps[k + 1..];
      && ps[..n][..k] == ps[..k] && tail != [] && tail[..|tail| - 1] == ps[..n][k + 1..] && tail[|tail| - 1] == ps[n]
  {
  }

  lemma {:induction false} FlatSplits(ps: seq<Piece>, k: nat)
    requires k < |ps|
    ensures Flat(ps) == Flat(ps[..k]) + ps[k].bytes + Flat(ps[k + 1..])
  {
    var n := |ps| - 1;
    if k == n {
      assert ps[k + 1..] == [];
    } else {
      FlatSplits(ps[..n], k);
      Inits(ps, k);
      Assoc(Flat(ps[..k]) + ps[k].bytes, Flat(ps[..n][k + 1..]), ps[n].bytes);
    }
  }

  /** In every reachable state what the client has is a sequence of contiguous pieces:
      stretches of the backend's bytes, which joined are a prefix of what the backend
      sent, and refusals. While no client write has failed, every refusal but the one
      in hand is the whole block, ErrorResponse then ReadyForQuery, and the backend's
      bytes are complete but for one chunk and what is still unread. */
  lemma ClientSeesWholeRefusals(cfg: Config, xs: seq<State>, i: nat)
    requires IsRun(cfg, xs) && i < |xs|
    ensures var x := xs[i];
      && x.received == Flat(x.pieces)
      && (forall k :: 0 <= k < |x.pieces| ==>
            x.received == Flat(x.pieces[..k]) + x.pieces[k].bytes + Flat(x.pieces[k + 1..]))
      && AllStarts(x.pieces, Notice(cfg))
      && Erased(x.pieces) <= cfg.backendBytes
      && (!x.clientDead ==>
            && AllWhole(Before(x.pieces, ClientPiece(x.c)), Notice(cfg))
            && Erased(x.pieces) + InHand(x.s) + x.backendRest == cfg.backendBytes
            && |InHand(x.s)| <= CHUNK)
  {
    RunKeepsInv(cfg, xs, i);
    forall k | 0 <= k < |xs[i].pieces|
      ensures Flat(xs[i].pieces) == Flat(xs[i].pieces[..k]) + xs[i].pieces[k].bytes + Flat(xs[i].pieces[k + 1..])
    {
      FlatSplits(xs[i].pieces, k);
    }
  }

  /** Up to here no backend was lost in the middle of a frame. */
  ghost predicate NeverStrayed(xs: seq<State>, i: nat)
    requires i < |xs|
  {
    forall j :: 0 <= j < i ==> !Strays(xs[j], xs[j + 1])
  }

  lemma {:induction false} RunStaysWithinRefusals(cfg: Config, xs: seq<State>, i: nat)
    requires IsRun(cfg, xs) && i < |xs| && NeverStrayed(xs, i)
    ensures WithinRefusals(cfg, xs[i])
  {
    if i > 0 {
      RunStaysWithinRefusals(cfg, xs, i - 1);
      RunKeepsInv(cfg, xs, i - 1);
      assert Next(cfg, xs[i - 1], xs[i - 1 + 1]) && !Strays(xs[i - 1], xs[i - 1 + 1]);
      StepStaysWithinRefusals(cfg, xs[i - 1], xs[i]);
    }
  }

  lemma {:induction false} RunKeepsLoopInv(cfg: Config, xs: seq<State>, i: nat)
    requires IsRun(cfg, xs) && i < |xs|
    ensures LoopInv(cfg, xs[i])
  {
    if i == 0 {
      InitialLoopInv(cfg);
    } else {
      RunKeepsLoopInv(cfg, xs, i - 1);
      RunKeepsInv(cfg, xs, i - 1);
      assert Next(cfg, xs[i - 1], xs[i - 1 + 1]);
      NextKeepsLoopInv(cfg, xs[i - 1], xs[i]);
    }
  }

  lemma NextKeepsLoopInv(cfg: Config, x: State, y: State)
    requires Inv(cfg, x) && LoopInv(cfg, x) && Next(cfg, x, y)
    ensures LoopInv(cfg, y)
  {
    StepKeepsLoopInv(cfg, x, y);
  }

  /** Where the backend failed, counted behind the startup message. */
  function FailurePoint(cfg: Config, x: State): Option<nat> {
    if x.backDead && Taken(cfg, x) >= 0 then Some(Taken(cfg, x)) else None
  }

  lemma DeadBackendCounts(cfg: Config, xs: seq<State>, i: nat)
    requires IsRun(cfg, xs) && i < |xs| && xs[i].c.ClientDone? && xs[i].backDead
    ensures FailurePoint(cfg, xs[i]).Some?
    ensures xs[i].refusals == Run(cfg.clientBytes, cfg.context, FailurePoint(cfg, xs[i])).notices
  {
    RunKeepsLoopInv(cfg, xs, i);
    var room: nat := Taken(cfg, xs[i]);
    assert IsFailurePoint(cfg, xs[i], room);
    assert ToCome(ClientDone, xs[i].clientRest, cfg.context, 0) == 0;
  }

  lemma CutPrefix(head: seq<byte>, body: seq<byte>, back: seq<byte>)
    requires back <= head + body && |back| >= |head|
    ensures back == head + Cut(body, Some(|back| - |head|))
  {
  }

  /** Every run refines the loop: whatever the interleaving, when the client-to-server task
      is done the backend has what the loop alone sends a backend that fails at the same
      byte, and exactly the frames the loop refuses were refused. */
  lemma SessionsRefineTheLoop(cfg: Config, xs: seq<State>, i: nat)
    requires IsRun(cfg, xs) && i < |xs| && xs[i].c.ClientDone?
    ensures var x := xs[i]; var loop := Run(cfg.clientBytes, cfg.context, FailurePoint(cfg, x));
      x.back == cfg.startup + loop.sent && x.refusals == loop.notices
  {
    var x := xs[i];
    var room := FailurePoint(cfg, x);
    BackendGetsThePrefix(cfg, xs, i);
    RunSendsTheIdealStream(cfg.clientBytes, cfg.context, room);
    if x.backDead {
      DeadBackendCounts(cfg, xs, i);
      CutPrefix(cfg.startup, Forwarded(cfg.clientBytes, cfg.context), x.back);
    }
  }

  /** So which backends and contexts are safe is the same for every interleaving. */
  lemma SafeSessionsNeverMisread(cfg: Config, xs: seq<State>, i: nat)
    requires IsRun(cfg, xs) && i < |xs| && xs[i].c.ClientDone?
    requires !xs[i].backDead || Taken(cfg, xs[i]) < 5 || RefusesNothing(cfg.context)
    ensures xs[i].refusals <= Refusals(cfg.clientBytes, cfg.context)
  {
    SessionsRefineTheLoop(cfg, xs, i);
    NeverMisreadsIff(cfg.context, FailurePoint(cfg, xs[i]));
  }

  /** Until the client is shut or a write to it fails, the refusals it has been sent are
      the frames refused so far, less the one that waits for the lock. Whatever has
      failed, those are no more than the frames to refuse, unless a backend was lost in
      the middle of a frame; and in the end they are those the loop alone refuses, on a
      backend that fails where this one did. */
  lemma RefusalsMatchFrames(cfg: Config, xs: seq<State>, i: nat)
    requires IsRun(cfg, xs) && i < |xs|
    ensures var x := xs[i];
      && (CanReceive(x) ==> RefusalCount(x.pieces) + Owed(x.c) == x.refusals)
      && (CanReceive(x) && !x.backDead && !x.c.Cancelled? ==>
            RefusalCount(x.pieces) <= Refusals(cfg.clientBytes, cfg.context))
      && (NeverStrayed(xs, i) ==> x.refusals <= Refusals(cfg.clientBytes, cfg.context))
      && (x.c.ClientDone? ==>
            x.refusals == Run(cfg.clientBytes, cfg.context, FailurePoint(cfg, x)).notices)
  {
    RunKeepsInv(cfg, xs, i);
    if xs[i].c.ClientDone? {
      SessionsRefineTheLoop(cfg, xs, i);
    }
    if NeverStrayed(xs, i) {
      RunStaysWithinRefusals(cfg, xs, i);
    }
  }

  // ---- The end -----------------------------------------------------------

  /** When the session ends, the server-to-client task is done and the client's write
      half has been shut; the client then has every byte of the backend, unless a
      write to it failed. */
  lemma SessionEndsInOrder(cfg: Config, xs: seq<State>, i: nat)
    requires IsRun(cfg, xs) && i < |xs| && xs[i].join.Ended?
    ensures var x := xs[i];
      && x.s.ServerDone? && x.shut
      && (x.c.ClientDone? || x.c.Cancelled?)
      && (!x.clientDead ==> Erased(x.pieces) == cfg.backendBytes)
  {
    RunKeepsInv(cfg, xs, i);
    var x := xs[i];
    assert Erased(x.pieces) + [] + [] == Erased(x.pieces);
  }

  /** The drain deadline is armed only after the server-to-client task is done. */
  lemma DrainFollowsTheServer(cfg: Config, xs: seq<State>, i: nat)
    requires IsRun(cfg, xs) && i < |xs| && (xs[i].join.Draining? || xs[i].c.Cancelled?)
    ensures xs[i].s.ServerDone?
  {
    RunKeepsInv(cfg, xs, i);
  }

  lemma DoneStaysDone(cfg: Config, x: State, y: State)
    requires x.c.ClientDone? && Next(cfg, x, y)
    ensures y.c.ClientDone?
  {
    if ClientStep(cfg, x, y) {
      ClientStepShape(cfg, x, y);
    }
  }

  lemma {:induction false} DoneForTheRest(cfg: Config, xs: seq<State>, j: nat, i: nat)
    requires IsRun(cfg, xs) && j <= i < |xs| && xs[j].c.ClientDone?
    ensures xs[i].c.ClientDone?
    decreases i
  {
    if j < i {
      DoneForTheRest(cfg, xs, j, i - 1);
      assert Next(cfg, xs[i - 1], xs[i - 1 + 1]);
      DoneStaysDone(cfg, xs[i - 1], xs[i]);
    }
  }

  /** Once the client has stopped sending and its task is done, no deadline strikes:
      neither task is ever cut short, whichever the join sees first, and at the end the
      client has every byte the backend sent before its own end of file, unless a write
      to it failed. */
  lemma HalfCloseHasNoDeadline(cfg: Config, xs: seq<State>, j: nat, i: nat)
    requires IsRun(cfg, xs) && j <= i < |xs| && xs[j].c.ClientDone?
    ensures !xs[i].c.Cancelled? && DrainTimeout(xs[i]).None?
    ensures xs[i].join.Ended? && !xs[i].clientDead ==> Erased(xs[i].pieces) == cfg.backendBytes
  {
    DoneForTheRest(cfg, xs, j, i);
    if xs[i].join.Ended? {
      SessionEndsInOrder(cfg, xs, i);
    }
  }
}
