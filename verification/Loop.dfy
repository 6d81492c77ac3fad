/** The client-to-server loop of `handle_client` as a function, for streams that may be
    truncated and a backend that may fail at any byte. Models proxy.rs. */
module Loop {
  import opened Bytes
  import opened Guardian
  import opened Frames
  import opened Streams

  // ---- The loop as a function --------------------------------------------

  /** One turn of a loop: bytes sent, the input it leaves, the room it leaves. */
  datatype Turn =
    | Stop(sent: seq<byte>)
    | Go(sent: seq<byte>, notices: nat, rest: seq<byte>, room: Option<nat>)

  /** The chunk loop of a blind frame with `left` payload bytes to go. A failed read
      or write ends only this loop: the outer one goes on with whatever is next. */
  function Chunks(left: nat, s: seq<byte>, room: Option<nat>): (t: Turn)
    ensures t.Go? && t.notices == 0 && |t.rest| <= |s|
    decreases left
  {
    var k := Min(left, CHUNK);
    if left == 0 then Go([], 0, s, room)
    else if |s| < k then Go([], 0, [], room)
    else if !Fits(k, room) then Go(Cut(s[..k], room), 0, s[k..], Some(0))
    else
      var t := Chunks(left - k, s[k..], Less(room, k));
      Go(s[..k] + t.sent, 0, t.rest, t.room)
  }

  /** One turn of the outer loop, for a backend that accepts `room` more bytes. */
  function OneTurn(s: seq<byte>, c: Context, room: Option<nat>): (t: Turn)
    ensures t.Go? ==> |t.rest| < |s| && t.notices <= 1
  {
    if |s| < 5 then Stop([])
    else
      var n := PayloadLength(s[1..5]);
      if IsInspected(s[0], n) then
        if |s| < 5 + n then Stop([])
        else if !Verdict(s[5..5 + n], c) then Go([], 1, s[5 + n..], room)
        else if !Fits(5 + n, room) then Stop(Cut(s[..5 + n], room))
        else Go(s[..5 + n], 0, s[5 + n..], Less(room, 5 + n))
      else if !Fits(5, room) then Stop(Cut(s[..5], room))
      else
        var t := Chunks(n, s[5..], Less(room, 5));
        Go(s[..5] + t.sent, 0, t.rest, t.room)
  }

  datatype Outcome = Outcome(sent: seq<byte>, notices: nat)

  /** What a whole run sends upstream, and how many refusals it answers. */
  function Run(s: seq<byte>, c: Context, room: Option<nat>): Outcome
    decreases |s|
  {
    match OneTurn(s, c, room)
    case Stop(sent) => Outcome(sent, 0)
    case Go(sent, notices, rest, room') =>
      var o := Run(rest, c, room');
      Outcome(sent + o.sent, notices + o.notices)
  }

  // ---- Against the ideal stream ------------------------------------------

  /** The chunk loop sends the payload, or the whole chunks of it that arrived, cut at
      the failure point; if all of that fits it leaves what follows the payload. */
  lemma {:induction false} ChunksSendThePayload(left: nat, s: seq<byte>, room: Option<nat>)
    ensures var t, w := Chunks(left, s, room), BlindSent(left, s);
      && t.sent == Cut(w, room)
      && (Fits(|w|, room) ==> t.rest == BlindRest(left, s) && t.room == Less(room, |w|))
      && (!Fits(|w|, room) ==> t.room == Some(0))
    decreases left
  {
    if left > 0 {
      var k := Min(left, CHUNK);
      if |s| >= k {
        BlindRestStep(left, s);
        CutAppend(s[..k], BlindSent(left - k, s[k..]), room);
        if Fits(k, room) {
          ChunksSendThePayload(left - k, s[k..], Less(room, k));
        }
      }
    }
  }

  /** A dead backend gets nothing more. */
  lemma {:induction false} DeadBackendGetsNothing(s: seq<byte>, c: Context)
    ensures Run(s, c, Some(0)).sent == []
    decreases |s|
  {
    var t := OneTurn(s, c, Some(0));
    if t.Go? {
      assert t.room == Some(0) && t.sent == [];
      DeadBackendGetsNothing(t.rest, c);
    }
  }

  /** In every run: the ideal stream cut at the failure, and every refusal if there is none. */
  lemma {:induction false} RunSendsTheIdealBytes(s: seq<byte>, c: Context, room: Option<nat>)
    ensures Run(s, c, room).sent == Cut(Forwarded(s, c), room)
    ensures Fits(|Forwarded(s, c)|, room) ==> Run(s, c, room).notices == Refusals(s, c)
    decreases |s|
  {
    if |s| < 5 {
    } else if IsInspected(s[0], PayloadLength(s[1..5])) {
      InspectedTurn(s, c, room);
      var t := OneTurn(s, c, room);
      if t.Go? {
        RunSendsTheIdealBytes(t.rest, c, t.room);
      }
    } else {
      BlindTurn(s, c, room);
      var t := OneTurn(s, c, room);
      if t.Go? {
        RunSendsTheIdealBytes(t.rest, c, t.room);
      }
    }
  }

  /** What a turn must do for the run to send the ideal stream. */
  predicate TurnIsIdeal(s: seq<byte>, c: Context, room: Option<nat>, t: Turn) {
    match t
    case Stop(sent) => sent == Cut(Forwarded(s, c), room) && (Fits(|Forwarded(s, c)|, room) ==> Refusals(s, c) == 0)
    case Go(sent, notices, rest, room') =>
      && sent + Cut(Forwarded(rest, c), room') == Cut(Forwarded(s, c), room)
      && (Fits(|Forwarded(s, c)|, room) ==>
            Fits(|Forwarded(rest, c)|, room') && Refusals(s, c) == notices + Refusals(rest, c))
  }

  lemma InspectedTurn(s: seq<byte>, c: Context, room: Option<nat>)
    requires |s| >= 5 && IsInspected(s[0], PayloadLength(s[1..5]))
    ensures TurnIsIdeal(s, c, room, OneTurn(s, c, room))
  {
    var n := PayloadLength(s[1..5]);
    if |s| < 5 + n {
    } else {
      var rest := Forwarded(s[5 + n..], c);
      assert Raw(FirstFrame(s)) == s[..5 + n];
      if Verdict(s[5..5 + n], c) {
        CutAppend(s[..5 + n], rest, room);
      } else {
        assert [] + rest == rest && [] + Cut(rest, room) == Cut(rest, room);
      }
    }
  }

  lemma BlindTurn(s: seq<byte>, c: Context, room: Option<nat>)
    requires |s| >= 5 && !IsInspected(s[0], PayloadLength(s[1..5]))
    ensures TurnIsIdeal(s, c, room, OneTurn(s, c, room))
  {
    var n := PayloadLength(s[1..5]);
    var w, rest := BlindSent(n, s[5..]), Forwarded(BlindRest(n, s[5..]), c);
    BlindHeader(s, c);
    CutThree(s[..5], w, rest, room);
    if Fits(5, room) {
      ChunksSendThePayload(n, s[5..], Less(room, 5));
      var t := Chunks(n, s[5..], Less(room, 5));
      if !Fits(|w|, Less(room, 5)) {
        var sent := s[..5] + t.sent;
        assert sent + Cut(Forwarded(t.rest, c), Some(0)) == sent;
      }
    }
  }

  /** A backend that fails inside a frame of several chunks makes the loop resume in
      the middle of that frame: here one frame, not inspected and not refused, whose
      second chunk looks like a refused Query, gets the client a refusal. */
  lemma LostBackendCanMisframe(c: Context, bad: Frame)
    requires IsFrame(bad) && IsRefused(bad, c)
    ensures exists s: seq<byte> :: Refusals(s, c) == 0 && |FramesOf(s)| == 1 && Run(s, c, Some(5)).notices == 1
  {
    var n := CHUNK + |Raw(bad)|;
    var length := ToBe32(n + 4);
    var payload: seq<byte> := Repeat(0, CHUNK) + Raw(bad);
    var f := Frame(0x64, length, payload);
    var s := Raw(f) + [];
    FirstFrameOfPrinted(f, []);
    assert FramesOf([]) == [] && Refusals([], c) == 0;
    assert Refusals(s, c) == 0 && FramesOf(s) == [f];
    assert s[5..] == payload && payload[CHUNK..] == Raw(bad) + [];
    FirstFrameOfPrinted(bad, []);
    var rest := Raw(bad) + [];
    assert Chunks(n, s[5..], Some(0)) == Go([], 0, rest, Some(0));
    assert OneTurn(s, c, Some(5)) == Go(s[..5] + [], 0, rest, Some(0));
    assert rest[5..5 + |bad.payload|] == bad.payload && rest[1..5] == bad.length;
    assert OneTurn(rest, c, Some(0)) == Go([], 1, [], Some(0));
    assert Run([], c, Some(0)).notices == 0;
    assert Run(rest, c, Some(0)).notices == 1;
  }

  /** A turn that starts with a whole frame: a Query or a Parse of at most 1023 bytes that
      the context refuses is answered and skipped; any other is sent raw, cut at the
      failure. */
  lemma TurnOnAFrame(s: seq<byte>, c: Context, room: Option<nat>)
    requires StartsWithFrame(s)
    ensures var f, t := FirstFrame(s), OneTurn(s, c, room);
      if (f.tag == 0x51 || f.tag == 0x50) && |f.payload| <= 1023 && !Verdict(f.payload, c) then
        t == Go([], 1, s[|Raw(f)|..], room)
      else
        t.sent == Cut(Raw(f), room) && (t.Go? ==> t.notices == 0)
  {
    var f := FirstFrame(s);
    var n := |f.payload|;
    Slices(s, 5, n);
    assert Raw(f) == s[..5 + n];
    BlindSentInNumbers(n, s[5..]);
    CutAppend(s[..5], s[5..][..n], room);
    if Fits(5, room) {
      ChunksSendThePayload(n, s[5..], Less(room, 5));
    }
  }

  /** A small Parse whose statement alone would be refused never reaches the backend:
      wherever it is sent and wherever the backend fails, the loop sends what it would
      have sent without it. */
  lemma BlockedParseIsNeverSent(before: seq<Frame>, name: seq<byte>, statement: seq<byte>, types: seq<byte>,
                                more: seq<byte>, c: Context, room: Option<nat>)
    requires forall g :: g in before ==> IsFrame(g)
    requires NulFreeContext(c) && !Verdict(statement, c) && |name| + |statement| + |types| <= 1021
    ensures var parse := Message(0x50, name + [0] + statement + [0] + types);
      Run(RawAll(before) + (parse + more), c, room).sent == Run(RawAll(before) + more, c, room).sent
  {
    BlockedParseLeavesNoTrace(before, name, statement, types, more, c);
    RunSendsTheIdealBytes(RawAll(before) + (Message(0x50, name + [0] + statement + [0] + types) + more), c, room);
    RunSendsTheIdealBytes(RawAll(before) + more, c, room);
  }

  // ---- Keeping its place -------------------------------------------------

  /** What follows the first frame; nothing, if that frame is truncated. */
  function BehindFirst(s: seq<byte>): seq<byte> {
    if StartsWithFrame(s) then s[|Raw(FirstFrame(s))|..] else []
  }

  /** Every turn starts where a frame does. */
  predicate KeepsItsPlace(s: seq<byte>, c: Context, room: Option<nat>)
    decreases |s|
  {
    var t := OneTurn(s, c, room);
    t.Go? ==> t.rest == BehindFirst(s) && KeepsItsPlace(t.rest, c, t.room)
  }

  /** The write of a chunk fails with payload still to go and input behind the chunk. */
  predicate CutInside(left: nat, s: seq<byte>, room: Option<nat>)
    decreases left
  {
    var k := Min(left, CHUNK);
    && left > 0 && |s| >= k
    && if Fits(k, room) then CutInside(left - k, s[k..], Less(room, k)) else left > k && |s| > k
  }

  /** That happens in the first turn. */
  predicate CutsHere(s: seq<byte>, room: Option<nat>) {
    && |s| >= 5 && !IsInspected(s[0], PayloadLength(s[1..5])) && Fits(5, room)
    && CutInside(PayloadLength(s[1..5]), s[5..], Less(room, 5))
  }

  /** That happens in some turn. */
  predicate LosesItsPlace(s: seq<byte>, c: Context, room: Option<nat>)
    decreases |s|
  {
    var t := OneTurn(s, c, room);
    CutsHere(s, room) || (t.Go? && LosesItsPlace(t.rest, c, t.room))
  }

  lemma {:induction false} ChunksKeepPlaceIff(left: nat, s: seq<byte>, room: Option<nat>)
    ensures Chunks(left, s, room).rest == BlindRest(left, s) <==> !CutInside(left, s, room)
    decreases left
  {
    var k := Min(left, CHUNK);
    if left > 0 && |s| >= k {
      if Fits(k, room) {
        BlindRestStep(left, s);
        ChunksKeepPlaceIff(left - k, s[k..], Less(room, k));
      } else {
        assert |s[k..]| == |s| - k;
      }
    }
  }

  lemma TurnKeepsPlaceIff(s: seq<byte>, c: Context, room: Option<nat>)
    requires OneTurn(s, c, room).Go?
    ensures OneTurn(s, c, room).rest == BehindFirst(s) <==> !CutsHere(s, room)
  {
    var n := PayloadLength(s[1..5]);
    if |s| >= 5 + n {
      Slices(s, 5, n);
    }
    if !IsInspected(s[0], n) {
      ChunksKeepPlaceIff(n, s[5..], Less(room, 5));
    }
  }

  /** The loop reads every header at the start of a frame if and only if no write of a
      chunk fails with payload still to go and input behind it. */
  lemma {:induction false} KeepsItsPlaceIff(s: seq<byte>, c: Context, room: Option<nat>)
    ensures KeepsItsPlace(s, c, room) <==> !LosesItsPlace(s, c, room)
    decreases |s|
  {
    var t := OneTurn(s, c, room);
    if t.Go? {
      TurnKeepsPlaceIff(s, c, room);
      KeepsItsPlaceIff(t.rest, c, t.room);
    } else {
      assert !CutsHere(s, room);
    }
  }

  /** What the loop takes for frames and refuses, in order. */
  function Answered(s: seq<byte>, c: Context, room: Option<nat>): seq<Frame>
    decreases |s|
  {
    match OneTurn(s, c, room)
    case Stop(_) => []
    case Go(_, notices, rest, room') =>
      (if notices == 1 then assert StartsWithFrame(s); [FirstFrame(s)] else []) + Answered(rest, c, room')
  }

  /** The frames to refuse, in order. */
  function Refused(fs: seq<Frame>, c: Context): seq<Frame> {
    if fs == [] then [] else (if IsRefused(fs[0], c) then [fs[0]] else []) + Refused(fs[1..], c)
  }

  lemma {:induction false} AnsweredAreCounted(s: seq<byte>, c: Context, room: Option<nat>)
    ensures |Answered(s, c, room)| == Run(s, c, room).notices
    ensures forall f :: f in Answered(s, c, room) ==> IsFrame(f) && IsRefused(f, c)
    decreases |s|
  {
    var t := OneTurn(s, c, room);
    if t.Go? {
      AnsweredAreCounted(t.rest, c, t.room);
    }
  }

  lemma {:induction false} RefusedAreCounted(s: seq<byte>, c: Context)
    ensures |Refused(FramesOf(s), c)| == Refusals(s, c)
    decreases |s|
  {
    if StartsWithFrame(s) {
      FramesStep(s);
      RefusedAreCounted(s[|Raw(FirstFrame(s))|..], c);
    }
  }

  lemma RefusedStep(s: seq<byte>, c: Context)
    requires StartsWithFrame(s)
    ensures Refused(FramesOf(s), c)
         == (if IsRefused(FirstFrame(s), c) then [FirstFrame(s)] else []) + Refused(FramesOf(BehindFirst(s)), c)
  {
    FramesStep(s);
  }

  lemma TurnRefusesIff(s: seq<byte>, c: Context, room: Option<nat>)
    requires OneTurn(s, c, room).Go?
    ensures OneTurn(s, c, room).notices == 1 <==> StartsWithFrame(s) && IsRefused(FirstFrame(s), c)
  {
  }

  /** One turn that keeps its place refuses its frame only if that is to be refused. */
  lemma AnsweredStep(s: seq<byte>, c: Context, room: Option<nat>)
    requires OneTurn(s, c, room).Go? && OneTurn(s, c, room).rest == BehindFirst(s)
    requires Answered(BehindFirst(s), c, OneTurn(s, c, room).room) <= Refused(FramesOf(BehindFirst(s)), c)
    ensures Answered(s, c, room) <= Refused(FramesOf(s), c)
  {
    var t := OneTurn(s, c, room);
    TurnRefusesIff(s, c, room);
    if StartsWithFrame(s) {
      RefusedStep(s, c);
      var first := if IsRefused(FirstFrame(s), c) then [FirstFrame(s)] else [];
      assert Answered(s, c, room) == first + Answered(t.rest, c, t.room);
    } else {
      assert Answered(s, c, room) == [] + Answered([], c, t.room);
    }
  }

  /** While the loop keeps its place, what it refuses is, in order and without a gap, the
      frames to refuse; a failed backend only leaves some of the last ones out. */
  lemma {:induction false} KeptPlaceAnswersFrames(s: seq<byte>, c: Context, room: Option<nat>)
    requires !LosesItsPlace(s, c, room)
    ensures Answered(s, c, room) <= Refused(FramesOf(s), c)
    ensures Run(s, c, room).notices <= Refusals(s, c)
    decreases |s|
  {
    var t := OneTurn(s, c, room);
    if t.Go? {
      TurnKeepsPlaceIff(s, c, room);
      assert !CutsHere(s, room);
      KeptPlaceAnswersFrames(t.rest, c, t.room);
      AnsweredStep(s, c, room);
    }
    AnsweredAreCounted(s, c, room);
    RefusedAreCounted(s, c);
  }

  /** Main result of the loop. For every client byte stream and every failure point,
      what was sent is the ideal stream cut at the failure. While the whole ideal stream
      fits, one refusal is answered for each frame to refuse; after a failure no more than
      that, unless a chunk's write failed with payload to go and input behind it. */
  lemma RunSendsTheIdealStream(s: seq<byte>, c: Context, room: Option<nat>)
    ensures Run(s, c, room).sent == Cut(Forwarded(s, c), room)
    ensures Fits(|Forwarded(s, c)|, room) ==> Run(s, c, room).notices == Refusals(s, c)
    ensures !LosesItsPlace(s, c, room) ==> Run(s, c, room).notices <= Refusals(s, c)
  {
    RunSendsTheIdealBytes(s, c, room);
    if !LosesItsPlace(s, c, room) {
      KeptPlaceAnswersFrames(s, c, room);
    }
  }
}
