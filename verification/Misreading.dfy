/** What a backend lost inside a frame costs: from then on the loop takes payload bytes
    for frames. This is when it can refuse what no frame says. */
module Misreading {
  import opened Bytes
  import opened Guardian
  import opened Frames
  import opened Streams
  import opened Loop

  // ---- Where the loop goes wrong -----------------------------------------

  /** The input behind the chunk whose write fails. */
  function Resumed(s: seq<byte>, c: Context, room: Option<nat>): (rest: seq<byte>)
    requires LosesItsPlace(s, c, room)
    ensures 0 < |rest| < |s|
    decreases |s|
  {
    var t := OneTurn(s, c, room);
    if CutsHere(s, room) then
      CutLeavesInput(PayloadLength(s[1..5]), s[5..], Less(room, 5));
      t.rest
    else Resumed(t.rest, c, t.room)
  }

  lemma {:induction false} CutLeavesInput(left: nat, s: seq<byte>, room: Option<nat>)
    requires CutInside(left, s, room)
    ensures 0 < |Chunks(left, s, room).rest| && |s| - |Chunks(left, s, room).rest| < left
    ensures Chunks(left, s, room).room == Some(0)
    decreases left
  {
    var k := Min(left, CHUNK);
    if Fits(k, room) {
      CutLeavesInput(left - k, s[k..], Less(room, k));
    }
  }

  /** The payload bytes still to go there. */
  function ToGo(s: seq<byte>, c: Context, room: Option<nat>): (m: nat)
    requires LosesItsPlace(s, c, room)
    ensures m > 0
    decreases |s|
  {
    var t := OneTurn(s, c, room);
    if CutsHere(s, room) then
      CutLeavesInput(PayloadLength(s[1..5]), s[5..], Less(room, 5));
      PayloadLength(s[1..5]) - (|s[5..]| - |t.rest|)
    else ToGo(t.rest, c, t.room)
  }

  /** The bytes up to and including the chunk whose write fails. */
  function Consumed(s: seq<byte>, c: Context, room: Option<nat>): (p: seq<byte>)
    requires LosesItsPlace(s, c, room)
    ensures p <= s
  {
    s[..|s| - |Resumed(s, c, room)|]
  }

  /** What follows the first `m` bytes; nothing, if there are fewer. */
  function Past(z: seq<byte>, m: nat): seq<byte> {
    if |z| >= m then z[m..] else []
  }

  // ---- Whatever follows is read from there -------------------------------

  lemma ChunkAndBody(s: seq<byte>, k: nat, r: nat, z: seq<byte>)
    requires k + r <= |s|
    ensures var w := s[..|s| - r] + z;
      w[..k] == s[..k] && w[k..] == s[k..][..|s[k..]| - r] + z
  {
  }

  lemma {:induction false} CutChunks(left: nat, s: seq<byte>, room: Option<nat>, z: seq<byte>)
    requires CutInside(left, s, room)
    ensures var t := Chunks(left, s, room);
      var p := s[..|s| - |t.rest|];
      && |p| < left
      && Chunks(left, p + z, room) == Go(t.sent, 0, z, Some(0))
      && BlindRest(left, p + z) == Past(z, left - |p|)
    decreases left
  {
    var k := Min(left, CHUNK);
    var t := Chunks(left, s, room);
    var p := s[..|s| - |t.rest|];
    if Fits(k, room) {
      CutChunks(left - k, s[k..], Less(room, k), z);
      CutLeavesInput(left - k, s[k..], Less(room, k));
      ChunkAndBody(s, k, |t.rest|, z);
      BlindRestStep(left, p + z);
    } else {
      ChunkAndBody(s, k, |t.rest|, z);
      assert [] + z == z;
    }
  }

  /** The turn of a stream that differs from `s` only behind the failed chunk. */
  lemma TurnOfHeader(s: seq<byte>, c: Context, room: Option<nat>, w: seq<byte>, z: seq<byte>)
    requires CutsHere(s, room) && |w| >= 5 && w[..5] == s[..5]
    requires var n := PayloadLength(s[1..5]);
      Chunks(n, w[5..], Less(room, 5)) == Go(Chunks(n, s[5..], Less(room, 5)).sent, 0, z, Some(0))
    ensures OneTurn(w, c, room) == Go(OneTurn(s, c, room).sent, 0, z, Some(0))
  {
    SameHeader(s, w);
  }

  lemma RefusalsBehindHeader(s: seq<byte>, c: Context, room: Option<nat>, w: seq<byte>)
    requires CutsHere(s, room) && |w| >= 5 && w[..5] == s[..5]
    ensures Refusals(w, c) == Refusals(BlindRest(PayloadLength(s[1..5]), w[5..]), c)
  {
    SameHeader(s, w);
    BlindHeader(w, c);
  }

  lemma CutTurn(s: seq<byte>, c: Context, room: Option<nat>, z: seq<byte>)
    requires CutsHere(s, room)
    ensures var w := Consumed(s, c, room) + z;
      && OneTurn(w, c, room) == Go(OneTurn(s, c, room).sent, 0, z, Some(0))
      && Refusals(w, c) == Refusals(Past(z, ToGo(s, c, room)), c)
  {
    var n, r, w := PayloadLength(s[1..5]), |Resumed(s, c, room)|, Consumed(s, c, room) + z;
    CutLeavesInput(n, s[5..], Less(room, 5));
    CutChunks(n, s[5..], Less(room, 5), z);
    ChunkAndBody(s, 5, r, z);
    TurnOfHeader(s, c, room, w, z);
    RefusalsBehindHeader(s, c, room, w);
  }

  lemma SameHeader(s: seq<byte>, w: seq<byte>)
    requires |s| >= 5 && |w| >= 5 && w[..5] == s[..5]
    ensures w[0] == s[0] && w[1..5] == s[1..5]
  {
    assert w[0] == w[..5][0] && w[1..5] == w[..5][1..5] && s[1..5] == s[..5][1..5];
  }

  lemma {:induction false} CutInsideIgnoresTheRest(y: seq<byte>, x: seq<byte>, room: Option<nat>)
    ensures CutInside(|y|, y + x, room) == CutInside(|y|, y, room)
    decreases |y|
  {
    var k := Min(|y|, CHUNK);
    if |y| > 0 && Fits(k, room) {
      assert (y + x)[k..] == y[k..] + x;
      CutInsideIgnoresTheRest(y[k..], x, Less(room, k));
    }
  }

  lemma ChunksOfWhole(y: seq<byte>, x: seq<byte>, room: Option<nat>)
    requires !CutInside(|y|, y, room)
    ensures Chunks(|y|, y + x, room)
         == Go(Cut(y, room), 0, x, if Fits(|y|, room) then Less(room, |y|) else Some(0))
  {
    CutInsideIgnoresTheRest(y, x, room);
    ChunksKeepPlaceIff(|y|, y + x, room);
    ChunksSendThePayload(|y|, y + x, room);
    BlindSentInNumbers(|y|, y + x);
    assert (y + x)[..|y|] == y && (y + x)[|y|..] == x;
  }

  /** A turn that keeps its place on a whole frame does the same whatever follows. */
  lemma KeptTurn(s: seq<byte>, c: Context, room: Option<nat>, x: seq<byte>)
    requires StartsWithFrame(s) && !CutsHere(s, room) && OneTurn(s, c, room).Go?
    ensures var t, f := OneTurn(s, c, room), FirstFrame(s);
      OneTurn(Raw(f) + x, c, room) == Go(t.sent, t.notices, x, t.room)
  {
    var f := FirstFrame(s);
    var y, rest, w := f.payload, s[|Raw(f)|..], Raw(f) + x;
    FirstFrameOfPrinted(f, x);
    assert w[1..5] == f.length && w[..5] == s[..5] && w[5..] == y + x && s[5..] == y + rest;
    if IsInspected(f.tag, |y|) {
      assert w[5..5 + |y|] == y && w[5 + |y|..] == x && w[..5 + |y|] == s[..5 + |y|];
    } else {
      CutInsideIgnoresTheRest(y, rest, Less(room, 5));
      ChunksOfWhole(y, rest, Less(room, 5));
      ChunksOfWhole(y, x, Less(room, 5));
    }
  }

  /** However the stream goes on behind the failed chunk, the loop reads from there on
      what a dead backend leaves it to read, while the frames go on `ToGo` bytes later. */
  lemma {:induction false} LostBalance(s: seq<byte>, c: Context, room: Option<nat>, z: seq<byte>)
    requires LosesItsPlace(s, c, room)
    ensures var w := Consumed(s, c, room) + z;
      Run(w, c, room).notices + Refusals(Past(z, ToGo(s, c, room)), c) == Refusals(w, c) + Run(z, c, Some(0)).notices
    decreases |s|
  {
    if CutsHere(s, room) {
      CutTurn(s, c, room, z);
    } else {
      var t := OneTurn(s, c, room);
      TurnKeepsPlaceIff(s, c, room);
      assert t.rest == BehindFirst(s) && StartsWithFrame(s);
      LostBalance(t.rest, c, t.room, z);
      BalanceBehindFirst(s, c, room, z);
    }
  }

  lemma BalanceBehindFirst(s: seq<byte>, c: Context, room: Option<nat>, z: seq<byte>)
    requires LosesItsPlace(s, c, room) && !CutsHere(s, room) && StartsWithFrame(s)
    requires OneTurn(s, c, room).rest == BehindFirst(s)
    ensures var t, w := OneTurn(s, c, room), Consumed(s, c, room) + z;
      var w' := Consumed(t.rest, c, t.room) + z;
      && Run(w, c, room).notices == t.notices + Run(w', c, t.room).notices
      && Refusals(w, c) == t.notices + Refusals(w', c)
  {
    var t, f := OneTurn(s, c, room), FirstFrame(s);
    var w, w' := Consumed(s, c, room) + z, Consumed(t.rest, c, t.room) + z;
    assert Consumed(s, c, room) == Raw(f) + Consumed(t.rest, c, t.room);
    Assoc(Raw(f), Consumed(t.rest, c, t.room), z);
    KeptTurn(s, c, room, w');
    TurnRefusesIff(s, c, room);
    FirstFrameOfPrinted(f, w');
  }

  // ---- The smallest refusal ----------------------------------------------

  /** A frame to refuse whose payload is as short as any such frame's. */
  ghost predicate IsSmallest(f: Frame, c: Context) {
    && IsFrame(f) && IsRefused(f, c)
    && forall g :: IsFrame(g) && IsRefused(g, c) ==> |f.payload| <= |g.payload|
  }

  lemma {:induction false} SmallestRefusal(f: Frame, c: Context) returns (g: Frame)
    requires IsFrame(f) && IsRefused(f, c)
    ensures IsSmallest(g, c)
    decreases |f.payload|
  {
    if h :| IsFrame(h) && IsRefused(h, c) && |h.payload| < |f.payload| {
      g := SmallestRefusal(h, c);
    } else {
      g := f;
    }
  }

  /** No shorter stretch of bytes has a frame to refuse in it. */
  lemma {:induction false} NothingInsideSmallest(y: seq<byte>, f: Frame, c: Context)
    requires IsSmallest(f, c) && |y| < |Raw(f)|
    ensures Refusals(y, c) == 0
    decreases |y|
  {
    if StartsWithFrame(y) {
      NothingInsideSmallest(y[|Raw(FirstFrame(y))|..], f, c);
    }
  }

  lemma DeadBackendReadsOne(f: Frame, c: Context)
    requires IsFrame(f) && IsRefused(f, c)
    ensures Run(Raw(f), c, Some(0)).notices >= 1
  {
    FirstFrameOfPrinted(f, []);
    assert Raw(f) + [] == Raw(f);
    assert Raw(f)[1..5] == f.length && Raw(f)[5..5 + |f.payload|] == f.payload;
  }

  /** The converse of `KeptPlaceAnswersFrames`: a loop that loses its place does refuse
      too much on some stream with the same bytes up to the failed chunk, as long as
      Guardian would refuse anything at all. However short the rest of the payload. */
  lemma LostPlaceCanMisread(s: seq<byte>, c: Context, room: Option<nat>, bad: Frame)
    requires LosesItsPlace(s, c, room) && IsFrame(bad) && IsRefused(bad, c)
    ensures exists z :: var w := Consumed(s, c, room) + z; Run(w, c, room).notices > Refusals(w, c)
  {
    var f := SmallestRefusal(bad, c);
    var z := Raw(f);
    LostBalance(s, c, room, z);
    NothingInsideSmallest(Past(z, ToGo(s, c, room)), f, c);
    DeadBackendReadsOne(f, c);
    var w := Consumed(s, c, room) + z;
    assert Run(w, c, room).notices > Refusals(w, c);
  }

  // ---- Which backends, which contexts ------------------------------------

  ghost predicate RefusesNothing(c: Context) {
    forall f :: IsFrame(f) ==> !IsRefused(f, c)
  }

  ghost predicate NeverMisreads(c: Context, room: Option<nat>) {
    forall s :: Run(s, c, room).notices <= Refusals(s, c)
  }

  lemma {:induction false} NoCutWithoutFailure(left: nat, s: seq<byte>)
    ensures !CutInside(left, s, None)
    decreases left
  {
    if left > 0 && |s| >= Min(left, CHUNK) {
      NoCutWithoutFailure(left - Min(left, CHUNK), s[Min(left, CHUNK)..]);
    }
  }

  lemma {:induction false} NoFailureKeepsPlace(s: seq<byte>, c: Context, room: Option<nat>)
    requires room.None? || room.value < 5
    ensures !LosesItsPlace(s, c, room)
    decreases |s|
  {
    var t := OneTurn(s, c, room);
    if room.None? && |s| >= 5 {
      NoCutWithoutFailure(PayloadLength(s[1..5]), s[5..]);
      ChunksSendThePayload(PayloadLength(s[1..5]), s[5..], None);
    }
    if t.Go? {
      NoFailureKeepsPlace(t.rest, c, t.room);
    }
  }

  lemma {:induction false} HarmlessContext(s: seq<byte>, c: Context, room: Option<nat>)
    requires RefusesNothing(c)
    ensures Run(s, c, room).notices == 0
    decreases |s|
  {
    var t := OneTurn(s, c, room);
    if t.Go? {
      TurnRefusesIff(s, c, room);
      HarmlessContext(t.rest, c, t.room);
    }
  }

  /** Five bytes that use up five bytes of room. */
  const FILLER := Frame(0x64, [0, 0, 0, 4], [])

  /** A payload of two chunks. */
  function Long(): seq<byte> {
    Raw(Frame(0x64, ToBe32(2 * CHUNK + 4), Repeat(0, 2 * CHUNK)))
  }

  lemma LongLosesItsPlace(c: Context, room: nat)
    requires 5 <= room < 10
    ensures LosesItsPlace(Long(), c, Some(room))
  {
    var s := Long();
    assert s[1..5] == ToBe32(2 * CHUNK + 4);
    assert CutInside(2 * CHUNK, s[5..], Some(room - 5));
  }

  lemma FillerFirst(s: seq<byte>, c: Context, room: nat)
    requires room >= 10
    ensures LosesItsPlace(s, c, Some(room - 5)) ==> LosesItsPlace(Raw(FILLER) + s, c, Some(room))
  {
    var w := Raw(FILLER) + s;
    assert w[1..5] == FILLER.length && w[5..] == s;
    assert Be32(FILLER.length) == 4;
    assert OneTurn(w, c, Some(room)) == Go(w[..5] + [], 0, s, Some(room - 5));
  }

  lemma {:induction false} SomeStreamLosesItsPlace(c: Context, room: nat) returns (s: seq<byte>)
    requires room >= 5
    ensures LosesItsPlace(s, c, Some(room))
  {
    if room < 10 {
      s := Long();
      LongLosesItsPlace(c, room);
    } else {
      var t := SomeStreamLosesItsPlace(c, room - 5);
      FillerFirst(t, c, room);
      s := Raw(FILLER) + t;
    }
  }

  /** Exactly which backends and contexts are safe on every stream: a backend that never
      fails, one that fails before a header is out, or a context that refuses nothing. */
  lemma NeverMisreadsIff(c: Context, room: Option<nat>)
    ensures NeverMisreads(c, room) <==> room.None? || room.value < 5 || RefusesNothing(c)
  {
    if room.None? || room.value < 5 || RefusesNothing(c) {
      forall s ensures Run(s, c, room).notices <= Refusals(s, c) {
        if RefusesNothing(c) {
          HarmlessContext(s, c, room);
        } else {
          NoFailureKeepsPlace(s, c, room);
          KeptPlaceAnswersFrames(s, c, room);
        }
      }
    } else {
      var bad :| IsFrame(bad) && IsRefused(bad, c);
      var s := SomeStreamLosesItsPlace(c, room.value);
      LostPlaceCanMisread(s, c, room, bad);
    }
  }
}
