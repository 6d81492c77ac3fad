/** Frontend messages and what the client-to-server loop of proxy.rs makes of them:
    a tag, a four-byte length that counts itself, and a payload. */
module Frames {
  import opened Bytes
  import opened Guardian

  const INSPECTION_LIMIT := 1024
  const CHUNK := 8192
  const QUERY: byte := 0x51
  const PARSE: byte := 0x50

  datatype Frame = Frame(tag: byte, length: seq<byte>, payload: seq<byte>)

  /** `msg_len.saturating_sub(4)`: a declared length below four means no payload. */
  function PayloadLength(length: seq<byte>): nat
    requires |length| == 4
  {
    if Be32(length) < 4 then 0 else Be32(length) - 4
  }

  predicate IsFrame(f: Frame) {
    |f.length| == 4 && |f.payload| == PayloadLength(f.length)
  }

  function Raw(f: Frame): seq<byte> {
    [f.tag] + f.length + f.payload
  }

  /** Only small Query and Parse messages are looked at. */
  predicate IsInspected(tag: byte, n: nat) {
    (tag == QUERY || tag == PARSE) && n < INSPECTION_LIMIT
  }

  predicate IsRefused(f: Frame, c: Context) {
    IsInspected(f.tag, |f.payload|) && !Verdict(f.payload, c)
  }

  /** The first frame of a stream that holds one. */
  predicate StartsWithFrame(s: seq<byte>) {
    |s| >= 5 && |s| >= 5 + PayloadLength(s[1..5])
  }

  function FirstFrame(s: seq<byte>): (f: Frame)
    requires StartsWithFrame(s)
    ensures IsFrame(f) && |Raw(f)| <= |s| && s == Raw(f) + s[|Raw(f)|..]
  {
    var n := PayloadLength(s[1..5]);
    Frame(s[0], s[1..5], s[5..5 + n])
  }

  /** The complete frames of a stream, in order. */
  function FramesOf(s: seq<byte>): seq<Frame>
    decreases |s|
  {
    if !StartsWithFrame(s) then []
    else
      var f := FirstFrame(s);
      [f] + FramesOf(s[|Raw(f)|..])
  }

  /** The truncated frame a stream ends with. */
  function TailOf(s: seq<byte>): seq<byte>
    decreases |s|
  {
    if !StartsWithFrame(s) then s else TailOf(s[|Raw(FirstFrame(s))|..])
  }

  function RawAll(fs: seq<Frame>): seq<byte> {
    if fs == [] then [] else Raw(fs[0]) + RawAll(fs[1..])
  }

  function Unrefused(fs: seq<Frame>, c: Context): seq<Frame> {
    if fs == [] then [] else (if IsRefused(fs[0], c) then [] else [fs[0]]) + Unrefused(fs[1..], c)
  }

  function CountRefused(fs: seq<Frame>, c: Context): nat {
    if fs == [] then 0 else (if IsRefused(fs[0], c) then 1 else 0) + CountRefused(fs[1..], c)
  }

  function Min(a: nat, b: nat): nat {
    if a < b then a else b
  }

  /** The chunks of a payload that arrived whole; all of it, if it did. */
  function BlindSent(left: nat, s: seq<byte>): (t: seq<byte>)
    ensures t <= s
    decreases left
  {
    var k := Min(left, CHUNK);
    if left == 0 || |s| < k then [] else s[..k] + BlindSent(left - k, s[k..])
  }

  function BlindRest(left: nat, s: seq<byte>): seq<byte> {
    if |s| >= left then s[left..] else []
  }

  /** What is sent of a truncated frame: nothing of an inspected one; otherwise its
      header and the chunks that arrived whole. */
  function TailSent(s: seq<byte>): (t: seq<byte>)
    ensures t <= s
  {
    if |s| < 5 || IsInspected(s[0], PayloadLength(s[1..5])) then []
    else s[..5] + BlindSent(PayloadLength(s[1..5]), s[5..])
  }

  /** The ideal backend stream. */
  function Forwarded(s: seq<byte>, c: Context): seq<byte>
    decreases |s|
  {
    if !StartsWithFrame(s) then TailSent(s)
    else
      var f := FirstFrame(s);
      (if IsRefused(f, c) then [] else Raw(f)) + Forwarded(s[|Raw(f)|..], c)
  }

  /** How many frames are refused. */
  function Refusals(s: seq<byte>, c: Context): nat
    decreases |s|
  {
    if !StartsWithFrame(s) then 0
    else
      var f := FirstFrame(s);
      (if IsRefused(f, c) then 1 else 0) + Refusals(s[|Raw(f)|..], c)
  }

  /** Framing loses nothing: the frames and the tail are the stream. */
  lemma {:induction false} FramesPartitionTheStream(s: seq<byte>)
    ensures RawAll(FramesOf(s)) + TailOf(s) == s
    ensures forall f :: f in FramesOf(s) ==> IsFrame(f)
    ensures !StartsWithFrame(TailOf(s))
    decreases |s|
  {
    if StartsWithFrame(s) {
      var f := FirstFrame(s);
      var rest := s[|Raw(f)|..];
      FramesPartitionTheStream(rest);
      FramesStep(s);
      assert RawAll(FramesOf(s)) == Raw(f) + RawAll(FramesOf(rest));
      Assoc(Raw(f), RawAll(FramesOf(rest)), TailOf(rest));
    }
  }

  lemma FramesStep(s: seq<byte>)
    requires StartsWithFrame(s)
    ensures var f := FirstFrame(s); var rest := s[|Raw(f)|..];
      FramesOf(s) == [f] + FramesOf(rest) && TailOf(s) == TailOf(rest)
      && FramesOf(s)[0] == f && FramesOf(s)[1..] == FramesOf(rest)
  {
  }

  /** The ideal stream is the frames not refused, raw and in order, and what is sent of
      a truncated last one. */
  lemma {:induction false} ForwardedIsFiltering(s: seq<byte>, c: Context)
    ensures Forwarded(s, c) == RawAll(Unrefused(FramesOf(s), c)) + TailSent(TailOf(s))
    ensures Refusals(s, c) == CountRefused(FramesOf(s), c)
    decreases |s|
  {
    if StartsWithFrame(s) {
      var f := FirstFrame(s);
      var rest := s[|Raw(f)|..];
      ForwardedIsFiltering(rest, c);
      FramesStep(s);
      UnrefusedStep(FramesOf(s), c);
      Prepend(if IsRefused(f, c) then [] else Raw(f), RawAll(Unrefused(FramesOf(rest), c)), TailSent(TailOf(rest)));
    }
  }

  lemma Prepend(a: seq<byte>, b: seq<byte>, c: seq<byte>)
    ensures a + (b + c) == a + b + c && [] + b == b
  {
  }

  lemma UnrefusedStep(fs: seq<Frame>, c: Context)
    requires fs != []
    ensures RawAll(Unrefused(fs, c)) ==
      if IsRefused(fs[0], c) then RawAll(Unrefused(fs[1..], c)) else Raw(fs[0]) + RawAll(Unrefused(fs[1..], c))
  {
    if IsRefused(fs[0], c) {
      assert Unrefused(fs, c) == Unrefused(fs[1..], c);
    } else {
      assert Unrefused(fs, c)[1..] == Unrefused(fs[1..], c);
    }
  }

  lemma FirstFrameOfPrinted(f: Frame, rest: seq<byte>)
    requires IsFrame(f)
    ensures StartsWithFrame(Raw(f) + rest) && FirstFrame(Raw(f) + rest) == f
    ensures (Raw(f) + rest)[|Raw(f)|..] == rest
  {
    var s := Raw(f) + rest;
    assert s[1..5] == f.length;
    assert s[5..5 + |f.payload|] == f.payload;
  }

  /** For a stream of whole frames, the backend gets exactly the in-order
      concatenation of the frames that were not refused. */
  lemma {:induction false} WholeFramesAreFiltered(fs: seq<Frame>, c: Context)
    requires forall f :: f in fs ==> IsFrame(f)
    ensures Forwarded(RawAll(fs), c) == RawAll(Unrefused(fs, c))
    ensures Refusals(RawAll(fs), c) == CountRefused(fs, c)
  {
    if fs == [] {
    } else {
      var f, rest, s := fs[0], RawAll(fs[1..]), RawAll(fs);
      assert f in fs && s == Raw(f) + rest;
      WholeFramesAreFiltered(fs[1..], c);
      FirstFrameOfPrinted(f, rest);
      UnrefusedStep(fs, c);
    }
  }

  /** What follows whole frames is treated as if it stood alone. */
  lemma {:induction false} ForwardedBehindFrames(before: seq<Frame>, more: seq<byte>, c: Context)
    requires forall g :: g in before ==> IsFrame(g)
    ensures Forwarded(RawAll(before) + more, c) == Forwarded(RawAll(before), c) + Forwarded(more, c)
    ensures Refusals(RawAll(before) + more, c) == Refusals(RawAll(before), c) + Refusals(more, c)
  {
    if before == [] {
      assert RawAll(before) + more == more;
      assert Forwarded([], c) + Forwarded(more, c) == Forwarded(more, c);
    } else {
      var g, rest := before[0], RawAll(before[1..]);
      assert g in before;
      ForwardedBehindFrames(before[1..], more, c);
      FirstFrameOfPrinted(g, rest);
      ForwardedStep(Raw(g) + rest, c);
      Assoc(Raw(g), rest, more);
      FirstFrameOfPrinted(g, rest + more);
      ForwardedStep(Raw(g) + (rest + more), c);
      Assoc(if IsRefused(g, c) then [] else Raw(g), Forwarded(rest, c), Forwarded(more, c));
    }
  }

  /** A frame is dropped and counted exactly when it is a Query or a Parse of at most
      1023 bytes that the context refuses; any other reaches the backend raw. */
  lemma FrameInFront(f: Frame, more: seq<byte>, c: Context)
    requires IsFrame(f)
    ensures var blocked := (f.tag == 0x51 || f.tag == 0x50) && |f.payload| <= 1023 && !Verdict(f.payload, c);
      && Forwarded(Raw(f) + more, c) == (if blocked then [] else Raw(f)) + Forwarded(more, c)
      && Refusals(Raw(f) + more, c) == (if blocked then 1 else 0) + Refusals(more, c)
  {
    FirstFrameOfPrinted(f, more);
    ForwardedStep(Raw(f) + more, c);
  }

  /** So the frames sent alone with an empty ideal stream and one refusal are these. */
  lemma OneFrameIsBlockedIff(f: Frame, c: Context)
    requires IsFrame(f)
    ensures var blocked := (f.tag == 0x51 || f.tag == 0x50) && |f.payload| <= 1023 && !Verdict(f.payload, c);
      && (Forwarded(Raw(f), c) == [] <==> blocked) && (!blocked ==> Forwarded(Raw(f), c) == Raw(f))
      && Refusals(Raw(f), c) == if blocked then 1 else 0
  {
    FrameInFront(f, [], c);
    assert Raw(f) + [] == Raw(f);
    assert Forwarded([], c) == [] && Refusals([], c) == 0;
  }

  /** Wherever it is sent, such a frame leaves no trace upstream: the backend gets what
      it would have got without it, and the client one refusal more. */
  lemma BlockedFrameLeavesNoTrace(before: seq<Frame>, f: Frame, more: seq<byte>, c: Context)
    requires IsFrame(f) && forall g :: g in before ==> IsFrame(g)
    requires (f.tag == 0x51 || f.tag == 0x50) && |f.payload| <= 1023 && !Verdict(f.payload, c)
    ensures var with, without := RawAll(before) + (Raw(f) + more), RawAll(before) + more;
      Forwarded(with, c) == Forwarded(without, c) && Refusals(with, c) == Refusals(without, c) + 1
  {
    FrameInFront(f, more, c);
    assert [] + Forwarded(more, c) == Forwarded(more, c);
    ForwardedBehindFrames(before, Raw(f) + more, c);
    ForwardedBehindFrames(before, more, c);
  }

  /** A message as a client sends it: its length counts itself and the payload. */
  function Message(tag: byte, payload: seq<byte>): seq<byte>
    requires |payload| + 4 < WORD
  {
    [tag] + ToBe32(|payload| + 4) + payload
  }

  /** A message is a frame with that payload. A length below four is a frame without any. */
  lemma MessageIsFrame(tag: byte, payload: seq<byte>)
    requires |payload| + 4 < WORD
    ensures var f := Frame(tag, ToBe32(|payload| + 4), payload); IsFrame(f) && Raw(f) == Message(tag, payload)
    ensures forall n: nat :: n < 4 ==> IsFrame(Frame(tag, ToBe32(n), []))
  {
  }

  /** A small Parse whose statement alone would be refused leaves no trace, whatever name
      and parameter types surround the statement and whatever is sent around the Parse. */
  lemma BlockedParseLeavesNoTrace(before: seq<Frame>, name: seq<byte>, statement: seq<byte>, types: seq<byte>,
                                  more: seq<byte>, c: Context)
    requires forall g :: g in before ==> IsFrame(g)
    requires NulFreeContext(c) && !Verdict(statement, c) && |name| + |statement| + |types| <= 1021
    ensures var parse := Message(0x50, name + [0] + statement + [0] + types);
      var with, without := RawAll(before) + (parse + more), RawAll(before) + more;
      Forwarded(with, c) == Forwarded(without, c) && Refusals(with, c) == Refusals(without, c) + 1
  {
    var payload := name + [0] + statement + [0] + types;
    ParseIsRefusedWithItsStatement(name, statement, types, c);
    MessageIsFrame(0x50, payload);
    BlockedFrameLeavesNoTrace(before, Frame(0x50, ToBe32(|payload| + 4), payload), more, c);
  }

  /** The same for a small Query, with its terminator. */
  lemma BlockedQueryLeavesNoTrace(before: seq<Frame>, statement: seq<byte>, more: seq<byte>, c: Context)
    requires forall g :: g in before ==> IsFrame(g)
    requires NulFreeContext(c) && !Verdict(statement, c) && |statement| <= 1022
    ensures var query := Message(0x51, statement + [0]);
      var with, without := RawAll(before) + (query + more), RawAll(before) + more;
      Forwarded(with, c) == Forwarded(without, c) && Refusals(with, c) == Refusals(without, c) + 1
  {
    var payload := statement + [0];
    TrailingNulIsInert(statement, c);
    MessageIsFrame(0x51, payload);
    BlockedFrameLeavesNoTrace(before, Frame(0x51, ToBe32(|payload| + 4), payload), more, c);
  }

  lemma SameFirstFrame(s: seq<byte>, t: seq<byte>)
    requires StartsWithFrame(s)
    ensures StartsWithFrame(s + t) && FirstFrame(s + t) == FirstFrame(s)
    ensures var k := |Raw(FirstFrame(s))|; (s + t)[k..] == s[k..] + t
  {
    assert (s + t)[1..5] == s[1..5];
  }

  lemma Slices(s: seq<byte>, a: nat, b: nat)
    requires a + b <= |s|
    ensures s[..a + b] == s[..a] + s[a..][..b] && s[a..][b..] == s[a + b..] && s[a..a + b] == s[a..][..b]
  {
  }

  lemma BlindRestStep(left: nat, s: seq<byte>)
    requires |s| >= Min(left, CHUNK)
    ensures var k := Min(left, CHUNK); BlindRest(left, s) == BlindRest(left - k, s[k..])
  {
    if |s| >= left {
      Slices(s, Min(left, CHUNK), left - Min(left, CHUNK));
    }
  }

  /** The largest multiple of the chunk size that is at most `n`. */
  function WholeChunks(n: nat): (w: nat)
    ensures w <= n
  {
    if n < CHUNK then 0 else CHUNK + WholeChunks(n - CHUNK)
  }

  lemma {:induction false} WholeChunksInNumbers(n: nat)
    ensures WholeChunks(n) == n / CHUNK * CHUNK
  {
    if n >= CHUNK {
      WholeChunksInNumbers(n - CHUNK);
      assert n / CHUNK == (n - CHUNK) / CHUNK + 1;
    }
  }

  /** In numbers: a whole payload, or as many multiples of the chunk size as arrived. */
  lemma {:induction false} BlindSentInNumbers(left: nat, s: seq<byte>)
    ensures BlindSent(left, s) == if |s| >= left then s[..left] else s[..WholeChunks(|s|)]
    decreases left
  {
    var k := Min(left, CHUNK);
    if left > 0 && |s| >= k {
      BlindSentInNumbers(left - k, s[k..]);
      if |s| >= left {
        Slices(s, k, left - k);
      } else {
        Slices(s, k, WholeChunks(|s| - k));
      }
    }
  }

  /** Of a truncated last frame nothing is sent if it is a Query or a Parse that announces
      at most 1023 bytes of payload; otherwise its header, and its payload in whole chunks
      of 8192 bytes. */
  lemma TruncatedFrameInNumbers(s: seq<byte>, c: Context)
    requires |s| >= 5 && |s| - 5 < PayloadLength(s[1..5])
    ensures Forwarded(s, c) ==
      if (s[0] == 0x51 || s[0] == 0x50) && PayloadLength(s[1..5]) <= 1023 then [] else s[..5 + (|s| - 5) / 8192 * 8192]
  {
    BlindSentInNumbers(PayloadLength(s[1..5]), s[5..]);
    WholeChunksInNumbers(|s| - 5);
    Slices(s, 5, WholeChunks(|s| - 5));
  }

  /** Unfolding the ideal stream at a blind header. */
  lemma BlindHeader(s: seq<byte>, c: Context)
    requires |s| >= 5 && !IsInspected(s[0], PayloadLength(s[1..5]))
    ensures var n := PayloadLength(s[1..5]);
      && Forwarded(s, c) == s[..5] + BlindSent(n, s[5..]) + Forwarded(BlindRest(n, s[5..]), c)
      && Refusals(s, c) == Refusals(BlindRest(n, s[5..]), c)
  {
    var n := PayloadLength(s[1..5]);
    if StartsWithFrame(s) {
      BlindSentInNumbers(n, s[5..]);
      Slices(s, 5, n);
      assert Raw(FirstFrame(s)) == s[..5] + s[5..][..n];
    }
  }

  lemma {:induction false} BlindSentGrows(left: nat, s: seq<byte>, t: seq<byte>)
    ensures BlindSent(left, s) <= BlindSent(left, s + t)
    decreases left
  {
    var k := Min(left, CHUNK);
    if left > 0 && |s| >= k {
      BlindSentGrows(left - k, s[k..], t);
      assert (s + t)[..k] == s[..k] && (s + t)[k..] == s[k..] + t;
    }
  }

  lemma ForwardedStep(s: seq<byte>, c: Context)
    requires StartsWithFrame(s)
    ensures var f := FirstFrame(s); var rest := s[|Raw(f)|..];
      && Forwarded(s, c) == (if IsRefused(f, c) then [] else Raw(f)) + Forwarded(rest, c)
      && Refusals(s, c) == (if IsRefused(f, c) then 1 else 0) + Refusals(rest, c)
  {
  }

  lemma PrefixesBehind(a: seq<byte>, x: seq<byte>, y: seq<byte>)
    requires x <= y
    ensures a + x <= a + y
  {
  }

  /** More input only ever extends what is sent, and never takes a refusal back. */
  lemma {:induction false} ForwardedGrows(s: seq<byte>, t: seq<byte>, c: Context)
    ensures Forwarded(s, c) <= Forwarded(s + t, c)
    ensures Refusals(s, c) <= Refusals(s + t, c)
    decreases |s|
  {
    var w := s + t;
    if StartsWithFrame(s) {
      var f := FirstFrame(s);
      var rest := s[|Raw(f)|..];
      SameFirstFrame(s, t);
      ForwardedGrows(rest, t, c);
      ForwardedStep(s, c);
      ForwardedStep(w, c);
      PrefixesBehind(if IsRefused(f, c) then [] else Raw(f), Forwarded(rest, c), Forwarded(rest + t, c));
    } else {
      TailGrows(s, t, c);
    }
  }

  lemma TailGrows(s: seq<byte>, t: seq<byte>, c: Context)
    requires !StartsWithFrame(s)
    ensures TailSent(s) <= Forwarded(s + t, c)
  {
    if |s| >= 5 && !IsInspected(s[0], PayloadLength(s[1..5])) {
      var w, n := s + t, PayloadLength(s[1..5]);
      assert w[1..5] == s[1..5] && w[..5] == s[..5] && w[5..] == s[5..] + t;
      BlindHeader(w, c);
      BlindSentGrows(n, s[5..], t);
    }
  }
}
