/** The two forwarding tasks of `handle_client` as the code runs them, each to its end on
    streams that may be truncated or fail. Models the session half of proxy.rs. */
module Pump {
  import opened Bytes
  import opened Guardian
  import opened Frames
  import opened Messages
  import opened Streams
  import opened Loop

  /** The block that answers a refused frame ends in ReadyForQuery with status `I`, idle. */
  lemma ReadyIsIdle()
    ensures READY == Message(0x5A, [0x49])
  {
    assert ToBe32(5) == [0, 0, 0, 5];
  }

  /** A refusal: the error, then ReadyForQuery if the error went out. Both are
      written under one hold of the client writer's lock. */
  method SendRefusal(client: Sink, error: seq<byte>)
    requires client.Valid()
    modifies client
    ensures client.Valid() && client.shut == old(client.shut)
    ensures client.written == old(client.written) + Cut(error + READY, old(client.Room()))
  {
    CutAppend(error, READY, client.Room());
    var ok := client.WriteAll(error);
    if ok {
      var _ := client.WriteAll(READY);
    }
  }

  /** The chunk loop of blind forwarding, over one reused buffer. */
  method ForwardChunks(reader: Source, backend: Sink, buffer: array<byte>, payloadLength: nat)
    requires backend.Valid() && buffer.Length == CHUNK
    modifies reader, backend, buffer
    ensures backend.Valid() && backend.shut == old(backend.shut)
    ensures var t := old(Chunks(payloadLength, reader.unread, backend.Room()));
      backend.written == old(backend.written) + t.sent && reader.unread == t.rest && backend.Room() == t.room
  {
    ghost var t := Chunks(payloadLength, reader.unread, backend.Room());
    ghost var goal := Standing(backend.written + t.sent, t.rest, t.room);
    var left, go := payloadLength, true;
    while go && left > 0
      invariant backend.Valid() && backend.shut == old(backend.shut)
      invariant goal == if go then After(left, reader.unread, backend.written, backend.Room())
                        else Standing(backend.written, reader.unread, backend.Room())
    {
      var chunkLength := Min(left, CHUNK);
      go := ForwardChunk(reader, backend, buffer, left, chunkLength);
      left := left - chunkLength;
    }
  }

  /** Where the streams stand: sent to the backend, left to read, room left. */
  datatype Standing = Standing(written: seq<byte>, rest: seq<byte>, room: Option<nat>)

  /** Where they will stand after the rest of a payload. */
  function After(left: nat, unread: seq<byte>, written: seq<byte>, room: Option<nat>): Standing {
    var t := Chunks(left, unread, room);
    Standing(written + t.sent, t.rest, t.room)
  }

  /** One chunk; `false` when the chunk loop breaks. */
  method ForwardChunk(reader: Source, backend: Sink, buffer: array<byte>, ghost left: nat, chunkLength: nat)
    returns (go: bool)
    requires backend.Valid() && buffer.Length == CHUNK && left > 0 && chunkLength == Min(left, CHUNK)
    modifies reader, backend, buffer
    ensures backend.Valid() && backend.shut == old(backend.shut)
    ensures old(After(left, reader.unread, backend.written, backend.Room()))
         == if go then After(left - chunkLength, reader.unread, backend.written, backend.Room())
            else Standing(backend.written, reader.unread, backend.Room())
  {
    ghost var room := backend.Room();
    go := reader.ReadInto(buffer, chunkLength);
    if !go {
      return;
    }
    var chunk := buffer[..chunkLength];
    go := backend.WriteAll(chunk);
    if go {
      assert backend.Room() == Less(room, chunkLength);
      Assoc(old(backend.written), chunk, Chunks(left - chunkLength, reader.unread, backend.Room()).sent);
    } else {
      assert backend.Room() == Some(0);
    }
  }

  /** The tag and the length, two writes. */
  method SendHeader(backend: Sink, tag: byte, length: seq<byte>) returns (ok: bool)
    requires backend.Valid()
    modifies backend
    ensures backend.Valid() && backend.shut == old(backend.shut)
    ensures ok <==> Fits(1 + |length|, old(backend.Room()))
    ensures backend.written == old(backend.written) + Cut([tag] + length, old(backend.Room()))
    ensures ok ==> backend.Room() == Less(old(backend.Room()), 1 + |length|)
  {
    CutAppend([tag], length, backend.Room());
    ok := backend.WriteAll([tag]);
    if ok {
      ok := backend.WriteAll(length);
    }
  }

  /** The tag and the length, two reads. */
  method ReadHeader(reader: Source) returns (header: Option<(byte, seq<byte>)>)
    modifies reader
    ensures var s := old(reader.unread);
      && (header.Some? <==> |s| >= 5)
      && (header.Some? ==>
            && header.value == (s[0], s[1..5]) && reader.unread == s[5..]
            && s[..5] == [header.value.0] + header.value.1)
  {
    var tag := reader.ReadByte();
    if tag.None? {
      return None;
    }
    var length := reader.ReadExact(4);
    if length.None? {
      return None;
    }
    Slices(old(reader.unread), 1, 4);
    return Some((tag.value, length.value));
  }

  /** A small Query or Parse: read whole, judged, then answered or forwarded. */
  method ForwardInspected(reader: Source, backend: Sink, client: Sink,
                          tag: byte, length: seq<byte>, c: Context, error: seq<byte>)
    returns (go: bool)
    requires backend.Valid() && client.Valid() && backend != client && |length| == 4
    modifies reader, backend, client
    ensures backend.Valid() && backend.shut == old(backend.shut)
    ensures client.Valid() && client.shut == old(client.shut)
    ensures var n := PayloadLength(length);
      var s, room := old(reader.unread), old(backend.Room());
      if |s| < n then
        !go && backend.written == old(backend.written) && client.written == old(client.written)
      else if !Verdict(s[..n], c) then
        && go && reader.unread == s[n..] && backend.Room() == room
        && backend.written == old(backend.written)
        && client.written == old(client.written) + Cut(error + READY, old(client.Room()))
      else
        var raw := [tag] + length + s[..n];
        && go == Fits(5 + n, room) && (go ==> reader.unread == s[n..] && backend.Room() == Less(room, 5 + n))
        && backend.written == old(backend.written) + Cut(raw, room)
        && client.written == old(client.written)
  {
    var payload := reader.ReadExact(PayloadLength(length));
    if payload.None? {
      return false;
    }
    var pass := CheckQuery(payload.value, c);
    if !pass {
      SendRefusal(client, error);
      return true;
    }
    ghost var room := backend.Room();
    CutAppend([tag] + length, payload.value, room);
    go := SendHeader(backend, tag, length);
    if go {
      Assoc(old(backend.written), [tag] + length, Cut(payload.value, backend.Room()));
      go := backend.WriteAll(payload.value);
    }
  }

  /** Anything else: the header, then the payload in chunks. */
  method ForwardBlind(reader: Source, backend: Sink, buffer: array<byte>, tag: byte, length: seq<byte>)
    returns (go: bool)
    requires backend.Valid() && |length| == 4 && buffer.Length == CHUNK
    modifies reader, backend, buffer
    ensures backend.Valid() && backend.shut == old(backend.shut)
    ensures var room := old(backend.Room());
      && go == Fits(5, room)
      && (!go ==> backend.written == old(backend.written) + Cut([tag] + length, room))
      && (go ==> var t := Chunks(PayloadLength(length), old(reader.unread), Less(room, 5));
            && backend.written == old(backend.written) + ([tag] + length + t.sent)
            && reader.unread == t.rest && backend.Room() == t.room)
  {
    go := SendHeader(backend, tag, length);
    if go {
      Assoc(old(backend.written), [tag] + length, Chunks(PayloadLength(length), reader.unread, backend.Room()).sent);
      ForwardChunks(reader, backend, buffer, PayloadLength(length));
    }
  }

  /** The body of the client-to-server loop; `false` when it breaks out. */
  method ForwardOne(reader: Source, backend: Sink, client: Sink, buffer: array<byte>, c: Context, error: seq<byte>)
    returns (go: bool)
    requires backend.Valid() && client.Valid() && backend != client && buffer.Length == CHUNK
    modifies reader, backend, client, buffer
    ensures backend.Valid() && backend.shut == old(backend.shut)
    ensures client.Valid() && client.shut == old(client.shut)
    ensures var t := old(OneTurn(reader.unread, c, backend.Room()));
      && go == t.Go?
      && backend.written == old(backend.written) + t.sent
      && (go ==> reader.unread == t.rest && backend.Room() == t.room)
      && client.written == if go && t.notices == 1 then old(client.written) + Cut(error + READY, old(client.Room()))
                           else old(client.written)
    ensures var s := old(reader.unread);
      StartsWithFrame(s) ==>
        var f := FirstFrame(s);
        if (f.tag == 0x51 || f.tag == 0x50) && |f.payload| <= 1023 && !Verdict(f.payload, c) then
          && go && backend.written == old(backend.written) && reader.unread == s[|Raw(f)|..]
          && client.written == old(client.written) + Cut(error + READY, old(client.Room()))
        else
          && backend.written == old(backend.written) + Cut(Raw(f), old(backend.Room()))
          && client.written == old(client.written)
  {
    ghost var s := reader.unread;
    if StartsWithFrame(s) {
      TurnOnAFrame(s, c, backend.Room());
    }
    var header := ReadHeader(reader);
    if header.None? {
      return false;
    }
    var (tag, length) := header.value;
    var n := PayloadLength(length);
    if |s| >= 5 + n {
      Slices(s, 5, n);
    }
    if IsInspected(tag, n) {
      go := ForwardInspected(reader, backend, client, tag, length, c, error);
    } else {
      go := ForwardBlind(reader, backend, buffer, tag, length);
    }
  }

  /** The same block, `n` times over. */
  function Blocks(block: seq<byte>, n: nat): seq<byte> {
    if n == 0 then [] else block + Blocks(block, n - 1)
  }

  /** What both ends will have when the loop is over. */
  datatype Ends = Ends(backend: seq<byte>, client: seq<byte>)

  function AtTheEnd(s: seq<byte>, c: Context, block: seq<byte>,
                    sent: seq<byte>, room: Option<nat>, told: seq<byte>, clientRoom: Option<nat>): Ends
  {
    EndsOf(Run(s, c, room), block, sent, told, clientRoom)
  }

  function EndsOf(o: Outcome, block: seq<byte>, sent: seq<byte>, told: seq<byte>, room: Option<nat>): Ends {
    Ends(sent + o.sent, told + Cut(Blocks(block, o.notices), room))
  }

  /** One turn towards the end. */
  lemma TurnTowardsTheEnd(s: seq<byte>, c: Context, block: seq<byte>,
                          sent: seq<byte>, room: Option<nat>, told: seq<byte>, clientRoom: Option<nat>)
    ensures var t, end := OneTurn(s, c, room), AtTheEnd(s, c, block, sent, room, told, clientRoom);
      match t
      case Stop(more) => end == Ends(sent + more, told)
      case Go(more, notices, rest, room') =>
        if notices == 0 then end == AtTheEnd(rest, c, block, sent + more, room', told, clientRoom)
        else end == AtTheEnd(rest, c, block, sent + more, room',
                             told + Cut(block, clientRoom), Left(clientRoom, |Cut(block, clientRoom)|))
  {
    var t := OneTurn(s, c, room);
    RunStep(s, c, room);
    if t.Go? {
      EndsStep(Run(t.rest, c, t.room), t.sent, t.notices, block, sent, told, clientRoom);
    } else {
      EndsAtOnce(t.sent, block, sent, told, clientRoom);
    }
  }

  lemma EndsAtOnce(more: seq<byte>, block: seq<byte>, sent: seq<byte>, told: seq<byte>, room: Option<nat>)
    ensures EndsOf(Outcome(more, 0), block, sent, told, room) == Ends(sent + more, told)
  {
    ToldOnce(told, block, 0, room);
  }

  lemma RunStep(s: seq<byte>, c: Context, room: Option<nat>)
    ensures Run(s, c, room) ==
      match OneTurn(s, c, room)
      case Stop(sent) => Outcome(sent, 0)
      case Go(sent, notices, rest, room') =>
        var o := Run(rest, c, room'); Outcome(sent + o.sent, notices + o.notices)
  {
  }

  lemma EndsStep(o: Outcome, more: seq<byte>, notices: nat, block: seq<byte>,
                 sent: seq<byte>, told: seq<byte>, room: Option<nat>)
    requires notices <= 1
    ensures EndsOf(Outcome(more + o.sent, notices + o.notices), block, sent, told, room) ==
      if notices == 0 then EndsOf(o, block, sent + more, told, room)
      else EndsOf(o, block, sent + more, told + Cut(block, room), Left(room, |Cut(block, room)|))
  {
    Assoc(sent, more, o.sent);
    ToldOnce(told, block, o.notices, room);
  }

  /** One block more in front. */
  lemma ToldOnce(told: seq<byte>, block: seq<byte>, n: nat, room: Option<nat>)
    ensures var first := Cut(block, room);
      told + Cut(Blocks(block, n + 1), room) == told + first + Cut(Blocks(block, n), Left(room, |first|))
    ensures told + Cut(Blocks(block, 0), room) == told
  {
    CutTwice(block, Blocks(block, n), room);
    Assoc(told, Cut(block, room), Cut(Blocks(block, n), Left(room, |Cut(block, room)|)));
  }

  /** One turn of the loop. */
  method RelayOne(reader: Source, backend: Sink, client: Sink, buffer: array<byte>, c: Context, error: seq<byte>)
    returns (go: bool)
    requires backend.Valid() && client.Valid() && backend != client && buffer.Length == CHUNK
    modifies reader, backend, client, buffer
    ensures backend.Valid() && backend.shut == old(backend.shut)
    ensures client.Valid() && client.shut == old(client.shut)
    ensures go ==> |reader.unread| < |old(reader.unread)|
    ensures old(AtTheEnd(reader.unread, c, error + READY, backend.written, backend.Room(), client.written, client.Room()))
         == if go
            then AtTheEnd(reader.unread, c, error + READY, backend.written, backend.Room(), client.written, client.Room())
            else Ends(backend.written, client.written)
  {
    ghost var room, told, t := client.Room(), client.written, OneTurn(reader.unread, c, backend.Room());
    TurnTowardsTheEnd(reader.unread, c, error + READY, backend.written, backend.Room(), client.written, client.Room());
    go := ForwardOne(reader, backend, client, buffer, c, error);
    if go && t.notices == 1 {
      assert client.written == told + Cut(error + READY, room);
      assert client.Room() == Left(room, |Cut(error + READY, room)|);
    } else {
      assert client.written == told && client.Room() == room;
    }
  }

  /** The client-to-server loop. */
  method RelayFrames(reader: Source, backend: Sink, client: Sink, c: Context, error: seq<byte>)
    requires backend.Valid() && client.Valid() && backend != client
    modifies reader, backend, client
    ensures backend.Valid() && backend.shut == old(backend.shut)
    ensures client.Valid() && client.shut == old(client.shut)
    ensures var total := old(Run(reader.unread, c, backend.Room()));
      && backend.written == old(backend.written) + total.sent
      && client.written == old(client.written) + Cut(Blocks(error + READY, total.notices), old(client.Room()))
  {
    var buffer := new byte[CHUNK];
    ghost var end :=
      AtTheEnd(reader.unread, c, error + READY, backend.written, backend.Room(), client.written, client.Room());
    var go := true;
    while go
      invariant backend.Valid() && backend.shut == old(backend.shut)
      invariant client.Valid() && client.shut == old(client.shut)
      invariant end == if go
        then AtTheEnd(reader.unread, c, error + READY, backend.written, backend.Room(), client.written, client.Room())
        else Ends(backend.written, client.written)
      decreases go, |reader.unread|
    {
      go := RelayOne(reader, backend, client, buffer, c, error);
    }
  }

  /** The client-to-server task: the backend gets the ideal stream cut at its failure
      point and is then half-closed; the client gets refusals, each uninterrupted: one
      for each frame to refuse, and no more than that after a failure that does not lose
      the loop its place. */
  method ClientToServer(reader: Source, backend: Sink, client: Sink, c: Context, error: seq<byte>)
    requires backend.Valid() && client.Valid() && backend != client
    modifies reader, backend, client
    ensures backend.Valid() && backend.shut
    ensures client.Valid() && client.shut == old(client.shut)
    ensures backend.written
         == old(backend.written) + old(Cut(Forwarded(reader.unread, c), backend.Room()))
    ensures var n := old(Run(reader.unread, c, backend.Room()).notices);
      && client.written == old(client.written) + Cut(Blocks(error + READY, n), old(client.Room()))
      && (old(Fits(|Forwarded(reader.unread, c)|, backend.Room())) ==> n == Refusals(old(reader.unread), c))
      && (!old(LosesItsPlace(reader.unread, c, backend.Room())) ==> n <= Refusals(old(reader.unread), c))
  {
    RunSendsTheIdealStream(reader.unread, c, backend.Room());
    RelayFrames(reader, backend, client, c, error);
    backend.Shutdown();
  }

  /** One chunk; `false` at the end of file or after a failed write. */
  method RelayChunk(reader: Source, client: Sink) returns (go: bool)
    requires client.Valid()
    modifies reader, client
    ensures client.Valid() && client.shut == old(client.shut)
    ensures go ==> |reader.unread| < |old(reader.unread)|
    ensures old(client.written + Cut(reader.unread, client.Room()))
         == client.written + if go then Cut(reader.unread, client.Room()) else []
  {
    var bytes := reader.ReadSome(CHUNK);
    if bytes == [] {
      return false;
    }
    CutAppend(bytes, reader.unread, client.Room());
    go := client.WriteAll(bytes);
    if go {
      Assoc(old(client.written), bytes, Cut(reader.unread, client.Room()));
    }
  }

  /** The server-to-client task, alone: every byte in order, then the client's write
      half is shut. */
  method ServerToClient(reader: Source, client: Sink)
    requires client.Valid()
    modifies reader, client
    ensures client.Valid() && client.shut
    ensures client.written == old(client.written) + old(Cut(reader.unread, client.Room()))
  {
    ghost var goal := client.written + Cut(reader.unread, client.Room());
    var go := true;
    while go
      invariant client.Valid() && client.shut == old(client.shut)
      invariant goal == client.written + if go then Cut(reader.unread, client.Room()) else []
      decreases go, |reader.unread|
    {
      go := RelayChunk(reader, client);
    }
    client.Shutdown();
  }
}
