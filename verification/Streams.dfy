/** The ends of a socket. A source yields its bytes until end of file or a read
    error; a sink accepts bytes up to a failure point that never heals. */
module Streams {
  import opened Bytes

  class Source {
    var unread: seq<byte>

    constructor (bytes: seq<byte>)
      ensures unread == bytes
    {
      unread := bytes;
    }

    method ReadByte() returns (b: Option<byte>)
      modifies this
      ensures b.Some? <==> old(unread) != []
      ensures b.Some? ==> old(unread) == [b.value] + unread
      ensures b.None? ==> unread == []
    {
      if unread == [] {
        return None;
      }
      b := Some(unread[0]);
      unread := unread[1..];
    }

    /** `read_exact`: a short stream is consumed whole. */
    method ReadExact(n: nat) returns (bytes: Option<seq<byte>>)
      modifies this
      ensures bytes.Some? <==> |old(unread)| >= n
      ensures bytes.Some? ==> bytes.value == old(unread)[..n] && unread == old(unread)[n..]
      ensures bytes.None? ==> unread == []
    {
      if |unread| < n {
        unread := [];
        return None;
      }
      bytes := Some(unread[..n]);
      unread := unread[n..];
    }

    /** `read_exact` into the front of a buffer that is reused between calls. */
    method ReadInto(buffer: array<byte>, n: nat) returns (ok: bool)
      requires n <= buffer.Length
      modifies this, buffer
      ensures ok <==> |old(unread)| >= n
      ensures ok ==> buffer[..n] == old(unread)[..n] && unread == old(unread)[n..]
      ensures !ok ==> unread == []
    {
      if |unread| < n {
        unread := [];
        return false;
      }
      for i := 0 to n
        invariant unread == old(unread)
        invariant buffer[..i] == unread[..i]
      {
        buffer[i] := unread[i];
      }
      unread := unread[n..];
      return true;
    }

    /** One `read`: any positive number of bytes up to `most`, or none at the end. */
    method ReadSome(most: nat) returns (bytes: seq<byte>)
      requires most > 0
      modifies this
      ensures old(unread) == bytes + unread && |bytes| <= most
      ensures bytes == [] <==> old(unread) == []
    {
      if unread == [] {
        return [];
      }
      var n: nat :| 1 <= n <= most && n <= |unread|;
      bytes := unread[..n];
      unread := unread[n..];
    }
  }

  class Sink {
    var written: seq<byte>
    var shut: bool
    const limit: Option<nat>

    predicate Valid()
      reads this
    {
      limit.Some? ==> |written| <= limit.value
    }

    /** How many more bytes are accepted before every write fails. */
    function Room(): Option<nat>
      requires Valid()
      reads this
    {
      if shut then Some(0)
      else
        match limit
        case None => None
        case Some(n) => Some(n - |written|)
    }

    constructor (limit: Option<nat>)
      ensures Valid() && written == [] && !shut && this.limit == limit && Room() == limit
    {
      this.limit := limit;
      written, shut := [], false;
    }

    /** `write_all`: on failure a prefix may have gone out. */
    method WriteAll(bytes: seq<byte>) returns (ok: bool)
      requires Valid()
      modifies this
      ensures Valid() && shut == old(shut)
      ensures ok <==> Fits(|bytes|, old(Room()))
      ensures written == old(written) + Cut(bytes, old(Room()))
      ensures Room() == Left(old(Room()), |Cut(bytes, old(Room()))|)
    {
      var room := Room();
      ok := Fits(|bytes|, room);
      written := written + Cut(bytes, room);
    }

    method Shutdown()
      requires Valid()
      modifies this
      ensures Valid() && written == old(written) && shut && Room() == Some(0)
    {
      shut := true;
    }
  }

  /** The room left after `n` bytes that fit. */
  function Less(room: Option<nat>, n: nat): Option<nat>
    requires Fits(n, room)
  {
    match room
    case None => None
    case Some(r) => Some(r - n)
  }

  lemma CutAppend<T>(a: seq<T>, b: seq<T>, room: Option<nat>)
    ensures Cut(a + b, room) ==
      if Fits(|a|, room) then a + Cut(b, Less(room, |a|)) else Cut(a, room)
  {
  }

  /** Two writes in a row are one: what the first leaves of the room bounds the second. */
  lemma CutTwice<T>(a: seq<T>, b: seq<T>, room: Option<nat>)
    ensures Cut(a, room) + Cut(b, Left(room, |Cut(a, room)|)) == Cut(a + b, room)
  {
  }

  function Left(room: Option<nat>, used: nat): Option<nat> {
    match room
    case None => None
    case Some(r) => Some(if used <= r then r - used else 0)
  }

  lemma CutThree<T>(a: seq<T>, b: seq<T>, c: seq<T>, room: Option<nat>)
    ensures Cut(a + b + c, room) ==
      if !Fits(|a|, room) then Cut(a, room)
      else if !Fits(|b|, Less(room, |a|)) then a + Cut(b, Less(room, |a|))
      else a + b + Cut(c, Less(Less(room, |a|), |b|))
  {
    CutAppend(a + b, c, room);
    CutAppend(a, b, room);
  }
}
