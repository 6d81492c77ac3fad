/** A buffered reader over a socket. What arrives in one read is buffered whole;
    `into_inner` gives the socket back without what was buffered ahead. */
module Wire {
  import opened Bytes

  /** Bytes read ahead, and what each later read of the socket will yield. */
  datatype Src = Src(ahead: seq<byte>, arrivals: seq<seq<byte>>)

  function All(s: Src): seq<byte> {
    s.ahead + Concat(s.arrivals)
  }

  /** The reader after `n` more bytes: whole reads are taken in until there are enough. */
  function Drop(s: Src, n: nat): (t: Src)
    requires n <= |All(s)|
    ensures All(t) == All(s)[n..]
    decreases |s.arrivals|
  {
    if n <= |s.ahead| then
      assert All(s)[n..] == s.ahead[n..] + Concat(s.arrivals);
      Src(s.ahead[n..], s.arrivals)
    else
      assert All(s) == s.ahead + s.arrivals[0] + Concat(s.arrivals[1..]);
      Drop(Src(s.ahead + s.arrivals[0], s.arrivals[1..]), n)
  }

  /** `into_inner`, and a new reader over the same socket. */
  function Reattached(s: Src): Src {
    Src([], s.arrivals)
  }

  lemma {:induction false} DropTwice(s: Src, a: nat, b: nat)
    requires a + b <= |All(s)|
    ensures Drop(Drop(s, a), b) == Drop(s, a + b)
    decreases |s.arrivals|
  {
    if a <= |s.ahead| {
      DropAhead(s, a, b);
    } else {
      var t := Src(s.ahead + s.arrivals[0], s.arrivals[1..]);
      assert All(s) == All(t);
      DropTwice(t, a, b);
    }
  }

  lemma {:induction false} DropAhead(s: Src, a: nat, b: nat)
    requires a <= |s.ahead| && a + b <= |All(s)|
    ensures All(Src(s.ahead[a..], s.arrivals)) == All(s)[a..]
    ensures Drop(Src(s.ahead[a..], s.arrivals), b) == Drop(s, a + b)
    decreases |s.arrivals|
  {
    assert All(Src(s.ahead[a..], s.arrivals)) == All(s)[a..];
    if a + b <= |s.ahead| {
      assert s.ahead[a..][b..] == s.ahead[a + b..];
    } else {
      var t := Src(s.ahead + s.arrivals[0], s.arrivals[1..]);
      assert All(s) == All(t);
      DropAhead(t, a, b);
      assert t.ahead[a..] == s.ahead[a..] + s.arrivals[0];
    }
  }

  class BufReader {
    var ahead: seq<byte>
    var arrivals: seq<seq<byte>>

    function State(): Src
      reads this
    {
      Src(ahead, arrivals)
    }

    constructor (arrivals: seq<seq<byte>>)
      ensures State() == Src([], arrivals)
    {
      this.ahead := [];
      this.arrivals := arrivals;
    }

    method ReadExact(n: nat) returns (bytes: Option<seq<byte>>)
      modifies this
      ensures var s := old(State());
        && (bytes.Some? <==> |All(s)| >= n)
        && (bytes.Some? ==> bytes.value == All(s)[..n] && State() == Drop(s, n))
    {
      while |ahead| < n && arrivals != []
        invariant All(State()) == All(old(State()))
        invariant n <= |All(State())| ==> Drop(State(), n) == Drop(old(State()), n)
        decreases |arrivals|
      {
        assert All(State()) == ahead + arrivals[0] + Concat(arrivals[1..]);
        ahead := ahead + arrivals[0];
        arrivals := arrivals[1..];
      }
      if |ahead| < n {
        assert All(State()) == ahead;
        return None;
      }
      bytes := Some(ahead[..n]);
      assert All(State())[..n] == ahead[..n];
      ahead := ahead[n..];
    }

    method Reattach()
      modifies this
      ensures State() == Reattached(old(State()))
    {
      ahead := [];
    }
  }
}
