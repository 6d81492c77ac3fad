/** Which peers may send a PROXY header, and how often a refusal is logged.
    Models trust.rs. */
module Trust {
  import opened Bytes
  import opened Text
  import opened Address

  // ---- The allowlist -----------------------------------------------------

  datatype ParseResult = Parsed(nets: seq<Cidr>) | EmptySpec | BadEntry(entry: string)

  /** The trimmed, non-empty entries of a comma-separated list. */
  function EntriesOf(parts: seq<string>): seq<string> {
    if parts == [] then []
    else (if Trim(parts[0]) == [] then [] else [Trim(parts[0])]) + EntriesOf(parts[1..])
  }

  function Entries(spec: string): seq<string> {
    EntriesOf(SplitOn(spec, ','))
  }

  lemma {:induction false} EntriesAppend(a: seq<string>, b: seq<string>)
    ensures EntriesOf(a + b) == EntriesOf(a) + EntriesOf(b)
  {
    if a == [] {
      assert a + b == b;
    } else {
      EntriesAppend(a[1..], b);
      assert (a + b)[1..] == a[1..] + b;
      Assoc(if Trim(a[0]) == [] then [] else [Trim(a[0])], EntriesOf(a[1..]), EntriesOf(b));
    }
  }

  /** A comma separates: the entries of two lists are those of one and then of the other. */
  lemma EntriesAcrossComma(a: string, b: string)
    ensures Entries(a + "," + b) == Entries(a) + Entries(b)
  {
    SplitJoins(a, ',', b);
    EntriesAppend(SplitOn(a, ','), SplitOn(b, ','));
  }

  /** Between commas, white space around the entry does not count, and nothing but white
      space is no entry. */
  lemma PaddedEntry(before: string, entry: string, after: string)
    requires IsBlank(before) && IsBlank(after) && HasVisibleEnds(entry) && ',' !in entry
    ensures Entries(before + entry + after) == if entry == [] then [] else [entry]
  {
    var s := before + entry + after;
    TrimOfPadded(before, entry, after);
    assert ',' !in before && ',' !in after by {
      assert !IsWhitespace(',');
    }
    SplitWhole(s, ',');
    assert EntriesOf([s][1..]) == [];
  }

  datatype Item = Item(before: string, entry: string, after: string)

  /** An item of a list: an entry, or none, with white space around it. */
  predicate IsItem(i: Item) {
    IsBlank(i.before) && IsBlank(i.after) && HasVisibleEnds(i.entry) && ',' !in i.entry
  }

  function PrintItems(items: seq<Item>): string
    requires items != []
  {
    var first := items[0].before + items[0].entry + items[0].after;
    if |items| == 1 then first else first + "," + PrintItems(items[1..])
  }

  function EntriesIn(items: seq<Item>): seq<string> {
    if items == [] then [] else (if items[0].entry == [] then [] else [items[0].entry]) + EntriesIn(items[1..])
  }

  /** A printed list is read back: its entries in order, without white space or gaps. */
  lemma {:induction false} PrintedListIsRead(items: seq<Item>)
    requires items != [] && forall i :: i in items ==> IsItem(i)
    ensures Entries(PrintItems(items)) == EntriesIn(items)
  {
    var i := items[0];
    assert i in items;
    PaddedEntry(i.before, i.entry, i.after);
    if |items| > 1 {
      PrintedListIsRead(items[1..]);
      EntriesAcrossComma(i.before + i.entry + i.after, PrintItems(items[1..]));
    } else {
      assert items[1..] == [];
    }
  }

  /** Fails closed: one entry that is neither a block nor an address is an error, and
      the error names the first such entry. `asBlock` is the CIDR library's parser. */
  method ParseTrusted(spec: string, asBlock: string -> Option<Cidr>) returns (r: ParseResult)
    ensures r.EmptySpec? <==> Entries(spec) == []
    ensures r.Parsed? ==>
      |r.nets| == |Entries(spec)|
      && forall i :: 0 <= i < |r.nets| ==> EntryBlock(Entries(spec)[i], asBlock) == Some(r.nets[i])
    ensures r.BadEntry? ==> exists i ::
      && 0 <= i < |Entries(spec)| && Entries(spec)[i] == r.entry && EntryBlock(r.entry, asBlock).None?
      && forall j :: 0 <= j < i ==> EntryBlock(Entries(spec)[j], asBlock).Some?
  {
    var entries := Entries(spec);
    if entries == [] {
      return EmptySpec;
    }
    var nets := [];
    for i := 0 to |entries|
      invariant |nets| == i
      invariant forall j :: 0 <= j < i ==> EntryBlock(entries[j], asBlock) == Some(nets[j])
    {
      var net := EntryBlock(entries[i], asBlock);
      if net.None? {
        return BadEntry(entries[i]);
      }
      nets := nets + [net.value];
    }
    return Parsed(nets);
  }

  /** A block, or a bare address as the block that holds only it. */
  function EntryBlock(entry: string, asBlock: string -> Option<Cidr>): Option<Cidr> {
    match asBlock(entry)
    case Some(c) => Some(c)
    case None =>
      match ParseIp(entry)
      case Some(a) => Some(HostBlock(a))
      case None => None
  }

  /** What an entry stands for: the block it spells; or else, if it is an address, a block
      that holds that address and no other; or else nothing. */
  lemma EntryStandsFor(entry: string, asBlock: string -> Option<Cidr>)
    ensures asBlock(entry).Some? ==> EntryBlock(entry, asBlock) == asBlock(entry)
    ensures asBlock(entry).None? ==> (EntryBlock(entry, asBlock).Some? <==> ParseIp(entry).Some?)
    ensures asBlock(entry).None? && ParseIp(entry).Some? ==>
      forall a :: Contains(EntryBlock(entry, asBlock).value, a) <==> a == ParseIp(entry).value
  {
    if asBlock(entry).None? && ParseIp(entry).Some? {
      forall a ensures Contains(HostBlock(ParseIp(entry).value), a) <==> a == ParseIp(entry).value {
        HostBlockHoldsItsAddress(ParseIp(entry).value, a);
      }
    }
  }

  /** `normalise`: an IPv4-mapped address becomes the IPv4 address it carries. */
  function Normalise(a: IpAddr): IpAddr {
    if a.family.V6? && a.bits / WORD == 0xFFFF then IpAddr(V4, a.bits % WORD) else a
  }

  predicate IsTrusted(nets: seq<Cidr>, peer: IpAddr) {
    exists i :: 0 <= i < |nets| && (Contains(nets[i], peer) || Contains(nets[i], Normalise(peer)))
  }

  method CheckTrusted(nets: seq<Cidr>, peer: IpAddr) returns (trusted: bool)
    ensures trusted <==> IsTrusted(nets, peer)
  {
    var normalised := Normalise(peer);
    for i := 0 to |nets|
      invariant forall j :: 0 <= j < i ==> !(Contains(nets[j], peer) || Contains(nets[j], normalised))
    {
      if Contains(nets[i], peer) || Contains(nets[i], normalised) {
        return true;
      }
    }
    return false;
  }

  predicate AnyContains(nets: seq<Cidr>, a: IpAddr) {
    exists i :: 0 <= i < |nets| && Contains(nets[i], a)
  }

  /** The mapped form of an IPv4 address is trusted exactly when the address is, or
      when an IPv6 block covers the mapped form itself. */
  lemma MappedFormIsTrusted(nets: seq<Cidr>, v4: nat)
    requires v4 < WORD
    ensures IsTrusted(nets, Mapped(v4)) <==>
      IsTrusted(nets, IpAddr(V4, v4)) || AnyContains(nets, Mapped(v4))
  {
    assert Normalise(Mapped(v4)) == IpAddr(V4, v4);
    assert Normalise(IpAddr(V4, v4)) == IpAddr(V4, v4);
    if IsTrusted(nets, Mapped(v4)) {
      var i :| 0 <= i < |nets| && (Contains(nets[i], Mapped(v4)) || Contains(nets[i], IpAddr(V4, v4)));
    }
    if IsTrusted(nets, IpAddr(V4, v4)) {
      var i :| 0 <= i < |nets| && Contains(nets[i], IpAddr(V4, v4));
      assert Contains(nets[i], Normalise(Mapped(v4)));
    }
  }

  /** A list of IPv4 blocks, however wide, trusts no other IPv6 peer. */
  lemma Ipv4BlocksTrustNoOtherIpv6(nets: seq<Cidr>, peer: IpAddr)
    requires forall i :: 0 <= i < |nets| ==> nets[i].family.V4?
    requires peer.family.V6?
    ensures IsTrusted(nets, peer) ==> peer.bits / WORD == 0xFFFF
  {
  }

  // ---- The throttle ------------------------------------------------------

  const U64 := 0x1_0000_0000_0000_0000

  /** `last` is when a line was last logged; times are nanoseconds on one clock. */
  datatype LogState = LogState(last: Option<nat>, suppressed: nat)

  /** `duration_since` saturates at zero, so a late-arriving early time is not due. */
  predicate IsDue(s: LogState, interval: nat, now: nat) {
    s.last.None? || (if now >= s.last.value then now - s.last.value else 0) >= interval
  }

  function Step(s: LogState, interval: nat, now: nat): (LogState, Option<nat>) {
    if IsDue(s, interval, now) then (LogState(Some(now), 0), Some(s.suppressed))
    else (LogState(s.last, (s.suppressed + 1) % U64), None)
  }

  class RejectionLog {
    var last: Option<nat>
    var suppressed: nat
    const interval: nat

    function State(): LogState
      reads this
    {
      LogState(last, suppressed)
    }

    constructor (interval: nat)
      ensures State() == LogState(None, 0) && this.interval == interval
    {
      this.interval := interval;
      last, suppressed := None, 0;
    }

    /** `now` was read before the lock was taken, so it may be older than `last`. */
    method ShouldLog(now: nat) returns (report: Option<nat>)
      modifies this
      ensures (State(), report) == Step(old(State()), interval, now)
      ensures report.Some? <==> old(last).None? || interval == 0 || now >= old(last).value + interval
    {
      var due := true;
      if last.Some? {
        var elapsed := if now >= last.value then now - last.value else 0;
        due := elapsed >= interval;
      }
      if due {
        last := Some(now);
        report := Some(suppressed);
        suppressed := 0;
      } else {
        suppressed := (suppressed + 1) % U64;
        report := None;
      }
    }
  }

  /** A call is logged exactly when it is the first, or comes at least one interval after
      the last one logged; the line then reports the calls suppressed since. */
  lemma LoggedIff(s: LogState, interval: nat, now: nat)
    ensures Step(s, interval, now).1.Some? <==> s.last.None? || interval == 0 || now >= s.last.value + interval
    ensures Step(s, interval, now).1.Some? ==> Step(s, interval, now).1.value == s.suppressed
  {
  }

  /** Any sequence of calls, in the order they took the lock. */
  function Final(s: LogState, interval: nat, times: seq<nat>): LogState
    decreases |times|
  {
    if times == [] then s else Final(Step(s, interval, times[0]).0, interval, times[1..])
  }

  function Reports(s: LogState, interval: nat, times: seq<nat>): seq<Option<nat>>
    decreases |times|
  {
    if times == [] then []
    else
      var (s', r) := Step(s, interval, times[0]);
      [r] + Reports(s', interval, times[1..])
  }

  function Logged(reports: seq<Option<nat>>): nat {
    if reports == [] then 0 else (if reports[0].Some? then 1 else 0) + Logged(reports[1..])
  }

  function Reported(reports: seq<Option<nat>>): nat {
    if reports == [] then 0 else (if reports[0].Some? then reports[0].value else 0) + Reported(reports[1..])
  }

  /** How often the 64-bit counter wrapped. */
  function Wraps(s: LogState, interval: nat, times: seq<nat>): nat
    decreases |times|
  {
    if times == [] then 0
    else
      (if !IsDue(s, interval, times[0]) && s.suppressed + 1 == U64 then 1 else 0)
      + Wraps(Step(s, interval, times[0]).0, interval, times[1..])
  }

  /** Every call is logged, reported by a later line, still held, or lost to a wrap. */
  lemma {:induction false} CallsAreConserved(s: LogState, interval: nat, times: seq<nat>)
    requires s.suppressed < U64
    ensures var reports := Reports(s, interval, times);
      s.suppressed + |times| == Logged(reports) + Reported(reports) + Final(s, interval, times).suppressed
                                + U64 * Wraps(s, interval, times)
    ensures s.suppressed + |times| < U64 ==> Wraps(s, interval, times) == 0
    decreases |times|
  {
    if times != [] {
      var (s', r) := Step(s, interval, times[0]);
      CallsAreConserved(s', interval, times[1..]);
      assert Reports(s, interval, times)[1..] == Reports(s', interval, times[1..]);
    }
  }

  /** From a fresh log, in fewer than 2^64 calls, nothing is lost. */
  lemma FreshLogConservesCalls(interval: nat, times: seq<nat>)
    requires |times| < U64
    ensures var s := LogState(None, 0);
      var reports := Reports(s, interval, times);
      |times| == Logged(reports) + Reported(reports) + Final(s, interval, times).suppressed
  {
    CallsAreConserved(LogState(None, 0), interval, times);
  }

  /** When lines were logged. */
  function LoggedTimes(s: LogState, interval: nat, times: seq<nat>): seq<nat>
    decreases |times|
  {
    if times == [] then []
    else
      (if IsDue(s, interval, times[0]) then [times[0]] else [])
      + LoggedTimes(Step(s, interval, times[0]).0, interval, times[1..])
  }

  /** Each entry is at least `interval` after the one before, the first at least `from`. */
  predicate Spaced(l: seq<nat>, from: nat, interval: nat) {
    l == [] || (l[0] >= from && Spaced(l[1..], l[0] + interval, interval))
  }

  /** The instant before which nothing can be logged. */
  function Earliest(s: LogState, interval: nat): nat {
    match s.last
    case None => 0
    case Some(t) => t + interval
  }

  /** The last line so far. */
  function LastLine(s: LogState, interval: nat, times: seq<nat>): Option<nat> {
    var l := LoggedTimes(s, interval, times);
    if l == [] then s.last else Some(l[|l| - 1])
  }

  lemma {:induction false} FinalIsLastLine(s: LogState, interval: nat, times: seq<nat>)
    ensures Final(s, interval, times).last == LastLine(s, interval, times)
    decreases |times|
  {
    if times != [] {
      FinalIsLastLine(Step(s, interval, times[0]).0, interval, times[1..]);
    }
  }

  lemma {:induction false} ReportIsStep(s: LogState, interval: nat, times: seq<nat>, i: nat)
    requires i < |times|
    ensures i < |Reports(s, interval, times)|
    ensures Reports(s, interval, times)[i] == Step(Final(s, interval, times[..i]), interval, times[i]).1
    decreases |times|
  {
    if i > 0 {
      ReportIsStep(Step(s, interval, times[0]).0, interval, times[1..], i - 1);
      assert times[..i][1..] == times[1..][..i - 1];
    }
  }

  /** In a run from a fresh log: a call is logged exactly when none before it was, or when
      it comes at least one interval after the last that was. */
  lemma CallIsLoggedIff(interval: nat, times: seq<nat>, i: nat)
    requires i < |times|
    ensures i < |Reports(LogState(None, 0), interval, times)|
    ensures var lines := LoggedTimes(LogState(None, 0), interval, times[..i]);
      Reports(LogState(None, 0), interval, times)[i].Some? <==>
        lines == [] || interval == 0 || times[i] >= lines[|lines| - 1] + interval
  {
    var s := LogState(None, 0);
    ReportIsStep(s, interval, times, i);
    FinalIsLastLine(s, interval, times[..i]);
    LoggedIff(Final(s, interval, times[..i]), interval, times[i]);
  }

  lemma {:induction false} LoggedTimesAreSpaced(s: LogState, interval: nat, times: seq<nat>)
    requires interval > 0
    ensures Spaced(LoggedTimes(s, interval, times), Earliest(s, interval), interval)
    ensures |LoggedTimes(s, interval, times)| == Logged(Reports(s, interval, times))
    ensures s.last.Some? ==>
      Final(s, interval, times).last.Some? && Final(s, interval, times).last.value >= s.last.value
    decreases |times|
  {
    if times != [] {
      var (s', r) := Step(s, interval, times[0]);
      LoggedTimesAreSpaced(s', interval, times[1..]);
      assert Reports(s, interval, times)[1..] == Reports(s', interval, times[1..]);
      var l := LoggedTimes(s', interval, times[1..]);
      if r.Some? {
        assert ([times[0]] + l)[1..] == l;
      } else {
        assert [] + l == l;
      }
    }
  }

  lemma {:induction false} SpacedApart(l: seq<nat>, from: nat, interval: nat, i: nat, j: nat)
    requires Spaced(l, from, interval) && i <= j < |l|
    ensures from <= l[i] && l[i] + (j - i) * interval <= l[j]
    decreases j
  {
    if i > 0 {
      SpacedApart(l[1..], l[0] + interval, interval, i - 1, j - 1);
    } else if j > 0 {
      SpacedApart(l[1..], l[0] + interval, interval, 0, j - 1);
      assert (j - 1) * interval + interval == j * interval;
    }
  }

  /** Whatever order the timestamps arrive in, from one line to the n-th after it there
      are at least n intervals. */
  lemma LinesPerWindow(interval: nat, times: seq<nat>, i: nat, j: nat)
    requires interval > 0 && i <= j < |LoggedTimes(LogState(None, 0), interval, times)|
    ensures var lines := LoggedTimes(LogState(None, 0), interval, times);
      lines[i] + (j - i) * interval <= lines[j]
  {
    var s := LogState(None, 0);
    LoggedTimesAreSpaced(s, interval, times);
    SpacedApart(LoggedTimes(s, interval, times), 0, interval, i, j);
  }

  /** A positive interval is exactly what keeps `last` from moving back. */
  lemma LastMovesForwardIffIntervalIsPositive(interval: nat)
    ensures interval > 0 <==>
      forall t: nat, now: nat, n: nat ::
        var s := Step(LogState(Some(t), n), interval, now).0; s.last.Some? && s.last.value >= t
  {
    if interval == 0 {
      assert Step(LogState(Some(1), 0), interval, 0).0.last == Some(0);
    }
  }
}
