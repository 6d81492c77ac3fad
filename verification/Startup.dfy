/** The startup packet rewriter. Models `inject_ip_startup` and `extract_user_db`
    of protocol.rs. A payload is a four-byte version and a NUL-separated list. */
module Startup {
  import opened Bytes
  import opened Utf8
  import opened ApplicationName
  import opened Address

  // The keys as text, as the code compares them, and as bytes.
  const USER := "user"
  const DATABASE := "database"
  const APPLICATION_NAME := "application_name"
  const USER_KEY: seq<byte> := [0x75, 0x73, 0x65, 0x72]
  const DATABASE_KEY: seq<byte> := [0x64, 0x61, 0x74, 0x61, 0x62, 0x61, 0x73, 0x65]
  const APPLICATION_NAME_KEY: seq<byte> :=
    [0x61, 0x70, 0x70, 0x6C, 0x69, 0x63, 0x61, 0x74, 0x69, 0x6F, 0x6E, 0x5F, 0x6E, 0x61, 0x6D, 0x65]

  datatype Pair = Pair(key: seq<byte>, value: seq<byte>)

  // ---- Protocol codes ----------------------------------------------------

  const SSL_REQUEST := 80877103
  const GSSENC_REQUEST := 80877104
  const CANCEL_REQUEST := 80877102

  function StartupMajor(version: nat): nat {
    version / 0x1_0000 % 0x1_0000
  }

  predicate IsSupportedStartup(version: nat) {
    StartupMajor(version) == 3
  }

  predicate IsRequestCode(version: nat) {
    version == SSL_REQUEST || version == GSSENC_REQUEST || version == CANCEL_REQUEST
  }

  /** The negotiation and cancel codes have major 1234: none is a startup version. */
  lemma RequestCodesAreUnsupported(version: nat)
    requires IsRequestCode(version)
    ensures StartupMajor(version) == 1234 && !IsSupportedStartup(version)
  {
  }

  function Version(payload: seq<byte>): nat
    requires |payload| >= 4
  {
    Be32(payload[..4])
  }

  /** What a packet asks for, by its first bytes: 04 D2 16 2F for TLS, 04 D2 16 30 for
      GSSAPI encryption, 04 D2 16 2E to cancel; a startup of major version three begins
      with 00 03. */
  lemma CodesInBytes(payload: seq<byte>)
    requires |payload| >= 4
    ensures Version(payload) == SSL_REQUEST <==> payload[..4] == [0x04, 0xD2, 0x16, 0x2F]
    ensures Version(payload) == GSSENC_REQUEST <==> payload[..4] == [0x04, 0xD2, 0x16, 0x30]
    ensures Version(payload) == CANCEL_REQUEST <==> payload[..4] == [0x04, 0xD2, 0x16, 0x2E]
    ensures IsSupportedStartup(Version(payload)) <==> payload[0] == 0 && payload[1] == 3
  {
    var v := payload[..4];
    if Be32(v) == SSL_REQUEST { Be32Injective(v, [0x04, 0xD2, 0x16, 0x2F]); }
    if Be32(v) == GSSENC_REQUEST { Be32Injective(v, [0x04, 0xD2, 0x16, 0x30]); }
    if Be32(v) == CANCEL_REQUEST { Be32Injective(v, [0x04, 0xD2, 0x16, 0x2E]); }
    var high, low := v[0] as int * 0x100 + v[1] as int, v[2] as int * 0x100 + v[3] as int;
    assert Be32(v) == high * 0x1_0000 + low;
    assert Be32(v) / 0x1_0000 == high;
  }

  // ---- Parsing and printing ----------------------------------------------

  /** The parameter section, less one trailing NUL. */
  function Params(payload: seq<byte>): seq<byte>
    requires |payload| >= 4
  {
    var p := payload[4..];
    if p != [] && p[|p| - 1] == NUL then p[..|p| - 1] else p
  }

  /** Consecutive parts two by two; an unpaired last part is dropped. */
  function PairsOf(parts: seq<seq<byte>>): seq<Pair> {
    seq(|parts| / 2, i requires 0 <= i < |parts| / 2 => Pair(parts[2 * i], parts[2 * i + 1]))
  }

  lemma PairAt(parts: seq<seq<byte>>, k: nat)
    requires 2 * k + 1 < |parts|
    ensures k < |PairsOf(parts)| && PairsOf(parts)[k] == Pair(parts[2 * k], parts[2 * k + 1])
  {
  }

  function ParsePairs(payload: seq<byte>): seq<Pair>
    requires |payload| >= 4
  {
    PairsOf(SplitOn(Params(payload), NUL))
  }

  /** The last terminator may be missing. */
  lemma TerminatorIsOptional(payload: seq<byte>)
    requires |payload| >= 4 && (|payload| == 4 || payload[|payload| - 1] != NUL)
    ensures ParsePairs(payload + [NUL]) == ParsePairs(payload)
  {
    assert (payload + [NUL])[4..] == payload[4..] + [NUL];
  }

  function PrintPair(p: Pair): seq<byte> {
    p.key + [NUL] + p.value + [NUL]
  }

  function PrintPairs(ps: seq<Pair>): seq<byte> {
    if ps == [] then [] else PrintPair(ps[0]) + PrintPairs(ps[1..])
  }

  /** The layout a server accepts: version, pairs, one final terminator. */
  function Print(version: seq<byte>, ps: seq<Pair>): seq<byte> {
    version + PrintPairs(ps) + [NUL]
  }

  predicate IsPrintablePair(p: Pair) {
    p.key != [] && NUL !in p.key && NUL !in p.value
  }

  ghost predicate WellFormed(ps: seq<Pair>) {
    forall p :: p in ps ==> IsPrintablePair(p)
  }

  lemma {:induction false} PrintSnoc(a: seq<Pair>, p: Pair)
    ensures PrintPairs(a + [p]) == PrintPairs(a) + PrintPair(p)
  {
    if a == [] {
      assert a + [p] == [p];
      assert PrintPairs([p]) == PrintPair(p) + PrintPairs([]);
    } else {
      PrintSnoc(a[1..], p);
      assert (a + [p])[1..] == a[1..] + [p];
      assert PrintPair(a[0]) + (PrintPairs(a[1..]) + PrintPair(p)) == PrintPairs(a) + PrintPair(p);
    }
  }

  lemma SplitPair(p: Pair, rest: seq<byte>)
    requires IsPrintablePair(p)
    ensures SplitOn(PrintPair(p) + rest, NUL) == [p.key, p.value] + SplitOn(rest, NUL)
  {
    SplitAtSeparator(p.value, NUL, rest);
    SplitAtSeparator(p.key, NUL, p.value + [NUL] + rest);
    assert PrintPair(p) + rest == p.key + [NUL] + (p.value + [NUL] + rest);
  }

  lemma PairInFront(p: Pair, tail: seq<seq<byte>>, ps: seq<Pair>)
    requires |tail| == 2 * |ps| + 1
    requires forall i :: 0 <= i < |ps| ==> tail[2 * i] == ps[i].key && tail[2 * i + 1] == ps[i].value
    ensures var parts, qs := [p.key, p.value] + tail, [p] + ps;
      forall i :: 0 <= i < |qs| ==> parts[2 * i] == qs[i].key && parts[2 * i + 1] == qs[i].value
  {
    var parts, qs := [p.key, p.value] + tail, [p] + ps;
    forall i | 0 <= i < |qs|
      ensures parts[2 * i] == qs[i].key && parts[2 * i + 1] == qs[i].value
    {
      if i > 0 {
        assert parts[2 * i] == tail[2 * (i - 1)] && parts[2 * i + 1] == tail[2 * (i - 1) + 1];
      }
    }
  }

  /** Splitting a printed list gives keys and values in turn, then one empty part. */
  lemma {:induction false} SplitPrinted(ps: seq<Pair>)
    requires WellFormed(ps)
    ensures var parts := SplitOn(PrintPairs(ps), NUL);
      && |parts| == 2 * |ps| + 1
      && forall i :: 0 <= i < |ps| ==> parts[2 * i] == ps[i].key && parts[2 * i + 1] == ps[i].value
  {
    if ps != [] {
      var p, rest := ps[0], PrintPairs(ps[1..]);
      assert IsPrintablePair(p);
      SplitPrinted(ps[1..]);
      SplitPair(p, rest);
      PairInFront(p, SplitOn(rest, NUL), ps[1..]);
      assert [p] + ps[1..] == ps;
    }
  }

  lemma PrintedSlices(version: seq<byte>, ps: seq<Pair>)
    requires |version| == 4
    ensures var out := Print(version, ps);
      out[..4] == version && out[4..] == PrintPairs(ps) + [NUL] && Params(out) == PrintPairs(ps)
  {
    var out := Print(version, ps);
    assert out[..4] == version;
    assert out[4..] == PrintPairs(ps) + [NUL];
  }

  /** Parsing undoes printing. */
  lemma ParseOfPrint(version: seq<byte>, ps: seq<Pair>)
    requires |version| == 4 && WellFormed(ps)
    ensures ParsePairs(Print(version, ps)) == ps
  {
    PrintedSlices(version, ps);
    SplitPrinted(ps);
    assert PairsOf(SplitOn(PrintPairs(ps), NUL)) == ps;
  }

  /** A parsed pair never contains a NUL. */
  lemma ParsedPairsAreNulFree(payload: seq<byte>)
    requires |payload| >= 4
    ensures forall p :: p in ParsePairs(payload) ==> NUL !in p.key && NUL !in p.value
  {
    SplitPartsFree(Params(payload), NUL);
  }

  // ---- The server's reader -----------------------------------------------

  /** How PostgreSQL reads the section: pairs until the first empty key, which must
      be the last byte of the packet. Anything else is an invalid layout. */
  function ServerRead(b: seq<byte>): Option<seq<Pair>>
    decreases |b|
  {
    match CString(b)
    case None => None
    case Some((key, rest)) =>
      if key == [] then (if rest == [] then Some([]) else None)
      else
        match CString(rest)
        case None => None
        case Some((value, more)) =>
          match ServerRead(more)
          case None => None
          case Some(ps) => Some([Pair(key, value)] + ps)
  }

  lemma ServerReadsOne(p: Pair, more: seq<byte>)
    requires IsPrintablePair(p)
    ensures ServerRead(PrintPair(p) + more) ==
            match ServerRead(more)
            case None => None
            case Some(ps) => Some([p] + ps)
  {
    var rest := p.value + [NUL] + more;
    CStringOf(p.value, more);
    CStringOf(p.key, rest);
    assert PrintPair(p) + more == p.key + [NUL] + rest;
  }

  lemma {:induction false} ServerReadsPrinted(ps: seq<Pair>)
    requires WellFormed(ps)
    ensures ServerRead(PrintPairs(ps) + [NUL]) == Some(ps)
  {
    if ps == [] {
      CStringOf([], []);
      assert PrintPairs(ps) + [NUL] == [] + [NUL] + [];
    } else {
      var more := PrintPairs(ps[1..]) + [NUL];
      assert IsPrintablePair(ps[0]);
      ServerReadsPrinted(ps[1..]);
      ServerReadsOne(ps[0], more);
      assert PrintPairs(ps) + [NUL] == PrintPair(ps[0]) + more;
      assert [ps[0]] + ps[1..] == ps;
    }
  }

  // ---- Rewriting ---------------------------------------------------------

  predicate IsAppName(p: Pair) {
    p.key == APPLICATION_NAME_KEY
  }

  function RewritePair(p: Pair, ip: string): Pair {
    if IsAppName(p) then Pair(p.key, Encode(FormatApplicationName(Decode(p.value), ip))) else p
  }

  /** The pairs with a key, each rewritten where it names the application. */
  function RewriteKept(ps: seq<Pair>, ip: string): seq<Pair> {
    if ps == [] then []
    else
      var last := ps[|ps| - 1];
      RewriteKept(ps[..|ps| - 1], ip) + (if last.key == [] then [] else [RewritePair(last, ip)])
  }

  predicate HasAppName(ps: seq<Pair>) {
    exists i :: 0 <= i < |ps| && IsAppName(ps[i])
  }

  function AddedPair(ip: string): Pair {
    Pair(APPLICATION_NAME_KEY, Encode(AddedApplicationName(ip)))
  }

  function Rewritten(ps: seq<Pair>, ip: string): seq<Pair> {
    RewriteKept(ps, ip) + (if HasAppName(ps) then [] else [AddedPair(ip)])
  }

  function Injected(payload: seq<byte>, ip: string): seq<byte> {
    if |payload| < 4 then payload
    else Print(payload[..4], Rewritten(ParsePairs(payload), ip))
  }

  /** The three keys the code compares decoded text with, compared as bytes. */
  lemma KeysAreBytes(b: seq<byte>)
    ensures Decode(b) == APPLICATION_NAME <==> b == APPLICATION_NAME_KEY
    ensures Decode(b) == USER <==> b == USER_KEY
    ensures Decode(b) == DATABASE <==> b == DATABASE_KEY
  {
    DecodesToKeyIff(b, APPLICATION_NAME, APPLICATION_NAME_KEY);
    DecodesToKeyIff(b, USER, USER_KEY);
    DecodesToKeyIff(b, DATABASE, DATABASE_KEY);
  }

  /** What one pair of the input comes to in the output. */
  function Rendered(p: Pair, ip: string): seq<byte> {
    if p.key == [] then [] else PrintPair(RewritePair(p, ip))
  }

  /** One more pair. */
  lemma RewriteStep(ps: seq<Pair>, k: nat, ip: string)
    requires k < |ps|
    ensures PrintPairs(RewriteKept(ps[..k + 1], ip)) == PrintPairs(RewriteKept(ps[..k], ip)) + Rendered(ps[k], ip)
    ensures HasAppName(ps[..k + 1]) <==> HasAppName(ps[..k]) || IsAppName(ps[k])
  {
    var init, next := ps[..k], ps[..k + 1];
    assert next[..k] == init && next[k] == ps[k];
    PrintSnoc(RewriteKept(init, ip), RewritePair(ps[k], ip));
    assert RewriteKept(init, ip) + [] == RewriteKept(init, ip);
    assert HasAppName(init) ==> HasAppName(next) by {
      assert forall i :: 0 <= i < k ==> next[i] == init[i];
    }
    assert forall i :: 0 <= i < k ==> next[i] == init[i];
  }

  lemma PrintRewritten(ps: seq<Pair>, ip: string)
    ensures PrintPairs(Rewritten(ps, ip))
         == if HasAppName(ps) then PrintPairs(RewriteKept(ps, ip))
            else PrintPairs(RewriteKept(ps, ip)) + PrintPair(AddedPair(ip))
  {
    if HasAppName(ps) {
      assert RewriteKept(ps, ip) + [] == RewriteKept(ps, ip);
    } else {
      PrintSnoc(RewriteKept(ps, ip), AddedPair(ip));
    }
  }

  lemma Appended(body: seq<byte>, p: Pair)
    ensures body + p.key + [NUL] + p.value + [NUL] == body + PrintPair(p)
  {
  }

  /** One key and its value, copied or rewritten. */
  method InjectPair(payload: seq<byte>, rawKey: seq<byte>, rawValue: seq<byte>, ip: string)
    returns (newPayload: seq<byte>, isAppName: bool)
    ensures var p := Pair(rawKey, rawValue);
      && newPayload == payload + Rendered(p, ip)
      && isAppName == IsAppName(p)
  {
    var key := Decode(rawKey);
    var val := Decode(rawValue);
    isAppName := false;
    newPayload := payload;
    KeysAreBytes(rawKey);
    if key == [] {
      return;
    }
    Appended(payload, RewritePair(Pair(rawKey, rawValue), ip));
    newPayload := newPayload + rawKey;
    newPayload := newPayload + [NUL];
    if key == APPLICATION_NAME {
      isAppName := true;
      newPayload := newPayload + Encode(FormatApplicationName(val, ip));
    } else {
      newPayload := newPayload + rawValue;
    }
    newPayload := newPayload + [NUL];
  }

  method AddAppName(payload: seq<byte>, ip: string) returns (newPayload: seq<byte>)
    ensures newPayload == payload + PrintPair(AddedPair(ip))
  {
    Appended(payload, AddedPair(ip));
    newPayload := payload + APPLICATION_NAME_KEY;
    newPayload := newPayload + [NUL];
    newPayload := newPayload + Encode(AddedApplicationName(ip));
    newPayload := newPayload + [NUL];
  }

  /** The rest of the walk over the parts: what it renders, whether it meets an
      application name. */
  function RenderFrom(parts: seq<seq<byte>>, i: nat, ip: string): seq<byte>
    decreases |parts| - i
  {
    if i + 1 >= |parts| then []
    else Rendered(Pair(parts[i], parts[i + 1]), ip) + RenderFrom(parts, i + 2, ip)
  }

  predicate FindsFrom(parts: seq<seq<byte>>, i: nat)
    decreases |parts| - i
  {
    i + 1 < |parts| && (IsAppName(Pair(parts[i], parts[i + 1])) || FindsFrom(parts, i + 2))
  }

  lemma OneMoreRendered(parts: seq<seq<byte>>, k: nat, ip: string)
    requires 2 * k + 1 < |parts|
    ensures k < |PairsOf(parts)|
    ensures RenderFrom(parts, 2 * k, ip) == Rendered(PairsOf(parts)[k], ip) + RenderFrom(parts, 2 * (k + 1), ip)
    ensures FindsFrom(parts, 2 * k) == (IsAppName(PairsOf(parts)[k]) || FindsFrom(parts, 2 * (k + 1)))
  {
    PairAt(parts, k);
    WalkStep(parts, 2 * k, ip);
  }

  lemma WalkStep(parts: seq<seq<byte>>, i: nat, ip: string)
    requires i + 1 < |parts|
    ensures RenderFrom(parts, i, ip) == Rendered(Pair(parts[i], parts[i + 1]), ip) + RenderFrom(parts, i + 2, ip)
    ensures FindsFrom(parts, i) == (IsAppName(Pair(parts[i], parts[i + 1])) || FindsFrom(parts, i + 2))
  {
  }

  lemma {:induction false} RenderedFrom(parts: seq<seq<byte>>, k: nat, ip: string)
    requires k <= |PairsOf(parts)|
    ensures var ps := PairsOf(parts);
      PrintPairs(RewriteKept(ps[..k], ip)) + RenderFrom(parts, 2 * k, ip) == PrintPairs(RewriteKept(ps, ip))
    decreases |PairsOf(parts)| - k
  {
    var ps := PairsOf(parts);
    if k == |ps| {
      assert ps[..k] == ps;
    } else {
      var done, more := PrintPairs(RewriteKept(ps[..k], ip)), RenderFrom(parts, 2 * (k + 1), ip);
      OneMoreRendered(parts, k, ip);
      RenderedFrom(parts, k + 1, ip);
      RewriteStep(ps, k, ip);
      Assoc(done, Rendered(ps[k], ip), more);
    }
  }

  lemma {:induction false} FoundFrom(parts: seq<seq<byte>>, k: nat, ip: string)
    requires k <= |PairsOf(parts)|
    ensures var ps := PairsOf(parts); (HasAppName(ps[..k]) || FindsFrom(parts, 2 * k)) == HasAppName(ps)
    decreases |PairsOf(parts)| - k
  {
    var ps := PairsOf(parts);
    if k == |ps| {
      assert ps[..k] == ps;
    } else {
      OneMoreRendered(parts, k, ip);
      FoundFrom(parts, k + 1, ip);
      RewriteStep(ps, k, ip);
    }
  }

  /** The whole walk. */
  lemma Walk(parts: seq<seq<byte>>, ip: string)
    ensures RenderFrom(parts, 0, ip) == PrintPairs(RewriteKept(PairsOf(parts), ip))
    ensures FindsFrom(parts, 0) == HasAppName(PairsOf(parts))
  {
    var none: seq<Pair> := [];
    assert PairsOf(parts)[..0] == none;
    assert PrintPairs(RewriteKept(none, ip)) == [] && !HasAppName(none);
    RenderedFrom(parts, 0, ip);
    FoundFrom(parts, 0, ip);
    assert [] + RenderFrom(parts, 0, ip) == RenderFrom(parts, 0, ip);
  }

  method InjectPairs(head: seq<byte>, parts: seq<seq<byte>>, ip: string) returns (newPayload: seq<byte>, foundAppName: bool)
    ensures newPayload == head + PrintPairs(RewriteKept(PairsOf(parts), ip))
    ensures foundAppName == HasAppName(PairsOf(parts))
  {
    newPayload := head;
    foundAppName := false;
    var i := 0;
    while i < |parts|
      invariant newPayload + RenderFrom(parts, i, ip) == head + RenderFrom(parts, 0, ip)
      invariant (foundAppName || FindsFrom(parts, i)) == FindsFrom(parts, 0)
    {
      if i + 1 >= |parts| {
        break;
      }
      Assoc(newPayload, Rendered(Pair(parts[i], parts[i + 1]), ip), RenderFrom(parts, i + 2, ip));
      var isAppName: bool;
      newPayload, isAppName := InjectPair(newPayload, parts[i], parts[i + 1], ip);
      foundAppName := foundAppName || isAppName;
      i := i + 2;
    }
    Walk(parts, ip);
  }

  method InjectIpStartup(payload: seq<byte>, ip: string) returns (newPayload: seq<byte>)
    ensures newPayload == Injected(payload, ip)
  {
    if |payload| < 4 {
      return payload;
    }
    var parts := SplitOn(Params(payload), NUL);
    ghost var ps := PairsOf(parts);
    var foundAppName: bool;
    newPayload, foundAppName := InjectPairs(payload[..4], parts, ip);
    PrintRewritten(ps, ip);
    if !foundAppName {
      Assoc(payload[..4], PrintPairs(RewriteKept(ps, ip)), PrintPair(AddedPair(ip)));
      newPayload := AddAppName(newPayload, ip);
    }
    newPayload := newPayload + [NUL];
  }

  lemma {:induction false} RewriteKeptIsWellFormed(ps: seq<Pair>, ip: string)
    requires forall p :: p in ps ==> NUL !in p.key && NUL !in p.value
    requires NUL as char !in ip
    ensures WellFormed(RewriteKept(ps, ip))
  {
    if ps != [] {
      RewriteKeptIsWellFormed(ps[..|ps| - 1], ip);
      var last := ps[|ps| - 1];
      assert last in ps;
      DecodeKeepsAsciiBytes(last.value, NUL);
      FormatIsNulFree(Decode(last.value), ip);
    }
  }

  lemma RewrittenIsWellFormed(payload: seq<byte>, ip: string)
    requires |payload| >= 4 && NUL as char !in ip
    ensures WellFormed(Rewritten(ParsePairs(payload), ip))
  {
    ParsedPairsAreNulFree(payload);
    RewriteKeptIsWellFormed(ParsePairs(payload), ip);
    FormatIsNulFree("", ip);
    assert IsPrintablePair(AddedPair(ip));
  }

  /** However malformed the input: the version is kept, and both the proxy's lenient
      parser and the server's strict one read exactly the rewritten pairs back. */
  lemma RewriteIsReadBack(payload: seq<byte>, ip: string)
    requires |payload| >= 4 && NUL as char !in ip
    ensures var out, ps := Injected(payload, ip), Rewritten(ParsePairs(payload), ip);
      && out[..4] == payload[..4]
      && WellFormed(ps)
      && ParsePairs(out) == ps
      && ServerRead(out[4..]) == Some(ps)
  {
    var ps := Rewritten(ParsePairs(payload), ip);
    RewrittenIsWellFormed(payload, ip);
    PrintedSlices(payload[..4], ps);
    ParseOfPrint(payload[..4], ps);
    ServerReadsPrinted(ps);
  }

  /** The pairs that have a key. */
  function Keyed(ps: seq<Pair>): seq<Pair> {
    if ps == [] then []
    else Keyed(ps[..|ps| - 1]) + (if ps[|ps| - 1].key == [] then [] else [ps[|ps| - 1]])
  }

  /** One pair out for each pair in that has a key, in order; only application names change. */
  lemma {:induction false} KeptPairsCorrespond(ps: seq<Pair>, ip: string)
    ensures var ks, rs := Keyed(ps), RewriteKept(ps, ip);
      && |rs| == |ks|
      && (forall i :: 0 <= i < |ks| ==>
            if IsAppName(ks[i])
            then rs[i] == Pair(ks[i].key, Encode(FormatApplicationName(Decode(ks[i].value), ip)))
            else rs[i] == ks[i])
      && (HasAppName(ps) <==> HasAppName(rs))
  {
    if ps != [] {
      var init, last := ps[..|ps| - 1], ps[|ps| - 1];
      KeptPairsCorrespond(init, ip);
      assert ps == init + [last];
      assert HasAppName(ps) <==> HasAppName(init) || IsAppName(last) by {
        assert IsAppName(last) ==> IsAppName(ps[|ps| - 1]);
        assert forall i :: 0 <= i < |init| ==> ps[i] == init[i];
      }
      var rs, rinit := RewriteKept(ps, ip), RewriteKept(init, ip);
      assert last.key != [] ==> rs[|rs| - 1] == RewritePair(last, ip);
      assert forall i :: 0 <= i < |rinit| ==> rs[i] == rinit[i];
    }
  }

  /** Exactly one pair is appended when no application name was present, none otherwise. */
  lemma RewrittenShape(ps: seq<Pair>, ip: string)
    ensures HasAppName(Rewritten(ps, ip))
    ensures HasAppName(ps) ==> |Rewritten(ps, ip)| == |Keyed(ps)|
    ensures !HasAppName(ps) ==> Rewritten(ps, ip) == Keyed(ps) + [AddedPair(ip)]
  {
    KeptPairsCorrespond(ps, ip);
    if HasAppName(ps) {
      assert Rewritten(ps, ip) == RewriteKept(ps, ip);
    } else {
      assert RewriteKept(ps, ip) == Keyed(ps) by {
        assert forall i :: 0 <= i < |Keyed(ps)| ==> !IsAppName(RewriteKept(ps, ip)[i]);
      }
      assert IsAppName(Rewritten(ps, ip)[|Keyed(ps)|]);
    }
  }

  predicate EndsWith(s: seq<byte>, suffix: seq<byte>) {
    |suffix| <= |s| && s[|s| - |suffix|..] == suffix
  }

  lemma EndsWithItsTail(a: seq<byte>, b: seq<byte>, tail: seq<byte>)
    ensures EndsWith(a + (b + tail), tail)
  {
    assert a + (b + tail) == (a + b) + tail;
  }

  lemma SpacedAddress(ip: string)
    requires ParseIp(ip).Some?
    ensures Encode(Suffix(ip)) == Encode(" -") + Encode(" " + ip)
    ensures Escape(Encode(" " + ip)) == Encode(" " + ip)
    ensures |Encode(" " + ip)| <= NAMEDATALEN_LIMIT
  {
    SuffixIsPrintable(ip);
    LiteralShape(ip);
    var t := " " + ip;
    assert Suffix(ip) == " -" + t;
    EncodeAppend(" -", t);
    forall i | 0 <= i < |t| ensures 0x20 <= t[i] as int < 0x7F {
      assert i >= 1 ==> t[i] == ip[i - 1] && IsAddressChar(ip[i - 1]);
    }
    EncodeAscii(t);
    EscapePrintable(Encode(t));
  }

  lemma FormattedEndsInTheAddress(name: string, ip: string)
    requires ParseIp(ip).Some?
    ensures var v := Encode(FormatApplicationName(name, ip));
      Stored(v) == Escape(v) && EndsWith(Stored(v), Encode(" " + ip))
  {
    AddressSurvivesStorage(name, ip);
    SpacedAddress(ip);
    var kept := Kept(name, NAMEDATALEN_LIMIT - |Encode(Suffix(ip))|);
    EndsWithItsTail(Escape(Encode(kept)), Encode(" -"), Encode(" " + ip));
  }

  /** For an address that parses, every application name the server reads is stored
      uncut and ends in a space and the address. */
  lemma EveryStoredNameEndsInTheAddress(ps: seq<Pair>, ip: string, i: nat)
    requires ParseIp(ip).Some?
    requires i < |Rewritten(ps, ip)| && IsAppName(Rewritten(ps, ip)[i])
    ensures var v := Rewritten(ps, ip)[i].value;
      Stored(v) == Escape(v) && EndsWith(Stored(v), Encode(" " + ip))
  {
    KeptPairsCorrespond(ps, ip);
    if i < |Keyed(ps)| {
      FormattedEndsInTheAddress(Decode(Keyed(ps)[i].value), ip);
    } else {
      AddedNameHasLeadingSpace(ip);
      SpacedAddress(ip);
    }
  }

  // ---- Length ------------------------------------------------------------

  /** How many of the pairs name the application. */
  function AppNames(ps: seq<Pair>): nat {
    if ps == [] then 0 else AppNames(ps[..|ps| - 1]) + if IsAppName(ps[|ps| - 1]) then 1 else 0
  }

  lemma {:induction false} RewriteGrowth(ps: seq<Pair>, ip: string)
    ensures |PrintPairs(RewriteKept(ps, ip))| <= |PrintPairs(ps)| + NAMEDATALEN_LIMIT * AppNames(ps)
    ensures 18 * AppNames(ps) <= |PrintPairs(ps)|
  {
    if ps != [] {
      var init, last := ps[..|ps| - 1], ps[|ps| - 1];
      RewriteGrowth(init, ip);
      assert ps == init + [last];
      PrintSnoc(init, last);
      PrintSnoc(RewriteKept(init, ip), RewritePair(last, ip));
      FormatByteBound(Decode(last.value), ip);
      if last.key == [] {
        assert RewriteKept(init, ip) + [] == RewriteKept(init, ip);
      }
    }
  }

  /** Printing the parsed pairs takes no more room than the parts they came from. */
  lemma {:induction false} PrintPairsOfParts(parts: seq<seq<byte>>)
    ensures |PrintPairs(PairsOf(parts))| <= Extent(parts)
    decreases |parts|
  {
    if |parts| >= 2 {
      PrintPairsOfParts(parts[2..]);
      var p := Pair(parts[0], parts[1]);
      assert PairsOf(parts) == [p] + PairsOf(parts[2..]);
      assert Extent(parts) == |parts[0]| + 1 + |parts[1]| + 1 + Extent(parts[2..]) by {
        assert parts[1..][1..] == parts[2..];
      }
    } else {
      assert PairsOf(parts) == [];
    }
  }

  /** Growth is linear in the number of application names, each of which already
      took eighteen bytes of the input. */
  lemma InjectedLength(payload: seq<byte>, ip: string)
    requires |payload| >= 4
    ensures var n := AppNames(ParsePairs(payload));
      && |Injected(payload, ip)| <= |payload| + NAMEDATALEN_LIMIT * n + 83
      && 18 * n <= |payload|
  {
    var parts := SplitOn(Params(payload), NUL);
    var ps := ParsePairs(payload);
    SplitExtent(Params(payload), NUL);
    PrintPairsOfParts(parts);
    RewriteGrowth(ps, ip);
    PrintSnoc(RewriteKept(ps, ip), AddedPair(ip));
    FormatByteBound("", ip);
    TrimShortens(FormatApplicationName("", ip), " -");
    if HasAppName(ps) {
      assert RewriteKept(ps, ip) + [] == RewriteKept(ps, ip);
    }
  }

  /** A startup-phase message: `(len + 4) as u32`, then the payload. */
  function Framed(payload: seq<byte>): seq<byte> {
    ToBe32((|payload| + 4) % WORD) + payload
  }

  lemma FramedLength(out: seq<byte>)
    requires |out| + 4 < WORD
    ensures Be32(Framed(out)[..4]) == |Framed(out)| == |out| + 4
  {
    assert Framed(out)[..4] == ToBe32((|out| + 4) % WORD);
  }

  /** The rewritten packet announces its true size. */
  lemma RewrittenLengthNeverWraps(payload: seq<byte>, ip: string)
    requires 4 <= |payload| <= 9996
    ensures Be32(Framed(Injected(payload, ip))[..4]) == |Framed(Injected(payload, ip))|
  {
    InjectedLength(payload, ip);
    FramedLength(Injected(payload, ip));
  }

  // ---- User and database -------------------------------------------------

  /** The value of the last pair with this key. */
  function LastValue(ps: seq<Pair>, key: seq<byte>): Option<seq<byte>> {
    if ps == [] then None
    else if ps[|ps| - 1].key == key then Some(ps[|ps| - 1].value)
    else LastValue(ps[..|ps| - 1], key)
  }

  function DecodedLast(ps: seq<Pair>, key: seq<byte>): string {
    match LastValue(ps, key)
    case Some(v) => Decode(v)
    case None => ""
  }

  /** What Guardian is told: an empty or absent database is the user's name. */
  function UserDb(payload: seq<byte>): (string, string) {
    if |payload| < 4 then ("", "")
    else
      var ps := ParsePairs(payload);
      var user, db := DecodedLast(ps, USER_KEY), DecodedLast(ps, DATABASE_KEY);
      (user, if db == "" then user else db)
  }

  lemma LastValueStep(ps: seq<Pair>, k: nat, key: seq<byte>)
    requires k < |ps|
    ensures LastValue(ps[..k + 1], key) == if ps[k].key == key then Some(ps[k].value) else LastValue(ps[..k], key)
  {
    assert ps[..k + 1][k] == ps[k] && ps[..k + 1][..k] == ps[..k];
  }

  /** One more pair, compared as the code compares it. */
  lemma DecodedLastStep(ps: seq<Pair>, k: nat)
    requires k < |ps|
    ensures var key, val := Decode(ps[k].key), Decode(ps[k].value);
      && DecodedLast(ps[..k + 1], USER_KEY) == (if key == USER then val else DecodedLast(ps[..k], USER_KEY))
      && DecodedLast(ps[..k + 1], DATABASE_KEY) == (if key == DATABASE then val else DecodedLast(ps[..k], DATABASE_KEY))
  {
    KeysAreBytes(ps[k].key);
    LastValueStep(ps, k, USER_KEY);
    LastValueStep(ps, k, DATABASE_KEY);
  }

  /** One key and its value, taken if it is one of the two wanted. */
  method TakePair(user: string, db: string, rawKey: seq<byte>, rawValue: seq<byte>) returns (user': string, db': string)
    ensures user' == if Decode(rawKey) == USER then Decode(rawValue) else user
    ensures db' == if Decode(rawKey) == DATABASE then Decode(rawValue) else db
  {
    user', db' := user, db;
    var key := Decode(rawKey);
    var val := Decode(rawValue);
    if key == USER {
      user' := val;
    } else if key == DATABASE {
      db' := val;
    }
  }

  /** The rest of the walk over the parts, with what it has taken so far. */
  function TakeFrom(parts: seq<seq<byte>>, i: nat, user: string, db: string): (string, string)
    decreases |parts| - i
  {
    if i + 1 >= |parts| then (user, db)
    else
      var key, val := Decode(parts[i]), Decode(parts[i + 1]);
      TakeFrom(parts, i + 2, if key == USER then val else user, if key == DATABASE then val else db)
  }

  lemma OneMoreTaken(parts: seq<seq<byte>>, k: nat, user: string, db: string)
    requires 2 * k + 1 < |parts|
    ensures k < |PairsOf(parts)|
    ensures var key, val := Decode(PairsOf(parts)[k].key), Decode(PairsOf(parts)[k].value);
      TakeFrom(parts, 2 * k, user, db)
        == TakeFrom(parts, 2 * (k + 1), if key == USER then val else user, if key == DATABASE then val else db)
  {
    PairAt(parts, k);
  }

  lemma {:induction false} TakenFrom(parts: seq<seq<byte>>, k: nat)
    requires k <= |PairsOf(parts)|
    ensures var ps := PairsOf(parts);
      TakeFrom(parts, 2 * k, DecodedLast(ps[..k], USER_KEY), DecodedLast(ps[..k], DATABASE_KEY))
        == (DecodedLast(ps, USER_KEY), DecodedLast(ps, DATABASE_KEY))
    decreases |parts| - k
  {
    var ps := PairsOf(parts);
    if k == |ps| {
      assert ps[..k] == ps;
    } else {
      OneMoreTaken(parts, k, DecodedLast(ps[..k], USER_KEY), DecodedLast(ps[..k], DATABASE_KEY));
      DecodedLastStep(ps, k);
      TakenFrom(parts, k + 1);
    }
  }

  method ExtractUserDb(payload: seq<byte>) returns (user: string, db: string)
    ensures (user, db) == UserDb(payload)
  {
    user, db := "", "";
    if |payload| < 4 {
      return;
    }
    var parts := SplitOn(Params(payload), NUL);
    var i := 0;
    while i < |parts|
      invariant TakeFrom(parts, i, user, db) == TakeFrom(parts, 0, "", "")
    {
      if i + 1 >= |parts| {
        break;
      }
      user, db := TakePair(user, db, parts[i], parts[i + 1]);
      i := i + 2;
    }
    TakenFrom(parts, 0);
    assert PairsOf(parts)[..0] == [];
    if db == [] {
      db := user;
    }
  }

  /** The server's own view of a pair list: last duplicate wins, and an absent or
      empty database is the user's. */
  function ServerUser(ps: seq<Pair>): seq<byte> {
    match LastValue(ps, USER_KEY)
    case Some(v) => v
    case None => []
  }

  function ServerDatabase(ps: seq<Pair>): seq<byte> {
    match LastValue(ps, DATABASE_KEY)
    case Some(v) => if v == [] then ServerUser(ps) else v
    case None => ServerUser(ps)
  }

  lemma {:induction false} RewriteKeepsLastValue(ps: seq<Pair>, ip: string, key: seq<byte>)
    requires key != [] && key != APPLICATION_NAME_KEY
    ensures LastValue(RewriteKept(ps, ip), key) == LastValue(ps, key)
  {
    if ps != [] {
      var init, last := ps[..|ps| - 1], ps[|ps| - 1];
      RewriteKeepsLastValue(init, ip, key);
      var rs := RewriteKept(init, ip);
      if last.key != [] {
        assert (rs + [RewritePair(last, ip)])[..|rs|] == rs;
      } else {
        assert rs + [] == rs;
      }
    }
  }

  lemma RewrittenKeepsLastValue(ps: seq<Pair>, ip: string, key: seq<byte>)
    requires key != [] && key != APPLICATION_NAME_KEY
    ensures LastValue(Rewritten(ps, ip), key) == LastValue(ps, key)
  {
    RewriteKeepsLastValue(ps, ip, key);
    var rs := RewriteKept(ps, ip);
    assert (rs + [AddedPair(ip)])[..|rs|] == rs;
    assert rs + [] == rs;
  }

  /** Rewriting changes neither. */
  lemma RewrittenKeepsUserDb(ps: seq<Pair>, ip: string)
    ensures var rs := Rewritten(ps, ip);
      && LastValue(rs, USER_KEY) == LastValue(ps, USER_KEY)
      && LastValue(rs, DATABASE_KEY) == LastValue(ps, DATABASE_KEY)
  {
    assert |APPLICATION_NAME_KEY| == 16 && |USER_KEY| == 4 && |DATABASE_KEY| == 8;
    RewrittenKeepsLastValue(ps, ip, USER_KEY);
    RewrittenKeepsLastValue(ps, ip, DATABASE_KEY);
  }

  lemma ServerSeesUserDb(ps: seq<Pair>)
    ensures Decode(ServerUser(ps)) == DecodedLast(ps, USER_KEY)
    ensures Decode(ServerDatabase(ps))
         == if DecodedLast(ps, DATABASE_KEY) == "" then DecodedLast(ps, USER_KEY) else DecodedLast(ps, DATABASE_KEY)
  {
  }

  /** Guardian judges the user and database the server will read: extraction gives the
      same answer before and after rewriting, and it is the server's answer as text. */
  lemma GuardianJudgesWhatTheServerReads(payload: seq<byte>, ip: string)
    requires |payload| >= 4 && NUL as char !in ip
    ensures var out := Injected(payload, ip);
      && UserDb(out) == UserDb(payload)
      && ServerRead(out[4..]).Some?
      && var ps := ServerRead(out[4..]).value;
         UserDb(payload) == (Decode(ServerUser(ps)), Decode(ServerDatabase(ps)))
  {
    RewriteIsReadBack(payload, ip);
    RewrittenKeepsUserDb(ParsePairs(payload), ip);
    ServerSeesUserDb(Rewritten(ParsePairs(payload), ip));
  }
}
