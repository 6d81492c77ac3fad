/** The PROXY v1 header (section 2.1 of the HAProxy PROXY protocol specification).
    Models `read_proxy_v1_header` of proxy.rs. */
module ProxyHeader {
  import opened Bytes
  import opened Utf8
  import opened Text
  import opened Wire

  const LF: byte := 0x0A
  const MAX_PROXY_V1_HEADER_LEN := 108

  datatype HeaderResult = Address(ip: string) | Malformed | Lost

  /** How many bytes the reader takes: through the first line feed, or up to the limit. */
  function HeaderExtent(s: seq<byte>): (n: nat)
    ensures n <= |s| && n <= MAX_PROXY_V1_HEADER_LEN
    ensures LF !in s[..if n > 0 then n - 1 else 0]
  {
    ExtentFrom(s, 0)
  }

  function ExtentFrom(s: seq<byte>, k: nat): (n: nat)
    requires k <= |s| && k <= MAX_PROXY_V1_HEADER_LEN && LF !in s[..k]
    ensures k <= n <= |s| && n <= MAX_PROXY_V1_HEADER_LEN
    ensures LF !in s[..if n > 0 then n - 1 else 0]
    ensures n < |s| && n < MAX_PROXY_V1_HEADER_LEN ==> n > k && s[n - 1] == LF
    decreases |s| - k
  {
    if k == |s| || k == MAX_PROXY_V1_HEADER_LEN then
      assert k > 0 ==> s[..k - 1] <= s[..k];
      k
    else if s[k] == LF then k + 1
    else
      assert s[..k + 1] == s[..k] + [s[k]];
      ExtentFrom(s, k + 1)
  }

  /** The address is the third space-separated field of a line that starts with PROXY. */
  function AddressOf(line: seq<byte>): HeaderResult {
    var text := Decode(line);
    if !(PROXY <= text) then Malformed
    else
      var fields := SplitOn(Trim(text), ' ');
      if |fields| <= 2 || fields[2] == [] then Malformed else Address(fields[2])
  }

  const PROXY := "PROXY"

  /** The result for a stream `s`. */
  function HeaderOf(s: seq<byte>): HeaderResult {
    var n := HeaderExtent(s);
    if n > 0 && s[n - 1] == LF then AddressOf(s[..n])
    else if n == MAX_PROXY_V1_HEADER_LEN then Malformed
    else Lost
  }

  lemma OneMore(a: seq<byte>, k: nat)
    requires k < |a|
    ensures a[..k + 1] == a[..k] + [a[k]] && a[k..][..1] == [a[k]]
  {
  }

  /** `read_u8`, at position `k` of the stream `s`. */
  method ReadByte(reader: BufReader, ghost s: Src, ghost k: nat) returns (b: Option<byte>)
    requires k <= |All(s)| && reader.State() == Drop(s, k)
    modifies reader
    ensures b.Some? <==> k < |All(s)|
    ensures b.Some? ==> b.value == All(s)[k] && reader.State() == Drop(s, k + 1)
  {
    var next := reader.ReadExact(1);
    if next.None? {
      return None;
    }
    DropTwice(s, k, 1);
    OneMore(All(s), k);
    return Some(next.value[0]);
  }

  method ReadProxyHeader(reader: BufReader) returns (r: HeaderResult)
    modifies reader
    ensures var s := old(reader.State());
      && r == HeaderOf(All(s))
      && (!r.Lost? ==> reader.State() == Drop(s, HeaderExtent(All(s))))
  {
    ghost var s := reader.State();
    ghost var a := All(s);
    var header: seq<byte> := [];
    assert a[..0] == [];
    while true
      invariant |header| <= |a| && |header| < MAX_PROXY_V1_HEADER_LEN
      invariant header == a[..|header|] && LF !in header
      invariant reader.State() == Drop(s, |header|)
      invariant HeaderExtent(a) == ExtentFrom(a, |header|)
      decreases MAX_PROXY_V1_HEADER_LEN - |header|
    {
      var next := ReadByte(reader, s, |header|);
      if next.None? {
        return Lost;
      }
      OneMore(a, |header|);
      var b := next.value;
      header := header + [b];
      if b == LF {
        break;
      }
      if |header| >= MAX_PROXY_V1_HEADER_LEN {
        return Malformed;
      }
    }
    r := AddressOf(header);
  }

  // ---- Printing and reading ----------------------------------------------

  lemma {:induction false} ExtentOfLine(a: seq<byte>, more: seq<byte>, k: nat)
    requires LF !in a && |a| < MAX_PROXY_V1_HEADER_LEN && k <= |a|
    ensures LF !in (a + [LF] + more)[..k]
    ensures ExtentFrom(a + [LF] + more, k) == |a| + 1
    decreases |a| - k
  {
    var s := a + [LF] + more;
    assert s[..k] == a[..k];
    if k < |a| {
      assert s[k] == a[k];
      ExtentOfLine(a, more, k + 1);
    }
  }

  lemma FirstField(field: string, tail: string)
    requires ' ' !in field && (tail == [] || tail[0] == ' ')
    ensures SplitOn(field + tail, ' ')[0] == field
  {
    if tail == [] {
      assert field + tail == field;
      SplitWhole(field, ' ');
    } else {
      assert field + tail == field + [' '] + tail[1..];
      SplitAtSeparator(field, ' ', tail[1..]);
    }
  }

  lemma NextField(field: string, rest: string, i: nat)
    requires ' ' !in field && i < |SplitOn(rest, ' ')|
    ensures i + 1 < |SplitOn(field + [' '] + rest, ' ')|
    ensures SplitOn(field + [' '] + rest, ' ')[i + 1] == SplitOn(rest, ' ')[i]
  {
    SplitAtSeparator(field, ' ', rest);
  }

  /** The third field of a line, whatever follows it. */
  lemma ThirdField(first: string, second: string, third: string, tail: string)
    requires ' ' !in first && ' ' !in second && ' ' !in third && (tail == [] || tail[0] == ' ')
    ensures var fields := SplitOn(first + [' '] + (second + [' '] + (third + tail)), ' ');
      |fields| > 2 && fields[2] == third
  {
    FirstField(third, tail);
    NextField(second, third + tail, 0);
    NextField(first, second + [' '] + (third + tail), 1);
  }

  predicate IsField(s: string) {
    s != [] && forall i :: 0 <= i < |s| ==> !IsWhitespace(s[i])
  }

  /** The first three fields as printed. */
  function Head(proto: string, source: string): string {
    PROXY + [' '] + (proto + [' '] + source)
  }

  /** Trimming a printed line leaves its first three fields whole. */
  lemma TrimmedLine(proto: string, source: string, rest: string) returns (tail: string)
    requires IsField(source) && (rest == [] || rest[0] == ' ')
    ensures tail == [] || tail[0] == ' '
    ensures Trim(Head(proto, source) + rest + "\r\n") == Head(proto, source) + tail
  {
    var head := Head(proto, source);
    var line := head + rest + "\r\n";
    assert line[0] == 'P';
    assert TrimStart(line) == line;
    assert head[|head| - 1] == source[|source| - 1];
    assert line[|head| - 1] == head[|head| - 1];
    if rest == [] {
      assert line == head + "\r\n";
      TrimEndDrops(head, "\r\n");
      tail := [];
      assert Trim(line) == head + tail;
    } else {
      TrimEndKeeps(line, |head|);
      var t := TrimEnd(line);
      assert t[..|head|] == head;
      tail := t[|head|..];
      assert t == head + tail;
      assert tail != [] ==> tail[0] == line[|head|] == ' ';
    }
  }

  lemma HeadFields(first: string, second: string, third: string, tail: string)
    ensures first + [' '] + (second + [' '] + third) + tail == first + [' '] + (second + [' '] + (third + tail))
  {
  }

  lemma PrintedAddress(proto: string, source: string, rest: string)
    requires ' ' !in proto && IsField(source) && (rest == [] || rest[0] == ' ')
    ensures AddressOf(Encode(Head(proto, source) + rest + "\r\n")) == Address(source)
  {
    var text := Head(proto, source) + rest + "\r\n";
    RoundTrip(text);
    var tail := TrimmedLine(proto, source, rest);
    SourceIsThird(proto, source, tail);
    assert PROXY <= text;
  }

  lemma SourceIsThird(proto: string, source: string, tail: string)
    requires ' ' !in proto && IsField(source) && (tail == [] || tail[0] == ' ')
    ensures var fields := SplitOn(Head(proto, source) + tail, ' '); |fields| > 2 && fields[2] == source
  {
    assert ' ' !in source by {
      assert forall i :: 0 <= i < |source| ==> source[i] != ' ';
    }
    assert ' ' !in PROXY;
    ThirdField(PROXY, proto, source, tail);
    HeadFields(PROXY, proto, source, tail);
  }

  lemma PrintedExtent(body: string, more: seq<byte>)
    requires '\n' !in body && |Encode(body + "\n")| <= MAX_PROXY_V1_HEADER_LEN
    ensures var line := Encode(body + "\n");
      && HeaderExtent(line + more) == |line| > 0
      && (line + more)[..|line|] == line && line[|line| - 1] == LF
  {
    var a := Encode(body);
    EncodeAppend(body, "\n");
    assert Encode("\n") == [LF];
    EncodeKeepsAsciiBytes(body, LF);
    ExtentOfLine(a, more, 0);
  }

  /** A version 1 header line: the protocol, the source, and whatever follows it. */
  function PrintHeader(proto: string, source: string, rest: string): seq<byte> {
    Encode(Head(proto, source) + rest + "\r\n")
  }

  predicate IsPrintable(proto: string, source: string, rest: string) {
    && ' ' !in proto && '\n' !in proto && IsField(source)
    && (rest == [] || rest[0] == ' ') && '\n' !in rest
    && |PrintHeader(proto, source, rest)| <= MAX_PROXY_V1_HEADER_LEN
  }

  /** Reading undoes printing: from every printed header within the limit the reader
      returns the source, and takes exactly the header. */
  lemma PrintedHeaderIsRead(proto: string, source: string, rest: string, more: seq<byte>)
    requires IsPrintable(proto, source, rest)
    ensures var line := PrintHeader(proto, source, rest);
      HeaderOf(line + more) == Address(source) && HeaderExtent(line + more) == |line|
  {
    PrintedAddress(proto, source, rest);
    var body := Head(proto, source) + rest + "\r";
    assert Head(proto, source) + rest + "\r\n" == body + "\n";
    assert '\n' !in body by {
      assert forall i :: 0 <= i < |source| ==> source[i] != '\n';
      assert '\n' !in PROXY && '\n' !in source;
    }
    PrintedExtent(body, more);
  }

  lemma HeaderIsNotEmpty(proto: string, source: string, rest: string)
    ensures PrintHeader(proto, source, rest) != []
  {
    var text := Head(proto, source) + rest + "\r\n";
    assert text[0] == 'P';
    assert EncodeChar(text[0]) != [];
  }

  /** The bytes of PROXY. */
  lemma StartsWithProxyIff(line: seq<byte>)
    ensures PROXY <= Decode(line) <==> [0x50, 0x52, 0x4F, 0x58, 0x59] <= line
  {
    AsciiPrefixIff(line, PROXY);
    EncodeAscii(PROXY);
    assert Encode(PROXY) == [0x50, 0x52, 0x4F, 0x58, 0x59];
  }

  lemma {:induction false} AsciiPrefixIff(b: seq<byte>, key: string)
    requires IsAscii(key)
    ensures key <= Decode(b) <==> Encode(key) <= b
    decreases |key|
  {
    if key != [] && b != [] {
      var (c, n) := DecodeFirst(b);
      var rest := Decode(b[n..]);
      assert Decode(b) == [c] + rest;
      AsciiPrefixIff(b[n..], key[1..]);
      EncodeStep(key);
      assert EncodeChar(key[0]) == [key[0] as int as byte];
      assert key <= [c] + rest <==> c == key[0] && key[1..] <= rest;
      assert Encode(key) <= b <==> b[0] == key[0] as int as byte && Encode(key[1..]) <= b[1..];
    } else if key != [] {
      EncodeStep(key);
    }
  }

  /** The text is two fields, the address, and nothing or a space and what it will. */
  ghost predicate IsThirdField(text: string, ip: string) {
    && ip != [] && ' ' !in ip
    && exists first, second, tail ::
         && ' ' !in first && ' ' !in second && (tail == [] || tail[0] == ' ')
         && text == first + " " + (second + " " + (ip + tail))
  }

  /** A line is accepted, with an address, exactly when its first five bytes are PROXY
      and the address is the third field of its text, trimmed, and not empty. */
  lemma AddressIff(line: seq<byte>, ip: string)
    ensures AddressOf(line) == Address(ip) <==>
      [0x50, 0x52, 0x4F, 0x58, 0x59] <= line && IsThirdField(Trim(Decode(line)), ip)
    ensures !AddressOf(line).Lost?
  {
    StartsWithProxyIff(line);
    ThirdFieldIff(Trim(Decode(line)), ip);
  }

  lemma ThirdFieldIff(text: string, ip: string)
    ensures IsThirdField(text, ip) <==> ip != [] && |SplitOn(text, ' ')| > 2 && SplitOn(text, ' ')[2] == ip
  {
    var fields := SplitOn(text, ' ');
    if IsThirdField(text, ip) {
      var first, second, tail :|
        && ' ' !in first && ' ' !in second && (tail == [] || tail[0] == ' ')
        && text == first + " " + (second + " " + (ip + tail));
      ThirdField(first, second, ip, tail);
    }
    if ip != [] && |fields| > 2 && fields[2] == ip {
      var first, rest := CutField(text);
      var second, more := CutField(rest);
      var third, tail := LastCut(more);
      assert third == ip;
    }
  }

  /** A text with a space is a field, a space and the rest. */
  lemma CutField(text: string) returns (field: string, rest: string)
    requires |SplitOn(text, ' ')| > 1
    ensures ' ' !in field && text == field + " " + rest && field == SplitOn(text, ' ')[0]
    ensures SplitOn(rest, ' ') == SplitOn(text, ' ')[1..]
  {
    SplitFirst(text, ' ');
    field := SplitOn(text, ' ')[0];
    rest := text[|field| + 1..];
  }

  lemma LastCut(text: string) returns (field: string, tail: string)
    ensures ' ' !in field && text == field + tail && field == SplitOn(text, ' ')[0]
    ensures tail == [] || tail[0] == ' '
  {
    SplitFirst(text, ' ');
    field := SplitOn(text, ' ')[0];
    tail := text[|field|..];
  }

  /** The result for every stream: the line through the first line feed, if that is among
      the first 108 bytes; otherwise malformed, or lost if the stream is shorter. */
  lemma HeaderByBytes(s: seq<byte>)
    ensures var i := IndexOf(s, 0x0A);
      HeaderOf(s) ==
        if i < |s| && i < 108 then AddressOf(s[..i + 1]) else if |s| < 108 then Lost else Malformed
  {
    var n := HeaderExtent(s);
    FirstFeed(s, n);
    if n > 0 && s[n - 1] == LF {
      assert s[..IndexOf(s, LF) + 1] == s[..n];
    }
  }

  lemma FirstFeed(s: seq<byte>, n: nat)
    requires n <= |s| && LF !in s[..if n > 0 then n - 1 else 0]
    ensures if n > 0 && s[n - 1] == LF then IndexOf(s, LF) == n - 1 else IndexOf(s, LF) >= n
  {
    var i := IndexOf(s, LF);
    assert n > 0 && n - 1 < i ==> s[n - 1] == s[..i][n - 1];
  }

  /** A version 2 signature is refused after its first two bytes. */
  lemma Version2IsRefused(more: seq<byte>)
    ensures var s := [0x0D, 0x0A, 0x0D, 0x0A, 0x00, 0x0D, 0x0A, 0x51, 0x55, 0x49, 0x54, 0x0A] + more;
      HeaderOf(s) == Malformed && HeaderExtent(s) == 2
  {
    var tail: seq<byte> := [0x0D, 0x0A, 0x00, 0x0D, 0x0A, 0x51, 0x55, 0x49, 0x54, 0x0A] + more;
    var s: seq<byte> := [0x0D, 0x0A, 0x0D, 0x0A, 0x00, 0x0D, 0x0A, 0x51, 0x55, 0x49, 0x54, 0x0A] + more;
    assert s == [0x0D] + [LF] + tail;
    ExtentOfLine([0x0D], tail, 0);
    assert s[..2] == [0x0D, LF];
    assert Decode(s[..2])[0] == 0x0D as char;
    assert !(PROXY <= Decode(s[..2]));
  }
}
