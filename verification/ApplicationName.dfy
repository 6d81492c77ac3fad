/** The value the proxy gives `application_name`, and what PostgreSQL stores of it.
    Models `stored_len` through `format_application_name` of protocol.rs. */
module ApplicationName {
  import opened Bytes
  import opened Utf8
  import opened Text
  import opened Address

  /** NAMEDATALEN less its terminator: the characters PostgreSQL keeps. */
  const NAMEDATALEN_LIMIT := 63

  predicate IsPrintable(b: byte) {
    0x20 <= b < 0x7F
  }

  function StoredLen(b: byte): nat {
    if IsPrintable(b) then 1 else 4
  }

  function StoredLenOf(bytes: seq<byte>): nat {
    if bytes == [] then 0 else StoredLen(bytes[0]) + StoredLenOf(bytes[1..])
  }

  // ---- The server's side -------------------------------------------------

  function HexDigit(n: nat): byte
    requires n < 16
  {
    if n < 10 then (0x30 + n) as byte else (0x57 + n) as byte
  }

  /** `pg_clean_ascii`: every byte outside printable ASCII becomes `\xNN`. */
  function Escape(bytes: seq<byte>): seq<byte> {
    if bytes == [] then [] else EscapeByte(bytes[0]) + Escape(bytes[1..])
  }

  function EscapeByte(b: byte): (e: seq<byte>)
    ensures |e| == StoredLen(b)
  {
    if IsPrintable(b) then [b] else [0x5C, 0x78, HexDigit(b as nat / 16), HexDigit(b as nat % 16)]
  }

  lemma EscapeStep(bytes: seq<byte>)
    requires bytes != []
    ensures Escape(bytes) == EscapeByte(bytes[0]) + Escape(bytes[1..])
  {
  }

  /** Escaped text is printable ASCII. */
  lemma {:induction false} EscapeIsPrintable(bytes: seq<byte>)
    ensures forall i :: 0 <= i < |Escape(bytes)| ==> 0x20 <= Escape(bytes)[i] <= 0x7E
  {
    if bytes != [] {
      EscapeIsPrintable(bytes[1..]);
    }
  }

  /** Printable ASCII is what escaping leaves alone. */
  lemma {:induction false} EscapeKeepsIff(bytes: seq<byte>)
    ensures Escape(bytes) == bytes <==> forall i :: 0 <= i < |bytes| ==> 0x20 <= bytes[i] <= 0x7E
  {
    EscapeIsPrintable(bytes);
    if forall i :: 0 <= i < |bytes| ==> 0x20 <= bytes[i] <= 0x7E {
      EscapePrintable(bytes);
    }
  }

  /** A printable byte is stored as itself and costs one; any other costs four and is
      stored as a backslash, an `x` and two digits that spell it in base sixteen. */
  lemma ByteIsStoredAs(b: byte)
    ensures StoredLenOf([b]) == if 0x20 <= b <= 0x7E then 1 else 4
    ensures if 0x20 <= b <= 0x7E then Escape([b]) == [b]
            else
              && |Escape([b])| == 4 && Escape([b])[..2] == [0x5C, 0x78]
              && Number([Escape([b])[2] as char, Escape([b])[3] as char], 16) == Some(b as nat)
  {
    EscapeStep([b]);
    assert Escape([]) == [] && StoredLenOf([]) == 0;
    assert Escape([b]) == EscapeByte(b);
    if !(0x20 <= b <= 0x7E) {
      TwoHexDigits(b as nat);
    }
  }

  lemma TwoHexDigits(n: nat)
    requires n < 0x100
    ensures Number([HexDigit(n / 16) as char, HexDigit(n % 16) as char], 16) == Some(n)
  {
    var high, low := HexDigit(n / 16) as char, HexDigit(n % 16) as char;
    assert [high, low][..1] == [high] && [high][..0] == [];
    assert Number([], 16) == Some(0);
    assert Number([high], 16) == Some(n / 16);
  }

  /** What the server stores: escaped first, cut second. */
  function Stored(bytes: seq<byte>): seq<byte> {
    var e := Escape(bytes);
    if |e| <= NAMEDATALEN_LIMIT then e else e[..NAMEDATALEN_LIMIT]
  }

  lemma {:induction false} EscapeLength(bytes: seq<byte>)
    ensures |Escape(bytes)| == StoredLenOf(bytes) >= |bytes|
  {
    if bytes != [] {
      EscapeLength(bytes[1..]);
    }
  }

  lemma {:induction false} EscapeAppend(a: seq<byte>, b: seq<byte>)
    ensures Escape(a + b) == Escape(a) + Escape(b)
  {
    if a == [] {
      assert a + b == b;
    } else {
      EscapeAppend(a[1..], b);
      assert (a + b)[1..] == a[1..] + b && (a + b)[0] == a[0];
      EscapeStep(a);
      EscapeStep(a + b);
      Assoc(EscapeByte(a[0]), Escape(a[1..]), Escape(b));
    }
  }

  lemma StoredLenAppend(a: seq<byte>, b: seq<byte>)
    ensures StoredLenOf(a + b) == StoredLenOf(a) + StoredLenOf(b)
  {
    EscapeAppend(a, b);
    EscapeLength(a);
    EscapeLength(b);
    EscapeLength(a + b);
  }

  lemma {:induction false} EscapePrintable(bytes: seq<byte>)
    requires forall i :: 0 <= i < |bytes| ==> IsPrintable(bytes[i])
    ensures Escape(bytes) == bytes
  {
    if bytes != [] {
      EscapePrintable(bytes[1..]);
    }
  }

  // ---- The truncation ----------------------------------------------------

  /** Cost of a text: what the server will store for its encoding. */
  function Cost(s: string): nat {
    StoredLenOf(Encode(s))
  }

  lemma CostStep(s: string, k: nat)
    requires k < |s|
    ensures Encode(s[..k + 1]) == Encode(s[..k]) + EncodeChar(s[k])
    ensures Cost(s[..k + 1]) == Cost(s[..k]) + StoredLenOf(EncodeChar(s[k])) > Cost(s[..k])
  {
    assert s[..k + 1] == s[..k] + [s[k]];
    EncodeAppend(s[..k], [s[k]]);
    assert Encode([s[k]]) == EncodeChar(s[k]);
    StoredLenAppend(Encode(s[..k]), EncodeChar(s[k]));
    EscapeLength(EncodeChar(s[k]));
  }

  lemma {:induction false} CostMonotone(s: string, j: nat, k: nat)
    requires j <= k <= |s|
    ensures Cost(s[..j]) <= Cost(s[..k])
    ensures j < k ==> Cost(s[..j]) < Cost(s[..k])
    decreases k
  {
    if j < k {
      CostStep(s, k - 1);
      CostMonotone(s, j, k - 1);
    }
  }

  /** `k` whole characters of `s` fit the budget and no longer prefix does. */
  ghost predicate IsLongestFit(s: string, budget: int, k: nat) {
    && k <= |s|
    && Cost(s[..k]) <= budget
    && forall j :: k < j <= |s| ==> Cost(s[..j]) > budget
  }

  /** How many characters the scan of `truncate_to_stored_budget` keeps after the first `k`. */
  function KeptFrom(s: string, budget: nat, k: nat): (n: nat)
    requires k <= |s|
    ensures k <= n <= |s|
    decreases |s| - k
  {
    if k < |s| && Cost(s[..k + 1]) <= budget then KeptFrom(s, budget, k + 1) else k
  }

  function Kept(s: string, budget: nat): (t: string)
    ensures t <= s
  {
    s[..KeptFrom(s, budget, 0)]
  }

  lemma {:induction false} KeptFromIsLongest(s: string, budget: nat, k: nat)
    requires k <= |s| && Cost(s[..k]) <= budget
    ensures IsLongestFit(s, budget, KeptFrom(s, budget, k))
    decreases |s| - k
  {
    if k < |s| && Cost(s[..k + 1]) <= budget {
      KeptFromIsLongest(s, budget, k + 1);
    } else {
      forall j | k < j <= |s| ensures Cost(s[..j]) > budget {
        CostMonotone(s, k + 1, j);
      }
    }
  }

  lemma KeptIsLongest(s: string, budget: nat)
    ensures IsLongestFit(s, budget, |Kept(s, budget)|)
  {
    assert Encode(s[..0]) == [];
    KeptFromIsLongest(s, budget, 0);
  }

  lemma {:induction false} EncodePrefix(s: string, k: nat)
    requires k <= |s|
    ensures Encode(s) == Encode(s[..k]) + Encode(s[k..])
  {
    EncodeAppend(s[..k], s[k..]);
    assert s[..k] + s[k..] == s;
  }

  /** The scan itself, by byte offsets into the encoded text. The cut always
      falls on a character boundary, so the slice cannot split a character. */
  method TruncateToStoredBudget(s: string, budget: nat) returns (kept: seq<byte>)
    ensures kept == Encode(Kept(s, budget)) <= Encode(s)
    ensures exists k: nat :: IsLongestFit(s, budget, k) && kept == Encode(s[..k])
  {
    var text := Encode(s);
    var used, end, idx := 0, 0, 0;
    var k := 0;
    while k < |s|
      invariant 0 <= k <= |s|
      invariant idx == end == |Encode(s[..k])| <= |text|
      invariant used == Cost(s[..k]) <= budget
      invariant KeptFrom(s, budget, k) == KeptFrom(s, budget, 0)
      decreases |s| - k
    {
      CostStep(s, k);
      EncodePrefix(s, k);
      EncodePrefix(s, k + 1);
      var width := |EncodeChar(s[k])|;
      assert text[idx..idx + width] == EncodeChar(s[k]);
      var cost := StoredLenOf(text[idx..idx + width]);
      if used + cost > budget {
        break;
      }
      used := used + cost;
      end := idx + width;
      idx := end;
      k := k + 1;
    }
    EncodePrefix(s, k);
    KeptIsLongest(s, budget);
    kept := text[..end];
  }

  // ---- The new value -----------------------------------------------------

  function Suffix(ip: string): string {
    " - " + ip
  }

  /** `format_application_name`. The suffix length is in bytes. */
  function FormatApplicationName(original: string, ip: string): string {
    var suffix := Suffix(ip);
    if |Encode(suffix)| >= NAMEDATALEN_LIMIT then Kept(suffix, NAMEDATALEN_LIMIT)
    else Kept(original, NAMEDATALEN_LIMIT - |Encode(suffix)|) + suffix
  }

  /** The value of an added parameter: `" -"` is stripped from an empty name's result. */
  function AddedApplicationName(ip: string): string {
    TrimStartMatches(FormatApplicationName("", ip), " -")
  }

  lemma {:induction false} TrimShortens(s: string, pattern: string)
    requires pattern != []
    ensures |Encode(TrimStartMatches(s, pattern))| <= |Encode(s)|
    ensures forall c :: c in TrimStartMatches(s, pattern) ==> c in s
  {
    if pattern <= s {
      TrimShortens(s[|pattern|..], pattern);
      EncodePrefix(s, |pattern|);
    }
  }

  lemma SuffixIsPrintable(ip: string)
    requires ParseIp(ip).Some?
    ensures Escape(Encode(Suffix(ip))) == Encode(Suffix(ip))
    ensures |Encode(Suffix(ip))| == |ip| + 3 < NAMEDATALEN_LIMIT
  {
    LiteralShape(ip);
    var s := Suffix(ip);
    forall i | 0 <= i < |s| ensures 0x20 <= s[i] as int < 0x7F {
      assert i >= 3 ==> s[i] == ip[i - 3] && IsAddressChar(ip[i - 3]);
    }
    EncodeAscii(s);
    EscapePrintable(Encode(s));
  }

  /** The address survives. For every name and every address literal, the kept part
      is the longest whole-character prefix that leaves room for the suffix, and the
      server stores its escape followed by the complete suffix, uncut. */
  lemma AddressSurvivesStorage(original: string, ip: string)
    requires ParseIp(ip).Some?
    ensures var out, suffix := Encode(FormatApplicationName(original, ip)), Encode(Suffix(ip));
      && |suffix| == |ip| + 3 < NAMEDATALEN_LIMIT
      && var kept := Kept(original, NAMEDATALEN_LIMIT - |suffix|);
      && kept <= original && IsLongestFit(original, NAMEDATALEN_LIMIT - |suffix|, |kept|)
      && out == Encode(kept) + suffix
      && Stored(out) == Escape(out) == Escape(Encode(kept)) + suffix
    ensures var stored := Stored(Encode(FormatApplicationName(original, ip)));
      |stored| <= 63 && forall i :: 0 <= i < |stored| ==> 0x20 <= stored[i] <= 0x7E
  {
    EscapeIsPrintable(Encode(FormatApplicationName(original, ip)));
    SuffixIsPrintable(ip);
    var suffix := Encode(Suffix(ip));
    var budget := NAMEDATALEN_LIMIT - |suffix|;
    var kept := Kept(original, budget);
    KeptIsLongest(original, budget);
    EncodeAppend(kept, Suffix(ip));
    StoredWhole(kept, suffix, budget);
  }

  lemma StoredWhole(kept: string, suffix: seq<byte>, budget: nat)
    requires Cost(kept) <= budget && budget + |suffix| <= NAMEDATALEN_LIMIT && Escape(suffix) == suffix
    ensures var out := Encode(kept) + suffix; Stored(out) == Escape(out) == Escape(Encode(kept)) + suffix
  {
    EscapeAppend(Encode(kept), suffix);
    EscapeLength(Encode(kept));
  }

  /** Whatever the address is, the value never exceeds 63 bytes; one too long to leave room
      for anything else is itself cut, to the longest prefix of the suffix that is stored
      in 63 bytes. */
  lemma FormatByteBound(original: string, ip: string)
    ensures |Encode(FormatApplicationName(original, ip))| <= 63
    ensures |Encode(" - " + ip)| >= 63 ==>
      var v := FormatApplicationName(original, ip); v <= " - " + ip && IsLongestFit(" - " + ip, 63, |v|)
  {
    var s := Suffix(ip);
    if |Encode(s)| >= NAMEDATALEN_LIMIT {
      KeptIsLongest(s, NAMEDATALEN_LIMIT);
      EscapeLength(Encode(Kept(s, NAMEDATALEN_LIMIT)));
    } else {
      var budget := NAMEDATALEN_LIMIT - |Encode(s)|;
      KeptIsLongest(original, budget);
      EncodeAppend(Kept(original, budget), s);
      EscapeLength(Encode(Kept(original, budget)));
    }
  }

  /** No NUL comes from anywhere but the name or the address. */
  lemma FormatIsNulFree(original: string, ip: string)
    requires NUL as char !in original && NUL as char !in ip
    ensures NUL !in Encode(FormatApplicationName(original, ip))
    ensures NUL !in Encode(AddedApplicationName(ip))
  {
    assert NUL as char !in FormatApplicationName(original, ip);
    EncodeKeepsAsciiBytes(FormatApplicationName(original, ip), NUL);
    assert NUL as char !in FormatApplicationName("", ip);
    TrimShortens(FormatApplicationName("", ip), " -");
    EncodeKeepsAsciiBytes(AddedApplicationName(ip), NUL);
  }

  lemma WholeNameFits(original: string, budget: nat)
    requires Cost(original) <= budget
    ensures Kept(original, budget) == original
  {
    KeptIsLongest(original, budget);
    assert original[..|original|] == original;
  }

  /** A name that fits is kept whole. */
  lemma ShortNamesAreKept(original: string, ip: string)
    requires ParseIp(ip).Some? && Cost(original) + |ip| + 3 <= NAMEDATALEN_LIMIT
    ensures FormatApplicationName(original, ip) == original + " - " + ip
  {
    SuffixIsPrintable(ip);
    var budget := NAMEDATALEN_LIMIT - |Encode(Suffix(ip))|;
    WholeNameFits(original, budget);
  }

  lemma StripDash(t: string)
    requires t != [] && t[0] != '-'
    ensures TrimStartMatches(" - " + t, " -") == " " + t
  {
    var s := " - " + t;
    assert s[..2] == " -";
    assert s[2..] == " " + t;
    assert s[2..][1] == t[0];
    assert " -"[1] == '-';
  }

  /** An added value is the address behind one space, not the bare address. */
  lemma AddedNameHasLeadingSpace(ip: string)
    requires ParseIp(ip).Some?
    ensures AddedApplicationName(ip) == " " + ip
  {
    SuffixIsPrintable(ip);
    LiteralShape(ip);
    assert IsAddressChar(ip[0]);
    assert FormatApplicationName("", ip) == "" + Suffix(ip) == " - " + ip;
    StripDash(ip);
  }
}
