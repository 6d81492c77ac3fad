/** IP addresses: the textual forms of section 2.2 of RFC 4291 that
    `IpAddr::from_str` accepts, and CIDR blocks (section 3.1 of RFC 4632). */
module Address {
  import opened Bytes
  import opened Text

  datatype Family = V4 | V6

  /** An address is its family and its bits, read as one number. */
  datatype IpAddr = IpAddr(family: Family, bits: nat)

  function Width(f: Family): nat {
    if f.V4? then 32 else 128
  }

  function Pow2(n: nat): (p: nat)
    ensures p >= 1
  {
    if n == 0 then 1 else 2 * Pow2(n - 1)
  }

  // ---- Literals ---------------------------------------------------------

  predicate IsHexDigit(c: char) {
    IsDigit(c) || 'a' <= c <= 'f' || 'A' <= c <= 'F'
  }

  function HexDigitValue(c: char): nat
    requires IsHexDigit(c)
  {
    if IsDigit(c) then DigitValue(c)
    else if c >= 'a' then c as int - 'a' as int + 10
    else c as int - 'A' as int + 10
  }

  /** The number a digit string spells, if every character is a digit of the base. */
  function Number(s: string, base: nat): Option<nat> {
    if s == [] then Some(0)
    else
      var last := s[|s| - 1];
      if !(if base == 16 then IsHexDigit(last) else IsDigit(last)) then None
      else
        match Number(s[..|s| - 1], base)
        case None => None
        case Some(n) => Some(n * base + (if base == 16 then HexDigitValue(last) else DigitValue(last)))
  }

  /** A decimal octet: at most three digits, no leading zero, at most 255. */
  function Octet(s: string): Option<nat> {
    if !(1 <= |s| <= 3) || (|s| > 1 && s[0] == '0') then None
    else
      match Number(s, 10)
      case Some(n) => if n <= 255 then Some(n) else None
      case None => None
  }

  function ParseV4(s: string): Option<nat> {
    var p := SplitOn(s, '.');
    if |p| != 4 then None
    else
      match (Octet(p[0]), Octet(p[1]), Octet(p[2]), Octet(p[3]))
      case (Some(a), Some(b), Some(c), Some(d)) => Some(a * 0x100_0000 + b * 0x1_0000 + c * 0x100 + d)
      case _ => None
  }

  function Hextet(s: string): Option<nat> {
    if 1 <= |s| <= 4 then Number(s, 16) else None
  }

  /** Colon-separated groups; the last may be a dotted IPv4 address, worth two groups. */
  function Groups(parts: seq<string>, dotted: bool): Option<seq<nat>> {
    if parts == [] then Some([])
    else if |parts| == 1 && dotted && ParseV4(parts[0]).Some? then
      var v := ParseV4(parts[0]).value;
      Some([v / 0x1_0000, v % 0x1_0000])
    else
      match (Hextet(parts[0]), Groups(parts[1..], dotted))
      case (Some(h), Some(rest)) => Some([h] + rest)
      case _ => None
  }

  function GroupsOf(s: string, dotted: bool): Option<seq<nat>> {
    if s == [] then Some([]) else Groups(SplitOn(s, ':'), dotted)
  }

  /** Where the first "::" starts. */
  function FindGap(s: string): (i: Option<nat>)
    ensures i.Some? ==> i.value + 2 <= |s| && s[i.value] == ':' && s[i.value + 1] == ':'
  {
    if |s| < 2 then None
    else if s[0] == ':' && s[1] == ':' then Some(0)
    else
      match FindGap(s[1..])
      case None => None
      case Some(i) => Some(i + 1)
  }

  function Bits128(groups: seq<nat>): nat {
    if groups == [] then 0 else Bits128(groups[..|groups| - 1]) * 0x1_0000 + groups[|groups| - 1]
  }

  function ParseV6(s: string): Option<nat> {
    match FindGap(s)
    case None =>
      (match GroupsOf(s, true)
       case Some(g) => if |g| == 8 then Some(Bits128(g)) else None
       case None => None)
    case Some(i) =>
      Filled(GroupsOf(s[..i], false), GroupsOf(s[i + 2..], true))
  }

  /** The groups on both sides of a gap, which stands for at least one group of zeros. */
  function Filled(head: Option<seq<nat>>, tail: Option<seq<nat>>): Option<nat> {
    match (head, tail)
    case (Some(h), Some(t)) =>
      if |h| + |t| <= 7 then Some(Bits128(h + Repeat(0, 8 - |h| - |t|) + t)) else None
    case _ => None
  }

  /** `IpAddr::from_str`. */
  function ParseIp(s: string): Option<IpAddr> {
    match ParseV4(s)
    case Some(b) => Some(IpAddr(V4, b))
    case None =>
      match ParseV6(s)
      case Some(b) => Some(IpAddr(V6, b))
      case None => None
  }

  // ---- What a literal can look like -------------------------------------

  predicate IsAddressChar(c: char) {
    IsHexDigit(c) || c == '.' || c == ':'
  }

  predicate AllAddressChars(s: string) {
    forall i :: 0 <= i < |s| ==> IsAddressChar(s[i])
  }

  lemma {:induction false} SplitChars(s: string, sep: char)
    requires IsAddressChar(sep)
    requires forall p :: p in SplitOn(s, sep) ==> AllAddressChars(p)
    ensures AllAddressChars(s)
  {
    if s != [] {
      var rest, all := SplitOn(s[1..], sep), SplitOn(s, sep);
      if s[0] == sep {
        assert all[1..] == rest;
        forall p | p in rest ensures AllAddressChars(p) { assert p in all; }
      } else {
        assert all[0] == [s[0]] + rest[0] && all[1..] == rest[1..];
        assert AllAddressChars(all[0]);
        assert IsAddressChar(all[0][0]);
        forall p | p in rest ensures AllAddressChars(p) {
          if p == rest[0] {
            forall i | 0 <= i < |p| ensures IsAddressChar(p[i]) { assert all[0][i + 1] == p[i]; }
          } else {
            assert p in rest[1..];
            assert p in all;
          }
        }
      }
      SplitChars(s[1..], sep);
    }
  }

  lemma {:induction false} NumberChars(s: string, base: nat)
    requires Number(s, base).Some?
    ensures AllAddressChars(s)
  {
    if s != [] {
      NumberChars(s[..|s| - 1], base);
      assert s == s[..|s| - 1] + [s[|s| - 1]];
    }
  }

  lemma V4Shape(s: string)
    requires ParseV4(s).Some?
    ensures 1 <= |s| <= 15 && AllAddressChars(s)
  {
    var p := SplitOn(s, '.');
    SplitExtent(s, '.');
    assert p[3..] == [p[3]] && p[2..] == [p[2]] + p[3..] && p[1..] == [p[1]] + p[2..];
    assert Extent(p[3..]) == |p[3]| + 1;
    assert Extent(p[2..]) == |p[2]| + 1 + Extent(p[3..]);
    assert Extent(p[1..]) == |p[1]| + 1 + Extent(p[2..]);
    forall q | q in p ensures AllAddressChars(q) {
      NumberChars(q, 10);
    }
    SplitChars(s, '.');
  }

  /** Each hexadecimal group spans at most five characters with its separator; a
      dotted tail spans sixteen where its two groups would span ten. */
  lemma {:induction false} GroupsShape(parts: seq<string>, dotted: bool)
    requires Groups(parts, dotted).Some?
    ensures Extent(parts) <= 5 * |Groups(parts, dotted).value| + if dotted then 6 else 0
    ensures forall p :: p in parts ==> AllAddressChars(p)
  {
    if parts == [] {
    } else if |parts| == 1 && dotted && ParseV4(parts[0]).Some? {
      V4Shape(parts[0]);
    } else {
      NumberChars(parts[0], 16);
      GroupsShape(parts[1..], dotted);
      assert parts == [parts[0]] + parts[1..];
    }
  }

  lemma GroupsOfShape(s: string, dotted: bool)
    requires GroupsOf(s, dotted).Some?
    ensures |s| <= 5 * |GroupsOf(s, dotted).value| + if dotted then 5 else 0
    ensures AllAddressChars(s)
  {
    if s != [] {
      GroupsShape(SplitOn(s, ':'), dotted);
      SplitExtent(s, ':');
      SplitChars(s, ':');
    }
  }

  lemma V6Shape(s: string)
    requires ParseV6(s).Some?
    ensures 1 <= |s| <= 45 && AllAddressChars(s)
  {
    match FindGap(s)
    case None => GroupsOfShape(s, true);
    case Some(i) =>
      GroupsOfShape(s[..i], false);
      GroupsOfShape(s[i + 2..], true);
      forall j | 0 <= j < |s| ensures IsAddressChar(s[j]) {
        assert j < i ==> s[j] == s[..i][j];
        assert j >= i + 2 ==> s[j] == s[i + 2..][j - i - 2];
      }
  }

  /** Every literal that parses is short, visible ASCII. */
  lemma LiteralShape(s: string)
    requires ParseIp(s).Some?
    ensures 1 <= |s| <= 45 && AllAddressChars(s)
  {
    if ParseV4(s).Some? {
      V4Shape(s);
    } else {
      V6Shape(s);
    }
  }

  // ---- CIDR blocks ------------------------------------------------------

  /** A block fixes the top `length` bits of its family's addresses to `prefix`. */
  datatype Cidr = Cidr(family: Family, prefix: nat, length: nat)

  /** `IpCidr::contains`: exact, so a block of one family never contains the other. */
  predicate Contains(c: Cidr, a: IpAddr) {
    && c.family == a.family
    && c.length <= Width(c.family)
    && a.bits / Pow2(Width(c.family) - c.length) == c.prefix
  }

  /** `IpCidr::new_host`. */
  function HostBlock(a: IpAddr): Cidr {
    Cidr(a.family, a.bits, Width(a.family))
  }

  lemma HostBlockHoldsItsAddress(a: IpAddr, b: IpAddr)
    ensures Contains(HostBlock(a), b) <==> a == b
  {
    assert Pow2(0) == 1;
  }

  /** The low `width` bits of a number, most significant first. */
  function Binary(n: nat, width: nat): (b: seq<nat>)
    ensures |b| == width
  {
    if width == 0 then [] else Binary(n / 2, width - 1) + [n % 2]
  }

  function Halved(n: nat, times: nat): nat {
    if times == 0 then n else Halved(n / 2, times - 1)
  }

  lemma {:induction false} HalvedIs(n: nat, times: nat)
    ensures Halved(n, times) == n / Pow2(times)
  {
    if times > 0 {
      HalvedIs(n / 2, times - 1);
      HalveThenDivide(n, Pow2(times - 1));
    }
  }

  lemma {:induction false} HighPart(n: nat, high: nat, low: nat)
    requires n < Pow2(high + low)
    ensures Halved(n, low) < Pow2(high) && Binary(n, high + low)[..high] == Binary(Halved(n, low), high)
  {
    if low > 0 {
      HighPart(n / 2, high, low - 1);
      assert Binary(n, high + low)[..high] == Binary(n / 2, high + low - 1)[..high];
    }
  }

  lemma HalveThenDivide(n: nat, d: nat)
    requires d >= 1
    ensures n / 2 / d == n / (2 * d)
  {
    var q := n / (2 * d);
    var r := n - q * (2 * d);
    assert 0 <= r < 2 * d && q * (2 * d) == 2 * (q * d);
    assert n / 2 == q * d + r / 2 && r / 2 < d;
    DivideUnique(n / 2, d, q, r / 2);
  }

  lemma Multiples(a: nat, b: nat, d: nat)
    ensures a <= b ==> a * d <= b * d
  {
  }

  lemma DivideUnique(n: nat, d: nat, q: nat, r: nat)
    requires r < d && n == q * d + r
    ensures n / d == q
  {
    var p := n / d;
    Multiples(p + 1, q, d);
    Multiples(q + 1, p, d);
  }

  lemma {:induction false} BinaryInjective(m: nat, n: nat, width: nat)
    requires m < Pow2(width) && n < Pow2(width)
    ensures Binary(m, width) == Binary(n, width) <==> m == n
  {
    if width > 0 && Binary(m, width) == Binary(n, width) {
      var k := width - 1;
      assert Binary(m / 2, k) == Binary(m, width)[..k] && Binary(n / 2, k) == Binary(n, width)[..k];
      assert m % 2 == Binary(m, width)[k] && n % 2 == Binary(n, width)[k];
      BinaryInjective(m / 2, n / 2, k);
    }
  }

  lemma BeginsWith(prefix: nat, length: nat, high: nat, all: seq<nat>)
    requires prefix < Pow2(length) && high < Pow2(length)
    requires length <= |all| && all[..length] == Binary(high, length)
    ensures high == prefix <==> Binary(prefix, length) <= all
  {
    BinaryInjective(prefix, high, length);
  }

  /** A block holds the addresses of its family that begin with its bits. */
  lemma ContainsIff(c: Cidr, a: IpAddr)
    requires c.length <= Width(c.family) && c.prefix < Pow2(c.length) && a.bits < Pow2(Width(a.family))
    ensures Contains(c, a) <==>
      c.family == a.family && Binary(c.prefix, c.length) <= Binary(a.bits, Width(a.family))
  {
    if c.family == a.family {
      var low := Width(a.family) - c.length;
      HalvedIs(a.bits, low);
      HighPart(a.bits, c.length, low);
      BeginsWith(c.prefix, c.length, Halved(a.bits, low), Binary(a.bits, Width(a.family)));
    }
  }

  /** The IPv4-mapped form ::ffff:a.b.c.d (section 2.5.5.2 of RFC 4291). */
  function Mapped(v4: nat): IpAddr
    requires v4 < WORD
  {
    IpAddr(V6, 0xFFFF * WORD + v4)
  }
}
