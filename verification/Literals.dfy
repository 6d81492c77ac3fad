/** Which number an address literal denotes: the exact IPv4 literals, and every printed
    form of an IPv6 address (section 2.2 of RFC 4291) read back. */
module Literals {
  import opened Bytes
  import opened Text
  import opened Address

  // ---- Digits ------------------------------------------------------------

  function HexDigit(v: nat): (c: char)
    requires v < 16
    ensures IsHexDigit(c) && HexDigitValue(c) == v && (v < 10 ==> c == Digit(v))
  {
    if v < 10 then Digit(v) else ('a' as int + (v - 10)) as char
  }

  /** A number in base ten or sixteen, without leading zeros. */
  function Numeral(n: nat, base: nat): (s: string)
    requires base == 10 || base == 16
    ensures s != []
  {
    if n < base then [HexDigit(n)] else Numeral(n / base, base) + [HexDigit(n % base)]
  }

  lemma {:induction false} NumeralIsRead(n: nat, base: nat)
    requires base == 10 || base == 16
    ensures Number(Numeral(n, base), base) == Some(n)
    ensures forall i :: 0 <= i < |Numeral(n, base)| ==> IsHexDigit(Numeral(n, base)[i])
    ensures |Numeral(n, base)| > 1 ==> n > 0 && Numeral(n, base)[0] != '0'
    decreases n
  {
    var s := Numeral(n, base);
    if n < base {
      assert s[..0] == [];
      assert Number([], base) == Some(0);
    } else {
      NumeralIsRead(n / base, base);
      assert s[..|s| - 1] == Numeral(n / base, base);
    }
  }

  /** Decimal digits without a leading zero are the numeral of what they spell. */
  lemma {:induction false} DecimalIsNumeral(s: string)
    requires s != [] && (|s| > 1 ==> s[0] != '0') && Number(s, 10).Some?
    ensures s == Numeral(Number(s, 10).value, 10)
  {
    var init, last := s[..|s| - 1], s[|s| - 1];
    assert s == init + [last];
    if init == [] {
      assert Number(init, 10) == Some(0);
    } else {
      DecimalIsNumeral(init);
      var n := Number(init, 10).value;
      assert Numeral(0, 10) == ['0'];
      assert (n * 10 + DigitValue(last)) / 10 == n;
    }
  }

  lemma OctetIff(s: string, v: nat)
    ensures Octet(s) == Some(v) <==> v <= 255 && s == Numeral(v, 10)
  {
    if Octet(s) == Some(v) {
      DecimalIsNumeral(s);
    }
    if v <= 255 && s == Numeral(v, 10) {
      NumeralIsRead(v, 10);
      assert v >= 10 ==> |Numeral(v / 10, 10)| <= 2;
    }
  }

  lemma NumeralHas(n: nat, base: nat, c: char)
    requires base == 10 || base == 16
    ensures c in Numeral(n, base) ==> IsHexDigit(c)
  {
    NumeralIsRead(n, base);
  }

  // ---- IPv4 --------------------------------------------------------------

  function Quad(a: nat, b: nat, c: nat, d: nat): string {
    Join([Numeral(a, 10), Numeral(b, 10), Numeral(c, 10), Numeral(d, 10)], '.')
  }

  predicate IsQuadOf(s: string, v: nat, a: nat, b: nat, c: nat, d: nat) {
    && a <= 255 && b <= 255 && c <= 255 && d <= 255
    && s == Quad(a, b, c, d)
    && v == a * 0x100_0000 + b * 0x1_0000 + c * 0x100 + d
  }

  lemma QuadSplits(a: nat, b: nat, c: nat, d: nat)
    ensures SplitOn(Quad(a, b, c, d), '.') == [Numeral(a, 10), Numeral(b, 10), Numeral(c, 10), Numeral(d, 10)]
  {
    NumeralHas(a, 10, '.');
    NumeralHas(b, 10, '.');
    NumeralHas(c, 10, '.');
    NumeralHas(d, 10, '.');
    SplitOfJoin([Numeral(a, 10), Numeral(b, 10), Numeral(c, 10), Numeral(d, 10)], '.');
  }

  /** The IPv4 literals are exactly four octets in decimal without leading zeros, joined
      by dots, and denote the number with those octets. */
  lemma V4Iff(s: string, v: nat)
    ensures ParseV4(s) == Some(v) <==> exists a: nat, b: nat, c: nat, d: nat :: IsQuadOf(s, v, a, b, c, d)
  {
    if ParseV4(s) == Some(v) {
      var a, b, c, d := V4IsQuad(s);
      assert IsQuadOf(s, v, a, b, c, d);
    }
    if exists a: nat, b: nat, c: nat, d: nat :: IsQuadOf(s, v, a, b, c, d) {
      var a: nat, b: nat, c: nat, d: nat :| IsQuadOf(s, v, a, b, c, d);
      QuadDenotes(s, v, a, b, c, d);
    }
  }

  lemma QuadDenotes(s: string, v: nat, a: nat, b: nat, c: nat, d: nat)
    requires IsQuadOf(s, v, a, b, c, d)
    ensures ParseV4(s) == Some(v)
  {
    QuadIsRead(a, b, c, d);
  }

  lemma V4IsQuad(s: string) returns (a: nat, b: nat, c: nat, d: nat)
    requires ParseV4(s).Some?
    ensures IsQuadOf(s, ParseV4(s).value, a, b, c, d)
  {
    var p := SplitOn(s, '.');
    a, b, c, d := Octet(p[0]).value, Octet(p[1]).value, Octet(p[2]).value, Octet(p[3]).value;
    OctetIff(p[0], a);
    OctetIff(p[1], b);
    OctetIff(p[2], c);
    OctetIff(p[3], d);
    assert p == [Numeral(a, 10), Numeral(b, 10), Numeral(c, 10), Numeral(d, 10)];
    JoinOfSplit(s, '.');
  }

  /** The addresses of that family are exactly these. */
  lemma V4AddressIff(s: string, v: nat)
    ensures ParseIp(s) == Some(IpAddr(V4, v)) <==> exists a: nat, b: nat, c: nat, d: nat :: IsQuadOf(s, v, a, b, c, d)
  {
    V4Iff(s, v);
  }

  lemma QuadIsRead(a: nat, b: nat, c: nat, d: nat)
    requires a <= 255 && b <= 255 && c <= 255 && d <= 255
    ensures ParseV4(Quad(a, b, c, d)) == Some(a * 0x100_0000 + b * 0x1_0000 + c * 0x100 + d)
  {
    QuadSplits(a, b, c, d);
    OctetIff(Numeral(a, 10), a);
    OctetIff(Numeral(b, 10), b);
    OctetIff(Numeral(c, 10), c);
    OctetIff(Numeral(d, 10), d);
  }

  lemma {:induction false} InJoin<T>(parts: seq<seq<T>>, sep: T, x: T)
    requires parts != [] && x in Join(parts, sep)
    ensures x == sep || exists p :: p in parts && x in p
  {
    if |parts| > 1 && x !in parts[0] && x != sep {
      InJoin(parts[1..], sep, x);
    }
  }

  /** An IPv4 literal has no colon. */
  lemma ColonsAreNotV4(s: string)
    requires ':' in s
    ensures ParseV4(s).None?
  {
    if ParseV4(s).Some? {
      var a, b, c, d := V4IsQuad(s);
      QuadHasNoColon(a, b, c, d);
    }
  }

  lemma QuadHasNoColon(a: nat, b: nat, c: nat, d: nat)
    ensures ':' !in Quad(a, b, c, d) && Quad(a, b, c, d) != []
  {
    if ':' in Quad(a, b, c, d) {
      InJoin([Numeral(a, 10), Numeral(b, 10), Numeral(c, 10), Numeral(d, 10)], '.', ':');
      NumeralHas(a, 10, ':');
      NumeralHas(b, 10, ':');
      NumeralHas(c, 10, ':');
      NumeralHas(d, 10, ':');
    }
  }

  // ---- IPv6 groups -------------------------------------------------------

  predicate AreGroups(gs: seq<nat>) {
    forall i :: 0 <= i < |gs| ==> gs[i] < 0x1_0000
  }

  /** The last two groups may be written as an IPv4 address. */
  function Pieces(gs: seq<nat>, quad: bool): (p: seq<string>)
    ensures |gs| >= 2 || !quad ==> (p == [] <==> gs == [])
  {
    if gs == [] then []
    else if quad && |gs| == 2 then [Quad(gs[0] / 0x100, gs[0] % 0x100, gs[1] / 0x100, gs[1] % 0x100)]
    else [Numeral(gs[0], 16)] + Pieces(gs[1..], quad)
  }

  lemma HextetIsRead(g: nat)
    requires g < 0x1_0000
    ensures Hextet(Numeral(g, 16)) == Some(g) && ParseV4(Numeral(g, 16)).None?
  {
    NumeralIsRead(g, 16);
    assert g >= 16 ==> |Numeral(g / 16, 16)| <= 3 by {
      assert g >= 0x100 ==> |Numeral(g / 16 / 16, 16)| <= 2;
    }
    NumeralHas(g, 16, '.');
    SplitWhole(Numeral(g, 16), '.');
  }

  lemma QuadIsTwoGroups(g: nat, h: nat)
    requires g < 0x1_0000 && h < 0x1_0000
    ensures ParseV4(Quad(g / 0x100, g % 0x100, h / 0x100, h % 0x100)) == Some(g * 0x1_0000 + h)
  {
    QuadIsRead(g / 0x100, g % 0x100, h / 0x100, h % 0x100);
  }

  lemma {:induction false} PiecesAreRead(gs: seq<nat>, quad: bool, dotted: bool)
    requires AreGroups(gs) && (quad ==> |gs| >= 2 && dotted)
    ensures Groups(Pieces(gs, quad), dotted) == Some(gs)
  {
    if gs == [] {
    } else if quad && |gs| == 2 {
      QuadIsTwoGroups(gs[0], gs[1]);
      QuadAtTheEnd(Pieces(gs, quad)[0], gs[0], gs[1]);
      assert gs == [gs[0], gs[1]];
    } else {
      HextetIsRead(gs[0]);
      PiecesAreRead(gs[1..], quad, dotted);
      GroupInFront(Numeral(gs[0], 16), gs[0], Pieces(gs[1..], quad), dotted);
      assert gs == [gs[0]] + gs[1..];
    }
  }

  lemma QuadAtTheEnd(p: string, g: nat, h: nat)
    requires ParseV4(p) == Some(g * 0x1_0000 + h) && h < 0x1_0000
    ensures Groups([p], true) == Some([g, h])
  {
    HighAndLow(g, h);
  }

  lemma HighAndLow(g: nat, h: nat)
    requires h < 0x1_0000
    ensures (g * 0x1_0000 + h) / 0x1_0000 == g && (g * 0x1_0000 + h) % 0x1_0000 == h
  {
  }

  lemma GroupInFront(p: string, g: nat, rest: seq<string>, dotted: bool)
    requires Hextet(p) == Some(g) && ParseV4(p).None? && Groups(rest, dotted).Some?
    ensures Groups([p] + rest, dotted) == Some([g] + Groups(rest, dotted).value)
  {
    assert ([p] + rest)[1..] == rest;
  }

  predicate IsPiece(p: string) {
    p != [] && ':' !in p
  }

  lemma {:induction false} PiecesHaveNoColon(gs: seq<nat>, quad: bool)
    ensures forall p :: p in Pieces(gs, quad) ==> IsPiece(p)
  {
    if gs == [] {
    } else if quad && |gs| == 2 {
      QuadHasNoColon(gs[0] / 0x100, gs[0] % 0x100, gs[1] / 0x100, gs[1] % 0x100);
    } else {
      NumeralHas(gs[0], 16, ':');
      PiecesHaveNoColon(gs[1..], quad);
    }
  }

  /** Groups in hexadecimal, separated by colons. */
  function PrintGroups(gs: seq<nat>, quad: bool): string
    requires quad ==> |gs| >= 2
  {
    if gs == [] then [] else Join(Pieces(gs, quad), ':')
  }

  lemma {:induction false} JoinOfPieces(parts: seq<string>)
    requires parts != [] && forall p :: p in parts ==> IsPiece(p)
    ensures var s := Join(parts, ':'); s != [] && s[0] != ':' && s[|s| - 1] != ':' && HasNoGap(s)
    ensures |parts| > 1 ==> ':' in Join(parts, ':')
  {
    var s, p := Join(parts, ':'), parts[0];
    assert IsPiece(p);
    if |parts| > 1 {
      JoinOfPieces(parts[1..]);
      var t := Join(parts[1..], ':');
      assert s == p + ":" + t && s[|p|] == ':';
      assert forall i :: 0 <= i < |s| ==> s[i] == if i < |p| then p[i] else if i == |p| then ':' else t[i - |p| - 1];
    }
  }

  lemma PrintedGroups(gs: seq<nat>, quad: bool, dotted: bool)
    requires AreGroups(gs) && (quad ==> |gs| >= 2 && dotted)
    ensures var s := PrintGroups(gs, quad);
      && GroupsOf(s, dotted) == Some(gs) && HasNoGap(s) && (s == [] <==> gs == [])
      && (s != [] ==> s[|s| - 1] != ':')
      && (|gs| > 2 ==> ':' in s)
  {
    if gs != [] {
      var parts := Pieces(gs, quad);
      PiecesAreRead(gs, quad, dotted);
      PiecesHaveNoColon(gs, quad);
      JoinOfPieces(parts);
      forall p | p in parts ensures ':' !in p { assert IsPiece(p); }
      SplitOfJoin(parts, ':');
    }
  }

  // ---- The gap -----------------------------------------------------------

  predicate HasNoGap(s: string) {
    forall i :: 0 < i < |s| ==> !(s[i - 1] == ':' && s[i] == ':')
  }

  lemma NoGapBehind(s: string)
    requires HasNoGap(s) && s != []
    ensures HasNoGap(s[1..])
  {
    assert forall i :: 0 < i < |s[1..]| ==> s[1..][i - 1] == s[i] && s[1..][i] == s[i + 1];
  }

  lemma {:induction false} NoGapIsFound(s: string)
    requires HasNoGap(s)
    ensures FindGap(s).None?
  {
    if |s| >= 2 {
      assert !(s[1 - 1] == ':' && s[1] == ':');
      NoGapBehind(s);
      NoGapIsFound(s[1..]);
    }
  }

  lemma {:induction false} FirstGapIsFound(a: string, b: string)
    requires HasNoGap(a) && (a != [] ==> a[|a| - 1] != ':')
    ensures FindGap(a + "::" + b) == Some(|a|)
  {
    if a != [] {
      NoGapBehind(a);
      FirstGapIsFound(a[1..], b);
      NotYetTheGap(a, b);
      LaterGap(a + "::" + b, |a| - 1);
    }
  }

  lemma NotYetTheGap(a: string, b: string)
    requires a != [] && HasNoGap(a) && a[|a| - 1] != ':'
    ensures var s := a + "::" + b; |s| >= 2 && !(s[0] == ':' && s[1] == ':') && s[1..] == a[1..] + "::" + b
  {
    assert |a| > 1 ==> !(a[1 - 1] == ':' && a[1] == ':');
  }

  lemma LaterGap(s: string, i: nat)
    requires |s| >= 2 && !(s[0] == ':' && s[1] == ':') && FindGap(s[1..]) == Some(i)
    ensures FindGap(s) == Some(i + 1)
  {
  }

  // ---- IPv6 --------------------------------------------------------------

  /** Eight groups in full. */
  lemma FullFormIsRead(gs: seq<nat>, quad: bool)
    requires AreGroups(gs) && |gs| == 8
    ensures ParseIp(PrintGroups(gs, quad)) == Some(IpAddr(V6, Bits128(gs)))
  {
    PrintedGroups(gs, quad, true);
    NoGapIsFound(PrintGroups(gs, quad));
    WithColons(PrintGroups(gs, quad));
  }

  /** A gap for one group of zeros or more, anywhere. */
  lemma ShortFormIsRead(h: seq<nat>, t: seq<nat>, quad: bool)
    requires AreGroups(h) && AreGroups(t) && |h| + |t| <= 7 && (quad ==> |t| >= 2)
    ensures ParseIp(PrintGroups(h, false) + "::" + PrintGroups(t, quad)) == V6Of(Filled(Some(h), Some(t)))
  {
    var a, b := PrintGroups(h, false), PrintGroups(t, quad);
    var s := a + "::" + b;
    PrintedGroups(h, false, false);
    PrintedGroups(t, quad, true);
    FirstGapIsFound(a, b);
    AtTheGap(s, |a|);
    AroundTheGap(a, b);
    WithColons(s);
  }

  lemma AroundTheGap(a: string, b: string)
    ensures var s := a + "::" + b; s[..|a|] == a && s[|a| + 2..] == b && ':' in s
  {
    assert (a + "::" + b)[|a|] == ':';
  }

  lemma WithColons(s: string)
    requires ':' in s
    ensures ParseIp(s) == V6Of(ParseV6(s))
  {
    ColonsAreNotV4(s);
  }

  function V6Of(bits: Option<nat>): Option<IpAddr> {
    if bits.Some? then Some(IpAddr(V6, bits.value)) else None
  }

  lemma AtTheGap(s: string, i: nat)
    requires i + 2 <= |s| && FindGap(s) == Some(i)
    ensures ParseV6(s) == Filled(GroupsOf(s[..i], false), GroupsOf(s[i + 2..], true))
  {
  }

  /** No gap inside, and no colon at either end. */
  predicate IsTidy(s: string) {
    s != [] ==> s[0] != ':' && s[|s| - 1] != ':' && HasNoGap(s)
  }

  lemma {:induction false} GroupsAreNotEmpty(parts: seq<string>, dotted: bool)
    requires Groups(parts, dotted).Some?
    ensures forall p :: p in parts ==> p != []
  {
    if parts != [] {
      assert ParseV4([]).None?;
      assert parts == [parts[0]] + parts[1..];
      if Groups(parts[1..], dotted).Some? {
        GroupsAreNotEmpty(parts[1..], dotted);
      }
    }
  }

  lemma GroupsAreTidy(s: string, dotted: bool)
    requires GroupsOf(s, dotted).Some?
    ensures IsTidy(s)
  {
    if s != [] {
      var parts := SplitOn(s, ':');
      GroupsAreNotEmpty(parts, dotted);
      SplitPartsFree(s, ':');
      forall p | p in parts ensures IsPiece(p) {
      }
      JoinOfPieces(parts);
      JoinOfSplit(s, ':');
    }
  }

  /** A literal has at most one gap, and no other colon stands at an end or beside another. */
  lemma AtMostOneGap(s: string)
    requires ParseIp(s).Some?
    ensures IsTidy(s) || exists a, b :: s == a + "::" + b && IsTidy(a) && IsTidy(b)
  {
    if ParseV4(s).Some? {
      NoColonIsTidy(s);
    } else {
      match FindGap(s)
      case None =>
        GroupsAreTidy(s, true);
      case Some(i) =>
        GroupsAreTidy(s[..i], false);
        GroupsAreTidy(s[i + 2..], true);
        GapCuts(s, i);
    }
  }

  lemma GapCuts(s: string, i: nat)
    requires i + 2 <= |s| && s[i] == ':' && s[i + 1] == ':'
    ensures s == s[..i] + "::" + s[i + 2..]
  {
    assert s[i..i + 2] == "::";
    assert s == s[..i] + s[i..i + 2] + s[i + 2..];
  }

  lemma NoColonIsTidy(s: string)
    requires ParseV4(s).Some?
    ensures IsTidy(s)
  {
    if ':' in s {
      ColonsAreNotV4(s);
    }
  }

  /** The low `k` groups of a number. */
  function GroupsIn(n: nat, k: nat): (gs: seq<nat>)
    ensures |gs| == k
  {
    if k == 0 then [] else GroupsIn(n / 0x1_0000, k - 1) + [n % 0x1_0000]
  }

  lemma {:induction false} GroupsMakeTheNumber(n: nat, k: nat)
    requires n < Pow2(16 * k)
    ensures AreGroups(GroupsIn(n, k)) && Bits128(GroupsIn(n, k)) == n
  {
    if k > 0 {
      Pow2Of16More(16 * (k - 1));
      GroupsMakeTheNumber(n / 0x1_0000, k - 1);
      var gs := GroupsIn(n, k);
      assert gs[..|gs| - 1] == GroupsIn(n / 0x1_0000, k - 1);
    }
  }

  lemma Pow2Of16More(n: nat)
    ensures Pow2(n + 16) == 0x1_0000 * Pow2(n)
  {
    Pow2Splits(16, n);
    Pow2Splits(8, 8);
    assert Pow2(8) == 0x100;
  }

  lemma {:induction false} Pow2Splits(a: nat, b: nat)
    ensures Pow2(a + b) == Pow2(a) * Pow2(b)
  {
    if a > 0 {
      Pow2Splits(a - 1, b);
    }
  }

  /** Every IPv6 address is read back from each of its printed forms: in full, or with any
      stretch of zero groups left out, and with or without its last 32 bits dotted. */
  lemma EveryFormIsRead(n: nat, quad: bool)
    requires n < Pow2(128)
    ensures var gs, address := GroupsIn(n, 8), Some(IpAddr(V6, n));
      && ParseIp(PrintGroups(gs, quad)) == address
      && forall i, j :: 0 <= i < j <= 8 && (quad ==> j <= 6) && gs[i..j] == Repeat(0, j - i) ==>
           ParseIp(PrintGroups(gs[..i], false) + "::" + PrintGroups(gs[j..], quad)) == address
  {
    var gs := GroupsIn(n, 8);
    GroupsMakeTheNumber(n, 8);
    FullFormIsRead(gs, quad);
    forall i, j | 0 <= i < j <= 8 && (quad ==> j <= 6) && gs[i..j] == Repeat(0, j - i)
      ensures ParseIp(PrintGroups(gs[..i], false) + "::" + PrintGroups(gs[j..], quad)) == Some(IpAddr(V6, n))
    {
      ShortFormOf(gs, i, j, quad);
    }
  }

  lemma ShortFormOf(gs: seq<nat>, i: nat, j: nat, quad: bool)
    requires AreGroups(gs) && |gs| == 8
    requires i < j <= 8 && (quad ==> j <= 6) && gs[i..j] == Repeat(0, j - i)
    ensures ParseIp(PrintGroups(gs[..i], false) + "::" + PrintGroups(gs[j..], quad))
         == Some(IpAddr(V6, Bits128(gs)))
  {
    ShortFormIsRead(gs[..i], gs[j..], quad);
    Refilled(gs, i, j);
  }

  lemma Refilled(gs: seq<nat>, i: nat, j: nat)
    requires i < j <= |gs| == 8 && gs[i..j] == Repeat(0, j - i)
    ensures Filled(Some(gs[..i]), Some(gs[j..])) == Some(Bits128(gs))
  {
    assert gs[..i] + gs[i..j] + gs[j..] == gs;
    assert gs[..i] + Repeat(0, 8 - |gs[..i]| - |gs[j..]|) + gs[j..] == gs;
  }
}
