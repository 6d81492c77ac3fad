/** Text operations of the Rust standard library that the proxy relies on. */
module Text {

  /** The Unicode White_Space property, as `str::trim` uses it. */
  predicate IsWhitespace(c: char) {
    var n := c as int;
    0x09 <= n <= 0x0D || n == 0x20 || n == 0x85 || n == 0xA0 || n == 0x1680
    || 0x2000 <= n <= 0x200A || n == 0x2028 || n == 0x2029 || n == 0x202F || n == 0x205F || n == 0x3000
  }

  function TrimStart(s: string): string {
    if s != [] && IsWhitespace(s[0]) then TrimStart(s[1..]) else s
  }

  function TrimEnd(s: string): string {
    if s != [] && IsWhitespace(s[|s| - 1]) then TrimEnd(s[..|s| - 1]) else s
  }

  function Trim(s: string): string {
    TrimEnd(TrimStart(s))
  }

  /** `trim_start_matches`: drops every leading repetition of `pattern`. */
  function TrimStartMatches(s: string, pattern: string): string
    requires pattern != []
  {
    if pattern <= s then TrimStartMatches(s[|pattern|..], pattern) else s
  }

  lemma TrimVisible(s: string)
    requires HasVisibleEnds(s)
    ensures Trim(s) == s
  {
  }

  /** Trimming the end never reaches a visible character. */
  lemma {:induction false} TrimEndKeeps(s: string, k: nat)
    requires k <= |s| && (k == 0 || !IsWhitespace(s[k - 1]))
    ensures k <= |TrimEnd(s)| && TrimEnd(s) <= s
    decreases |s|
  {
    if s != [] && IsWhitespace(s[|s| - 1]) {
      TrimEndKeeps(s[..|s| - 1], k);
    }
  }

  // ---- What trimming is --------------------------------------------------

  /** The code points with the White_Space property. */
  const WHITE_SPACE: seq<int> :=
    [0x09, 0x0A, 0x0B, 0x0C, 0x0D, 0x20, 0x85, 0xA0, 0x1680,
     0x2000, 0x2001, 0x2002, 0x2003, 0x2004, 0x2005, 0x2006, 0x2007, 0x2008, 0x2009, 0x200A,
     0x2028, 0x2029, 0x202F, 0x205F, 0x3000]

  /** The ranges spell exactly those. */
  lemma WhitespaceIsListed(c: char)
    ensures IsWhitespace(c) <==> c as int in WHITE_SPACE
  {
  }

  predicate IsBlank(s: string) {
    forall i :: 0 <= i < |s| ==> IsWhitespace(s[i])
  }

  predicate HasVisibleEnds(s: string) {
    s != [] ==> !IsWhitespace(s[0]) && !IsWhitespace(s[|s| - 1])
  }

  lemma {:induction false} TrimStartDrops(blank: string, s: string)
    requires IsBlank(blank)
    ensures TrimStart(blank + s) == TrimStart(s)
  {
    if blank == [] {
      assert blank + s == s;
    } else {
      TrimStartDrops(blank[1..], s);
      assert (blank + s)[1..] == blank[1..] + s;
    }
  }

  lemma {:induction false} TrimEndDrops(s: string, blank: string)
    requires IsBlank(blank)
    ensures TrimEnd(s + blank) == TrimEnd(s)
    decreases |blank|
  {
    if blank == [] {
      assert s + blank == s;
    } else {
      var k := |blank| - 1;
      TrimEndDrops(s, blank[..k]);
      assert (s + blank)[..|s| + k] == s + blank[..k];
    }
  }

  lemma {:induction false} TrimStartCuts(s: string) returns (blank: string)
    ensures IsBlank(blank) && s == blank + TrimStart(s)
    ensures TrimStart(s) != [] ==> !IsWhitespace(TrimStart(s)[0])
  {
    if s != [] && IsWhitespace(s[0]) {
      var rest := TrimStartCuts(s[1..]);
      blank := [s[0]] + rest;
    } else {
      blank := [];
    }
  }

  lemma {:induction false} TrimEndCuts(s: string) returns (blank: string)
    ensures IsBlank(blank) && s == TrimEnd(s) + blank
    ensures TrimEnd(s) != [] ==> !IsWhitespace(TrimEnd(s)[|TrimEnd(s)| - 1])
    decreases |s|
  {
    if s != [] && IsWhitespace(s[|s| - 1]) {
      var rest := TrimEndCuts(s[..|s| - 1]);
      blank := rest + [s[|s| - 1]];
    } else {
      blank := [];
    }
  }

  lemma TrimCuts(s: string) returns (a: string, b: string)
    ensures IsBlank(a) && IsBlank(b) && s == a + Trim(s) + b && HasVisibleEnds(Trim(s))
  {
    a := TrimStartCuts(s);
    b := TrimEndCuts(TrimStart(s));
    assert Trim(s) != [] ==> TrimStart(s)[0] == Trim(s)[0];
  }

  /** A text is white space, its trimming and white space, and that says which. */
  lemma TrimIff(s: string, t: string)
    ensures Trim(s) == t <==>
      HasVisibleEnds(t) && exists a, b :: IsBlank(a) && IsBlank(b) && s == a + t + b
  {
    if Trim(s) == t {
      var a, b := TrimCuts(s);
    }
    if HasVisibleEnds(t) && exists a, b :: IsBlank(a) && IsBlank(b) && s == a + t + b {
      var a, b :| IsBlank(a) && IsBlank(b) && s == a + t + b;
      TrimOfPadded(a, t, b);
    }
  }

  lemma TrimOfPadded(a: string, t: string, b: string)
    requires IsBlank(a) && IsBlank(b) && HasVisibleEnds(t)
    ensures Trim(a + t + b) == t
  {
    assert a + t + b == a + (t + b);
    TrimStartDrops(a, t + b);
    if t == [] {
      assert t + b == b + [];
      TrimStartDrops(b, []);
    } else {
      assert TrimStart(t + b) == t + b;
      TrimEndDrops(t, b);
    }
  }

  /** `str` comparison: by code point, lexicographic. */
  predicate TextLe(a: string, b: string) {
    a == [] || (b != [] && (a[0] < b[0] || (a[0] == b[0] && TextLe(a[1..], b[1..]))))
  }

  predicate IsDigit(c: char) {
    '0' <= c <= '9'
  }

  function DigitValue(c: char): (v: nat)
    requires IsDigit(c)
    ensures v < 10
  {
    c as int - '0' as int
  }

  function Digit(v: nat): (c: char)
    requires v < 10
    ensures IsDigit(c) && DigitValue(c) == v
  {
    ('0' as int + v) as char
  }
}
