/** Whole-token search, ignoring ASCII case. Models `is_identifier_byte` and
    `contains_token_ignore_ascii_case` of guardian.rs. */
module Tokens {
  import opened Bytes

  predicate IsIdentifierByte(b: byte) {
    0x30 <= b <= 0x39 || 0x41 <= b <= 0x5A || 0x61 <= b <= 0x7A || b == 0x5F || b == 0x24 || b >= 0x80
  }

  function FoldByte(b: byte): byte {
    if 0x41 <= b <= 0x5A then b + 0x20 else b
  }

  /** `eq_ignore_ascii_case`. */
  predicate EqFold(a: seq<byte>, b: seq<byte>) {
    |a| == |b| && forall i :: 0 <= i < |a| ==> FoldByte(a[i]) == FoldByte(b[i])
  }

  predicate TokenAt(h: seq<byte>, n: seq<byte>, start: nat) {
    && start + |n| <= |h|
    && EqFold(h[start..start + |n|], n)
    && !(start > 0 && IsIdentifierByte(h[start - 1]))
    && !(start + |n| < |h| && IsIdentifierByte(h[start + |n|]))
  }

  predicate Occurs(h: seq<byte>, n: seq<byte>) {
    n != [] && exists start :: 0 <= start <= |h| && TokenAt(h, n, start)
  }

  // ---- What a match is, in bytes -----------------------------------------

  /** No digit, letter, `_` or `$`, and below 0x80. */
  predicate IsSeparator(b: byte) {
    || b <= 0x23 || 0x25 <= b <= 0x2F || 0x3A <= b <= 0x40
    || 0x5B <= b <= 0x5E || b == 0x60 || 0x7B <= b <= 0x7F
  }

  /** The same bytes, or an upper-case ASCII letter against its lower-case one. */
  predicate SameLetters(a: seq<byte>, b: seq<byte>) {
    && |a| == |b|
    && forall i :: 0 <= i < |a| ==>
         || a[i] == b[i]
         || (0x41 <= a[i] <= 0x5A && b[i] == a[i] + 0x20)
         || (0x41 <= b[i] <= 0x5A && a[i] == b[i] + 0x20)
  }

  /** The text is `front`, the needle up to case, and `back`, cut at separators. */
  predicate IsMatch(h: seq<byte>, n: seq<byte>, front: seq<byte>, middle: seq<byte>, back: seq<byte>) {
    && h == front + middle + back && SameLetters(middle, n)
    && (front != [] ==> IsSeparator(front[|front| - 1]))
    && (back != [] ==> IsSeparator(back[0]))
  }

  lemma SameLettersIff(a: seq<byte>, b: seq<byte>)
    ensures EqFold(a, b) <==> SameLetters(a, b)
  {
  }

  lemma MatchIsToken(h: seq<byte>, n: seq<byte>, front: seq<byte>, middle: seq<byte>, back: seq<byte>)
    requires h == front + middle + back && |middle| == |n|
    ensures IsMatch(h, n, front, middle, back) <==> TokenAt(h, n, |front|)
  {
    assert h[|front|..|front| + |n|] == middle;
    SameLettersIff(middle, n);
  }

  /** A needle occurs exactly where the text is cut into three at separators with the
      needle, up to case, in the middle. */
  lemma OccursIff(h: seq<byte>, n: seq<byte>)
    ensures Occurs(h, n) <==> n != [] && exists front, middle, back :: IsMatch(h, n, front, middle, back)
  {
    if Occurs(h, n) {
      var s :| 0 <= s <= |h| && TokenAt(h, n, s);
      var front, middle, back := h[..s], h[s..s + |n|], h[s + |n|..];
      assert h == front + middle + back;
      MatchIsToken(h, n, front, middle, back);
    }
    if n != [] && exists front, middle, back :: IsMatch(h, n, front, middle, back) {
      var front, middle, back :| IsMatch(h, n, front, middle, back);
      MatchIsToken(h, n, front, middle, back);
    }
  }

  method ContainsToken(haystack: seq<byte>, needle: seq<byte>) returns (found: bool)
    ensures found <==> Occurs(haystack, needle)
    ensures found <==> needle != [] && exists front, middle, back :: IsMatch(haystack, needle, front, middle, back)
  {
    OccursIff(haystack, needle);
    if needle == [] || |haystack| < |needle| {
      return false;
    }
    for start := 0 to |haystack| - |needle| + 1
      invariant forall s :: 0 <= s < start ==> !TokenAt(haystack, needle, s)
    {
      var end := start + |needle|;
      if !EqFold(haystack[start..end], needle) {
        continue;
      }
      var beforeIsIdentifier := start > 0 && IsIdentifierByte(haystack[start - 1]);
      var afterIsIdentifier := end < |haystack| && IsIdentifierByte(haystack[end]);
      if !beforeIsIdentifier && !afterIsIdentifier {
        assert TokenAt(haystack, needle, start);
        return true;
      }
    }
    return false;
  }

  // ---- Against a tokenizer -----------------------------------------------

  /** Length of the run of identifier bytes at the front. */
  function RunLength(h: seq<byte>): (k: nat)
    ensures k <= |h| && (forall i :: 0 <= i < k ==> IsIdentifierByte(h[i]))
    ensures k < |h| ==> !IsIdentifierByte(h[k])
  {
    if h == [] || !IsIdentifierByte(h[0]) then 0 else 1 + RunLength(h[1..])
  }

  /** The words of a statement: its maximal runs of identifier bytes, in order. */
  function Words(h: seq<byte>): seq<seq<byte>>
    decreases |h|
  {
    if h == [] then []
    else if !IsIdentifierByte(h[0]) then Words(h[1..])
    else [h[..RunLength(h)]] + Words(h[RunLength(h)..])
  }

  predicate HasWord(h: seq<byte>, n: seq<byte>) {
    exists w :: w in Words(h) && EqFold(w, n)
  }

  predicate IsIdentifier(n: seq<byte>) {
    forall i :: 0 <= i < |n| ==> IsIdentifierByte(n[i])
  }

  /** A token of identifier bytes sits on identifier bytes. */
  lemma TokenIsIdentifier(h: seq<byte>, n: seq<byte>, start: nat)
    requires IsIdentifier(n) && TokenAt(h, n, start)
    ensures forall i :: start <= i < start + |n| ==> IsIdentifierByte(h[i])
  {
    forall i | start <= i < start + |n| ensures IsIdentifierByte(h[i]) {
      assert FoldByte(h[start..start + |n|][i - start]) == FoldByte(n[i - start]);
    }
  }

  /** Dropping a prefix moves tokens, if the cut is not inside a word. */
  lemma ShiftToken(h: seq<byte>, n: seq<byte>, k: nat, start: nat)
    requires k <= |h| && k <= start && start + |n| <= |h|
    requires start == k ==> k == 0 || !IsIdentifierByte(h[k - 1])
    ensures TokenAt(h, n, start) <==> TokenAt(h[k..], n, start - k)
  {
    assert h[k..][start - k..start - k + |n|] == h[start..start + |n|];
  }

  lemma SkipSeparator(h: seq<byte>, n: seq<byte>)
    requires IsIdentifier(n) && h != [] && !IsIdentifierByte(h[0])
    ensures Occurs(h, n) <==> Occurs(h[1..], n)
  {
    if Occurs(h, n) {
      var s :| 0 <= s <= |h| && TokenAt(h, n, s);
      TokenIsIdentifier(h, n, s);
      assert s != 0;
      ShiftToken(h, n, 1, s);
    }
    if Occurs(h[1..], n) {
      var s :| 0 <= s <= |h[1..]| && TokenAt(h[1..], n, s);
      ShiftToken(h, n, 1, s + 1);
    }
  }

  /** A leading word matches whole or not at all. */
  lemma SkipWord(h: seq<byte>, n: seq<byte>)
    requires IsIdentifier(n) && h != [] && IsIdentifierByte(h[0])
    ensures var k := RunLength(h); Occurs(h, n) <==> EqFold(h[..k], n) || Occurs(h[k..], n)
  {
    var k := RunLength(h);
    if Occurs(h, n) {
      var s :| 0 <= s <= |h| && TokenAt(h, n, s);
      TokenIsIdentifier(h, n, s);
      if s < k {
        assert s == 0;
        assert |n| == k;
      } else {
        assert IsIdentifierByte(h[s]);
        ShiftToken(h, n, k, s);
      }
    }
    if EqFold(h[..k], n) {
      assert TokenAt(h, n, 0);
    }
    if Occurs(h[k..], n) {
      var s :| 0 <= s <= |h[k..]| && TokenAt(h[k..], n, s);
      TokenIsIdentifier(h[k..], n, s);
      assert IsIdentifierByte(h[k..][s]);
      ShiftToken(h, n, k, s + k);
    }
  }

  /** The search finds a word exactly when the tokenizer produces it. */
  lemma {:induction false} SearchIsTokenization(h: seq<byte>, n: seq<byte>)
    requires IsIdentifier(n)
    ensures Occurs(h, n) <==> HasWord(h, n)
    decreases |h|
  {
    if h == [] {
    } else if !IsIdentifierByte(h[0]) {
      SkipSeparator(h, n);
      SearchIsTokenization(h[1..], n);
    } else {
      var k := RunLength(h);
      SkipWord(h, n);
      SearchIsTokenization(h[k..], n);
      assert Words(h)[0] == h[..k];
      assert forall w :: w in Words(h) <==> w == h[..k] || w in Words(h[k..]);
    }
  }

  // ---- NUL-separated segments --------------------------------------------

  lemma StraddlingMatch(h: seq<byte>, n: seq<byte>, s: nat, i: nat)
    requires s <= i < s + |n| <= |h| && h[i] == NUL && TokenAt(h, n, s)
    ensures NUL in n
  {
    assert FoldByte(h[s..s + |n|][i - s]) == FoldByte(n[i - s]);
    assert n[i - s] == NUL;
  }

  /** Cutting at a NUL keeps the matches before it. */
  lemma TokenBeforeNul(h: seq<byte>, n: seq<byte>, k: nat, s: nat)
    requires k < |h| && h[k] == NUL && s + |n| <= k
    ensures TokenAt(h, n, s) <==> TokenAt(h[..k], n, s)
  {
    assert h[..k][s..s + |n|] == h[s..s + |n|];
  }

  /** A NUL outside the needle separates: a match lies wholly on one side. */
  lemma NulSeparates(h: seq<byte>, k: nat, n: seq<byte>)
    requires NUL !in n && k < |h| && h[k] == NUL
    ensures Occurs(h, n) <==> Occurs(h[..k], n) || Occurs(h[k + 1..], n)
  {
    if Occurs(h, n) {
      var s :| 0 <= s <= |h| && TokenAt(h, n, s);
      if s + |n| <= k {
        TokenBeforeNul(h, n, k, s);
      } else if s > k {
        ShiftToken(h, n, k + 1, s);
      } else {
        StraddlingMatch(h, n, s, k);
      }
    }
    if Occurs(h[..k], n) {
      var s :| 0 <= s <= |h[..k]| && TokenAt(h[..k], n, s);
      TokenBeforeNul(h, n, k, s);
    }
    if Occurs(h[k + 1..], n) {
      var s :| 0 <= s <= |h[k + 1..]| && TokenAt(h[k + 1..], n, s);
      ShiftToken(h, n, k + 1, s + k + 1);
    }
  }

  lemma MatchCarriesNul(h: seq<byte>, n: seq<byte>)
    requires Occurs(h, n)
    ensures NUL in n ==> NUL in h
  {
    var s :| 0 <= s <= |h| && TokenAt(h, n, s);
    if NUL in n {
      var i :| 0 <= i < |n| && n[i] == NUL;
      assert FoldByte(h[s..s + |n|][i]) == FoldByte(n[i]);
      assert h[s + i] == NUL;
    }
  }

  predicate OccursInSegment(h: seq<byte>, n: seq<byte>) {
    exists p :: p in SplitOn(h, NUL) && Occurs(p, n)
  }

  lemma {:induction false} SearchBySegments(h: seq<byte>, n: seq<byte>)
    requires NUL !in n
    ensures Occurs(h, n) <==> OccursInSegment(h, n)
    decreases |h|
  {
    SplitFirst(h, NUL);
    var p := SplitOn(h, NUL)[0];
    if NUL in h {
      var rest := h[|p| + 1..];
      assert h[..|p|] == p && h[|p|] == NUL;
      NulSeparates(h, |p|, n);
      SearchBySegments(rest, n);
      assert SplitOn(h, NUL) == [p] + SplitOn(rest, NUL);
      assert forall q :: q in SplitOn(h, NUL) <==> q == p || q in SplitOn(rest, NUL);
    }
  }

  /** The segment law holds for every payload exactly when the needle has no NUL. */
  lemma SegmentsIffNulFree(n: seq<byte>)
    ensures (forall h :: Occurs(h, n) <==> OccursInSegment(h, n)) <==> NUL !in n
  {
    if NUL !in n {
      forall h ensures Occurs(h, n) <==> OccursInSegment(h, n) {
        SearchBySegments(h, n);
      }
    } else {
      assert n[0..|n|] == n;
      assert TokenAt(n, n, 0);
      assert Occurs(n, n);
      SplitPartsFree(n, NUL);
      forall p | p in SplitOn(n, NUL) ensures !Occurs(p, n) {
        if Occurs(p, n) {
          MatchCarriesNul(p, n);
        }
      }
      assert !OccursInSegment(n, n);
    }
  }

  // ---- Case --------------------------------------------------------------

  lemma FoldKeepsIdentifiers(a: byte, b: byte)
    requires FoldByte(a) == FoldByte(b)
    ensures IsIdentifierByte(a) == IsIdentifierByte(b)
  {
  }

  lemma CaseIsIgnored(h: seq<byte>, n: seq<byte>, h': seq<byte>, n': seq<byte>)
    requires EqFold(h, h') && EqFold(n, n') && Occurs(h, n)
    ensures Occurs(h', n')
  {
    var s :| 0 <= s <= |h| && TokenAt(h, n, s);
    var e := s + |n|;
    forall i | 0 <= i < |n| ensures FoldByte(h'[s..e][i]) == FoldByte(n'[i]) {
      assert FoldByte(h[s..e][i]) == FoldByte(n[i]);
      assert h[s..e][i] == h[s + i];
    }
    if s > 0 { FoldKeepsIdentifiers(h[s - 1], h'[s - 1]); }
    if e < |h| { FoldKeepsIdentifiers(h[e], h'[e]); }
    assert TokenAt(h', n', s);
  }
}
