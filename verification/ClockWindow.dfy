/** The clock window of a rule, decided by comparing text. Models `time_in_range`
    and `is_hhmm` of guardian.rs. */
module ClockWindow {
  import opened Bytes
  import opened Text

  const DAY := 1440

  /** `split_once`: the text before and after the first separator. */
  function SplitOnce(s: string, sep: char): Option<(string, string)> {
    if s == [] then None
    else if s[0] == sep then Some(([], s[1..]))
    else
      match SplitOnce(s[1..], sep)
      case None => None
      case Some((a, b)) => Some(([s[0]] + a, b))
  }

  predicate IsTwoDigits(s: string) {
    |s| == 2 && IsDigit(s[0]) && IsDigit(s[1])
  }

  function TwoDigitValue(s: string): nat
    requires IsTwoDigits(s)
  {
    DigitValue(s[0]) * 10 + DigitValue(s[1])
  }

  predicate IsHhmm(s: string) {
    match SplitOnce(s, ':')
    case None => false
    case Some((h, m)) =>
      IsTwoDigits(h) && IsTwoDigits(m) && TwoDigitValue(h) < 24 && TwoDigitValue(m) < 60
  }

  predicate TimeInRange(now: string, range: string) {
    match SplitOnce(range, '-')
    case None => false
    case Some((rawStart, rawEnd)) =>
      var start, end := Trim(rawStart), Trim(rawEnd);
      IsHhmm(start) && IsHhmm(end) && BetweenTexts(now, start, end)
  }

  /** An end before its start wraps around midnight. */
  predicate BetweenTexts(now: string, start: string, end: string) {
    if TextLe(start, end) then TextLe(start, now) && TextLe(now, end)
    else TextLe(start, now) || TextLe(now, end)
  }

  // ---- Clock text and minutes --------------------------------------------

  type Minute = m: int | 0 <= m < DAY

  /** `format!("{:02}:{:02}")` of the hour and the minute. */
  function Clock(m: Minute): (s: string)
    ensures |s| == 5
  {
    [Digit(m / 60 / 10), Digit(m / 60 % 10), ':', Digit(m % 60 / 10), Digit(m % 60 % 10)]
  }

  function MinuteOf(s: string): Minute
    requires IsHhmm(s)
  {
    var (h, m) := SplitOnce(s, ':').value;
    TwoDigitValue(h) * 60 + TwoDigitValue(m)
  }

  lemma {:induction false} SplitOnceJoins(s: string, sep: char)
    ensures SplitOnce(s, sep).Some? ==>
      var (a, b) := SplitOnce(s, sep).value; s == a + [sep] + b && sep !in a
  {
    if s != [] && s[0] != sep {
      SplitOnceJoins(s[1..], sep);
    }
  }

  lemma {:induction false} SplitOnceAt(a: string, sep: char, b: string)
    requires sep !in a
    ensures SplitOnce(a + [sep] + b, sep) == Some((a, b))
  {
    var s := a + [sep] + b;
    if a == [] {
      assert s == [sep] + b;
    } else {
      SplitOnceAt(a[1..], sep, b);
      assert s[1..] == a[1..] + [sep] + b;
      assert [a[0]] + a[1..] == a;
    }
  }

  /** The clock texts are exactly the texts `is_hhmm` accepts. */
  lemma HhmmIsClock(s: string)
    requires IsHhmm(s)
    ensures s == Clock(MinuteOf(s))
  {
    SplitOnceJoins(s, ':');
    var (h, m) := SplitOnce(s, ':').value;
    var hv, mv := TwoDigitValue(h), TwoDigitValue(m);
    assert (hv * 60 + mv) / 60 == hv && (hv * 60 + mv) % 60 == mv;
    assert h == [Digit(hv / 10), Digit(hv % 10)] && m == [Digit(mv / 10), Digit(mv % 10)];
  }

  lemma ClockIsHhmm(m: Minute)
    ensures IsHhmm(Clock(m)) && MinuteOf(Clock(m)) == m
  {
    var h, n := [Digit(m / 60 / 10), Digit(m / 60 % 10)], [Digit(m % 60 / 10), Digit(m % 60 % 10)];
    assert Clock(m) == h + [':'] + n;
    SplitOnceAt(h, ':', n);
  }

  lemma TextLeFrom(a: string, b: string, k: nat)
    requires k < |a| && k < |b|
    ensures TextLe(a[k..], b[k..]) <==> a[k] < b[k] || (a[k] == b[k] && TextLe(a[k + 1..], b[k + 1..]))
  {
    assert a[k..][1..] == a[k + 1..] && b[k..][1..] == b[k + 1..];
  }

  lemma TextLeFive(a: string, b: string)
    requires |a| == |b| == 5
    ensures TextLe(a, b) <==>
      a[0] < b[0] || (a[0] == b[0] && (a[1] < b[1] || (a[1] == b[1] && (a[2] < b[2] || (a[2] == b[2]
      && (a[3] < b[3] || (a[3] == b[3] && a[4] <= b[4])))))))
  {
    assert a[0..] == a && b[0..] == b && a[5..] == [];
    TextLeFrom(a, b, 0);
    TextLeFrom(a, b, 1);
    TextLeFrom(a, b, 2);
    TextLeFrom(a, b, 3);
    TextLeFrom(a, b, 4);
  }

  /** Comparing clock texts is comparing minutes. */
  lemma ClockOrder(a: Minute, b: Minute)
    ensures TextLe(Clock(a), Clock(b)) <==> a <= b
  {
    TextLeFive(Clock(a), Clock(b));
    assert a == (a / 60) * 60 + a % 60 && b == (b / 60) * 60 + b % 60;
    assert a / 60 == (a / 60 / 10) * 10 + a / 60 % 10 && b / 60 == (b / 60 / 10) * 10 + b / 60 % 10;
    assert a % 60 == (a % 60 / 10) * 10 + a % 60 % 10 && b % 60 == (b % 60 / 10) * 10 + b % 60 % 10;
  }

  // ---- The window as a circular interval ---------------------------------

  /** Minutes from `start` forward to `m`, around midnight if need be. */
  function Offset(m: Minute, start: Minute): (d: nat)
    ensures d == if start <= m then m - start else m - start + DAY
  {
    (m - start) % DAY
  }

  /** `now` lies on the way round the clock from `start` to `end`, both included. */
  predicate InWindow(now: Minute, start: Minute, end: Minute) {
    Offset(now, start) <= Offset(end, start)
  }

  /** The two ends of a well-formed range. */
  function ParseRange(range: string): Option<(Minute, Minute)> {
    match SplitOnce(range, '-')
    case None => None
    case Some((a, b)) =>
      if IsHhmm(Trim(a)) && IsHhmm(Trim(b)) then Some((MinuteOf(Trim(a)), MinuteOf(Trim(b)))) else None
  }

  lemma BetweenClocks(now: Minute, start: Minute, end: Minute)
    ensures BetweenTexts(Clock(now), Clock(start), Clock(end)) <==> InWindow(now, start, end)
  {
    ClockOrder(start, end);
    ClockOrder(start, now);
    ClockOrder(now, end);
  }

  /** For every text: the rule's window is open exactly when the range is well formed
      and the minute lies in its circular interval. A malformed range is never open. */
  lemma WindowIsCircularInterval(now: Minute, range: string)
    ensures TimeInRange(Clock(now), range) <==>
      match ParseRange(range)
      case None => false
      case Some((start, end)) => InWindow(now, start, end)
  {
    match ParseRange(range)
    case None =>
    case Some((start, end)) =>
      var (a, b) := SplitOnce(range, '-').value;
      HhmmIsClock(Trim(a));
      HhmmIsClock(Trim(b));
      BetweenClocks(now, start, end);
  }

  /** A printed range is read back. */
  lemma PrintedRangeParses(start: Minute, end: Minute)
    ensures ParseRange(Clock(start) + "-" + Clock(end)) == Some((start, end))
  {
    ClockIsHhmm(start);
    ClockIsHhmm(end);
    assert '-' !in Clock(start);
    SplitOnceAt(Clock(start), '-', Clock(end));
    TrimVisible(Clock(start));
    TrimVisible(Clock(end));
  }

  /** The well-formed ranges are exactly these: two clock times with a dash between them,
      and white space around each. */
  lemma RangeIff(range: string, start: Minute, end: Minute)
    ensures ParseRange(range) == Some((start, end)) <==>
      exists a, b, c, d :: IsPaddedRange(range, start, end, a, b, c, d)
  {
    if ParseRange(range) == Some((start, end)) {
      var a, b, c, d := ParsedRangeIsPadded(range, start, end);
    }
    if exists a, b, c, d :: IsPaddedRange(range, start, end, a, b, c, d) {
      var a, b, c, d :| IsPaddedRange(range, start, end, a, b, c, d);
      PaddedRangeParses(range, start, end, a, b, c, d);
    }
  }

  lemma ParsedRangeIsPadded(range: string, start: Minute, end: Minute) returns (a: string, b: string, c: string, d: string)
    requires ParseRange(range) == Some((start, end))
    ensures IsPaddedRange(range, start, end, a, b, c, d)
  {
    SplitOnceJoins(range, '-');
    var (left, right) := SplitOnce(range, '-').value;
    HhmmIsClock(Trim(left));
    HhmmIsClock(Trim(right));
    a, b := TrimCuts(left);
    c, d := TrimCuts(right);
  }

  lemma PaddedRangeParses(range: string, start: Minute, end: Minute, a: string, b: string, c: string, d: string)
    requires IsPaddedRange(range, start, end, a, b, c, d)
    ensures ParseRange(range) == Some((start, end))
  {
    var left := a + Clock(start) + b;
    assert '-' !in left by {
      assert !IsWhitespace('-');
      assert '-' !in a && '-' !in Clock(start) && '-' !in b;
    }
    SplitOnceAt(left, '-', c + Clock(end) + d);
    TrimOfPadded(a, Clock(start), b);
    TrimOfPadded(c, Clock(end), d);
    ClockIsHhmm(start);
    ClockIsHhmm(end);
  }

  predicate IsPaddedRange(range: string, start: Minute, end: Minute, a: string, b: string, c: string, d: string) {
    && IsBlank(a) && IsBlank(b) && IsBlank(c) && IsBlank(d)
    && range == a + Clock(start) + b + ['-'] + (c + Clock(end) + d)
  }

  function Forward(start: Minute, n: nat): (m: Minute)
    requires n < DAY
    ensures Offset(m, start) == n
  {
    if start + n < DAY then start + n else start + n - DAY
  }

  /** The first `n + 1` minutes from `start` on. */
  function Span(start: Minute, n: nat): set<Minute>
    requires n < DAY
  {
    if n == 0 then {start} else Span(start, n - 1) + {Forward(start, n)}
  }

  lemma {:induction false} InSpan(m: Minute, start: Minute, n: nat)
    requires n < DAY
    ensures m in Span(start, n) <==> Offset(m, start) <= n
  {
    if n > 0 {
      InSpan(m, start, n - 1);
    }
  }

  lemma {:induction false} SpanSize(start: Minute, n: nat)
    requires n < DAY
    ensures |Span(start, n)| == n + 1
  {
    if n > 0 {
      SpanSize(start, n - 1);
      InSpan(Forward(start, n), start, n - 1);
    }
  }

  /** A window holds exactly ((end - start) mod 1440) + 1 minutes of the day. */
  lemma WindowSize(start: Minute, end: Minute)
    ensures |set m: Minute | 0 <= m < DAY && InWindow(m, start, end)| == (end - start) % DAY + 1
  {
    var n := Offset(end, start);
    SpanSize(start, n);
    forall m: Minute ensures m in Span(start, n) <==> InWindow(m, start, end) {
      InSpan(m, start, n);
    }
    assert (set m: Minute | 0 <= m < DAY && InWindow(m, start, end)) == Span(start, n);
  }

  /** The window from the minute after `end` to the minute before `start` is the exact
      complement, if and only if the window is not the whole day. */
  lemma WindowComplement(start: Minute, end: Minute)
    ensures (forall m: Minute :: InWindow(m, (end + 1) % DAY, (start - 1) % DAY) <==> !InWindow(m, start, end))
       <==> (end + 1) % DAY != start
  {
    var s': Minute, e': Minute := (end + 1) % DAY, (start - 1) % DAY;
    assert s' == if end == DAY - 1 then 0 else end + 1;
    assert e' == if start == 0 then DAY - 1 else start - 1;
    if s' == start {
      assert InWindow(start, start, end) && InWindow(start, s', e');
    }
  }
}
