/** Bytes, big-endian words and separator-delimited lists. */
module Bytes {

  newtype byte = x: int | 0 <= x < 256

  const NUL: byte := 0

  /** One more than the largest 32-bit word. */
  const WORD := 0x1_0000_0000

  datatype Option<+T> = None | Some(value: T)

  /** `u32::from_be_bytes`. */
  function Be32(b: seq<byte>): (n: nat)
    requires |b| == 4
    ensures n < WORD
  {
    b[0] as int * 0x100_0000 + b[1] as int * 0x1_0000 + b[2] as int * 0x100 + b[3] as int
  }

  /** `u32::to_be_bytes`. */
  function ToBe32(n: nat): (b: seq<byte>)
    requires n < WORD
    ensures |b| == 4 && Be32(b) == n
  {
    var high, middle, low := n / 0x100 / 0x100 / 0x100, n / 0x100 / 0x100 % 0x100, n / 0x100 % 0x100;
    [high as byte, middle as byte, low as byte, (n % 0x100) as byte]
  }

  lemma Assoc<T>(a: seq<T>, b: seq<T>, c: seq<T>)
    ensures a + b + c == a + (b + c)
  {
  }

  lemma LastDigit(q: int, r: int, q': int, r': int)
    requires 0 <= r < 0x100 && 0 <= r' < 0x100 && q * 0x100 + r == q' * 0x100 + r'
    ensures q == q' && r == r'
  {
  }

  lemma Be32Injective(a: seq<byte>, b: seq<byte>)
    requires |a| == |b| == 4 && Be32(a) == Be32(b)
    ensures a == b
  {
    var a0, a1, a2, a3 := a[0] as int, a[1] as int, a[2] as int, a[3] as int;
    var b0, b1, b2, b3 := b[0] as int, b[1] as int, b[2] as int, b[3] as int;
    LastDigit((a0 * 0x100 + a1) * 0x100 + a2, a3, (b0 * 0x100 + b1) * 0x100 + b2, b3);
    LastDigit(a0 * 0x100 + a1, a2, b0 * 0x100 + b1, b2);
    LastDigit(a0, a1, b0, b1);
  }

  function Repeat<T>(x: T, n: nat): (s: seq<T>)
    ensures |s| == n && forall i :: 0 <= i < n ==> s[i] == x
  {
    if n == 0 then [] else [x] + Repeat(x, n - 1)
  }

  function Concat<T>(parts: seq<seq<T>>): seq<T> {
    if parts == [] then [] else parts[0] + Concat(parts[1..])
  }

  lemma {:induction false} ConcatAppend<T>(a: seq<seq<T>>, b: seq<seq<T>>)
    ensures Concat(a + b) == Concat(a) + Concat(b)
  {
    if a == [] {
      assert a + b == b;
    } else {
      ConcatAppend(a[1..], b);
      assert (a + b)[1..] == a[1..] + b;
    }
  }

  /** Splits at every occurrence of `sep`: k separators give k + 1 parts. */
  function SplitOn<T(==)>(s: seq<T>, sep: T): (parts: seq<seq<T>>)
    ensures |parts| >= 1
    ensures |parts[0]| <= |s|
  {
    if s == [] then [[]]
    else
      var rest := SplitOn(s[1..], sep);
      if s[0] == sep then [[]] + rest else [[s[0]] + rest[0]] + rest[1..]
  }

  lemma {:induction false} SplitWhole<T>(s: seq<T>, sep: T)
    requires sep !in s
    ensures SplitOn(s, sep) == [s]
  {
    if s != [] {
      SplitWhole(s[1..], sep);
      assert [s[0]] + s[1..] == s;
    }
  }

  lemma {:induction false} SplitAtSeparator<T>(a: seq<T>, sep: T, b: seq<T>)
    requires sep !in a
    ensures SplitOn(a + [sep] + b, sep) == [a] + SplitOn(b, sep)
  {
    if a == [] {
      assert a + [sep] + b == [sep] + b;
      assert ([sep] + b)[1..] == b;
    } else {
      SplitAtSeparator(a[1..], sep, b);
      var s := a + [sep] + b;
      assert s[1..] == a[1..] + [sep] + b;
      assert s[0] == a[0];
      assert [a[0]] + a[1..] == a;
    }
  }

  /** Where the first separator is. */
  function IndexOf<T(==)>(s: seq<T>, sep: T): (i: nat)
    ensures i <= |s| && sep !in s[..i] && (i < |s| ==> s[i] == sep)
    ensures i < |s| <==> sep in s
  {
    if s == [] || s[0] == sep then 0
    else
      var i := IndexOf(s[1..], sep);
      assert s[..i + 1] == [s[0]] + s[1..][..i];
      i + 1
  }

  lemma CutAtFirst<T>(s: seq<T>, sep: T)
    requires sep in s
    ensures var i := IndexOf(s, sep);
      i < |s| && s == s[..i] + [sep] + s[i + 1..] && SplitOn(s, sep) == [s[..i]] + SplitOn(s[i + 1..], sep)
  {
    var i := IndexOf(s, sep);
    CutAround(s, i);
    SplitAtSeparator(s[..i], sep, s[i + 1..]);
  }

  lemma CutAround<T>(s: seq<T>, i: nat)
    requires i < |s|
    ensures s == s[..i] + [s[i]] + s[i + 1..]
  {
  }

  /** Every list is its first part, or its first part, a separator and the rest. */
  lemma SplitFirst<T>(s: seq<T>, sep: T)
    ensures var p := SplitOn(s, sep)[0];
      && sep !in p
      && (sep !in s ==> p == s && SplitOn(s, sep) == [s])
      && (sep in s ==>
          && |p| < |s| && s == p + [sep] + s[|p| + 1..]
          && SplitOn(s, sep) == [p] + SplitOn(s[|p| + 1..], sep))
  {
    if sep in s {
      CutAtFirst(s, sep);
      assert SplitOn(s, sep)[0] == s[..IndexOf(s, sep)];
    } else {
      SplitWhole(s, sep);
    }
  }

  /** The parts of two texts with a separator between them are the parts of both. */
  lemma {:induction false} SplitJoins<T>(a: seq<T>, sep: T, b: seq<T>)
    ensures SplitOn(a + [sep] + b, sep) == SplitOn(a, sep) + SplitOn(b, sep)
    decreases |a|
  {
    SplitFirst(a, sep);
    var p := SplitOn(a, sep)[0];
    if sep in a {
      var rest := a[|p| + 1..];
      SplitJoins(rest, sep, b);
      assert a + [sep] + b == p + [sep] + (rest + [sep] + b);
      SplitAtSeparator(p, sep, rest + [sep] + b);
      Assoc([p], SplitOn(rest, sep), SplitOn(b, sep));
    } else {
      SplitAtSeparator(a, sep, b);
    }
  }

  function Join<T>(parts: seq<seq<T>>, sep: T): seq<T>
    requires parts != []
  {
    if |parts| == 1 then parts[0] else parts[0] + [sep] + Join(parts[1..], sep)
  }

  /** Splitting undoes joining, */
  lemma {:induction false} SplitOfJoin<T>(parts: seq<seq<T>>, sep: T)
    requires parts != [] && forall p :: p in parts ==> sep !in p
    ensures SplitOn(Join(parts, sep), sep) == parts
  {
    assert parts[0] in parts;
    if |parts| == 1 {
      SplitWhole(parts[0], sep);
    } else {
      SplitOfJoin(parts[1..], sep);
      SplitAtSeparator(parts[0], sep, Join(parts[1..], sep));
    }
  }

  /** and joining undoes splitting. */
  lemma {:induction false} JoinOfSplit<T>(s: seq<T>, sep: T)
    ensures Join(SplitOn(s, sep), sep) == s
    decreases |s|
  {
    SplitFirst(s, sep);
    var p := SplitOn(s, sep)[0];
    if sep in s {
      var rest := s[|p| + 1..];
      JoinOfSplit(rest, sep);
      assert SplitOn(s, sep)[1..] == SplitOn(rest, sep);
    }
  }

  lemma {:induction false} SplitPartsFree<T>(s: seq<T>, sep: T)
    ensures forall p :: p in SplitOn(s, sep) ==> sep !in p
    decreases |s|
  {
    SplitFirst(s, sep);
    if sep in s {
      SplitPartsFree(s[|SplitOn(s, sep)[0]| + 1..], sep);
    }
  }

  /** Total length of the parts, each counted with one separator. */
  function Extent<T>(parts: seq<seq<T>>): nat {
    if parts == [] then 0 else |parts[0]| + 1 + Extent(parts[1..])
  }

  lemma {:induction false} SplitExtent<T>(s: seq<T>, sep: T)
    ensures Extent(SplitOn(s, sep)) == |s| + 1
  {
    if s != [] {
      SplitExtent(s[1..], sep);
      var rest := SplitOn(s[1..], sep);
      if s[0] == sep {
        assert ([[]] + rest)[1..] == rest;
      } else {
        assert ([[s[0]] + rest[0]] + rest[1..])[1..] == rest[1..];
      }
    }
  }

  lemma {:induction false} ExtentAppend<T>(a: seq<seq<T>>, b: seq<seq<T>>)
    ensures Extent(a + b) == Extent(a) + Extent(b)
  {
    if a == [] {
      assert a + b == b;
    } else {
      ExtentAppend(a[1..], b);
      assert (a + b)[1..] == a[1..] + b;
    }
  }

  /** The bytes up to the first NUL, and what follows it. */
  function CString(b: seq<byte>): (r: Option<(seq<byte>, seq<byte>)>)
    ensures r.Some? ==> |r.value.1| < |b|
  {
    if NUL !in b then None
    else
      SplitFirst(b, NUL);
      var s := SplitOn(b, NUL)[0];
      Some((s, b[|s| + 1..]))
  }

  lemma CStringOf(s: seq<byte>, rest: seq<byte>)
    requires NUL !in s
    ensures CString(s + [NUL] + rest) == Some((s, rest))
  {
    SplitAtSeparator(s, NUL, rest);
    assert (s + [NUL] + rest)[|s|] == NUL;
  }

  // ---- Prefixes ----------------------------------------------------------

  /** What is left of `s` when only `room` bytes are accepted; no bound is `None`. */
  function Cut<T>(s: seq<T>, room: Option<nat>): (t: seq<T>)
    ensures t <= s
  {
    if room.Some? && room.value < |s| then s[..room.value] else s
  }

  predicate Fits(n: nat, room: Option<nat>) {
    room.Some? ==> n <= room.value
  }
}
