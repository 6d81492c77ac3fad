/** UTF-8 (section 4 of RFC 3629): the encoder, and the lossy decoder that
    replaces every maximal ill-formed subsequence by one U+FFFD. A `char` is a
    Unicode scalar value. */
module Utf8 {
  import opened Bytes

  const REPLACEMENT: char := 0xFFFD as char

  function EncodeChar(c: char): (b: seq<byte>)
    ensures 1 <= |b| <= 4
  {
    var n := c as int;
    if n < 0x80 then [n as byte]
    else if n < 0x800 then [(0xC0 + n / 0x40) as byte, (0x80 + n % 0x40) as byte]
    else if n < 0x1_0000 then
      [(0xE0 + n / 0x1000) as byte, (0x80 + n / 0x40 % 0x40) as byte, (0x80 + n % 0x40) as byte]
    else
      [(0xF0 + n / 0x4_0000) as byte, (0x80 + n / 0x1000 % 0x40) as byte,
       (0x80 + n / 0x40 % 0x40) as byte, (0x80 + n % 0x40) as byte]
  }

  function Encode(s: string): seq<byte> {
    if s == [] then [] else EncodeChar(s[0]) + Encode(s[1..])
  }

  predicate IsContinuation(b: seq<byte>, i: nat) {
    i < |b| && 0x80 <= b[i] < 0xC0
  }

  /** May byte 1 follow byte 0 of a three-byte sequence? Excludes overlong forms and surrogates. */
  predicate SecondOfThree(b: seq<byte>)
    requires b != []
  {
    && IsContinuation(b, 1)
    && (b[0] == 0xE0 ==> b[1] >= 0xA0)
    && (b[0] == 0xED ==> b[1] < 0xA0)
  }

  /** The same for four bytes. Excludes overlong forms and values above U+10FFFF. */
  predicate SecondOfFour(b: seq<byte>)
    requires b != []
  {
    && IsContinuation(b, 1)
    && (b[0] == 0xF0 ==> b[1] >= 0x90)
    && (b[0] == 0xF4 ==> b[1] < 0x90)
  }

  /** The first decoded character and how many bytes it stands for. */
  function DecodeFirst(b: seq<byte>): (r: (char, nat))
    requires b != []
    ensures 1 <= r.1 <= |b|
    ensures r.0 as int < 0x80 <==> b[0] < 0x80
    ensures b[0] < 0x80 ==> r == (b[0] as char, 1)
  {
    var lead := b[0] as int;
    if lead < 0x80 then (lead as char, 1)
    else if 0xC2 <= lead < 0xE0 then
      if IsContinuation(b, 1) then (((lead - 0xC0) * 0x40 + (b[1] as int - 0x80)) as char, 2)
      else (REPLACEMENT, 1)
    else if 0xE0 <= lead < 0xF0 then
      if !SecondOfThree(b) then (REPLACEMENT, 1)
      else if !IsContinuation(b, 2) then (REPLACEMENT, 2)
      else (((lead - 0xE0) * 0x1000 + (b[1] as int - 0x80) * 0x40 + (b[2] as int - 0x80)) as char, 3)
    else if 0xF0 <= lead < 0xF5 then
      if !SecondOfFour(b) then (REPLACEMENT, 1)
      else if !IsContinuation(b, 2) then (REPLACEMENT, 2)
      else if !IsContinuation(b, 3) then (REPLACEMENT, 3)
      else
        (((lead - 0xF0) * 0x4_0000 + (b[1] as int - 0x80) * 0x1000
          + (b[2] as int - 0x80) * 0x40 + (b[3] as int - 0x80)) as char, 4)
    else (REPLACEMENT, 1)
  }

  /** `String::from_utf8_lossy`. */
  function Decode(b: seq<byte>): (s: string)
    ensures s == [] <==> b == []
  {
    if b == [] then []
    else
      var (c, n) := DecodeFirst(b);
      [c] + Decode(b[n..])
  }

  predicate IsAscii(s: string) {
    forall i :: 0 <= i < |s| ==> s[i] as int < 0x80
  }

  /** The six-bit digits of a scalar value that needs three bytes. */
  lemma ThreeDigits(n: int)
    requires 0x800 <= n < 0x1_0000 && !(0xD800 <= n < 0xE000)
    ensures var d, e, f := n / 0x1000, n / 0x40 % 0x40, n % 0x40;
      && n == d * 0x1000 + e * 0x40 + f && d < 0x10
      && (d == 0 ==> e >= 0x20) && (d == 13 ==> e < 0x20)
  {
    var q := n / 0x40;
    assert n / 0x1000 == q / 0x40;
  }

  /** The same for four bytes. */
  lemma FourDigits(n: int)
    requires 0x1_0000 <= n < 0x11_0000
    ensures var d, e, f, g := n / 0x4_0000, n / 0x1000 % 0x40, n / 0x40 % 0x40, n % 0x40;
      && n == d * 0x4_0000 + e * 0x1000 + f * 0x40 + g && d < 5
      && (d == 0 ==> e >= 0x10) && (d == 4 ==> e < 0x10)
  {
    var q := n / 0x40;
    var r := q / 0x40;
    assert n / 0x1000 == r;
    assert n / 0x4_0000 == r / 0x40;
  }

  lemma DecodeFirstOfEncoded(c: char, rest: seq<byte>)
    ensures DecodeFirst(EncodeChar(c) + rest) == (c, |EncodeChar(c)|)
  {
    var n := c as int;
    var e := EncodeChar(c);
    var b := e + rest;
    assert |b| >= |e| && forall i :: 0 <= i < |e| ==> b[i] == e[i];
    if 0x800 <= n < 0x1_0000 {
      ThreeDigits(n);
      assert SecondOfThree(b) && IsContinuation(b, 2);
    } else if 0x1_0000 <= n {
      FourDigits(n);
      assert SecondOfFour(b) && IsContinuation(b, 2) && IsContinuation(b, 3);
    }
  }

  /** Decoding undoes encoding, whatever follows. */
  lemma {:induction false} DecodeOfEncoded(s: string, rest: seq<byte>)
    ensures Decode(Encode(s) + rest) == s + Decode(rest)
  {
    if s == [] {
      assert Encode(s) + rest == rest;
      assert s + Decode(rest) == Decode(rest);
    } else {
      var tail := Encode(s[1..]) + rest;
      assert Encode(s) + rest == EncodeChar(s[0]) + tail;
      DecodeFirstOfEncoded(s[0], tail);
      assert (EncodeChar(s[0]) + tail)[|EncodeChar(s[0])|..] == tail;
      DecodeOfEncoded(s[1..], rest);
      assert [s[0]] + (s[1..] + Decode(rest)) == s + Decode(rest);
    }
  }

  lemma RoundTrip(s: string)
    ensures Decode(Encode(s)) == s
  {
    DecodeOfEncoded(s, []);
    assert Encode(s) + [] == Encode(s);
    assert s + Decode([]) == s;
  }

  // ---- Ill-formed input --------------------------------------------------

  /** Some character's encoding begins with these bytes. */
  ghost predicate BeginsACharacter(b: seq<byte>) {
    exists c: char :: b <= EncodeChar(c)
  }

  /** The four shapes of an encoding. */
  lemma EncodedShape(c: char)
    ensures var e := EncodeChar(c);
      || (|e| == 1 && e[0] < 0x80)
      || (|e| == 2 && 0xC2 <= e[0] < 0xE0 && IsContinuation(e, 1))
      || (|e| == 3 && 0xE0 <= e[0] < 0xF0 && SecondOfThree(e) && IsContinuation(e, 2))
      || (|e| == 4 && 0xF0 <= e[0] < 0xF5 && SecondOfFour(e) && IsContinuation(e, 2) && IsContinuation(e, 3))
  {
    var n := c as int;
    if 0x800 <= n < 0x1_0000 {
      ThreeDigits(n);
    } else if 0x1_0000 <= n {
      FourDigits(n);
    }
  }

  lemma LastDigit(q: int, r: int)
    requires 0 <= r < 0x40
    ensures (q * 0x40 + r) / 0x40 == q && (q * 0x40 + r) % 0x40 == r
  {
  }

  lemma TwoBytesBack(b: seq<byte>)
    requires |b| == 2 && 0xC2 <= b[0] < 0xE0 && IsContinuation(b, 1)
    ensures EncodeChar(DecodeFirst(b).0) == b
  {
    LastDigit(b[0] as int - 0xC0, b[1] as int - 0x80);
  }

  lemma ThreeBytesBack(b: seq<byte>)
    requires |b| == 3 && 0xE0 <= b[0] < 0xF0 && SecondOfThree(b) && IsContinuation(b, 2)
    ensures EncodeChar(DecodeFirst(b).0) == b
  {
    var d, e, f := b[0] as int - 0xE0, b[1] as int - 0x80, b[2] as int - 0x80;
    var n := DecodeFirst(b).0 as int;
    assert n == (d * 0x40 + e) * 0x40 + f;
    LastDigit(d * 0x40 + e, f);
    LastDigit(d, e);
    assert n / 0x1000 == n / 0x40 / 0x40;
  }

  lemma FourBytesBack(b: seq<byte>)
    requires |b| == 4 && 0xF0 <= b[0] < 0xF5 && SecondOfFour(b) && IsContinuation(b, 2) && IsContinuation(b, 3)
    ensures EncodeChar(DecodeFirst(b).0) == b
  {
    var d, e, f, g := b[0] as int - 0xF0, b[1] as int - 0x80, b[2] as int - 0x80, b[3] as int - 0x80;
    var n := DecodeFirst(b).0 as int;
    assert n == ((d * 0x40 + e) * 0x40 + f) * 0x40 + g;
    LastDigit((d * 0x40 + e) * 0x40 + f, g);
    LastDigit(d * 0x40 + e, f);
    LastDigit(d, e);
    assert n / 0x1000 == n / 0x40 / 0x40;
    assert n / 0x4_0000 == n / 0x40 / 0x40 / 0x40;
  }

  /** What the decoder does not replace is the encoding of what it reads. */
  lemma ReadIsEncoded(b: seq<byte>)
    requires b != []
    ensures var (c, n) := DecodeFirst(b); b[..n] == EncodeChar(c) || c == REPLACEMENT
    ensures var (c, n) := DecodeFirst(b);
      b[..n] != EncodeChar(c) ==> n <= 3 && DecodeFirst(b[..n]) == (c, n)
  {
    var (c, n) := DecodeFirst(b);
    var t := b[..n];
    if n == 2 && 0xC2 <= b[0] < 0xE0 {
      TwoBytesBack(t);
    } else if n == 3 && 0xE0 <= b[0] < 0xF0 {
      ThreeBytesBack(t);
    } else if n == 4 {
      FourBytesBack(t);
    }
  }

  /** A run of two bytes or more that is replaced begins a character: here is one. */
  lemma ReplacedRunBegins(b: seq<byte>)
    requires b != []
    ensures var (c, n) := DecodeFirst(b);
      n > 1 && b[..n] != EncodeChar(c) ==> BeginsACharacter(b[..n])
  {
    var (c, n) := DecodeFirst(b);
    ReadIsEncoded(b);
    if n > 1 && b[..n] != EncodeChar(c) {
      if b[0] < 0xE0 {
        TwoBytesBack(b[..2]);
      } else if b[0] < 0xF0 {
        Completed(b, b[..2] + [0x80], 2);
      } else if n == 2 {
        Completed(b, b[..2] + [0x80, 0x80], 2);
      } else {
        Completed(b, b[..3] + [0x80], 3);
      }
    }
  }

  lemma Completed(b: seq<byte>, whole: seq<byte>, n: nat)
    requires n <= |b| && b[..n] <= whole
    requires
      || (|whole| == 3 && 0xE0 <= whole[0] < 0xF0 && SecondOfThree(whole) && IsContinuation(whole, 2))
      || (|whole| == 4 && 0xF0 <= whole[0] < 0xF5 && SecondOfFour(whole)
          && IsContinuation(whole, 2) && IsContinuation(whole, 3))
    ensures BeginsACharacter(b[..n])
  {
    if |whole| == 3 {
      ThreeBytesBack(whole);
    } else {
      FourBytesBack(whole);
    }
    assert b[..n] <= EncodeChar(DecodeFirst(whole).0);
  }

  lemma ReplacedRunIsLongest(b: seq<byte>, d: char)
    requires b != []
    ensures var (c, n) := DecodeFirst(b);
      b[..n] != EncodeChar(c) && n < |b| ==> !(b[..n + 1] <= EncodeChar(d))
  {
    var (c, n) := DecodeFirst(b);
    ReadIsEncoded(b);
    var e := EncodeChar(d);
    EncodedShape(d);
    assert n < |b| && b[..n + 1] <= e ==> forall i :: 0 <= i <= n ==> e[i] == b[..n + 1][i] == b[i];
  }

  lemma EncodedIsRead(b: seq<byte>, d: char)
    requires b != []
    ensures var (c, n) := DecodeFirst(b); EncodeChar(d) <= b ==> b[..n] == EncodeChar(c)
  {
    var k := |EncodeChar(d)|;
    if EncodeChar(d) <= b {
      assert b == EncodeChar(d) + b[k..];
      DecodeFirstOfEncoded(d, b[k..]);
    }
  }

  /** Every step of the decoder: the character whose encoding comes next; or, where none
      does, U+FFFD for one byte or for the longest run that begins a character. */
  lemma DecodeFirstIsMaximal(b: seq<byte>)
    requires b != []
    ensures var (c, n) := DecodeFirst(b);
      || b[..n] == EncodeChar(c)
      || (&& c == 0xFFFD as char
          && (forall d: char :: !(EncodeChar(d) <= b))
          && (n == 1 || BeginsACharacter(b[..n]))
          && (n < |b| ==> !BeginsACharacter(b[..n + 1])))
  {
    var (c, n) := DecodeFirst(b);
    ReadIsEncoded(b);
    ReplacedRunBegins(b);
    if b[..n] != EncodeChar(c) {
      forall d: char ensures !(EncodeChar(d) <= b) {
        EncodedIsRead(b, d);
      }
      forall d: char ensures n < |b| ==> !(b[..n + 1] <= EncodeChar(d)) {
        ReplacedRunIsLongest(b, d);
      }
    }
  }

  /** Comparing decoded text with an ASCII key is comparing bytes: no malformed
      or overlong spelling decodes to the key. */
  lemma {:induction false} DecodesToAsciiIff(b: seq<byte>, key: string)
    requires IsAscii(key)
    ensures Decode(b) == key <==> b == Encode(key)
  {
    if b == [] {
      assert key != [] ==> |Encode(key)| >= 1;
    } else {
      var (c, n) := DecodeFirst(b);
      if key == [] {
      } else {
        DecodesToAsciiIff(b[n..], key[1..]);
        if Decode(b) == key {
          assert c == key[0] && Decode(b[n..]) == key[1..] by {
            assert Decode(b)[1..] == Decode(b[n..]);
          }
          assert b == [b[0]] + b[1..];
        }
        if b == Encode(key) {
          assert b[0] == EncodeChar(key[0])[0];
          assert b[1..] == Encode(key[1..]);
        }
      }
    }
  }

  lemma EncodeStep(s: string)
    requires s != []
    ensures Encode(s) == EncodeChar(s[0]) + Encode(s[1..])
  {
  }

  lemma {:induction false} EncodeAppend(a: string, b: string)
    ensures Encode(a + b) == Encode(a) + Encode(b)
  {
    if a == [] {
      assert a + b == b;
    } else {
      EncodeAppend(a[1..], b);
      assert (a + b)[1..] == a[1..] + b && (a + b)[0] == a[0];
      EncodeStep(a);
      EncodeStep(a + b);
      Assoc(EncodeChar(a[0]), Encode(a[1..]), Encode(b));
    }
  }

  /** The encoding of ASCII text: one byte a character. */
  lemma {:induction false} EncodeAscii(s: string)
    requires IsAscii(s)
    ensures |Encode(s)| == |s|
    ensures forall i :: 0 <= i < |s| ==> Encode(s)[i] as int == s[i] as int
  {
    if s != [] {
      EncodeAscii(s[1..]);
    }
  }

  /** A byte below 0x80 occurs in the encoding exactly where that character occurs in the text. */
  lemma {:induction false} EncodeKeepsAsciiBytes(s: string, x: byte)
    requires x < 0x80
    ensures x in Encode(s) <==> x as char in s
  {
    if s != [] {
      EncodeKeepsAsciiBytes(s[1..], x);
      assert x in EncodeChar(s[0]) <==> s[0] == x as char;
      assert s == [s[0]] + s[1..];
    }
  }

  /** The same for decoding. */
  lemma {:induction false} DecodeKeepsAsciiBytes(b: seq<byte>, x: byte)
    requires x < 0x80
    ensures x as char in Decode(b) <==> x in b
    decreases |b|
  {
    if b != [] {
      var (c, n) := DecodeFirst(b);
      DecodeKeepsAsciiBytes(b[n..], x);
      assert b == b[..n] + b[n..];
      assert x in b[..n] <==> c == x as char by {
        if b[0] < 0x80 {
          assert b[..n] == [b[0]];
        } else {
          assert forall i :: 0 <= i < n ==> b[i] >= 0x80;
        }
      }
    }
  }

  /** A key given both as text and as the same bytes. */
  lemma DecodesToKeyIff(b: seq<byte>, text: string, key: seq<byte>)
    requires IsAscii(text) && |key| == |text|
    requires forall i :: 0 <= i < |text| ==> key[i] as int == text[i] as int
    ensures Decode(b) == text <==> b == key
  {
    DecodesToAsciiIff(b, text);
    EncodeAscii(text);
    assert Encode(text) == key;
  }
}
