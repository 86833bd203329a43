/**
  UTF-8 as section 4 of RFC 3629 defines it: a byte-range table that says which sequences are
  well formed, and the arithmetic that maps them to code points. The telnet line reader assembles
  characters against the table; everything it stores and echoes is stated in code points.
 */
module Utf8 {
  import opened Basics

  /** A Unicode scalar value: any code point that is not a surrogate. */
  type scalar = c: int | 0 <= c < 0xD800 || 0xE000 <= c < 0x11_0000

  predicate IsTail(b: byte) {
    0x80 <= b <= 0xBF
  }

  /** How many bytes the character led by `lead` has; 0 if no character starts with it. */
  function Needed(lead: byte): nat {
    if lead <= 0x7F then 1
    else if 0xC2 <= lead <= 0xDF then 2
    else if 0xE0 <= lead <= 0xEF then 3
    else if 0xF0 <= lead <= 0xF4 then 4
    else 0
  }

  predicate SecondFits(lead: byte, b: byte) {
    && IsTail(b)
    && (lead == 0xE0 ==> 0xA0 <= b)
    && (lead == 0xED ==> b <= 0x9F)
    && (lead == 0xF0 ==> 0x90 <= b)
    && (lead == 0xF4 ==> b <= 0x8F)
  }

  /** Every byte of `s` fits the table, so far: `s` begins (or is) one well-formed character. */
  predicate Viable(s: seq<byte>) {
    && 1 <= |s| <= Needed(s[0])
    && (|s| >= 2 ==> SecondFits(s[0], s[1]))
    && (|s| >= 3 ==> IsTail(s[2]))
    && (|s| >= 4 ==> IsTail(s[3]))
  }

  /** `s` is exactly one well-formed character. */
  predicate Complete(s: seq<byte>) {
    Viable(s) && |s| == Needed(s[0])
  }

  /** `s` is a proper prefix of some well-formed character. */
  predicate Partial(s: seq<byte>) {
    Viable(s) && |s| < Needed(s[0])
  }

  /** Length of the well-formed character at the front of `s`, or 0 if there is none. */
  function CharLen(s: seq<byte>): (n: nat)
    ensures n <= |s| && n <= 4
    ensures n > 0 ==> Complete(s[..n])
  {
    if s != [] && 0 < Needed(s[0]) <= |s| && Viable(s[..Needed(s[0])]) then Needed(s[0]) else 0
  }

  /** What `str::from_utf8` reports about the bytes of one character still being assembled. */
  datatype Validity = Valid | Incomplete | Invalid

  function FromUtf8(s: seq<byte>): (v: Validity) {
    if Complete(s) then Valid else if Partial(s) then Incomplete else Invalid
  }

  function EncodeChar(c: scalar): (s: seq<byte>)
    ensures 1 <= |s| <= 4
  {
    if c < 0x80 then [c]
    else if c < 0x800 then [0xC0 + c / 0x40, 0x80 + c % 0x40]
    else if c < 0x1_0000 then [0xE0 + c / 0x1000, 0x80 + c / 0x40 % 0x40, 0x80 + c % 0x40]
    else [0xF0 + c / 0x4_0000, 0x80 + c / 0x1000 % 0x40, 0x80 + c / 0x40 % 0x40, 0x80 + c % 0x40]
  }

  /** The six payload bits of a continuation byte. */
  function Low(b: byte): int {
    b - 0x80
  }

  function DecodeChar(s: seq<byte>): (c: scalar)
    requires Complete(s)
  {
    var lead: int := s[0];
    if |s| == 1 then lead
    else if |s| == 2 then (lead - 0xC0) * 0x40 + Low(s[1])
    else if |s| == 3 then (lead - 0xE0) * 0x1000 + Low(s[1]) * 0x40 + Low(s[2])
    else (lead - 0xF0) * 0x4_0000 + Low(s[1]) * 0x1000 + Low(s[2]) * 0x40 + Low(s[3])
  }

  /** A number from its base-64 digits. */
  lemma Digits(c: nat)
    ensures c == c / 0x40 * 0x40 + c % 0x40
    ensures c / 0x1000 == c / 0x40 / 0x40
    ensures c / 0x4_0000 == c / 0x1000 / 0x40
  {
  }

  /** Encoding a code point yields one well-formed character that decodes to it. */
  lemma EncodeCharRoundTrip(c: scalar)
    ensures Complete(EncodeChar(c)) && DecodeChar(EncodeChar(c)) == c
  {
    if c < 0x800 {
      Digits(c);
    } else if c < 0x1_0000 {
      ThreeBytesRoundTrip(c);
    } else {
      FourBytesRoundTrip(c);
    }
  }

  lemma ThreeBytesRoundTrip(c: scalar)
    requires 0x800 <= c < 0x1_0000
    ensures Complete(EncodeChar(c)) && DecodeChar(EncodeChar(c)) == c
  {
    Digits(c);
    Digits(c / 0x40);
    var high, middle, low := c / 0x1000, c / 0x40 % 0x40, c % 0x40;
    assert c == (high * 0x40 + middle) * 0x40 + low;
    assert EncodeChar(c) == [0xE0 + high, 0x80 + middle, 0x80 + low];
  }

  lemma FourBytesRoundTrip(c: scalar)
    requires 0x1_0000 <= c
    ensures Complete(EncodeChar(c)) && DecodeChar(EncodeChar(c)) == c
  {
    Digits(c);
    Digits(c / 0x40);
    Digits(c / 0x1000);
    var top, high, middle, low := c / 0x4_0000, c / 0x1000 % 0x40, c / 0x40 % 0x40, c % 0x40;
    assert c == ((top * 0x40 + high) * 0x40 + middle) * 0x40 + low;
    assert EncodeChar(c) == [0xF0 + top, 0x80 + high, 0x80 + middle, 0x80 + low];
  }

  /** Only the first byte of a character is not a continuation byte. */
  lemma CharShape(c: scalar)
    ensures var s := EncodeChar(c); !IsTail(s[0]) && forall j | 1 <= j < |s| :: IsTail(s[j])
  {
    EncodeCharRoundTrip(c);
  }

  lemma ThreeBytesDecode(s: seq<byte>)
    requires Complete(s) && |s| == 3
    ensures EncodeChar(DecodeChar(s)) == s
  {
    var c: int := DecodeChar(s);
    var high := s[0] as int - 0xE0;
    assert c == (high * 0x40 + Low(s[1])) * 0x40 + Low(s[2]);
    SplitDigits(high * 0x40 + Low(s[1]), Low(s[2]));
    SplitDigits(high, Low(s[1]));
    Digits(c);
  }

  lemma FourBytesDecode(s: seq<byte>)
    requires Complete(s) && |s| == 4
    ensures EncodeChar(DecodeChar(s)) == s
  {
    var c: int := DecodeChar(s);
    var top := s[0] as int - 0xF0;
    var upper := top * 0x40 + Low(s[1]);
    assert c == (upper * 0x40 + Low(s[2])) * 0x40 + Low(s[3]);
    SplitDigits(upper * 0x40 + Low(s[2]), Low(s[3]));
    SplitDigits(upper, Low(s[2]));
    SplitDigits(top, Low(s[1]));
    Digits(c);
  }

  /** Well-formed characters have no second spelling: re-encoding what was decoded restores the bytes. */
  lemma DecodeCharRoundTrip(s: seq<byte>)
    requires Complete(s)
    ensures EncodeChar(DecodeChar(s)) == s
  {
    if |s| == 2 {
      SplitDigits(s[0] - 0xC0, Low(s[1]));
    } else if |s| == 3 {
      ThreeBytesDecode(s);
    } else if |s| == 4 {
      FourBytesDecode(s);
    }
  }

  lemma SplitDigits(high: int, low: int)
    requires 0 <= low < 0x40
    ensures (high * 0x40 + low) / 0x40 == high && (high * 0x40 + low) % 0x40 == low
  {
  }

  /** The bytes of a string of code points. */
  function Encode(cs: seq<scalar>): (s: seq<byte>) {
    if cs == [] then [] else Encode(cs[..|cs| - 1]) + EncodeChar(cs[|cs| - 1])
  }

  lemma EncodeSnoc(cs: seq<scalar>, c: scalar)
    ensures Encode(cs + [c]) == Encode(cs) + EncodeChar(c)
  {
    assert (cs + [c])[..|cs|] == cs;
  }

  lemma {:induction false} EncodeConcat(a: seq<scalar>, b: seq<scalar>)
    ensures Encode(a + b) == Encode(a) + Encode(b)
  {
    if b == [] {
      assert a + b == a;
    } else {
      var front, last := b[..|b| - 1], b[|b| - 1];
      var tail := EncodeChar(last);
      assert Encode(a + b) == Encode(a + front) + tail by {
        assert a + b == (a + front) + [last];
        EncodeSnoc(a + front, last);
      }
      EncodeConcat(a, front);
      assert Encode(b) == Encode(front) + tail;
      assert (Encode(a) + Encode(front)) + tail == Encode(a) + (Encode(front) + tail);
    }
  }

  lemma EncodeCons(c: scalar, cs: seq<scalar>)
    ensures Encode([c] + cs) == EncodeChar(c) + Encode(cs)
  {
    EncodeConcat([c], cs);
    EncodeSnoc([], c);
  }

  lemma EncodeOne(c: scalar)
    ensures Encode([c]) == EncodeChar(c)
  {
    EncodeSnoc([], c);
  }

  /** The last character's bytes end the encoding; only its first byte is not a continuation byte. */
  lemma LastCharBytes(cs: seq<scalar>)
    ensures cs == [] <==> Encode(cs) == []
    ensures cs != [] ==>
      var last := EncodeChar(cs[|cs| - 1]);
      && Encode(cs) == Encode(cs[..|cs| - 1]) + last
      && !IsTail(last[0])
      && forall j | 1 <= j < |last| :: IsTail(last[j])
  {
    if cs != [] {
      hide EncodeChar;
      CharShape(cs[|cs| - 1]);
    }
  }

  /** ASCII text is its own encoding. */
  lemma {:induction false} EncodeAscii(cs: seq<scalar>)
    requires forall i | 0 <= i < |cs| :: cs[i] < 0x80
    ensures Encode(cs) == cs
  {
    if cs != [] {
      var front, last := cs[..|cs| - 1], cs[|cs| - 1];
      EncodeAscii(front);
      assert Encode(cs) == front + [last];
    }
  }

  /** A byte string is valid UTF-8 when it splits into well-formed characters, front to back. */
  predicate IsUtf8(s: seq<byte>) {
    s == [] || (CharLen(s) > 0 && IsUtf8(s[CharLen(s)..]))
  }

  /** The character at the front is found whatever follows it. */
  lemma CharLenOfComplete(s: seq<byte>, rest: seq<byte>)
    requires Complete(s)
    ensures CharLen(s + rest) == |s| && (s + rest)[..|s|] == s && (s + rest)[|s|..] == rest
  {
    assert (s + rest)[..|s|] == s;
  }

  lemma Utf8Cons(c: seq<byte>, rest: seq<byte>)
    requires Complete(c) && IsUtf8(rest)
    ensures IsUtf8(c + rest)
  {
    CharLenOfComplete(c, rest);
  }

  lemma Utf8Front(s: seq<byte>) returns (n: nat)
    requires IsUtf8(s) && s != []
    ensures 1 <= n <= |s| && Complete(s[..n]) && IsUtf8(s[n..])
  {
    n := CharLen(s);
  }

  lemma {:induction false} EncodeIsUtf8(cs: seq<scalar>)
    ensures IsUtf8(Encode(cs))
  {
    if cs != [] {
      EncodeCons(cs[0], cs[1..]);
      assert cs == [cs[0]] + cs[1..];
      EncodeCharRoundTrip(cs[0]);
      CharLenOfComplete(EncodeChar(cs[0]), Encode(cs[1..]));
      EncodeIsUtf8(cs[1..]);
    }
  }

  /** The strings valid by the table are exactly the encodings of code point strings. */
  lemma {:induction false} Utf8IsEncoding(s: seq<byte>)
    ensures IsUtf8(s) <==> exists cs :: Encode(cs) == s
  {
    if IsUtf8(s) {
      var cs := Decoded(s);
    }
    forall cs | Encode(cs) == s
      ensures IsUtf8(s)
    {
      EncodeIsUtf8(cs);
    }
  }

  lemma {:induction false} Decoded(s: seq<byte>) returns (cs: seq<scalar>)
    requires IsUtf8(s)
    ensures Encode(cs) == s
  {
    if s == [] {
      cs := [];
    } else {
      var n := CharLen(s);
      var rest := Decoded(s[n..]);
      DecodeCharRoundTrip(s[..n]);
      cs := [DecodeChar(s[..n])] + rest;
      EncodeCons(DecodeChar(s[..n]), rest);
      assert s[..n] + s[n..] == s;
    }
  }
}
