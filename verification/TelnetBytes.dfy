/**
  What each byte sent to the telnet codec does to a line or a key, said in numbers: every rule of
  the two specifications again, without the names and helpers they are written with.
 */
module TelnetBytes {
  import opened Basics
  import opened Utf8
  import opened TelnetSpec
  import TelnetStream

  // ---- Characters ----

  lemma EncodeAsciiByte(b: byte)
    requires b < 0x80
    ensures EncodeChar(b) == [b]
  {
  }

  /**
    The encoding of section 3 of RFC 3629, in numbers: how many bytes, their ranges, and the code
    point they carry.
   */
  lemma EncodingIsRfc3629(c: scalar)
    ensures
      var s := EncodeChar(c);
      && (c < 0x80 ==> s == [c])
      && (0x80 <= c < 0x800 ==>
            && |s| == 2 && 0xC2 <= s[0] <= 0xDF && 0x80 <= s[1] <= 0xBF
            && c == (s[0] as int - 192) * 64 + (s[1] as int - 128))
      && (0x800 <= c < 0x1_0000 ==>
            && |s| == 3 && 0xE0 <= s[0] <= 0xEF && 0x80 <= s[1] <= 0xBF && 0x80 <= s[2] <= 0xBF
            && c == (s[0] as int - 224) * 4096 + (s[1] as int - 128) * 64 + (s[2] as int - 128))
      && (0x1_0000 <= c ==>
            && |s| == 4 && 0xF0 <= s[0] <= 0xF4 && 0x80 <= s[1] <= 0xBF && 0x80 <= s[2] <= 0xBF && 0x80 <= s[3] <= 0xBF
            && c == (s[0] as int - 240) * 262144 + (s[1] as int - 128) * 4096 + (s[2] as int - 128) * 64
                    + (s[3] as int - 128))
  {
    EncodeCharRoundTrip(c);
  }

  /** The table of section 4 of RFC 3629. */
  lemma CompleteIsRfc3629(s: seq<byte>)
    ensures Complete(s) <==>
      || (|s| == 1 && s[0] <= 0x7F)
      || (|s| == 2 && 0xC2 <= s[0] <= 0xDF && 0x80 <= s[1] <= 0xBF)
      || (|s| == 3 && s[0] == 0xE0 && 0xA0 <= s[1] <= 0xBF && 0x80 <= s[2] <= 0xBF)
      || (|s| == 3 && 0xE1 <= s[0] <= 0xEC && 0x80 <= s[1] <= 0xBF && 0x80 <= s[2] <= 0xBF)
      || (|s| == 3 && s[0] == 0xED && 0x80 <= s[1] <= 0x9F && 0x80 <= s[2] <= 0xBF)
      || (|s| == 3 && 0xEE <= s[0] <= 0xEF && 0x80 <= s[1] <= 0xBF && 0x80 <= s[2] <= 0xBF)
      || (|s| == 4 && s[0] == 0xF0 && 0x90 <= s[1] <= 0xBF && 0x80 <= s[2] <= 0xBF && 0x80 <= s[3] <= 0xBF)
      || (|s| == 4 && 0xF1 <= s[0] <= 0xF3 && 0x80 <= s[1] <= 0xBF && 0x80 <= s[2] <= 0xBF && 0x80 <= s[3] <= 0xBF)
      || (|s| == 4 && s[0] == 0xF4 && 0x80 <= s[1] <= 0x8F && 0x80 <= s[2] <= 0xBF && 0x80 <= s[3] <= 0xBF)
  {
  }

  lemma Finishes(s: seq<byte>, t: seq<byte>)
    requires Partial(s) && |s| + |t| == Needed(s[0])
    requires if |s| == 1 then SecondFits(s[0], t[0]) else IsTail(t[0])
    requires forall i | 1 <= i < |t| :: IsTail(t[i])
    ensures t != [] && Complete(s + t)
  {
    var whole := s + t;
    assert whole[0] == s[0] && |whole| == Needed(s[0]);
    assert |s| >= 2 ==> whole[1] == s[1];
    assert |s| >= 3 ==> whole[2] == s[2];
  }

  /** A character is unfinished exactly if more bytes could finish it. */
  lemma PartialCanBeFinished(s: seq<byte>)
    ensures Partial(s) <==> s != [] && exists t: seq<byte> :: t != [] && Complete(s + t)
  {
    if Partial(s) {
      var second: byte := if s[0] == 0xE0 then 0xA0 else if s[0] == 0xF0 then 0x90 else 0x80;
      var rest := Needed(s[0]) - |s|;
      if |s| == 1 {
        Finishes(s, if rest == 1 then [second] else if rest == 2 then [second, 0x80] else [second, 0x80, 0x80]);
      } else {
        Finishes(s, if rest == 1 then [0x80] else [0x80, 0x80]);
      }
    }
    if t: seq<byte> :| t != [] && Complete(s + t) && s != [] {
      var whole := s + t;
      assert forall i | 0 <= i < |s| :: whole[i] == s[i];
    }
  }

  /** What a high byte stands for: the character that starts with it, or else itself in Latin-1. */
  lemma HighCharIs(s: seq<byte>)
    requires s != [] && s[0] >= 0x80
    ensures (exists c: scalar :: EncodeChar(c) <= s) ==>
      EncodeChar(HighChar(s).0) <= s && HighChar(s).1 == |EncodeChar(HighChar(s).0)|
    ensures (forall c: scalar :: !(EncodeChar(c) <= s)) ==> HighChar(s) == (s[0], 1)
  {
    hide EncodeChar, DecodeChar;
    if c: scalar :| EncodeChar(c) <= s {
      EncodeCharRoundTrip(c);
      var rest := s[|EncodeChar(c)|..];
      assert s == EncodeChar(c) + rest;
      CharLenOfComplete(EncodeChar(c), rest);
    }
    if CharLen(s) > 0 {
      DecodeCharRoundTrip(s[..CharLen(s)]);
      var decoded := DecodeChar(s[..CharLen(s)]);
      assert EncodeChar(decoded) <= s;
    }
  }

  // ---- Telnet commands ----

  /** Where a telnet command ends, `s` being what follows its 255. */
  lemma CommandEnds(c: byte, o: byte, rest: seq<byte>)
    ensures AfterIac([]) == None
    ensures 251 <= c <= 254 ==> AfterIac([c]) == Some([]) && AfterIac([c, o] + rest) == Some(rest)
    ensures AfterIac([250]) == None && AfterIac([250, 255]) == None
    ensures AfterIac([250, 255, 240] + rest) == Some(rest)
    ensures o != 255 ==> AfterIac([250, o] + rest) == AfterIac([250] + rest)
    ensures o != 240 ==> AfterIac([250, 255, o] + rest) == AfterIac([250] + rest)
    ensures c < 250 || c == 255 ==> AfterIac([c] + rest) == Some(rest)
  {
    var plain, pair, escape, closing := [c] + rest, [c, o] + rest, [250, 255, o] + rest, [250, 255, 240] + rest;
    var open, body := [250] + rest, [250, o] + rest;
    assert plain[1..] == rest && pair[2..] == rest && open[1..] == rest && [c][1..] == [];
    assert body[1..] == [o] + rest && body[1..][1..] == rest;
    assert escape[1..] == [255, o] + rest && escape[1..][2..] == rest;
    assert closing[1..] == [255, 240] + rest && closing[1..][2..] == rest;
    assert [250][1..] == [] && [250, 255][1..] == [255];
    assert AfterSub([255]) == None;
  }

  /** A subnegotiation of any body is swallowed whole. */
  lemma {:induction false} BodyIsSwallowed(body: seq<byte>, rest: seq<byte>)
    requires 255 !in body
    ensures AfterIac([250] + body + [255, 240] + rest) == Some(rest)
    decreases |body|
  {
    hide AfterIac;
    if body == [] {
      CommandEnds(0, 0, rest);
      assert [250] + body + [255, 240] + rest == [250, 255, 240] + rest;
    } else {
      var more := body[1..] + [255, 240] + rest;
      BodyIsSwallowed(body[1..], rest);
      CommandEnds(0, body[0], more);
      assert [250] + body[1..] + [255, 240] + rest == [250] + more;
      assert [250] + body + [255, 240] + rest == [250, body[0]] + more;
    }
  }

  // ---- What each byte does to a line ----

  /** A byte below 128, or 255, with the line so far and everything still to come. */
  lemma LineByte(b: byte, rest: seq<byte>, stack: seq<scalar>, mode: EchoMode, echoed: seq<scalar>)
    requires b < 0x80 || b == 255
    ensures
      var run := ReadLine([b] + rest, stack, mode, echoed);
      if b == 13 then run == Line(stack, ByCr, rest, echoed + [13, 10])
      else if b == 10 then run == Line(stack, ByLf, rest, echoed + [13, 10])
      else if (b == 8 || b == 127) && stack != [] then
        run == ReadLine(rest, stack[..|stack| - 1], mode, echoed + [8, 32, 8])
      else if b == 255 then
        match AfterIac(rest)
        case None => run == NoLine(stack, echoed)
        case Some(after) => run == ReadLine(after, stack, mode, echoed)
      else if b < 32 then run == ReadLine(rest, stack, mode, echoed)
      else if |Encode(stack)| + 1 <= 4096 then
        run == ReadLine(rest, stack + [b], mode, echoed + if mode == Visible then [b] else [42])
      else run == TooLong(stack, echoed)
  {
    hide Encode, AfterIac;
    if b < 0x80 { EncodeAsciiByte(b); }
    TelnetStream.ByteStep(b, rest, stack, mode, echoed);
  }

  /** A character of more than one byte. */
  lemma LineChar(c: scalar, rest: seq<byte>, stack: seq<scalar>, mode: EchoMode, echoed: seq<scalar>)
    requires c >= 0x80
    ensures
      var run := ReadLine(EncodeChar(c) + rest, stack, mode, echoed);
      if |Encode(stack)| + |EncodeChar(c)| <= 4096 then
        run == ReadLine(rest, stack + [c], mode, echoed + if mode == Visible then [c] else [42])
      else run == TooLong(stack, echoed)
  {
    EncodingIsRfc3629(c);
    hide EncodeChar, Encode, DecodeChar, ReadLine;
    EncodeCharRoundTrip(c);
    TelnetStream.CompleteStep(EncodeChar(c), rest, stack, mode, echoed);
  }

  /** A high byte that starts no character, whatever follows: the Latin-1 code point of its number. */
  lemma LineLatin1(b: byte, rest: seq<byte>, stack: seq<scalar>, mode: EchoMode, echoed: seq<scalar>)
    requires 0x80 <= b < 255 && !Partial([b] + rest) && forall c: scalar :: !(EncodeChar(c) <= [b] + rest)
    ensures
      var run := ReadLine([b] + rest, stack, mode, echoed);
      if |Encode(stack)| + 2 <= 4096 then
        run == ReadLine(rest, stack + [b], mode, echoed + if mode == Visible then [b] else [42])
      else run == TooLong(stack, echoed)
  {
    EncodingIsRfc3629(b);
    HighCharIs([b] + rest);
    hide EncodeChar, Encode, DecodeChar, HighChar;
    var input := [b] + rest;
    assert input[1..] == rest;
  }

  /** The peer closes: on nothing, on a line, or inside a character. */
  lemma LineEnds(tail: seq<byte>, stack: seq<scalar>, mode: EchoMode, echoed: seq<scalar>)
    requires tail == [] || Partial(tail)
    ensures
      var run := ReadLine(tail, stack, mode, echoed);
      if tail == [] && stack == [] then run == NoLine([], echoed)
      else
        && run.Line? && run.how == ByEof && run.rest == [] && run.echoed == echoed
        && |run.text| == |stack| + |tail| && run.text[..|stack|] == stack
        && forall i | 0 <= i < |tail| :: run.text[|stack| + i] == tail[i]
  {
  }

  /** A negotiation or a subnegotiation is invisible wherever it stands between two characters. */
  lemma CommandIsInvisible(c: byte, o: byte, body: seq<byte>, rest: seq<byte>, stack: seq<scalar>, mode: EchoMode,
                           echoed: seq<scalar>, arrives: nat -> bool, k: nat)
    requires 251 <= c <= 254 && 255 !in body
    ensures ReadLine([255] + ([c, o] + rest), stack, mode, echoed) == ReadLine(rest, stack, mode, echoed)
    ensures ReadLine([255] + ([250] + body + [255, 240] + rest), stack, mode, echoed)
         == ReadLine(rest, stack, mode, echoed)
    ensures ReadKey([255] + ([c, o] + rest), arrives, k) == ReadKey(rest, arrives, k)
    ensures ReadKey([255] + ([250] + body + [255, 240] + rest), arrives, k) == ReadKey(rest, arrives, k)
  {
    CommandEnds(c, o, rest);
    BodyIsSwallowed(body, rest);
    hide AfterIac, ReadLine;
    LineByte(255, [c, o] + rest, stack, mode, echoed);
    LineByte(255, [250] + body + [255, 240] + rest, stack, mode, echoed);
    KeyOfByte(255, [c, o] + rest, arrives, k);
    KeyOfByte(255, [250] + body + [255, 240] + rest, arrives, k);
  }

  // ---- What each byte does to a key ----

  /** Any byte at the front of a key read. */
  lemma KeyOfByte(b: byte, rest: seq<byte>, arrives: nat -> bool, k: nat)
    ensures
      var run := ReadKey([b] + rest, arrives, k);
      if b == 10 then run == ReadKey(rest, arrives, k)
      else if b == 255 then
        match AfterIac(rest)
        case None => run == KeyRun(None, [], k)
        case Some(after) => run == ReadKey(after, arrives, k)
      else if b == 13 then
        var trailer := arrives(k) && rest != [] && (rest[0] == 10 || rest[0] == 0);
        run == KeyRun(Some(Enter), if trailer then rest[1..] else rest, k + 1)
      else if b == 27 then
        run.key == Some(Other) && (run.rest, run.polls) == SwallowCsi(rest, arrives, k)
      else if b == 8 || b == 127 then run == KeyRun(Some(Backspace), rest, k)
      else if b == 3 then run == KeyRun(Some(CtrlC), rest, k)
      else if 32 <= b <= 126 then run == KeyRun(Some(Char(b)), rest, k)
      else run == KeyRun(Some(Other), rest, k)
    ensures ReadKey([], arrives, k) == KeyRun(None, [], k)
  {
    hide AfterIac, SwallowCsi;
    assert ([b] + rest)[1..] == rest;
  }

  /**
    What follows an ESC, as far as it has arrived: a bracket, parameters and one final byte, eight
    after the bracket at most.
   */
  lemma EscapeIsSwallowed(params: seq<byte>, final: byte, rest: seq<byte>, arrives: nat -> bool, k: nat)
    requires forall j | k <= j <= k + |params| :: arrives(j)
    requires forall i | 0 <= i < |params| :: !(0x40 <= params[i] <= 0x7E)
    requires 0x40 <= final <= 0x7E
    ensures |params| < 8 && arrives(k + 1 + |params|) ==>
      SwallowCsi([0x5B] + params + [final] + rest, arrives, k).0 == rest
    ensures |params| == 8 || (|params| < 8 && !arrives(k + 1 + |params|)) ==>
      SwallowCsi([0x5B] + params + rest, arrives, k).0 == rest
  {
    hide SwallowBody, SwallowCsi;
    var n := |params|;
    if n <= 8 {
      if n < 8 && arrives(k + 1 + n) {
        assert [0x5B] + params + [final] + rest == [0x5B] + (params + ([final] + rest));
        CsiFront(params + ([final] + rest), arrives, k);
        ParamsAreSwallowed(params, [final] + rest, arrives, k + 1, 8);
        SwallowFront(final, rest, arrives, k + 1 + n, 8 - n);
      } else {
        assert [0x5B] + params + rest == [0x5B] + (params + rest);
        CsiFront(params + rest, arrives, k);
        ParamsAreSwallowed(params, rest, arrives, k + 1, 8);
        SwallowFront(final, rest, arrives, k + 1 + n, 8 - n);
      }
    }
  }

  lemma CsiFront(s: seq<byte>, arrives: nat -> bool, k: nat)
    requires arrives(k)
    ensures SwallowCsi([0x5B] + s, arrives, k) == SwallowBody(s, arrives, k + 1, 8)
  {
    assert ([0x5B] + s)[1..] == s;
  }

  lemma SwallowFront(b: byte, rest: seq<byte>, arrives: nat -> bool, k: nat, left: int)
    ensures left > 0 && arrives(k) ==>
      SwallowBody([b] + rest, arrives, k, left)
      == (if 0x40 <= b <= 0x7E then (rest, k + 1) else SwallowBody(rest, arrives, k + 1, left - 1))
    ensures left > 0 && !arrives(k) ==> SwallowBody(rest, arrives, k, left) == (rest, k + 1)
    ensures left == 0 ==> SwallowBody(rest, arrives, k, 0) == (rest, k)
  {
    assert ([b] + rest)[1..] == rest;
  }

  lemma {:induction false} ParamsAreSwallowed(
      params: seq<byte>, rest: seq<byte>, arrives: nat -> bool, k: nat, left: nat)
    requires |params| <= left && forall i | 0 <= i < |params| :: !(0x40 <= params[i] <= 0x7E)
    requires forall j | k <= j < k + |params| :: arrives(j)
    ensures SwallowBody(params + rest, arrives, k, left)
         == SwallowBody(rest, arrives, k + |params|, left - |params|)
    ensures left == |params| ==> SwallowBody(params + rest, arrives, k, left).0 == rest
    decreases |params|
  {
    hide SwallowBody;
    if params == [] {
      SwallowFront(0, rest, arrives, k, 0);
      assert params + rest == rest;
    } else {
      SwallowFront(params[0], params[1..] + rest, arrives, k, left);
      ParamsAreSwallowed(params[1..], rest, arrives, k + 1, left - 1);
      assert params + rest == [params[0]] + (params[1..] + rest);
    }
  }

  /** Nothing is swallowed that has not arrived, nor anything that no bracket opens. */
  lemma EscapeAlone(s: seq<byte>, arrives: nat -> bool, k: nat)
    requires !arrives(k) || s == [] || s[0] != 0x5B
    ensures SwallowCsi(s, arrives, k) == (s, k + 1)
  {
  }
}
