/**
  The telnet input codec as it runs: one byte at a time, with a one-byte pushback slot, a line
  buffer of bytes and a local buffer for the character being assembled. Every method is proved
  against `TelnetSpec`, which has neither pushback nor partial characters.
 */
module TelnetStream {
  import opened Basics
  import opened Utf8
  import opened TelnetSpec

  datatype LineResult = GotLine(bytes: seq<byte>) | EndOfInput | LineTooLong

  /** Committing the bytes of a dead character one by one: did all fit, the stack, the echo. */
  datatype Flushed = Flushed(ok: bool, stack: seq<scalar>, echoed: seq<scalar>)

  ghost function Flush(q: seq<byte>, stack: seq<scalar>, mode: EchoMode, echoed: seq<scalar>): Flushed {
    if q == [] then Flushed(true, stack, echoed)
    else if !Fits(stack, q[0]) then Flushed(false, stack, echoed)
    else Flush(q[1..], stack + [q[0]], mode, echoed + EchoOf(mode, q[0]))
  }

  /** No character starts anywhere in `q`, even with `rest` behind it. */
  ghost predicate Doomed(q: seq<byte>, rest: seq<byte>) {
    forall i :: 0 <= i < |q| ==>
      && 0x80 <= q[i] < IAC
      && CharLen(q[i..] + rest) == 0
      && !Partial(q[i..] + rest)
  }

  /** A dead character read ahead is a dead character flushed. */
  lemma {:induction false} FlushIsReadLine(
      q: seq<byte>, rest: seq<byte>, stack: seq<scalar>, mode: EchoMode, echoed: seq<scalar>)
    requires Doomed(q, rest)
    ensures
      var f := Flush(q, stack, mode, echoed);
      ReadLine(q + rest, stack, mode, echoed)
      == if f.ok then ReadLine(rest, f.stack, mode, f.echoed) else TooLong(f.stack, f.echoed)
  {
    if q == [] {
      assert q + rest == rest;
    } else {
      assert q[0..] == q;
      assert (q + rest)[1..] == q[1..] + rest;
      assert HighChar(q + rest) == (q[0], 1);
      if Fits(stack, q[0]) {
        forall i | 0 <= i < |q[1..]|
          ensures q[1..][i] == q[i + 1] && q[1..][i..] == q[i + 1..]
        {
        }
        FlushIsReadLine(q[1..], rest, stack + [q[0]], mode, echoed + EchoOf(mode, q[0]));
      }
    }
  }

  lemma NotViablePrefix(s: seq<byte>, rest: seq<byte>)
    requires s != [] && !Viable(s)
    ensures CharLen(s + rest) == 0 || CharLen(s + rest) < |s|
    ensures !Partial(s + rest)
  {
    var t := s + rest;
    assert forall i | 0 <= i < |s| :: t[i] == s[i];
  }

  /** A continuation byte that does not fit kills the character, itself included. */
  lemma DoomedByTail(p: seq<byte>, b: byte, rest: seq<byte>)
    requires Partial(p) && IsTail(b) && !Viable(p + [b])
    ensures Doomed(p + [b], rest)
  {
    var q := p + [b];
    assert forall i | 1 <= i < |q| :: IsTail(q[i]);
    assert q[0..] == q;
    NotViablePrefix(q, rest);
    assert CharLen(q + rest) == 0 by {
      assert (q + rest)[0] == p[0] && |q| <= Needed(p[0]);
    }
  }

  /** Any other byte kills it too, and is left for the next step. */
  lemma DoomedByOther(p: seq<byte>, b: byte, rest: seq<byte>)
    requires Partial(p) && !IsTail(b)
    ensures Doomed(p, [b] + rest)
  {
    assert forall i | 1 <= i < |p| :: IsTail(p[i]);
    assert p[0..] == p;
    var t := p + ([b] + rest);
    assert t[|p|] == b && t[0] == p[0];
    assert |p| < Needed(p[0]);
    assert !Partial(t);
    assert CharLen(t) == 0 by {
      var n := Needed(p[0]);
      if n <= |t| {
        assert t[..n][|p|] == b;
      }
    }
  }

  /** A byte that no character starts with is dealt with on its own. */
  lemma ByteStep(b: byte, rest: seq<byte>, stack: seq<scalar>, mode: EchoMode, echoed: seq<scalar>)
    requires b < 0x80 || b == IAC || !Viable([b])
    ensures
      var accepted :=
        if Fits(stack, b) then ReadLine(rest, stack + [b], mode, echoed + EchoOf(mode, b))
        else TooLong(stack, echoed);
      ReadLine([b] + rest, stack, mode, echoed)
      == if b == IAC then
           if AfterIac(rest).Some? then ReadLine(AfterIac(rest).value, stack, mode, echoed)
           else NoLine(stack, echoed)
         else if b >= 0x80 then accepted
         else if b == CR then Line(stack, ByCr, rest, echoed + CRLF)
         else if b == LF then Line(stack, ByLf, rest, echoed + CRLF)
         else if (b == BS || b == DEL) && stack != [] then
           ReadLine(rest, stack[..|stack| - 1], mode, echoed + ERASE)
         else if 0x20 <= b then accepted
         else ReadLine(rest, stack, mode, echoed)
  {
    var input := [b] + rest;
    assert input[1..] == rest && input[0] == b;
    if b >= 0x80 && b != IAC {
      NotViablePrefix([b], rest);
    }
  }

  /** A completed character is what reading ahead finds. */
  lemma CompleteStep(q: seq<byte>, rest: seq<byte>, stack: seq<scalar>, mode: EchoMode, echoed: seq<scalar>)
    requires Complete(q) && |q| > 1
    ensures
      var c := DecodeChar(q);
      ReadLine(q + rest, stack, mode, echoed)
      == if Fits(stack, c) then ReadLine(rest, stack + [c], mode, echoed + EchoOf(mode, c))
         else TooLong(stack, echoed)
  {
    CharLenOfComplete(q, rest);
    assert !Partial(q + rest);
  }

  class TelnetStream {
    /** Every byte the peer will send before it closes. */
    const socket: seq<byte>
    /** Whether the next byte has already arrived when the k-th non-blocking read is made. */
    const arrives: nat -> bool

    var pos: nat
    var polls: nat
    var pushback: Option<byte>
    /** The line under construction, kept by the caller between calls. */
    var buf: seq<byte>
    /** Everything written to the peer. */
    var wire: seq<byte>

    ghost predicate Valid()
      reads this`pos
    {
      pos <= |socket|
    }

    /** The bytes no call has delivered yet, in order. */
    ghost function Remaining(): seq<byte>
      reads this`pos, this`pushback
      requires Valid()
    {
      (match pushback case None => [] case Some(b) => [b]) + socket[pos..]
    }

    constructor (socket: seq<byte>, arrives: nat -> bool)
      ensures Valid() && Remaining() == socket && this.arrives == arrives
      ensures polls == 0 && buf == [] && wire == []
    {
      this.socket := socket;
      this.arrives := arrives;
      pos, polls, pushback, buf, wire := 0, 0, None, [], [];
    }

    method ReadOne() returns (b: Option<byte>)
      requires Valid()
      modifies this`pos, this`pushback
      ensures Valid() && pushback.None?
      ensures b.None? ==> old(Remaining()) == [] == Remaining()
      ensures b.Some? ==> old(Remaining()) == [b.value] + Remaining()
    {
      if pushback.Some? {
        b := pushback;
        pushback := None;
      } else if pos == |socket| {
        b := None;
      } else {
        b := Some(socket[pos]);
        pos := pos + 1;
      }
    }

    /** A non-blocking read: the next byte if it has arrived, None if it has not or there is none. */
    method TryRead() returns (b: Option<byte>)
      requires Valid() && pushback.None?
      modifies this`pos, this`polls
      ensures Valid() && polls == old(polls) + 1
      ensures b.None? <==> !arrives(old(polls)) || old(Remaining()) == []
      ensures b.None? ==> Remaining() == old(Remaining())
      ensures b.Some? ==> old(Remaining()) == [b.value] + Remaining() && Remaining() == old(Remaining())[1..]
    {
      if arrives(polls) && pos < |socket| {
        b := Some(socket[pos]);
        pos := pos + 1;
      } else {
        b := None;
      }
      polls := polls + 1;
    }

    method TryConsumeCrTrailer()
      requires Valid() && pushback.None?
      modifies this`pos, this`polls, this`pushback
      ensures Valid() && polls == old(polls) + 1
      ensures Remaining() == AfterCr(old(Remaining()), arrives(old(polls)))
    {
      var b := TryRead();
      if b.Some? && b.value != LF && b.value != NUL {
        pushback := b;
      }
    }

    method SkipIac() returns (complete: bool)
      requires Valid()
      modifies this`pos, this`pushback
      ensures Valid()
      ensures complete <==> AfterIac(old(Remaining())).Some?
      ensures Remaining() == if complete then AfterIac(old(Remaining())).value else []
    {
      hide AfterSub, Remaining;
      ghost var all := Remaining();
      var cmd := ReadOne();
      if cmd.None? { return false; }
      assert Remaining() == all[1..];
      if 0xFB <= cmd.value <= 0xFE {
        var _ := ReadOne();
      } else if cmd.value == SB {
        ghost var body := Remaining();
        while true
          invariant Valid()
          invariant AfterSub(body) == AfterSub(Remaining())
          decreases |Remaining()|
        {
          ghost var ahead := Remaining();
          AfterSubStep(ahead);
          var b1 := ReadOne();
          if b1.None? { return false; }
          assert Remaining() == ahead[1..];
          if b1.value == IAC {
            var b2 := ReadOne();
            if b2.None? { return false; }
            assert Remaining() == ahead[2..];
            if b2.value == SE { break; }
          }
        }
      }
      return true;
    }

    method CommitAccepted(bytes: seq<byte>, mode: EchoMode) returns (ok: bool)
      modifies this`buf, this`wire
      ensures ok <==> |old(buf)| + |bytes| <= MAX_TERMINAL_LINE_BYTES
      ensures ok ==> buf == old(buf) + bytes
      ensures ok ==> wire == old(wire) + if mode == Visible then bytes else [STAR]
      ensures !ok ==> buf == old(buf) && wire == old(wire)
    {
      if |buf| + |bytes| > MAX_TERMINAL_LINE_BYTES { return false; }
      buf := buf + bytes;
      wire := wire + if mode == Visible then bytes else [STAR];
      return true;
    }

    /** The buffer encodes `stack`, and since the wire read `base` the codec has echoed `echoed`. */
    ghost predicate Holds(stack: seq<scalar>, base: seq<byte>, echoed: seq<scalar>)
      reads this
    {
      buf == Encode(stack) && wire == base + Encode(echoed)
    }

    /** One accepted character, seen as a push on the stack that `buf` encodes. */
    method CommitChar(bytes: seq<byte>, mode: EchoMode, ghost c: scalar,
                      ghost stack: seq<scalar>, ghost base: seq<byte>, ghost echoed: seq<scalar>)
      returns (ok: bool)
      requires bytes == EncodeChar(c) && Holds(stack, base, echoed)
      modifies this`buf, this`wire
      ensures ok <==> Fits(stack, c)
      ensures ok ==> Holds(stack + [c], base, echoed + EchoOf(mode, c))
      ensures !ok ==> Holds(stack, base, echoed)
    {
      hide EncodeChar, Encode;
      ok := CommitAccepted(bytes, mode);
      EncodeSnoc(stack, c);
      EncodeOne(c);
      EncodeAscii([STAR]);
      EncodeConcat(echoed, EchoOf(mode, c));
    }

    /** Commits each byte of a dead character as the Latin-1 character it names. */
    method FlushPendingLatin1(q: seq<byte>, mode: EchoMode,
                              ghost stack: seq<scalar>, ghost base: seq<byte>, ghost echoed: seq<scalar>)
      returns (ok: bool)
      requires forall i :: 0 <= i < |q| ==> 0x80 <= q[i]
      requires Holds(stack, base, echoed)
      modifies this`buf, this`wire
      ensures var f := Flush(q, stack, mode, echoed); ok == f.ok && Holds(f.stack, base, f.echoed)
    {
      hide EncodeChar, Encode;
      var i := 0;
      ghost var st: seq<scalar>, e := stack, echoed;
      while i < |q|
        invariant 0 <= i <= |q|
        invariant Flush(q, stack, mode, echoed) == Flush(q[i..], st, mode, e)
        invariant Holds(st, base, e)
      {
        ok := CommitChar(Latin1ToUtf8(q[i]), mode, q[i], st, base, e);
        if !ok { return; }
        st, e := st + [q[i]], e + EchoOf(mode, q[i]);
        i := i + 1;
      }
      return true;
    }

    /** Drops the last whole character by walking back over its continuation bytes. */
    method PopLastChar(ghost stack: seq<scalar>) returns (popped: bool)
      requires buf == Encode(stack)
      modifies this`buf
      ensures popped <==> stack != []
      ensures buf == Encode(if popped then stack[..|stack| - 1] else stack)
    {
      hide EncodeChar, Encode;
      LastCharBytes(stack);
      if |buf| == 0 { return false; }
      ghost var below, top := Encode(stack[..|stack| - 1]), EncodeChar(stack[|stack| - 1]);
      assert forall j | 0 <= j < |top| :: buf[|below| + j] == top[j];
      var start := |buf| - 1;
      while start > 0 && 0x80 <= buf[start] <= 0xBF
        invariant |below| <= start < |buf|
      {
        assert start != |below| by { assert buf[|below|] == top[0]; }
        start := start - 1;
      }
      assert start == |below|;
      buf := buf[..start];
      return true;
    }

    /** At end of input the bytes of a half-typed character join the line unechoed and unchecked. */
    method AppendPending(pending: seq<byte>, ghost stack: seq<scalar>)
      requires forall i :: 0 <= i < |pending| ==> 0x80 <= pending[i]
      requires buf == Encode(stack)
      modifies this`buf
      ensures buf == Encode(stack + Latin1(pending))
    {
      hide EncodeChar, Encode;
      var i := 0;
      assert stack + Latin1(pending)[..0] == stack;
      while i < |pending|
        invariant 0 <= i <= |pending|
        invariant buf == Encode(stack + Latin1(pending)[..i])
      {
        buf := buf + Latin1ToUtf8(pending[i]);
        EncodeSnoc(stack + Latin1(pending)[..i], pending[i]);
        assert stack + Latin1(pending)[..i + 1] == (stack + Latin1(pending)[..i]) + [pending[i]];
        i := i + 1;
      }
      assert Latin1(pending)[..i] == Latin1(pending);
    }

    /** Writes bytes that are ASCII, so that they read as the same code points. */
    method Write(bytes: seq<byte>, ghost stack: seq<scalar>, ghost base: seq<byte>, ghost echoed: seq<scalar>)
      requires forall i | 0 <= i < |bytes| :: bytes[i] < 0x80
      requires Holds(stack, base, echoed)
      modifies this`wire
      ensures Holds(stack, base, echoed + bytes)
    {
      hide Encode;
      wire := wire + bytes;
      EncodeAscii(bytes);
      EncodeConcat(echoed, bytes);
    }

    /** The state after a call, begun at poll `k`, whose specification is `run`. */
    ghost predicate Matches(run: LineRun, r: LineResult, base: seq<byte>, k: nat)
      reads this
    {
      && Valid()
      && match run
         case Line(text, how, rest, echoed) =>
           && r == GotLine(Encode(text)) && buf == [] && wire == base + Encode(echoed)
           && Remaining() == (if how == ByCr then AfterCr(rest, arrives(k)) else rest)
           && polls == k + if how == ByCr then 1 else 0
         case NoLine(kept, echoed) =>
           r == EndOfInput && Holds(kept, base, echoed) && Remaining() == [] && polls == k
         case TooLong(kept, echoed) =>
           r == LineTooLong && Holds(kept, base, echoed) && polls == k
    }

    /** Reads one line, resuming from whatever `buf` (the encoding of `stack`) already holds. */
    method ReadTelnetLine(mode: EchoMode, ghost stack: seq<scalar>) returns (r: LineResult)
      requires Valid() && buf == Encode(stack)
      modifies this
      ensures Matches(ReadLine(old(Remaining()), stack, mode, []), r, old(wire), old(polls))
    {
      hide EncodeChar, Encode, DecodeChar, ReadLine, Flush, Partial, Doomed, Remaining, AfterCr;
      EncodeAscii([]);
      var pending: seq<byte> := [];
      ghost var st: seq<scalar>, e: seq<scalar> := stack, [];
      ghost var run := ReadLine(Remaining(), stack, mode, []);
      assert pending + Remaining() == Remaining();
      while true
        invariant Valid() && polls == old(polls)
        invariant pending == [] || Partial(pending)
        invariant Holds(st, old(wire), e)
        invariant ReadLine(pending + Remaining(), st, mode, e) == run
        decreases |Remaining()|
      {
        ghost var ahead := pending + Remaining();
        var next := ReadOne();
        if next.None? {
          assert ahead == pending;
          r := TakeAtEof(pending, st, old(wire), e);
          return;
        }
        var b := next.value;
        if pending != [] {
          assert ahead == (pending + [b]) + Remaining() == pending + ([b] + Remaining());
          var ok;
          if 0x80 <= b <= 0xBF {
            pending, ok, st, e := PendingTail(pending, b, mode, st, old(wire), e, Remaining());
            if !ok { return LineTooLong; }
            continue;
          }
          DoomedByOther(pending, b, Remaining());
          FlushIsReadLine(pending, [b] + Remaining(), st, mode, e);
          ok := FlushPendingLatin1(pending, mode, st, old(wire), e);
          if !ok { return LineTooLong; }
          ghost var f := Flush(pending, st, mode, e);
          st, e := f.stack, f.echoed;
          pending := [];
        } else {
          assert ahead == [b] + Remaining();
        }
        var ended;
        pending, ended, r, st, e := GroundByte(b, mode, st, old(wire), e);
        if ended { return; }
      }
    }

    /** End of input: what is held becomes the line, if anything is. */
    method TakeAtEof(pending: seq<byte>, ghost stack: seq<scalar>, ghost base: seq<byte>, ghost echoed: seq<scalar>)
      returns (r: LineResult)
      requires Valid() && Remaining() == []
      requires pending == [] || Partial(pending)
      requires Holds(stack, base, echoed)
      modifies this`buf
      ensures forall mode :: Matches(ReadLine(pending, stack, mode, echoed), r, base, polls)
    {
      hide Encode;
      AppendPending(pending, stack);
      LastCharBytes(stack + Latin1(pending));
      assert pending == [] ==> stack + Latin1(pending) == stack;
      if buf == [] { return EndOfInput; }
      r := GotLine(buf);
      buf := [];
    }

    /** A continuation byte for the character in `pending`, with `rest` still to come. */
    method PendingTail(pending: seq<byte>, b: byte, mode: EchoMode, ghost stack: seq<scalar>,
                       ghost base: seq<byte>, ghost echoed: seq<scalar>, ghost rest: seq<byte>)
      returns (pending': seq<byte>, ok: bool, ghost st: seq<scalar>, ghost e: seq<scalar>)
      requires Partial(pending) && IsTail(b) && Holds(stack, base, echoed)
      modifies this`buf, this`wire
      ensures pending' == [] || Partial(pending')
      ensures Holds(st, base, e)
      ensures ReadLine((pending + [b]) + rest, stack, mode, echoed)
           == if ok then ReadLine(pending' + rest, st, mode, e) else TooLong(st, e)
    {
      hide EncodeChar, Encode, DecodeChar, ReadLine, Flush;
      pending', ok, st, e := pending + [b], true, stack, echoed;
      match FromUtf8(pending')
      case Valid =>
        ghost var c := DecodeChar(pending');
        CompleteStep(pending', rest, st, mode, e);
        DecodeCharRoundTrip(pending');
        ok := CommitChar(pending', mode, c, st, base, e);
        if ok { st, e := st + [c], e + EchoOf(mode, c); }
        pending' := [];
        assert [] + rest == rest;
      case Incomplete =>
      case Invalid =>
        DoomedByTail(pending, b, rest);
        FlushIsReadLine(pending', rest, st, mode, e);
        ok := FlushPendingLatin1(pending', mode, st, base, e);
        ghost var f := Flush(pending', st, mode, e);
        st, e := f.stack, f.echoed;
        pending' := [];
      assert [] + rest == rest;
    }

    /** One byte with no character half assembled: the branches of the main match. */
    method GroundByte(b: byte, mode: EchoMode, ghost stack: seq<scalar>,
                      ghost base: seq<byte>, ghost echoed: seq<scalar>)
      returns (pending: seq<byte>, ended: bool, r: LineResult, ghost st: seq<scalar>, ghost e: seq<scalar>)
      requires Valid() && pushback.None? && Holds(stack, base, echoed)
      modifies this
      ensures
        var run := ReadLine([b] + old(Remaining()), stack, mode, echoed);
        if ended then Matches(run, r, base, old(polls))
        else
          && Valid() && |Remaining()| <= |old(Remaining())| && polls == old(polls)
          && (pending == [] || Partial(pending))
          && Holds(st, base, e)
          && run == ReadLine(pending + Remaining(), st, mode, e)
    {
      hide EncodeChar, Encode, ReadLine, AfterIac;
      ghost var rest := Remaining();
      if !Partial([b]) { ByteStep(b, rest, stack, mode, echoed); }
      pending, ended, r, st, e := [], false, EndOfInput, stack, echoed;
      assert forall s: seq<byte> :: [] + s == s;
      if b == IAC {
        var complete := SkipIac();
        ended := !complete;
      } else if b == CR || b == LF {
        if b == CR { TryConsumeCrTrailer(); }
        Write([CR, LF], stack, base, echoed);
        ended, r := true, GotLine(buf);
        buf := [];
      } else if b == BS || b == DEL {
        var popped := PopLastChar(stack);
        if popped {
          Write([BS, 0x20, BS], stack[..|stack| - 1], base, echoed);
          st, e := stack[..|stack| - 1], echoed + ERASE;
        } else if b == DEL {
          // On an empty line DEL is stored like any other character.
          EncodeAscii([b]);
          EncodeOne(b);
          var ok := CommitChar([b], mode, b, stack, base, echoed);
          ended, r, st, e := !ok, LineTooLong, stack + [b], echoed + EchoOf(mode, b);
        }
      } else if 0x20 <= b < DEL {
        EncodeAscii([b]);
        EncodeOne(b);
        var ok := CommitChar([b], mode, b, stack, base, echoed);
        ended, r, st, e := !ok, LineTooLong, stack + [b], echoed + EchoOf(mode, b);
      } else if 0x80 <= b {
        if FromUtf8([b]) == Incomplete {
          pending := [b];
        } else {
          var ok := CommitChar(Latin1ToUtf8(b), mode, b, stack, base, echoed);
          ended, r, st, e := !ok, LineTooLong, stack + [b], echoed + EchoOf(mode, b);
        }
      }
    }

    /** Reads one key, sharing the pushback slot with the line reader. Echoes nothing. */
    method ReadTelnetKey() returns (key: Option<KeyEvent>)
      requires Valid()
      modifies this`pos, this`polls, this`pushback
      ensures Valid()
      ensures KeyRun(key, Remaining(), polls) == ReadKey(old(Remaining()), arrives, old(polls))
      ensures key.Some? ==>
        var input, key := old(Remaining()), key.value;
        var b := input[|input| - |ReadKey(input, NEVER, 0).rest| - 1];
        && b != 0x0A && b != 0xFF
        && (key == Enter <==> b == 0x0D)
        && (key == Backspace <==> b == 0x08 || b == 0x7F)
        && (key == CtrlC <==> b == 0x03)
        && (key.Char? <==> 0x20 <= b <= 0x7E) && (key.Char? ==> key.b == b)
        && (key == Other <==> b > 0x7F || (b < 0x20 && b != 0x03 && b != 0x08 && b != 0x0D))
    {
      hide AfterIac, SwallowCsi;
      KeyIsItsByte(Remaining(), arrives, polls);
      ghost var run := ReadKey(Remaining(), arrives, polls);
      while true
        invariant Valid() && ReadKey(Remaining(), arrives, polls) == run
        decreases |Remaining()|
      {
        ghost var ahead := Remaining();
        var next := ReadOne();
        if next.None? { return None; }
        var b := next.value;
        assert ahead[1..] == Remaining();
        if b == IAC {
          var complete := SkipIac();
          if !complete { return None; }
        } else if b == CR {
          TryConsumeCrTrailer();
          return Some(Enter);
        } else if b == ESC {
          SwallowBufferedCsi();
          return Some(Other);
        } else if b != LF {
          return Some(KeyOf(b));
        }
      }
    }

    /** Swallows the part of an escape sequence that has already arrived, at most nine bytes. */
    method SwallowBufferedCsi()
      requires Valid()
      modifies this`pos, this`polls, this`pushback
      ensures Valid()
      ensures old(pushback).Some? ==> pos == old(pos) && pushback == old(pushback) && polls == old(polls)
      ensures old(pushback).None? ==>
        var (rest, k) := SwallowCsi(old(Remaining()), arrives, old(polls)); Remaining() == rest && polls == k
    {
      hide SwallowCsi, SwallowBody;
      if pushback.None? {
        ghost var s := Remaining();
        SwallowCsiStep(s, arrives, polls);
        var first := TryRead();
        if first == Some(0x5B) {
          SwallowSequence();
        } else {
          pushback := first;
          assert Remaining() == s;
        }
      }
    }

    /** The rest of the sequence, as far as it has arrived: eight bytes at most, up to its final byte. */
    method SwallowSequence()
      requires Valid() && pushback.None?
      modifies this`pos, this`polls
      ensures Valid()
      ensures (Remaining(), polls) == SwallowBody(old(Remaining()), arrives, old(polls), 8)
    {
      hide SwallowBody, Remaining;
      var i := 0;
      while i < 8
        invariant 0 <= i <= 8 && Valid()
        invariant SwallowBody(old(Remaining()), arrives, old(polls), 8)
          == SwallowBody(Remaining(), arrives, polls, 8 - i)
      {
        SwallowBodyStep(Remaining(), arrives, polls, 8 - i);
        var b := TryRead();
        if b.None? || 0x40 <= b.value <= 0x7E { return; }
        i := i + 1;
      }
      SwallowBodyEnd(Remaining(), arrives, polls);
    }
  }

  lemma SwallowCsiStep(s: seq<byte>, arrives: nat -> bool, k: nat)
    ensures SwallowCsi(s, arrives, k)
         == if arrives(k) && s != [] && s[0] == 0x5B then SwallowBody(s[1..], arrives, k + 1, 8) else (s, k + 1)
  {
  }

  lemma SwallowBodyStep(s: seq<byte>, arrives: nat -> bool, k: nat, left: nat)
    requires left > 0
    ensures SwallowBody(s, arrives, k, left) ==
      if !arrives(k) || s == [] then (s, k + 1)
      else if 0x40 <= s[0] <= 0x7E then (s[1..], k + 1)
      else SwallowBody(s[1..], arrives, k + 1, left - 1)
  {
  }

  lemma SwallowBodyEnd(s: seq<byte>, arrives: nat -> bool, k: nat)
    ensures SwallowBody(s, arrives, k, 0) == (s, k)
  {
  }

  lemma AfterSubStep(s: seq<byte>)
    ensures AfterSub(s) ==
      if s == [] then None
      else if s[0] != IAC then AfterSub(s[1..])
      else if |s| == 1 then None
      else if s[1] == SE then Some(s[2..])
      else AfterSub(s[2..])
  {
  }

  /** Re-encodes one high byte as its two-byte UTF-8 form: the code point of the same number. */
  function Latin1ToUtf8(b: byte): (s: seq<byte>)
    requires 0x80 <= b
    ensures s == EncodeChar(b)
  {
    [0xC0 + b / 0x40, 0x80 + b % 0x40]
  }
}
