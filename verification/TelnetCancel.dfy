/**
  Abandoning a read part way through a line, as happens when a message for the session arrives or
  its time is up, and reading on later. The line so far outlives the call. What else the call holds
  is lost, and so is the rest of an echo it was writing: exactly when the next call goes on as if
  nothing had happened.
 */
module TelnetCancel {
  import opened Basics
  import opened Utf8
  import opened TelnetSpec
  import opened TelnetLaws
  import TelnetStream

  // ---- Stopping while waiting for a byte ----

  /**
    Where the reader stands once it has consumed the bytes `a` and waits for more: the line so far,
    the echo so far, and the bytes held outside the line buffer (an unfinished character, or an
    unfinished telnet command), which an abandoned call forgets.
   */
  datatype Suspended = Over | Waiting(stack: seq<scalar>, echoed: seq<scalar>, held: seq<byte>)

  /** A telnet command whose end has not arrived. */
  predicate OpenCommand(s: seq<byte>) {
    s != [] && s[0] == IAC && (AfterIac(s[1..]).None? || (|s| == 2 && 0xFB <= s[1] <= 0xFE))
  }

  function Suspend(a: seq<byte>, stack: seq<scalar>, mode: EchoMode, echoed: seq<scalar>): Suspended
    decreases |a|
  {
    if a == [] || Partial(a) || OpenCommand(a) then Waiting(stack, echoed, a)
    else
      match Step(a, stack, mode, echoed)
      case Stop(_) => Over
      case Go(rest, st, e) => Suspend(rest, st, mode, e)
  }

  lemma {:induction false} AfterSubExtends(s: seq<byte>, b: seq<byte>)
    requires AfterSub(s).Some?
    ensures AfterSub(s + b) == Some(AfterSub(s).value + b)
  {
    assert (s + b)[1..] == s[1..] + b;
    if s[0] != IAC {
      AfterSubExtends(s[1..], b);
    } else {
      assert (s + b)[2..] == s[2..] + b;
      if s[1] != SE { AfterSubExtends(s[2..], b); }
    }
  }

  lemma CharLenExtends(a: seq<byte>, b: seq<byte>)
    requires a != [] && !Partial(a)
    ensures CharLen(a + b) == CharLen(a) && !Partial(a + b)
  {
    var t, n := a + b, Needed(a[0]);
    assert forall i | 0 <= i < |a| :: t[i] == a[i];
    if n <= |a| {
      assert t[..n] == a[..n];
    } else {
      assert !Viable(a);
      assert !Viable(t);
      if n <= |t| { assert forall i | 0 <= i < |a| :: t[..n][i] == a[i]; }
    }
  }

  lemma AfterIacExtends(a: seq<byte>, b: seq<byte>)
    requires a != [] && a[0] == IAC && !OpenCommand(a)
    ensures (a + b)[1..] == a[1..] + b
    ensures AfterIac(a[1..]).Some? && AfterIac(a[1..] + b) == Some(AfterIac(a[1..]).value + b)
  {
    assert (a + b)[1..] == a[1..] + b;
    var s := a[1..];
    assert (s + b)[1..] == s[1..] + b;
    if s[0] == SB {
      AfterSubExtends(s[1..], b);
    } else if 0xFB <= s[0] <= 0xFE {
      assert (s + b)[2..] == s[2..] + b;
    }
  }

  lemma HighCharExtends(a: seq<byte>, b: seq<byte>)
    requires a != [] && !Partial(a)
    ensures !Partial(a + b) && HighChar(a + b) == HighChar(a)
    ensures (a + b)[HighChar(a).1..] == a[HighChar(a).1..] + b
  {
    hide DecodeChar;
    CharLenExtends(a, b);
    assert (a + b)[..CharLen(a)] == a[..CharLen(a)];
  }

  /** A step taken when only `a` has arrived is the step taken with all of `a + b` in hand. */
  lemma StepExtends(a: seq<byte>, b: seq<byte>, stack: seq<scalar>, mode: EchoMode, echoed: seq<scalar>)
    requires a != [] && !Partial(a) && !OpenCommand(a)
    ensures
      match Step(a, stack, mode, echoed)
      case Go(rest, st, e) => Step(a + b, stack, mode, echoed) == Go(rest + b, st, e)
      case Stop(_) => true
  {
    hide EncodeChar, Encode, HighChar, Partial, AfterIac, OpenCommand;
    HighCharExtends(a, b);
    if a[0] == IAC {
      AfterIacExtends(a, b);
    } else {
      assert (a + b)[1..] == a[1..] + b;
    }
  }

  /** An uninterrupted read goes on from the line so far and the bytes held. */
  lemma {:induction false} SuspendLaw(
      a: seq<byte>, b: seq<byte>, stack: seq<scalar>, mode: EchoMode, echoed: seq<scalar>)
    ensures
      match Suspend(a, stack, mode, echoed)
      case Over => true
      case Waiting(st, e, held) => ReadLine(a + b, stack, mode, echoed) == ReadLine(held + b, st, mode, e)
    decreases |a|
  {
    hide Step;
    if a != [] && !Partial(a) && !OpenCommand(a) {
      StepExtends(a, b, stack, mode, echoed);
      match Step(a, stack, mode, echoed)
      case Stop(_) =>
      case Go(rest, st, e) => SuspendLaw(rest, b, st, mode, e);
    }
  }

  /** What is held decides how the very next byte is read. */
  lemma HeldMatters(held: seq<byte>, stack: seq<scalar>, mode: EchoMode, echoed: seq<scalar>)
    requires Partial(held) || OpenCommand(held)
    ensures ReadLine(held + [CR], stack, mode, echoed) != ReadLine([CR], stack, mode, echoed)
  {
    var t := held + [CR];
    CrStep([], stack, mode, echoed);
    assert [CR] + [] == [CR];
    assert ReadLine([CR], stack, mode, echoed) == Line(stack, ByCr, [], echoed + CRLF);
    if Partial(held) {
      TelnetStream.DoomedByOther(held, CR, []);
      assert [CR] + [] == [CR];
      TelnetStream.FlushIsReadLine(held, [CR], stack, mode, echoed);
      FlushGrows(held, stack, mode, echoed);
      var f := TelnetStream.Flush(held, stack, mode, echoed);
      CrStep([], f.stack, mode, f.echoed);
    } else {
      assert t[1..] == held[1..] + [CR];
      if held == [IAC] {
        assert AfterIac([CR]) == Some([]);
      } else if held[1] == SB {
        OpenSubStaysOpen(held[2..]);
        assert t[1..][1..] == held[2..] + [CR];
      }
    }
  }

  lemma {:induction false} FlushGrows(q: seq<byte>, stack: seq<scalar>, mode: EchoMode, echoed: seq<scalar>)
    ensures
      var f := TelnetStream.Flush(q, stack, mode, echoed);
      |f.stack| >= |stack| && (f.ok && q != [] ==> |f.stack| > |stack|)
  {
    if q != [] && Fits(stack, q[0]) {
      FlushGrows(q[1..], stack + [q[0]], mode, echoed + EchoOf(mode, q[0]));
    }
  }

  lemma {:induction false} OpenSubStaysOpen(s: seq<byte>)
    requires AfterSub(s).None?
    ensures AfterSub(s + [CR]).None?
  {
    var t := s + [CR];
    if s == [] {
      assert t[1..] == [];
    } else {
      assert t[1..] == s[1..] + [CR];
      if s[0] != IAC {
        OpenSubStaysOpen(s[1..]);
      } else if |s| == 1 {
        assert t[2..] == [];
      } else {
        assert t[2..] == s[2..] + [CR];
        if s[1] != SE { OpenSubStaysOpen(s[2..]); }
      }
    }
  }

  /**
    A read abandoned after the bytes `a` and started again resumes exactly where it stopped, for
    whatever bytes follow, if and only if no character and no telnet command was cut short.
   */
  lemma ResumeIffNothingHeld(a: seq<byte>, stack: seq<scalar>, mode: EchoMode, echoed: seq<scalar>)
    requires Suspend(a, stack, mode, echoed).Waiting?
    ensures
      var s := Suspend(a, stack, mode, echoed);
      (forall b :: ReadLine(a + b, stack, mode, echoed) == ReadLine(b, s.stack, mode, s.echoed))
      <==> s.held == []
  {
    hide ReadLine;
    var s := Suspend(a, stack, mode, echoed);
    forall b: seq<byte>
      ensures ReadLine(a + b, stack, mode, echoed) == ReadLine(s.held + b, s.stack, mode, s.echoed)
    {
      SuspendLaw(a, b, stack, mode, echoed);
    }
    if s.held == [] {
      assert forall b: seq<byte> :: [] + b == b;
    } else {
      WhatIsHeld(a, stack, mode, echoed);
      HeldMatters(s.held, s.stack, mode, s.echoed);
      assert ReadLine(a + [CR], stack, mode, echoed) != ReadLine([CR], s.stack, mode, s.echoed);
    }
  }

  lemma {:induction false} WhatIsHeld(a: seq<byte>, stack: seq<scalar>, mode: EchoMode, echoed: seq<scalar>)
    requires Suspend(a, stack, mode, echoed).Waiting?
    ensures var held := Suspend(a, stack, mode, echoed).held; held == [] || Partial(held) || OpenCommand(held)
    decreases |a|
  {
    hide Step;
    if a != [] && !Partial(a) && !OpenCommand(a) {
      var next := Step(a, stack, mode, echoed);
      WhatIsHeld(next.rest, next.stack, mode, next.echoed);
    }
  }

  // ---- Stopping while an echo is being written ----

  /**
    A write of `echo` in progress: the line with the echoed character already in it (or, for an
    ending, still the line), the echo before, and the bytes read ahead that the call alone holds.
   */
  datatype EchoStop = EchoStop(
    echo: seq<scalar>, stack: seq<scalar>, echoed: seq<scalar>, held: seq<byte>, ends: bool)

  function EchoPush(c: scalar, stack: seq<scalar>, mode: EchoMode, echoed: seq<scalar>): seq<EchoStop> {
    if Fits(stack, c) then [EchoStop(EchoOf(mode, c), stack + [c], echoed, [], false)] else []
  }

  /** The write that a byte leads to when no character is half assembled, if it leads to one. */
  function GroundEcho(b: byte, stack: seq<scalar>, mode: EchoMode, echoed: seq<scalar>): seq<EchoStop> {
    if b == IAC || Partial([b]) then []
    else if b == CR || b == LF then [EchoStop(CRLF, stack, echoed, [], true)]
    else if (b == BS || b == DEL) && stack != [] then
      [EchoStop(ERASE, stack[..|stack| - 1], echoed, [], false)]
    else if 0x20 <= b then EchoPush(b, stack, mode, echoed)
    else []
  }

  /** The writes of a dead character, byte by byte; the bytes not yet committed are held, and `after` them. */
  function FlushEchoes(
      q: seq<byte>, after: seq<byte>, stack: seq<scalar>, mode: EchoMode, echoed: seq<scalar>): seq<EchoStop>
  {
    if q == [] || !Fits(stack, q[0]) then []
    else
      [EchoStop(EchoOf(mode, q[0]), stack + [q[0]], echoed, q[1..] + after, false)]
      + FlushEchoes(q[1..], after, stack + [q[0]], mode, echoed + EchoOf(mode, q[0]))
  }

  /** The writes that the byte `b` leads to after the bytes `held`, in order. */
  ghost function Echoes(
      held: seq<byte>, b: byte, stack: seq<scalar>, mode: EchoMode, echoed: seq<scalar>): seq<EchoStop>
  {
    if held == [] then GroundEcho(b, stack, mode, echoed)
    else if OpenCommand(held) then []
    else if IsTail(b) then
      match FromUtf8(held + [b])
      case Valid => EchoPush(DecodeChar(held + [b]), stack, mode, echoed)
      case Incomplete => []
      case Invalid => FlushEchoes(held + [b], [], stack, mode, echoed)
    else
      var f := TelnetStream.Flush(held, stack, mode, echoed);
      FlushEchoes(held, [b], stack, mode, echoed) + if f.ok then GroundEcho(b, f.stack, mode, f.echoed) else []
  }

  /** What an uninterrupted call comes to after the write. */
  ghost predicate GoesOn(run: LineRun, e: EchoStop, mode: EchoMode, later: seq<byte>) {
    if e.ends then run.Line? && run.text == e.stack && run.rest == later && run.echoed == e.echoed + e.echo
    else run == ReadLine(e.held + later, e.stack, mode, e.echoed + e.echo)
  }

  /** The bytes held at a write are continuation bytes and at most one byte more, and the line is not empty. */
  ghost predicate HeldRight(e: EchoStop) {
    e.held != [] ==>
      && e.stack != [] && !e.ends
      && forall k | 0 <= k < |e.held| - 1 :: IsTail(e.held[k])
  }

  lemma GroundEchoLaw(b: byte, later: seq<byte>, stack: seq<scalar>, mode: EchoMode, echoed: seq<scalar>)
    ensures forall i | 0 <= i < |GroundEcho(b, stack, mode, echoed)| ::
      var e := GroundEcho(b, stack, mode, echoed)[i];
      GoesOn(ReadLine([b] + later, stack, mode, echoed), e, mode, later) && HeldRight(e)
      && (e.ends ==> ReadLine([b] + later, stack, mode, echoed).how == if b == CR then ByCr else ByLf)
  {
    hide EncodeChar, Encode, ReadLine, AfterIac;
    assert [] + later == later;
    if b != IAC && !Partial([b]) {
      TelnetStream.ByteStep(b, later, stack, mode, echoed);
    }
  }

  lemma {:induction false} FlushEchoLaw(
      q: seq<byte>, after: seq<byte>, later: seq<byte>, stack: seq<scalar>, mode: EchoMode, echoed: seq<scalar>, i: nat)
    requires TelnetStream.Doomed(q, after + later) && |after| <= 1
    requires forall k | 1 <= k < |q| :: IsTail(q[k])
    requires i < |FlushEchoes(q, after, stack, mode, echoed)|
    ensures
      var e := FlushEchoes(q, after, stack, mode, echoed)[i];
      && !e.ends && HeldRight(e)
      && GoesOn(ReadLine(q + (after + later), stack, mode, echoed), e, mode, later)
    decreases |q|
  {
    hide EncodeChar, Encode, ReadLine, DecodeChar, CharLen, Partial;
    var rest := after + later;
    DoomedFront(q, rest);
    assert q + rest == [q[0]] + (q[1..] + rest);
    TelnetStream.FlushIsReadLine([q[0]], q[1..] + rest, stack, mode, echoed);
    FlushOne(q[0], stack, mode, echoed);
    assert q[1..] + rest == (q[1..] + after) + later;
    if i > 0 {
      FlushEchoLaw(q[1..], after, later, stack + [q[0]], mode, echoed + EchoOf(mode, q[0]), i - 1);
    }
  }

  lemma FlushOne(b: byte, stack: seq<scalar>, mode: EchoMode, echoed: seq<scalar>)
    requires Fits(stack, b)
    ensures TelnetStream.Flush([b], stack, mode, echoed)
         == TelnetStream.Flushed(true, stack + [b], echoed + EchoOf(mode, b))
  {
    hide EncodeChar, Encode;
    assert [b][1..] == [];
  }

  lemma DoomedFront(q: seq<byte>, rest: seq<byte>)
    requires TelnetStream.Doomed(q, rest) && q != []
    ensures TelnetStream.Doomed([q[0]], q[1..] + rest) && TelnetStream.Doomed(q[1..], rest)
  {
    hide CharLen, Partial;
    assert q[0..] == q && [q[0]][0..] == [q[0]];
    assert [q[0]] + (q[1..] + rest) == q + rest;
    forall i | 0 <= i < |q[1..]|
      ensures q[1..][i] == q[i + 1] && q[1..][i..] == q[i + 1..]
    {
    }
  }

  /** At each write, an uninterrupted call goes on from the line and the bytes held. */
  lemma EchoLaw(
      held: seq<byte>, b: byte, later: seq<byte>, stack: seq<scalar>, mode: EchoMode, echoed: seq<scalar>, i: nat)
    requires held == [] || Partial(held) || OpenCommand(held)
    requires i < |Echoes(held, b, stack, mode, echoed)|
    ensures
      var e := Echoes(held, b, stack, mode, echoed)[i];
      var run := ReadLine(held + ([b] + later), stack, mode, echoed);
      && HeldRight(e) && GoesOn(run, e, mode, later)
      && (e.ends ==> (b == CR || b == LF) && run.how == if b == CR then ByCr else ByLf)
  {
    hide EncodeChar, Encode, DecodeChar, ReadLine, GroundEcho, FlushEchoes, GoesOn, HeldRight;
    if held == [] {
      assert [] + ([b] + later) == [b] + later;
      GroundEchoLaw(b, later, stack, mode, echoed);
      GroundEchoEnds(b, stack, mode, echoed);
    } else if IsTail(b) {
      TailEchoLaw(held, b, later, stack, mode, echoed, i);
    } else {
      OtherEchoLaw(held, b, later, stack, mode, echoed, i);
    }
  }

  lemma GroundEchoEnds(b: byte, stack: seq<scalar>, mode: EchoMode, echoed: seq<scalar>)
    ensures forall e | e in GroundEcho(b, stack, mode, echoed) && e.ends :: b == CR || b == LF
  {
    hide EncodeChar, Encode;
  }

  lemma TailEchoLaw(
      held: seq<byte>, b: byte, later: seq<byte>, stack: seq<scalar>, mode: EchoMode, echoed: seq<scalar>, i: nat)
    requires Partial(held) && IsTail(b) && i < |Echoes(held, b, stack, mode, echoed)|
    ensures
      var e := Echoes(held, b, stack, mode, echoed)[i];
      !e.ends && HeldRight(e) && GoesOn(ReadLine(held + ([b] + later), stack, mode, echoed), e, mode, later)
  {
    hide EncodeChar, Encode, DecodeChar, ReadLine, FlushEchoes;
    var q := held + [b];
    assert held + ([b] + later) == q + later && [] + later == later;
    match FromUtf8(q)
    case Valid => TelnetStream.CompleteStep(q, later, stack, mode, echoed);
    case Incomplete =>
    case Invalid =>
      assert forall k | 1 <= k < |q| :: IsTail(q[k]);
      TelnetStream.DoomedByTail(held, b, [] + later);
      FlushEchoLaw(q, [], later, stack, mode, echoed, i);
  }

  lemma OtherEchoLaw(
      held: seq<byte>, b: byte, later: seq<byte>, stack: seq<scalar>, mode: EchoMode, echoed: seq<scalar>, i: nat)
    requires Partial(held) && !IsTail(b) && i < |Echoes(held, b, stack, mode, echoed)|
    ensures
      var e := Echoes(held, b, stack, mode, echoed)[i];
      var run := ReadLine(held + ([b] + later), stack, mode, echoed);
      && HeldRight(e) && GoesOn(run, e, mode, later)
      && (e.ends ==> (b == CR || b == LF) && run.how == if b == CR then ByCr else ByLf)
  {
    hide EncodeChar, Encode, DecodeChar, ReadLine, GroundEcho, FlushEchoes, GoesOn, HeldRight;
    var flushes := FlushEchoes(held, [b], stack, mode, echoed);
    assert forall k | 1 <= k < |held| :: IsTail(held[k]);
    TelnetStream.DoomedByOther(held, b, later);
    if i < |flushes| {
      FlushEchoLaw(held, [b], later, stack, mode, echoed, i);
    } else {
      TelnetStream.FlushIsReadLine(held, [b] + later, stack, mode, echoed);
      var f := TelnetStream.Flush(held, stack, mode, echoed);
      GroundEchoLaw(b, later, f.stack, mode, f.echoed);
      GroundEchoEnds(b, f.stack, mode, f.echoed);
    }
  }

  // ---- These are all the writes ----

  /** Everything echoed once the writes are done, `echoed` having been before. */
  function Total(es: seq<EchoStop>, echoed: seq<scalar>): seq<scalar> {
    if es == [] then echoed else es[|es| - 1].echoed + es[|es| - 1].echo
  }

  lemma {:induction false} SuspendConcat(
      a: seq<byte>, b: seq<byte>, stack: seq<scalar>, mode: EchoMode, echoed: seq<scalar>)
    ensures
      match Suspend(a, stack, mode, echoed)
      case Over => true
      case Waiting(st, e, held) => Suspend(a + b, stack, mode, echoed) == Suspend(held + b, st, mode, e)
    decreases |a|
  {
    hide Step;
    if a != [] && !Partial(a) && !OpenCommand(a) {
      CharLenExtends(a, b);
      if a[0] == IAC { AfterIacExtends(a, b); }
      StepExtends(a, b, stack, mode, echoed);
      match Step(a, stack, mode, echoed)
      case Stop(_) =>
      case Go(rest, st, e) => SuspendConcat(rest, b, st, mode, e);
    }
  }

  lemma {:induction false} FlushIsSuspend(
      q: seq<byte>, rest: seq<byte>, stack: seq<scalar>, mode: EchoMode, echoed: seq<scalar>)
    requires TelnetStream.Doomed(q, rest)
    ensures
      var f := TelnetStream.Flush(q, stack, mode, echoed);
      Suspend(q + rest, stack, mode, echoed) == if f.ok then Suspend(rest, f.stack, mode, f.echoed) else Over
    decreases |q|
  {
    hide EncodeChar, Encode, CharLen, Partial, DecodeChar;
    if q == [] {
      assert q + rest == rest;
    } else {
      DoomedFront(q, rest);
      assert q[0..] == q;
      assert (q + rest)[1..] == q[1..] + rest;
      assert HighChar(q + rest) == (q[0], 1);
      FlushIsSuspend(q[1..], rest, stack + [q[0]], mode, echoed + EchoOf(mode, q[0]));
    }
  }

  lemma {:induction false} FlushTotal(
      q: seq<byte>, after: seq<byte>, stack: seq<scalar>, mode: EchoMode, echoed: seq<scalar>)
    ensures
      var f := TelnetStream.Flush(q, stack, mode, echoed);
      f.ok ==> Total(FlushEchoes(q, after, stack, mode, echoed), echoed) == f.echoed
  {
    hide EncodeChar, Encode;
    if q != [] && Fits(stack, q[0]) {
      FlushTotal(q[1..], after, stack + [q[0]], mode, echoed + EchoOf(mode, q[0]));
    }
  }

  lemma GroundTotal(b: byte, stack: seq<scalar>, mode: EchoMode, echoed: seq<scalar>)
    ensures
      var s := Suspend([b], stack, mode, echoed);
      s.Waiting? ==> s.echoed == Total(GroundEcho(b, stack, mode, echoed), echoed)
  {
    hide EncodeChar, Encode;
    assert [b][1..] == [];
    if !Partial([b]) && !OpenCommand([b]) {
      match Step([b], stack, mode, echoed)
      case Stop(_) =>
      case Go(rest, st, e) => assert Suspend(rest, st, mode, e) == Waiting(st, e, []);
    }
  }

  lemma {:induction false} SubEndsLast(s: seq<byte>, b: byte)
    requires AfterSub(s).None?
    ensures AfterSub(s + [b]).Some? ==> AfterSub(s + [b]).value == []
  {
    var t := s + [b];
    if s == [] {
      assert t[1..] == [];
    } else {
      assert t[1..] == s[1..] + [b];
      if s[0] != IAC {
        SubEndsLast(s[1..], b);
      } else if |s| == 1 {
        assert t[2..] == [];
      } else {
        assert t[2..] == s[2..] + [b];
        if s[1] != SE { SubEndsLast(s[2..], b); }
      }
    }
  }

  /** A telnet command echoes nothing, ended or not. */
  lemma CommandTotal(held: seq<byte>, b: byte, stack: seq<scalar>, mode: EchoMode, echoed: seq<scalar>)
    requires OpenCommand(held)
    ensures Suspend(held + [b], stack, mode, echoed).Waiting? ==>
      Suspend(held + [b], stack, mode, echoed).echoed == echoed
  {
    hide EncodeChar, Encode, DecodeChar, CharLen, AfterSub, Partial;
    var t := held + [b];
    assert t[1..] == held[1..] + [b];
    if !OpenCommand(t) && !Partial(t) {
      CommandEndsLast(held, b);
      assert Step(t, stack, mode, echoed) == Go([], stack, echoed);
      assert Suspend([], stack, mode, echoed) == Waiting(stack, echoed, []);
    }
  }

  lemma CommandEndsLast(held: seq<byte>, b: byte)
    requires OpenCommand(held)
    ensures AfterIac((held + [b])[1..]).Some? ==> AfterIac((held + [b])[1..]).value == []
  {
    hide AfterSub;
    var t := held + [b];
    assert t[1..] == held[1..] + [b];
    if held == [IAC] {
      assert t[1..] == [b];
    } else if held[1] == SB {
      assert t[1..][1..] == held[2..] + [b];
      SubEndsLast(held[2..], b);
    } else {
      assert t[1..][2..] == [];
    }
  }

  lemma CharTotal(q: seq<byte>, stack: seq<scalar>, mode: EchoMode, echoed: seq<scalar>)
    requires Complete(q) && |q| > 1
    ensures
      var s := Suspend(q, stack, mode, echoed);
      s.Waiting? ==> s.echoed == Total(EchoPush(DecodeChar(q), stack, mode, echoed), echoed)
  {
    hide EncodeChar, Encode, DecodeChar;
    CharLenOfComplete(q, []);
    assert q + [] == q && q[..|q|] == q && q[|q|..] == [];
    var c := DecodeChar(q);
    if !OpenCommand(q) && Fits(stack, c) {
      assert Suspend([], stack + [c], mode, echoed + EchoOf(mode, c))
        == Waiting(stack + [c], echoed + EchoOf(mode, c), []);
    }
  }

  /**
    A call that still waits for more after the bytes `a` and then `b` has echoed, for `b`, exactly
    the writes listed: there is no other at which it could have been stopped.
   */
  lemma EchoesAreAll(a: seq<byte>, b: byte, stack: seq<scalar>, mode: EchoMode, echoed: seq<scalar>)
    requires Suspend(a, stack, mode, echoed).Waiting? && Suspend(a + [b], stack, mode, echoed).Waiting?
    ensures
      var s := Suspend(a, stack, mode, echoed);
      Suspend(a + [b], stack, mode, echoed).echoed == Total(Echoes(s.held, b, s.stack, mode, s.echoed), s.echoed)
  {
    hide EncodeChar, Encode, DecodeChar, Suspend, FlushEchoes, GroundEcho, OpenCommand;
    var s := Suspend(a, stack, mode, echoed);
    WhatIsHeld(a, stack, mode, echoed);
    SuspendConcat(a, [b], stack, mode, echoed);
    if s.held == [] {
      assert [] + [b] == [b];
      GroundTotal(b, s.stack, mode, s.echoed);
    } else if OpenCommand(s.held) {
      CommandTotal(s.held, b, s.stack, mode, s.echoed);
    } else if IsTail(b) {
      TailTotal(s.held, b, s.stack, mode, s.echoed);
    } else {
      TelnetStream.DoomedByOther(s.held, b, []);
      assert [b] + [] == [b];
      FlushIsSuspend(s.held, [b], s.stack, mode, s.echoed);
      FlushTotal(s.held, [b], s.stack, mode, s.echoed);
      var f := TelnetStream.Flush(s.held, s.stack, mode, s.echoed);
      GroundTotal(b, f.stack, mode, f.echoed);
    }
  }

  lemma TailTotal(held: seq<byte>, b: byte, stack: seq<scalar>, mode: EchoMode, echoed: seq<scalar>)
    requires Partial(held) && !OpenCommand(held) && IsTail(b)
    ensures
      var s := Suspend(held + [b], stack, mode, echoed);
      s.Waiting? ==> s.echoed == Total(Echoes(held, b, stack, mode, echoed), echoed)
  {
    hide EncodeChar, Encode, DecodeChar, FlushEchoes, OpenCommand;
    var q := held + [b];
    match FromUtf8(q)
    case Valid => CharTotal(q, stack, mode, echoed);
    case Incomplete =>
    case Invalid =>
      TelnetStream.DoomedByTail(held, b, []);
      assert q + [] == q;
      FlushIsSuspend(q, [], stack, mode, echoed);
      FlushTotal(q, [], stack, mode, echoed);
  }

  lemma {:induction false} FlushCutTotal(
      q: seq<byte>, after: seq<byte>, stack: seq<scalar>, mode: EchoMode, echoed: seq<scalar>)
    ensures Total(FlushEchoes(q, after, stack, mode, echoed), echoed)
         == TelnetStream.Flush(q, stack, mode, echoed).echoed
  {
    hide EncodeChar, Encode;
    if q != [] && Fits(stack, q[0]) {
      FlushCutTotal(q[1..], after, stack + [q[0]], mode, echoed + EchoOf(mode, q[0]));
    }
  }

  /** A byte that ends the call echoes what its line, or its overflow, does. */
  lemma GroundEnd(b: byte, later: seq<byte>, stack: seq<scalar>, mode: EchoMode, echoed: seq<scalar>)
    requires Suspend([b], stack, mode, echoed) == Over
    ensures ReadLine([b] + later, stack, mode, echoed).echoed == Total(GroundEcho(b, stack, mode, echoed), echoed)
  {
    hide EncodeChar, Encode;
    assert [b][1..] == [] && !Partial([b]) && !OpenCommand([b]);
    if b >= 0x80 { assert !Viable([b]); }
    TelnetStream.ByteStep(b, later, stack, mode, echoed);
    match Step([b], stack, mode, echoed)
    case Stop(_) =>
    case Go(_, st, e) => NothingWaits(st, mode, e);
  }

  lemma TotalOfMore(es: seq<EchoStop>, more: seq<EchoStop>, echoed: seq<scalar>)
    ensures Total(es + more, echoed) == Total(more, Total(es, echoed))
  {
    if more == [] { assert es + more == es; }
  }

  lemma TailEnd(held: seq<byte>, b: byte, later: seq<byte>, stack: seq<scalar>, mode: EchoMode, echoed: seq<scalar>)
    requires Partial(held) && !OpenCommand(held) && IsTail(b) && Suspend(held + [b], stack, mode, echoed) == Over
    ensures ReadLine(held + ([b] + later), stack, mode, echoed).echoed
         == Total(Echoes(held, b, stack, mode, echoed), echoed)
  {
    hide EncodeChar, Encode, DecodeChar, FlushEchoes, OpenCommand, ReadLine;
    var q := held + [b];
    assert q + later == held + ([b] + later);
    match FromUtf8(q)
    case Valid => CharEnd(q, later, stack, mode, echoed);
    case Incomplete => assert false;
    case Invalid =>
      TelnetStream.DoomedByTail(held, b, later);
      TelnetStream.DoomedByTail(held, b, []);
      TelnetStream.FlushIsReadLine(q, later, stack, mode, echoed);
      FlushIsSuspend(q, [], stack, mode, echoed);
      assert q + [] == q;
      var f := TelnetStream.Flush(q, stack, mode, echoed);
      NothingWaits(f.stack, mode, f.echoed);
      FlushCutTotal(q, [], stack, mode, echoed);
  }

  lemma NothingWaits(stack: seq<scalar>, mode: EchoMode, echoed: seq<scalar>)
    ensures Suspend([], stack, mode, echoed).Waiting?
  {
  }

  lemma CharEnd(q: seq<byte>, later: seq<byte>, stack: seq<scalar>, mode: EchoMode, echoed: seq<scalar>)
    requires Complete(q) && |q| > 1 && Suspend(q, stack, mode, echoed) == Over
    ensures ReadLine(q + later, stack, mode, echoed).echoed
         == Total(EchoPush(DecodeChar(q), stack, mode, echoed), echoed)
  {
    hide EncodeChar, Encode, DecodeChar, ReadLine;
    TelnetStream.CompleteStep(q, later, stack, mode, echoed);
    CharLenOfComplete(q, []);
    assert q + [] == q && q[..|q|] == q && q[|q|..] == [];
    var c := DecodeChar(q);
    if Fits(stack, c) { NothingWaits(stack + [c], mode, echoed + EchoOf(mode, c)); }
  }

  /** And a call that `b` ends has echoed for it exactly the writes listed, its line ending's included. */
  lemma EchoesAreAllAtTheEnd(
      a: seq<byte>, b: byte, later: seq<byte>, stack: seq<scalar>, mode: EchoMode, echoed: seq<scalar>)
    requires Suspend(a, stack, mode, echoed).Waiting? && Suspend(a + [b], stack, mode, echoed) == Over
    ensures
      var s := Suspend(a, stack, mode, echoed);
      ReadLine(a + ([b] + later), stack, mode, echoed).echoed
      == Total(Echoes(s.held, b, s.stack, mode, s.echoed), s.echoed)
  {
    hide EncodeChar, Encode, DecodeChar, Suspend, FlushEchoes, GroundEcho, OpenCommand, ReadLine;
    var s := Suspend(a, stack, mode, echoed);
    WhatIsHeld(a, stack, mode, echoed);
    SuspendConcat(a, [b], stack, mode, echoed);
    SuspendLaw(a, [b] + later, stack, mode, echoed);
    if s.held == [] {
      assert [] + [b] == [b] && [] + ([b] + later) == [b] + later;
      GroundEnd(b, later, s.stack, mode, s.echoed);
    } else if OpenCommand(s.held) {
      CommandGoesOn(s.held, b, s.stack, mode, s.echoed);
      assert false;
    } else if IsTail(b) {
      TailEnd(s.held, b, later, s.stack, mode, s.echoed);
    } else {
      TelnetStream.DoomedByOther(s.held, b, later);
      TelnetStream.DoomedByOther(s.held, b, []);
      assert [b] + [] == [b];
      TelnetStream.FlushIsReadLine(s.held, [b] + later, s.stack, mode, s.echoed);
      FlushIsSuspend(s.held, [b], s.stack, mode, s.echoed);
      FlushCutTotal(s.held, [b], s.stack, mode, s.echoed);
      var f := TelnetStream.Flush(s.held, s.stack, mode, s.echoed);
      var es := FlushEchoes(s.held, [b], s.stack, mode, s.echoed);
      assert es + [] == es;
      if f.ok {
        GroundEnd(b, later, f.stack, mode, f.echoed);
        TotalOfMore(es, GroundEcho(b, f.stack, mode, f.echoed), s.echoed);
        GroundStarts(b, f.stack, mode, f.echoed);
      }
    }
  }

  /** A telnet command ends no call by itself. */
  lemma CommandGoesOn(held: seq<byte>, b: byte, stack: seq<scalar>, mode: EchoMode, echoed: seq<scalar>)
    requires OpenCommand(held)
    ensures Suspend(held + [b], stack, mode, echoed).Waiting?
  {
    hide EncodeChar, Encode, DecodeChar, CharLen, AfterSub, Partial;
    var t := held + [b];
    assert t[1..] == held[1..] + [b];
    if !OpenCommand(t) && !Partial(t) {
      CommandEndsLast(held, b);
      assert Step(t, stack, mode, echoed) == Go([], stack, echoed);
      assert Suspend([], stack, mode, echoed) == Waiting(stack, echoed, []);
    }
  }

  lemma GroundStarts(b: byte, stack: seq<scalar>, mode: EchoMode, echoed: seq<scalar>)
    ensures |GroundEcho(b, stack, mode, echoed)| <= 1
    ensures forall e | e in GroundEcho(b, stack, mode, echoed) :: e.echoed == echoed
  {
    hide EncodeChar, Encode;
  }

  // ---- What a resumed call hears ----

  /** What a call tells its caller and leaves of the input, echo apart. */
  datatype Heard =
    | HeardLine(text: seq<scalar>, rest: seq<byte>)
    | HeardEnd(kept: seq<scalar>)
    | HeardTooLong(kept: seq<scalar>)

  function Hear(run: LineRun, trailerArrived: bool): Heard {
    match run
    case Line(text, how, rest, _) => HeardLine(text, if how == ByCr then AfterCr(rest, trailerArrived) else rest)
    case NoLine(kept, _) => HeardEnd(kept)
    case TooLong(kept, _) => HeardTooLong(kept)
  }

  /**
    A caller hears the line, and the next read starts behind its ending: behind an LF or NUL that had
    arrived after a CR, and else directly behind the ending.
   */
  lemma HeardIs(text: seq<scalar>, b: byte, rest: seq<byte>, echoed: seq<scalar>, trailerArrived: bool)
    ensures Hear(Line(text, ByCr, [b] + rest, echoed), trailerArrived)
         == HeardLine(text, if trailerArrived && (b == 10 || b == 0) then rest else [b] + rest)
    ensures Hear(Line(text, ByCr, [], echoed), trailerArrived) == HeardLine(text, [])
    ensures Hear(Line(text, ByLf, rest, echoed), trailerArrived) == HeardLine(text, rest)
    ensures Hear(Line(text, ByEof, rest, echoed), trailerArrived) == HeardLine(text, rest)
    ensures LeftBy(13, [b] + rest, trailerArrived) == if trailerArrived && (b == 10 || b == 0) then rest else [b] + rest
    ensures LeftBy(13, [], trailerArrived) == []
    ensures b != 13 ==> LeftBy(b, rest, trailerArrived) == rest
  {
    assert ([b] + rest)[1..] == rest;
  }

  function WithEcho(run: LineRun, before: seq<scalar>): LineRun {
    match run
    case Line(text, how, rest, e) => Line(text, how, rest, before + e)
    case NoLine(kept, e) => NoLine(kept, before + e)
    case TooLong(kept, e) => TooLong(kept, before + e)
  }

  /** What was echoed before a call changes nothing but what stands before its echo. */
  lemma {:induction false} EchoIsOnlyWritten(
      input: seq<byte>, stack: seq<scalar>, mode: EchoMode, before: seq<scalar>, echoed: seq<scalar>)
    ensures ReadLine(input, stack, mode, before + echoed) == WithEcho(ReadLine(input, stack, mode, echoed), before)
    decreases |input|
  {
    hide EncodeChar, Encode, HighChar, Partial, AfterIac, CRLF, ERASE;
    match (Step(input, stack, mode, before + echoed), Step(input, stack, mode, echoed))
    case (Go(rest, st, e'), Go(_, _, e)) =>
      assert e' == before + e by { EchoStep(input, stack, mode, before, echoed); }
      EchoIsOnlyWritten(rest, st, mode, before, e);
    case (Stop(_), Stop(_)) => EchoStep(input, stack, mode, before, echoed);
  }

  lemma EchoStep(input: seq<byte>, stack: seq<scalar>, mode: EchoMode, before: seq<scalar>, echoed: seq<scalar>)
    ensures
      match Step(input, stack, mode, echoed)
      case Go(rest, st, e) => Step(input, stack, mode, before + echoed) == Go(rest, st, before + e)
      case Stop(run) => Step(input, stack, mode, before + echoed) == Stop(WithEcho(run, before))
  {
    hide EncodeChar, Encode, HighChar, Partial, AfterIac;
    assert forall x: seq<scalar> :: (before + echoed) + x == before + (echoed + x);
  }

  lemma EchoUnheard(
      input: seq<byte>, stack: seq<scalar>, mode: EchoMode, one: seq<scalar>, two: seq<scalar>, arrived: bool)
    ensures Hear(ReadLine(input, stack, mode, one), arrived) == Hear(ReadLine(input, stack, mode, two), arrived)
  {
    hide ReadLine, AfterCr;
    assert one + [] == one && two + [] == two;
    EchoIsOnlyWritten(input, stack, mode, one, []);
    EchoIsOnlyWritten(input, stack, mode, two, []);
  }

  /** Reading the bytes `held` would leave the line as it is. */
  predicate LeavesLine(held: seq<byte>, stack: seq<scalar>, mode: EchoMode) {
    var s := Suspend(held, stack, mode, []);
    s.Waiting? && s.stack == stack && s.held == []
  }

  lemma LeavesLineLaw(
      held: seq<byte>, later: seq<byte>, stack: seq<scalar>, mode: EchoMode, echoed: seq<scalar>, arrived: bool)
    requires LeavesLine(held, stack, mode)
    ensures Hear(ReadLine(held + later, stack, mode, echoed), arrived)
      == Hear(ReadLine(later, stack, mode, []), arrived)
  {
    hide ReadLine, AfterCr;
    SuspendLaw(held, later, stack, mode, []);
    assert [] + later == later;
    var s := Suspend(held, stack, mode, []);
    EchoUnheard(held + later, stack, mode, echoed, [], arrived);
    EchoUnheard(later, stack, mode, s.echoed, [], arrived);
  }

  // ---- Lost bytes that show ----

  lemma TailsAreDoomed(q: seq<byte>, rest: seq<byte>)
    requires forall k | 0 <= k < |q| :: IsTail(q[k])
    ensures TelnetStream.Doomed(q, rest)
  {
    forall i | 0 <= i < |q|
      ensures 0x80 <= q[i] < IAC && CharLen(q[i..] + rest) == 0 && !Partial(q[i..] + rest)
    {
      assert (q[i..] + rest)[0] == q[i];
    }
  }

  /** Two CRs after the lost bytes, of which a lost IAC would have swallowed the first; else one. */
  function Probe(held: seq<byte>): seq<byte>
    requires held != []
  {
    if held[|held| - 1] == IAC then [CR, CR] else [CR]
  }

  lemma ProbeAlone(held: seq<byte>, stack: seq<scalar>, mode: EchoMode, arrived: bool)
    requires held != []
    ensures Hear(ReadLine(Probe(held), stack, mode, []), arrived) == HeardLine(stack, Probe(held)[1..])
  {
    hide EncodeChar, Encode;
    CrStep(Probe(held)[1..], stack, mode, []);
    assert Probe(held) == [CR] + Probe(held)[1..];
  }

  /** The last lost byte by itself, on a line that may have grown by lost continuation bytes. */
  lemma LastShows(b: byte, stack: seq<scalar>, mode: EchoMode, arrived: bool)
    requires stack != []
    ensures
      var h := Hear(ReadLine([b] + Probe([b]), stack, mode, []), arrived);
      if b == IAC then h == HeardLine(stack, [])
      else if b == CR || b == LF then h == HeardLine(stack, [CR])
      else if b == BS || b == DEL then h == HeardLine(stack[..|stack| - 1], [])
      else if b < 0x20 then h == HeardLine(stack, [])
      else h == HeardTooLong(stack) || (h.HeardLine? && |h.text| == |stack| + 1)
  {
    hide EncodeChar, Encode, ReadLine, CharLen, DecodeChar, AfterSub, Fits;
    assert [CR, CR][1..] == [CR] && [CR][1..] == [] && [CR] + [] == [CR];
    CrAfter(b, stack, mode);
    if Partial([b]) {
      LeadShows(b, stack, mode);
    } else {
      TelnetStream.ByteStep(b, Probe([b]), stack, mode, []);
    }
  }

  lemma LeadShows(b: byte, stack: seq<scalar>, mode: EchoMode)
    requires Partial([b])
    ensures ReadLine([b] + [CR], stack, mode, [])
         == if Fits(stack, b) then ReadLine([CR], stack + [b], mode, [] + EchoOf(mode, b)) else TooLong(stack, [])
  {
    hide EncodeChar, Encode, ReadLine, CharLen, DecodeChar;
    assert [CR] + [] == [CR];
    TelnetStream.DoomedByOther([b], CR, []);
    TelnetStream.FlushIsReadLine([b], [CR], stack, mode, []);
    if Fits(stack, b) { FlushOne(b, stack, mode, []); }
  }

  lemma CrAfter(b: byte, stack: seq<scalar>, mode: EchoMode)
    requires stack != []
    ensures ReadLine([CR], stack, mode, []) == Line(stack, ByCr, [], CRLF)
    ensures ReadLine([CR], stack, mode, [] + ERASE).Line?
    ensures ReadLine([CR], stack[..|stack| - 1], mode, [] + ERASE) == Line(stack[..|stack| - 1], ByCr, [], ERASE + CRLF)
    ensures ReadLine([CR], stack + [b], mode, [] + EchoOf(mode, b))
      == Line(stack + [b], ByCr, [], EchoOf(mode, b) + CRLF)
  {
    hide EncodeChar, Encode;
    assert [CR] + [] == [CR] && [] + CRLF == CRLF && [] + ERASE == ERASE && [] + EchoOf(mode, b) == EchoOf(mode, b);
    CrStep([], stack, mode, []);
    CrStep([], stack, mode, ERASE);
    CrStep([], stack[..|stack| - 1], mode, ERASE);
    CrStep([], stack + [b], mode, EchoOf(mode, b));
  }

  lemma {:induction false} FlushStack(q: seq<byte>, stack: seq<scalar>, mode: EchoMode, echoed: seq<scalar>)
    ensures var f := TelnetStream.Flush(q, stack, mode, echoed); f.ok ==> |f.stack| == |stack| + |q| && stack <= f.stack
  {
    hide EncodeChar, Encode;
    if q != [] && Fits(stack, q[0]) {
      FlushStack(q[1..], stack + [q[0]], mode, echoed + EchoOf(mode, q[0]));
    }
  }

  lemma IgnoredLeavesLine(b: byte, stack: seq<scalar>, mode: EchoMode)
    requires b < 0x20 && b != CR && b != LF && b != BS
    ensures LeavesLine([b], stack, mode)
  {
    hide EncodeChar, Encode;
    assert [b][1..] == [];
    assert Step([b], stack, mode, []) == Go([], stack, []);
    assert Suspend([], stack, mode, []) == Waiting(stack, [], []);
  }

  lemma ErasedLeavesLine(c: byte, b: byte, stack: seq<scalar>, mode: EchoMode)
    requires IsTail(c) && (b == BS || b == DEL) && Fits(stack, c)
    ensures LeavesLine([c, b], stack, mode)
  {
    hide EncodeChar, Encode;
    var held := [c, b];
    assert held[1..] == [b] && [b][1..] == [] && held[2..] == [];
    assert Step(held, stack, mode, []) == Go([b], stack + [c], [] + EchoOf(mode, c)) by {
      assert HighChar(held) == (c, 1);
    }
    assert (stack + [c])[..|stack|] == stack;
    var e := [] + EchoOf(mode, c);
    assert Step([b], stack + [c], mode, e) == Go([], stack, e + ERASE);
    assert Suspend([], stack, mode, e + ERASE) == Waiting(stack, e + ERASE, []);
    assert Suspend([b], stack + [c], mode, e) == Suspend([], stack, mode, e + ERASE);
  }

  /** Bytes held at a write that would not have left the line as it is are missed. */
  lemma HeldShows(held: seq<byte>, stack: seq<scalar>, mode: EchoMode, arrived: bool)
    requires held != [] && stack != [] && forall k | 0 <= k < |held| - 1 :: IsTail(held[k])
    requires !LeavesLine(held, stack, mode)
    ensures Hear(ReadLine(held + Probe(held), stack, mode, []), arrived)
         != Hear(ReadLine(Probe(held), stack, mode, []), arrived)
  {
    hide EncodeChar, Encode, ReadLine, LeavesLine, IsTail;
    var n, b := |held| - 1, held[|held| - 1];
    var q := if IsTail(b) then held else held[..n];
    var rest := if IsTail(b) then Probe(held) else [b] + Probe([b]);
    assert held + Probe(held) == q + rest;
    TailsAreDoomed(q, rest);
    TelnetStream.FlushIsReadLine(q, rest, stack, mode, []);
    FlushStack(q, stack, mode, []);
    ProbeAlone(held, stack, mode, arrived);
    var f := TelnetStream.Flush(q, stack, mode, []);
    if f.ok {
      EchoUnheard(rest, f.stack, mode, f.echoed, [], arrived);
      if IsTail(b) {
        ProbeAlone(held, f.stack, mode, arrived);
      } else {
        LastShows(b, f.stack, mode, arrived);
        TailIsHigh(b);
        if q == [] {
          assert f.stack == stack && held == [b];
          if b < 0x20 && b != CR && b != LF && b != BS { IgnoredLeavesLine(b, stack, mode); }
        } else if |q| == 1 && (b == BS || b == DEL) {
          assert held == [q[0], b];
          FlushFits(q, stack, mode);
          ErasedLeavesLine(q[0], b, stack, mode);
        }
      }
    }
  }

  lemma TailIsHigh(b: byte)
    ensures IsTail(b) ==> 0x80 <= b < IAC
  {
  }

  lemma FlushFits(q: seq<byte>, stack: seq<scalar>, mode: EchoMode)
    requires q != [] && TelnetStream.Flush(q, stack, mode, []).ok
    ensures Fits(stack, q[0])
  {
  }

  // ---- Exactly when an abandoned call resumes ----

  /** An ending is lost: the next call reads on with the line that should have been returned. */
  lemma EndingShows(
      stack: seq<scalar>, how: Terminator, echoed: seq<scalar>, b: byte, mode: EchoMode, now: bool, next: bool)
    requires b == CR || b == LF
    ensures Hear(Line(stack, how, [CR], echoed), now) != Hear(ReadLine(LeftBy(b, [CR], now), stack, mode, []), next)
  {
    hide EncodeChar, Encode;
    assert LeftBy(b, [CR], now) == [CR] + [];
    CrStep([], stack, mode, []);
  }

  /** The bytes left to the next call by one abandoned while it writes the echo for `b`. */
  function LeftBy(b: byte, later: seq<byte>, trailerArrived: bool): seq<byte> {
    if b == CR then AfterCr(later, trailerArrived) else later
  }

  /** What the next call hears if this one is abandoned at the write `e`, the screen showing `shown`. */
  function Resumed(
      e: EchoStop, b: byte, later: seq<byte>, mode: EchoMode, shown: seq<scalar>, now: bool, next: bool): Heard
  {
    if e.ends then Hear(ReadLine(LeftBy(b, later, now), e.stack, mode, shown), next)
    else Hear(ReadLine(later, e.stack, mode, shown), now)
  }

  /**
    A call abandoned at a write, having read the bytes `a` and then `b`, and taken up again resumes
    as if nothing had happened, for whatever follows, if and only if the write was not that of a line
    ending and the bytes read ahead would have left the line as it is.
   */
  lemma EchoResumesIff(
      a: seq<byte>, b: byte, stack: seq<scalar>, mode: EchoMode, echoed: seq<scalar>, i: nat,
      shown: seq<scalar>, now: bool, next: bool)
    requires Suspend(a, stack, mode, echoed).Waiting?
    requires var s := Suspend(a, stack, mode, echoed); i < |Echoes(s.held, b, s.stack, mode, s.echoed)|
    ensures
      var s := Suspend(a, stack, mode, echoed);
      var e := Echoes(s.held, b, s.stack, mode, s.echoed)[i];
      (forall later :: Hear(ReadLine(a + ([b] + later), stack, mode, echoed), now)
        == Resumed(e, b, later, mode, shown, now, next))
      <==> !e.ends && LeavesLine(e.held, e.stack, mode)
  {
    hide ReadLine, Suspend, Echoes, LeavesLine, Partial, OpenCommand, AfterCr, Probe;
    var s := Suspend(a, stack, mode, echoed);
    var e := Echoes(s.held, b, s.stack, mode, s.echoed)[i];
    forall later: seq<byte>
      ensures e.ends ==> b == CR || b == LF
      ensures GoesOnHeard(a, b, later, stack, mode, echoed, e, now) && HeldRight(e)
    {
      EchoHeard(a, b, later, stack, mode, echoed, i, now);
    }
    if e.ends {
      var how := if b == CR then ByCr else ByLf;
      assert GoesOnHeard(a, b, [CR], stack, mode, echoed, e, now);
      EndingShows(e.stack, how, [], b, mode, now, next);
      EchoUnheard(LeftBy(b, [CR], now), e.stack, mode, shown, [], next);
      assert Hear(ReadLine(a + ([b] + [CR]), stack, mode, echoed), now) != Resumed(e, b, [CR], mode, shown, now, next);
    } else if LeavesLine(e.held, e.stack, mode) {
      forall later: seq<byte>
        ensures Hear(ReadLine(a + ([b] + later), stack, mode, echoed), now)
          == Resumed(e, b, later, mode, shown, now, next)
      {
        assert GoesOnHeard(a, b, later, stack, mode, echoed, e, now);
        LeavesLineLaw(e.held, later, e.stack, mode, [], now);
        EchoUnheard(later, e.stack, mode, shown, [], now);
      }
    } else {
      NothingLeavesLine(e.stack, mode);
      var later := Probe(e.held);
      assert GoesOnHeard(a, b, later, stack, mode, echoed, e, now);
      HeldShows(e.held, e.stack, mode, now);
      EchoUnheard(later, e.stack, mode, shown, [], now);
      assert Hear(ReadLine(a + ([b] + later), stack, mode, echoed), now)
        != Resumed(e, b, later, mode, shown, now, next);
    }
  }

  lemma NothingLeavesLine(stack: seq<scalar>, mode: EchoMode)
    ensures LeavesLine([], stack, mode)
  {
  }

  ghost predicate GoesOnHeard(
      a: seq<byte>, b: byte, later: seq<byte>, stack: seq<scalar>, mode: EchoMode, echoed: seq<scalar>,
      e: EchoStop, now: bool)
  {
    Hear(ReadLine(a + ([b] + later), stack, mode, echoed), now)
    == if e.ends then Hear(Line(e.stack, if b == CR then ByCr else ByLf, later, []), now)
       else Hear(ReadLine(e.held + later, e.stack, mode, []), now)
  }

  lemma EchoHeard(
      a: seq<byte>, b: byte, later: seq<byte>, stack: seq<scalar>, mode: EchoMode, echoed: seq<scalar>,
      i: nat, now: bool)
    requires Suspend(a, stack, mode, echoed).Waiting?
    requires var s := Suspend(a, stack, mode, echoed); i < |Echoes(s.held, b, s.stack, mode, s.echoed)|
    ensures
      var s := Suspend(a, stack, mode, echoed);
      var e := Echoes(s.held, b, s.stack, mode, s.echoed)[i];
      GoesOnHeard(a, b, later, stack, mode, echoed, e, now) && HeldRight(e) && (e.ends ==> b == CR || b == LF)
  {
    hide ReadLine, Suspend, Echoes, Partial, OpenCommand, AfterCr;
    var s := Suspend(a, stack, mode, echoed);
    var e := Echoes(s.held, b, s.stack, mode, s.echoed)[i];
    WhatIsHeld(a, stack, mode, echoed);
    SuspendLaw(a, [b] + later, stack, mode, echoed);
    EchoLaw(s.held, b, later, s.stack, mode, s.echoed, i);
    if !e.ends { EchoUnheard(e.held + later, e.stack, mode, e.echoed + e.echo, [], now); }
  }

  /**
    With nothing held, all that an abandoned write costs is the part of that one echo not yet
    written: what the screen shows besides is what it would have shown.
   */
  lemma OnlyTheEchoIsLost(
      a: seq<byte>, b: byte, later: seq<byte>, stack: seq<scalar>, mode: EchoMode, echoed: seq<scalar>, i: nat, n: nat)
    requires Suspend(a, stack, mode, echoed).Waiting?
    requires
      var s := Suspend(a, stack, mode, echoed);
      var es := Echoes(s.held, b, s.stack, mode, s.echoed);
      i < |es| && !es[i].ends && es[i].held == [] && n <= |es[i].echo|
    ensures
      var s := Suspend(a, stack, mode, echoed);
      var e := Echoes(s.held, b, s.stack, mode, s.echoed)[i];
      var more := ReadLine(later, e.stack, mode, []).echoed;
      && ReadLine(a + ([b] + later), stack, mode, echoed).echoed == e.echoed + e.echo + more
      && ReadLine(later, e.stack, mode, e.echoed + e.echo[..n]).echoed == e.echoed + e.echo[..n] + more
  {
    hide ReadLine, Suspend, Echoes, Partial, OpenCommand;
    var s := Suspend(a, stack, mode, echoed);
    var e := Echoes(s.held, b, s.stack, mode, s.echoed)[i];
    WhatIsHeld(a, stack, mode, echoed);
    SuspendLaw(a, [b] + later, stack, mode, echoed);
    EchoLaw(s.held, b, later, s.stack, mode, s.echoed, i);
    assert [] + later == later;
    var full, part := e.echoed + e.echo, e.echoed + e.echo[..n];
    assert full + [] == full && part + [] == part;
    EchoIsOnlyWritten(later, e.stack, mode, full, []);
    EchoIsOnlyWritten(later, e.stack, mode, part, []);
  }

  // ---- Abandoning a read of a key ----

  /** The bytes a key read holds when it has consumed `a` and waits for more; None once it has its key. */
  function KeyHeld(a: seq<byte>): Option<seq<byte>>
    decreases |a|
  {
    if a == [] || OpenCommand(a) then Some(a)
    else if a[0] == LF then KeyHeld(a[1..])
    else if a[0] == IAC then KeyHeld(AfterIac(a[1..]).value)
    else None
  }

  lemma {:induction false} KeyHeldLaw(a: seq<byte>, later: seq<byte>, arrives: nat -> bool, k: nat)
    requires KeyHeld(a).Some?
    ensures ReadKey(a + later, arrives, k) == ReadKey(KeyHeld(a).value + later, arrives, k)
    ensures KeyHeld(a).value == [] || OpenCommand(KeyHeld(a).value)
    decreases |a|
  {
    if a != [] && !OpenCommand(a) {
      assert (a + later)[1..] == a[1..] + later;
      if a[0] == LF {
        KeyHeldLaw(a[1..], later, arrives, k);
      } else {
        AfterIacExtends(a, later);
        KeyHeldLaw(AfterIac(a[1..]).value, later, arrives, k);
      }
    }
  }

  /** A key read echoes nothing; abandoned and restarted, it resumes exactly if no telnet command was cut short. */
  lemma KeyResumesIff(a: seq<byte>, arrives: nat -> bool, k: nat)
    requires KeyHeld(a).Some?
    ensures (forall later :: ReadKey(a + later, arrives, k) == ReadKey(later, arrives, k)) <==> KeyHeld(a) == Some([])
  {
    hide ReadKey, KeyHeld;
    var held := KeyHeld(a).value;
    forall later: seq<byte>
      ensures ReadKey(a + later, arrives, k) == ReadKey(held + later, arrives, k)
    {
      KeyHeldLaw(a, later, arrives, k);
    }
    KeyHeldLaw(a, [], arrives, k);
    if held == [] {
      assert forall later: seq<byte> :: [] + later == later;
    } else {
      HeldKeyMatters(held, arrives, k);
      assert ReadKey(a + [CR], arrives, k) != ReadKey([CR], arrives, k);
    }
  }

  lemma HeldKeyMatters(held: seq<byte>, arrives: nat -> bool, k: nat)
    requires OpenCommand(held)
    ensures ReadKey(held + [CR], arrives, k) != ReadKey([CR], arrives, k)
  {
    var t := held + [CR];
    assert t[1..] == held[1..] + [CR];
    assert ReadKey([CR], arrives, k).key == Some(Enter);
    if held == [IAC] {
      assert AfterIac(t[1..]) == Some([]) by { assert t[1..][1..] == []; }
    } else if held[1] == SB {
      OpenSubStaysOpen(held[2..]);
      assert t[1..][1..] == held[2..] + [CR];
    } else {
      assert t[1..][2..] == [];
    }
  }
}
