/**
  When bytes arrive must not matter to what is read. Exactly how far that holds: lines do not depend
  on what had arrived at each CR unless an LF follows it, nor keys unless a NUL does.
 */
module TelnetTiming {
  import opened Basics
  import opened Utf8
  import opened TelnetSpec
  import opened TelnetLaws
  import TelnetStream

  // ---- What has arrived when a CR is read ----

  datatype Ending = PeerClosed | Overflowed

  /** The lines that consecutive calls return, and what ends the last of them. */
  datatype Lines = Lines(lines: seq<seq<scalar>>, end: Ending)

  function Prepend(line: seq<scalar>, more: Lines): Lines {
    Lines([line] + more.lines, more.end)
  }

  lemma {:induction false} LineConsumes(input: seq<byte>, stack: seq<scalar>, mode: EchoMode, echoed: seq<scalar>)
    ensures
      match ReadLine(input, stack, mode, echoed)
      case Line(_, how, rest, _) =>
        && IsSuffix(rest, input)
        && (how == ByEof ==> rest == [])
        && (how != ByEof ==> |rest| < |input|)
        && (how == ByCr ==> input[|input| - |rest| - 1] == CR)
      case _ => true
    decreases |input|
  {
    match Step(input, stack, mode, echoed)
    case Stop(_) =>
    case Go(rest, st, e) => LineConsumes(rest, st, mode, e);
  }

  /** All lines of a connection whose k-th non-blocking read finds a byte exactly if `arrives(k)`. */
  function ReadLines(input: seq<byte>, arrives: nat -> bool, k: nat): Lines
    decreases |input|
  {
    LineConsumes(input, [], Visible, []);
    match ReadLine(input, [], Visible, [])
    case Line(text, ByCr, rest, _) => Prepend(text, ReadLines(AfterCr(rest, arrives(k)), arrives, k + 1))
    case Line(text, ByLf, rest, _) => Prepend(text, ReadLines(rest, arrives, k))
    case Line(text, ByEof, _, _) => Lines([text], PeerClosed)
    case NoLine(_, _) => Lines([], PeerClosed)
    case TooLong(_, _) => Lines([], Overflowed)
  }

  /** How many line-ending CRs are directly followed by an LF. */
  function CrLfEndings(input: seq<byte>): nat
    decreases |input|
  {
    LineConsumes(input, [], Visible, []);
    match ReadLine(input, [], Visible, [])
    case Line(_, ByCr, rest, _) =>
      if rest != [] && rest[0] == LF then 1 + CrLfEndings(rest[1..]) else CrLfEndings(rest)
    case Line(_, ByLf, rest, _) => CrLfEndings(rest)
    case _ => 0
  }

  lemma NulIsIgnored(rest: seq<byte>, arrives: nat -> bool, k: nat)
    ensures ReadLines([NUL] + rest, arrives, k) == ReadLines(rest, arrives, k)
    ensures CrLfEndings([NUL] + rest) == CrLfEndings(rest)
  {
    var input := [NUL] + rest;
    assert Step(input, [], Visible, []) == Go(rest, [], []) by { assert input[1..] == rest; }
    assert ReadLine(input, [], Visible, []) == ReadLine(rest, [], Visible, []);
  }

  lemma LfIsEmptyLine(rest: seq<byte>, arrives: nat -> bool, k: nat)
    ensures ReadLines([LF] + rest, arrives, k) == Prepend([], ReadLines(rest, arrives, k))
  {
    var input := [LF] + rest;
    assert input[1..] == rest && [] + CRLF == CRLF;
    assert Step(input, [], Visible, []) == Stop(Line([], ByLf, rest, CRLF));
  }

  /** Whether the polls find anything matters only through the LFs that follow a line's CR. */
  lemma {:induction false} ScheduleIndependent(
      input: seq<byte>, arrives: nat -> bool, k: nat, arrives': nat -> bool, k': nat)
    requires CrLfEndings(input) == 0
    ensures ReadLines(input, arrives, k) == ReadLines(input, arrives', k')
    decreases |input|
  {
    hide ReadLine;
    LineConsumes(input, [], Visible, []);
    match ReadLine(input, [], Visible, [])
    case Line(_, ByCr, rest, _) =>
      ScheduleIndependent(rest, arrives, k + 1, arrives', k' + 1);
      if rest != [] && rest[0] == NUL {
        assert rest == [NUL] + rest[1..];
        NulIsIgnored(rest[1..], arrives, k + 1);
        NulIsIgnored(rest[1..], arrives', k' + 1);
      }
    case Line(_, ByLf, rest, _) => ScheduleIndependent(rest, arrives, k, arrives', k');
    case _ =>
  }

  /** Polls that never find their byte turn each of those LFs into one more, empty, line. */
  lemma {:induction false} LateTrailersAddLines(input: seq<byte>, k: nat, k': nat)
    ensures |ReadLines(input, _ => false, k).lines|
         == |ReadLines(input, _ => true, k').lines| + CrLfEndings(input)
    decreases |input|
  {
    hide ReadLine;
    LineConsumes(input, [], Visible, []);
    match ReadLine(input, [], Visible, [])
    case Line(_, ByCr, rest, _) =>
      if rest != [] && (rest[0] == NUL || rest[0] == LF) {
        assert rest == [rest[0]] + rest[1..];
        LateTrailersAddLines(rest[1..], k + 1, k' + 1);
        if rest[0] == NUL {
          NulIsIgnored(rest[1..], _ => false, k + 1);
        } else {
          LfIsEmptyLine(rest[1..], _ => false, k + 1);
        }
      } else {
        LateTrailersAddLines(rest, k + 1, k' + 1);
      }
    case Line(_, ByLf, rest, _) => LateTrailersAddLines(rest, k, k');
    case _ =>
  }

  /**
    The lines of a connection are the same however its bytes are timed if and only if no CR that
    ends a line is directly followed by an LF: bare CR and CR NUL are both safe.
   */
  lemma TimingMattersIffCrLf(input: seq<byte>)
    ensures
      (forall a: nat -> bool, b: nat -> bool :: ReadLines(input, a, 0) == ReadLines(input, b, 0))
      <==> CrLfEndings(input) == 0
  {
    hide ReadLines, CrLfEndings;
    if CrLfEndings(input) == 0 {
      forall a: nat -> bool, b: nat -> bool
        ensures ReadLines(input, a, 0) == ReadLines(input, b, 0)
      {
        ScheduleIndependent(input, a, 0, b, 0);
      }
    } else {
      LateTrailersAddLines(input, 0, 0);
      assert ReadLines(input, _ => false, 0) != ReadLines(input, _ => true, 0);
    }
  }

  /** A check on the raw bytes that is enough: no LF directly after a CR anywhere. */
  lemma {:induction false} NoCrLfIsEnough(input: seq<byte>)
    requires forall i :: 0 < i < |input| && input[i] == LF ==> input[i - 1] != CR
    ensures CrLfEndings(input) == 0
    decreases |input|
  {
    hide ReadLine;
    LineConsumes(input, [], Visible, []);
    match ReadLine(input, [], Visible, [])
    case Line(_, ByEof, _, _) =>
    case Line(_, _, rest, _) =>
      var m := |input| - |rest|;
      forall i | 0 < i < |rest| && rest[i] == LF
        ensures rest[i - 1] != CR
      {
        assert rest[i] == input[m + i] && rest[i - 1] == input[m + i - 1];
      }
      assert rest != [] ==> rest[0] == input[m];
      NoCrLfIsEnough(rest);
    case _ =>
  }

  /** The echo mode decides what is echoed, never what is read. */
  lemma {:induction false} MaskingOnlyHidesEcho(
      input: seq<byte>, stack: seq<scalar>, echoed: seq<scalar>, echoed': seq<scalar>)
    ensures
      match (ReadLine(input, stack, Visible, echoed), ReadLine(input, stack, Masked, echoed'))
      case (Line(t, h, r, _), Line(t', h', r', _)) => t == t' && h == h' && r == r'
      case (NoLine(s, _), NoLine(s', _)) => s == s'
      case (TooLong(s, _), TooLong(s', _)) => s == s'
      case _ => false
    decreases |input|
  {
    hide EncodeChar, Encode, DecodeChar, AfterIac;
    match (Step(input, stack, Visible, echoed), Step(input, stack, Masked, echoed'))
    case (Go(rest, st, e), Go(_, _, e')) => MaskingOnlyHidesEcho(rest, st, e, e');
    case _ =>
  }

  // ---- The same question for keys, where the roles of LF and NUL are exchanged ----

  function ReadKeys(input: seq<byte>, arrives: nat -> bool, k: nat): seq<KeyEvent>
    decreases |input|
  {
    var run := ReadKey(input, arrives, k);
    if run.key.None? then [] else [run.key.value] + ReadKeys(run.rest, arrives, run.polls)
  }

  /** The byte after a key that is swallowed with it if it has arrived, and else is a key of its own. */
  predicate IsTrap(key: byte, rest: seq<byte>) {
    rest != [] && ((key == CR && rest[0] == NUL) || (key == ESC && rest[0] == 0x5B))
  }

  /** How many keys are followed by such a byte, reading one byte at a time. */
  function Traps(input: seq<byte>): nat
    decreases |input|
  {
    var run := ReadKey(input, NEVER, 0);
    if run.key.None? then 0
    else (if IsTrap(KeyByte(input, run.rest), run.rest) then 1 else 0) + Traps(run.rest)
  }

  /** What has arrived decides only what is left, and that only after a CR or an ESC. */
  lemma {:induction false} KeyRunTiming(input: seq<byte>, arrives: nat -> bool, k: nat)
    ensures
      var run, late := ReadKey(input, arrives, k), ReadKey(input, NEVER, 0);
      && run.key == late.key
      && (late.key.Some? ==>
            var b := KeyByte(input, late.rest);
            (run.rest, run.polls)
            == if b == CR then (AfterCr(late.rest, arrives(k)), k + 1)
               else if b == ESC then SwallowCsi(late.rest, arrives, k)
               else (late.rest, k))
    decreases |input|
  {
    hide SwallowCsi, AfterIac;
    if input != [] {
      var rest := input[1..];
      NothingSwallowed(rest);
      if input[0] == LF {
        KeyRunTiming(rest, arrives, k);
        KeyByteLater(input, rest);
      } else if input[0] == IAC && AfterIac(rest).Some? {
        KeyRunTiming(AfterIac(rest).value, arrives, k);
        KeyByteLater(input, AfterIac(rest).value);
      }
    }
  }

  lemma LfIsNoKey(rest: seq<byte>, arrives: nat -> bool, k: nat)
    ensures ReadKey([LF] + rest, arrives, k) == ReadKey(rest, arrives, k)
    ensures ReadKeys([LF] + rest, arrives, k) == ReadKeys(rest, arrives, k)
  {
    assert ([LF] + rest)[1..] == rest;
  }

  lemma {:induction false} KeysIndependent(
      input: seq<byte>, arrives: nat -> bool, k: nat, arrives': nat -> bool, k': nat)
    requires Traps(input) == 0
    ensures ReadKeys(input, arrives, k) == ReadKeys(input, arrives', k')
    decreases |input|
  {
    hide ReadKey;
    KeyRunTiming(input, arrives, k);
    KeyRunTiming(input, arrives', k');
    var late := ReadKey(input, NEVER, 0);
    var one, two := ReadKey(input, arrives, k), ReadKey(input, arrives', k');
    if late.key.Some? {
      KeysIndependent(late.rest, arrives, one.polls, arrives', two.polls);
      if late.rest != [] && late.rest[0] == LF {
        assert late.rest == [LF] + late.rest[1..];
        LfIsNoKey(late.rest[1..], arrives, one.polls);
        LfIsNoKey(late.rest[1..], arrives', two.polls);
      }
    }
  }

  /** Once nothing more arrives early it does not matter where the polls are counted from. */
  lemma {:induction false} NothingEarly(input: seq<byte>, arrives: nat -> bool, k: nat, k': nat)
    requires forall j | j >= k :: !arrives(j)
    ensures ReadKeys(input, arrives, k) == ReadKeys(input, NEVER, k')
    decreases |input|
  {
    hide ReadKey;
    KeyRunTiming(input, arrives, k);
    KeyRunTiming(input, NEVER, k');
    var one, two := ReadKey(input, arrives, k), ReadKey(input, NEVER, k');
    if one.key.Some? { NothingEarly(one.rest, arrives, one.polls, two.polls); }
  }

  lemma PlainKey(b: byte, rest: seq<byte>, arrives: nat -> bool, k: nat)
    requires b == NUL || b == 0x5B
    ensures ReadKeys([b] + rest, arrives, k) == [KeyOf(b)] + ReadKeys(rest, arrives, k)
  {
    assert ([b] + rest)[1..] == rest;
    assert ReadKey([b] + rest, arrives, k) == KeyRun(Some(KeyOf(b)), rest, k);
  }

  /** The schedule under which only the byte polled at `n` has arrived. */
  function Just(n: nat): nat -> bool {
    j => j == n
  }

  /** If a single such byte arrives early there is one key fewer. */
  lemma {:induction false} OneArrival(input: seq<byte>, k: nat, k': nat) returns (n: nat)
    requires Traps(input) > 0
    ensures n >= k && |ReadKeys(input, Just(n), k)| == |ReadKeys(input, NEVER, k')| - 1
    decreases |input|
  {
    hide ReadKey, ReadKeys, SwallowCsi;
    var late, two := ReadKey(input, NEVER, 0), ReadKey(input, NEVER, k');
    var b, rest := KeyByte(input, late.rest), late.rest;
    LateKey(input, k');
    if IsTrap(b, rest) {
      n := k;
      TrappedKey(input, k, k');
    } else {
      var polls := if b == CR || b == ESC then k + 1 else k;
      n := OneArrival(rest, polls, two.polls);
      FreeKey(input, Just(n), k);
      KeysFront(input, Just(n), k);
      KeysFront(input, NEVER, k');
    }
  }

  lemma KeysFront(input: seq<byte>, arrives: nat -> bool, k: nat)
    ensures
      var run := ReadKey(input, arrives, k);
      ReadKeys(input, arrives, k)
      == if run.key.None? then [] else [run.key.value] + ReadKeys(run.rest, arrives, run.polls)
  {
  }

  /** With nothing arriving early only the key's own bytes are taken. */
  lemma LateKey(input: seq<byte>, k: nat)
    ensures
      var late, run := ReadKey(input, NEVER, 0), ReadKey(input, NEVER, k);
      run.key == late.key && (late.key.Some? ==> run.rest == late.rest)
  {
    KeyRunTiming(input, NEVER, k);
    hide ReadKey;
  }

  /** Nor is more taken where the next poll finds nothing. */
  lemma FreeKey(input: seq<byte>, arrives: nat -> bool, k: nat)
    requires ReadKey(input, NEVER, 0).key.Some?
    requires var b := KeyByte(input, ReadKey(input, NEVER, 0).rest); b == CR || b == ESC ==> !arrives(k)
    ensures
      var late := ReadKey(input, NEVER, 0);
      var b := KeyByte(input, late.rest);
      ReadKey(input, arrives, k) == KeyRun(late.key, late.rest, if b == CR || b == ESC then k + 1 else k)
  {
    KeyRunTiming(input, arrives, k);
    hide ReadKey;
  }

  /** Where the next poll alone finds something, the byte behind the key goes with it. */
  lemma TakenKey(input: seq<byte>, k: nat)
    requires ReadKey(input, NEVER, 0).key.Some?
    requires var late := ReadKey(input, NEVER, 0); IsTrap(KeyByte(input, late.rest), late.rest)
    ensures
      var late, one := ReadKey(input, NEVER, 0), ReadKey(input, Just(k), k);
      && one.key == late.key && late.rest != [] && one.rest == late.rest[1..] && one.polls > k
      && (late.rest[0] == NUL || late.rest[0] == 0x5B)
  {
    hide ReadKey;
    KeyRunTiming(input, Just(k), k);
  }

  lemma TrappedKey(input: seq<byte>, k: nat, k': nat)
    requires ReadKey(input, NEVER, 0).key.Some?
    requires var late := ReadKey(input, NEVER, 0); IsTrap(KeyByte(input, late.rest), late.rest)
    ensures |ReadKeys(input, Just(k), k)| == |ReadKeys(input, NEVER, k')| - 1
  {
    hide ReadKey, ReadKeys, SwallowCsi, AfterCr;
    TakenKey(input, k);
    hide IsTrap, KeyByte;
    var rest, one, two := ReadKey(input, NEVER, 0).rest, ReadKey(input, Just(k), k), ReadKey(input, NEVER, k');
    LateKey(input, k');
    KeysFront(input, NEVER, k');
    KeysFront(input, Just(k), k);
    assert rest == [rest[0]] + rest[1..];
    PlainKey(rest[0], rest[1..], NEVER, two.polls);
    NothingEarly(one.rest, Just(k), one.polls, two.polls);
  }

  /**
    A bare LF is no key, so CR LF is one Enter however it is timed; but a late NUL after CR and a late
    bracket after ESC are keys of their own. The keys read are independent of timing if and only if
    no Enter is sent as CR NUL and no ESC key is directly followed by a bracket.
   */
  lemma KeyTimingMattersIffTrap(input: seq<byte>)
    ensures
      (forall a: nat -> bool, b: nat -> bool :: ReadKeys(input, a, 0) == ReadKeys(input, b, 0))
      <==> Traps(input) == 0
  {
    hide ReadKeys, Traps;
    if Traps(input) == 0 {
      forall a: nat -> bool, b: nat -> bool
        ensures ReadKeys(input, a, 0) == ReadKeys(input, b, 0)
      {
        KeysIndependent(input, a, 0, b, 0);
      }
    } else {
      var n := OneArrival(input, 0, 0);
      assert ReadKeys(input, NEVER, 0) != ReadKeys(input, Just(n), 0);
    }
  }

  /** A check on the raw bytes that is enough: no NUL directly after a CR, no bracket directly after an ESC. */
  lemma {:induction false} NoTrapIsEnough(input: seq<byte>)
    requires forall i :: 0 < i < |input| ==> !IsTrap(input[i - 1], [input[i]])
    ensures Traps(input) == 0
    decreases |input|
  {
    hide ReadKey;
    var run := ReadKey(input, NEVER, 0);
    if run.key.Some? {
      var m := |input| - |run.rest|;
      forall i | 0 < i < |run.rest|
        ensures !IsTrap(run.rest[i - 1], [run.rest[i]])
      {
        assert run.rest[i] == input[m + i] && run.rest[i - 1] == input[m + i - 1];
      }
      assert run.rest != [] ==> run.rest[0] == input[m];
      NoTrapIsEnough(run.rest);
    }
  }
}
