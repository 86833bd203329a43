/**
  A connection from its first read to its end: consecutive calls of the codec for lines and keys, in
  any mixture, on one stream with one pushback slot.
 */
module TelnetReads {
  import opened Basics
  import opened Utf8
  import opened TelnetSpec
  import opened TelnetTiming
  import opened TelnetStream

  // ---- What consecutive reads answer ----

  datatype Want = WantLine(mode: EchoMode) | WantKey

  datatype Answer = LineAnswer(text: seq<scalar>) | KeyAnswer(key: KeyEvent) | Closed | TooLongAnswer

  /** The answers to the wanted reads, in order, up to the one that ends the connection. */
  function Answers(input: seq<byte>, wants: seq<Want>, arrives: nat -> bool, k: nat): seq<Answer>
    decreases |wants|
  {
    if wants == [] then []
    else if wants[0].WantKey? then
      var run := ReadKey(input, arrives, k);
      if run.key.None? then [Closed]
      else [KeyAnswer(run.key.value)] + Answers(run.rest, wants[1..], arrives, run.polls)
    else
      match ReadLine(input, [], wants[0].mode, [])
      case Line(text, how, rest, _) =>
        [LineAnswer(text)]
        + (if how == ByCr then Answers(AfterCr(rest, arrives(k)), wants[1..], arrives, k + 1)
           else Answers(rest, wants[1..], arrives, k))
      case NoLine(_, _) => [Closed]
      case TooLong(_, _) => [TooLongAnswer]
  }

  /** What a caller is handed for an answer: a line as its UTF-8 bytes. */
  datatype Handed = HandedLine(bytes: seq<byte>) | HandedKey(key: KeyEvent) | HandedEnd | HandedTooLong

  function Hand(a: Answer): Handed {
    match a
    case LineAnswer(text) => HandedLine(Encode(text))
    case KeyAnswer(key) => HandedKey(key)
    case Closed => HandedEnd
    case TooLongAnswer => HandedTooLong
  }

  function HandAll(answers: seq<Answer>): (handed: seq<Handed>)
    ensures |handed| == |answers|
  {
    seq(|answers|, i requires 0 <= i < |answers| => Hand(answers[i]))
  }

  lemma HandFront(a: Answer, rest: seq<Answer>)
    ensures HandAll([a] + rest) == [Hand(a)] + HandAll(rest)
  {
  }

  /** Serves the wanted reads one after the other. */
  method ServeAll(s: TelnetStream, wants: seq<Want>) returns (handed: seq<Handed>)
    requires s.Valid() && s.buf == []
    modifies s
    ensures handed == HandAll(Answers(old(s.Remaining()), wants, s.arrives, old(s.polls)))
  {
    hide Encode, ReadLine, ReadKey, AfterCr, HandAll, Hand, Answers, TelnetStream.Remaining;
    handed := [];
    var i := 0;
    NothingEncoded();
    assert wants[0..] == wants;
    ghost var all := HandAll(Answers(s.Remaining(), wants, s.arrives, s.polls));
    assert [] + all == all;
    while i < |wants|
      invariant 0 <= i <= |wants| && s.Valid() && s.buf == []
      invariant handed + HandAll(Answers(s.Remaining(), wants[i..], s.arrives, s.polls)) == all
    {
      ghost var more := wants[i + 1..];
      assert wants[i..] == [wants[i]] + more;
      ghost var due := Answers(s.Remaining(), [wants[i]] + more, s.arrives, s.polls);
      var answer, ended := Serve(s, wants[i]);
      if ended {
        assert due == [due[0]];
        NothingHanded(due[0]);
        handed := handed + [answer];
        return;
      }
      HandFront(due[0], Answers(s.Remaining(), more, s.arrives, s.polls));
      ghost var rest := HandAll(Answers(s.Remaining(), more, s.arrives, s.polls));
      assert handed + ([answer] + rest) == (handed + [answer]) + rest;
      handed := handed + [answer];
      i := i + 1;
    }
    NoneLeft(s.Remaining(), s.arrives, s.polls);
    assert wants[i..] == [] && handed + [] == handed;
  }

  lemma NoneLeft(input: seq<byte>, arrives: nat -> bool, k: nat)
    ensures HandAll(Answers(input, [], arrives, k)) == []
  {
  }

  lemma NothingEncoded()
    ensures Encode([]) == []
  {
  }

  lemma NothingHanded(a: Answer)
    ensures HandAll([a]) == [Hand(a)]
  {
  }

  /** One read. */
  method Serve(s: TelnetStream, want: Want) returns (answer: Handed, ended: bool)
    requires s.Valid() && s.buf == []
    modifies s
    ensures forall wants ::
      var all := Answers(old(s.Remaining()), [want] + wants, s.arrives, old(s.polls));
      && all != [] && answer == Hand(all[0])
      && (ended ==> |all| == 1)
      && (!ended ==> s.Valid() && s.buf == [] && all == [all[0]] + Answers(s.Remaining(), wants, s.arrives, s.polls))
    ensures want.WantKey? ==>
      var key := ReadKey(old(s.Remaining()), s.arrives, old(s.polls)).key;
      ended == key.None? && answer == if key.None? then HandedEnd else HandedKey(key.value)
    ensures want.WantLine? ==>
      match ReadLine(old(s.Remaining()), [], want.mode, [])
      case Line(text, _, _, _) => !ended && answer == HandedLine(Encode(text))
      case NoLine(_, _) => ended && answer == HandedEnd
      case TooLong(_, _) => ended && answer == HandedTooLong
  {
    hide Encode, ReadLine, ReadKey, AfterCr;
    assert forall wants :: ([want] + wants)[1..] == wants;
    match want
    case WantKey =>
      var key := s.ReadTelnetKey();
      ended := key.None?;
      answer := if key.None? then HandedEnd else HandedKey(key.value);
    case WantLine(mode) =>
      NothingEncoded();
      var r := s.ReadTelnetLine(mode, []);
      ended := !r.GotLine?;
      answer := match r
                case GotLine(bytes) => HandedLine(bytes)
                case EndOfInput => HandedEnd
                case LineTooLong => HandedTooLong;
  }

  // ---- Whether the mixture can tell how bytes were timed ----

  /** A byte that, left by a key or a line ended by `last`, the next read would notice. */
  predicate Noticed(last: byte, rest: seq<byte>, wants: seq<Want>) {
    && rest != [] && wants != []
    && ((last == CR && (if wants[0].WantKey? then rest[0] == NUL else rest[0] == LF))
      || (last == ESC && rest[0] == 0x5B))
  }

  /** No such byte is left anywhere, reading without any byte arriving early. */
  predicate Unnoticed(input: seq<byte>, wants: seq<Want>)
    decreases |wants|
  {
    if wants == [] then true
    else if wants[0].WantKey? then
      var run := ReadKey(input, NEVER, 0);
      run.key.Some? ==> !Noticed(KeyByte(input, run.rest), run.rest, wants[1..]) && Unnoticed(run.rest, wants[1..])
    else
      match ReadLine(input, [], wants[0].mode, [])
      case Line(_, how, rest, _) =>
        (how == ByCr ==> !Noticed(CR, rest, wants[1..])) && Unnoticed(rest, wants[1..])
      case _ => true
  }

  /** A line does not see a NUL before it, nor a key an LF. */
  lemma TrailerUnseen(rest: seq<byte>, wants: seq<Want>, arrives: nat -> bool, k: nat)
    requires !Noticed(CR, rest, wants)
    ensures Answers(AfterCr(rest, true), wants, arrives, k) == Answers(rest, wants, arrives, k)
  {
    if wants != [] && rest != [] && (rest[0] == LF || rest[0] == NUL) {
      assert rest == [rest[0]] + rest[1..];
      if wants[0].WantKey? {
        LfIsNoKey(rest[1..], arrives, k);
      } else {
        assert Step(rest, [], wants[0].mode, []) == Go(rest[1..], [], []);
        assert ReadLine(rest, [], wants[0].mode, []) == ReadLine(rest[1..], [], wants[0].mode, []);
      }
    }
  }

  lemma NoBracket(rest: seq<byte>, wants: seq<Want>, arrives: nat -> bool, k: nat)
    requires !Noticed(ESC, rest, wants) && wants != []
    ensures SwallowCsi(rest, arrives, k) == (rest, k + 1)
  {
  }

  /**
    Any mixture of line and key reads is answered alike under any two schedules, if no ending CR is
    followed by an LF that the next line would take for an empty one or a NUL that the next key would
    take for a key, and no ESC key by a bracket.
   */
  lemma {:induction false} MixedIndependent(
      input: seq<byte>, wants: seq<Want>, arrives: nat -> bool, k: nat, arrives': nat -> bool, k': nat)
    requires Unnoticed(input, wants)
    ensures Answers(input, wants, arrives, k) == Answers(input, wants, arrives', k')
    decreases |wants|
  {
    hide ReadLine, ReadKey, SwallowCsi, Noticed;
    if wants != [] {
      var more := wants[1..];
      if wants[0].WantKey? {
        KeyRunTiming(input, arrives, k);
        KeyRunTiming(input, arrives', k');
        var late := ReadKey(input, NEVER, 0);
        var one, two := ReadKey(input, arrives, k), ReadKey(input, arrives', k');
        if late.key.Some? {
          MixedIndependent(late.rest, more, arrives, one.polls, arrives', two.polls);
          if KeyByte(input, late.rest) == CR {
            TrailerUnseen(late.rest, more, arrives, one.polls);
            TrailerUnseen(late.rest, more, arrives', two.polls);
          } else if KeyByte(input, late.rest) == ESC && more != [] {
            NoBracket(late.rest, more, arrives, k);
            NoBracket(late.rest, more, arrives', k');
          }
        }
      } else {
        match ReadLine(input, [], wants[0].mode, [])
        case Line(_, ByCr, rest, _) =>
          MixedIndependent(rest, more, arrives, k + 1, arrives', k' + 1);
          TrailerUnseen(rest, more, arrives, k + 1);
          TrailerUnseen(rest, more, arrives', k' + 1);
        case Line(_, _, rest, _) => MixedIndependent(rest, more, arrives, k, arrives', k');
        case _ =>
      }
    }
  }

  /**
    A check on the raw bytes that is enough: a stream with no LF or NUL directly after a CR and no
    bracket directly after an ESC is read alike under any two schedules, whatever is read from it.
   */
  lemma RawPairsAreEnough(input: seq<byte>, wants: seq<Want>, arrives: nat -> bool, arrives': nat -> bool)
    requires forall i | 0 < i < |input| :: input[i - 1] == 13 ==> input[i] != 10 && input[i] != 0
    requires forall i | 0 < i < |input| :: input[i - 1] == 27 ==> input[i] != 91
    ensures Answers(input, wants, arrives, 0) == Answers(input, wants, arrives', 0)
    ensures ReadKeys(input, arrives, 0) == ReadKeys(input, arrives', 0)
  {
    RawIsUnnoticed(input, wants);
    MixedIndependent(input, wants, arrives, 0, arrives', 0);
    forall i | 0 < i < |input|
      ensures !IsTrap(input[i - 1], [input[i]])
    {
    }
    NoTrapIsEnough(input);
    KeysIndependent(input, arrives, 0, arrives', 0);
  }

  lemma {:induction false} RawIsUnnoticed(input: seq<byte>, wants: seq<Want>)
    requires forall i | 0 < i < |input| :: input[i - 1] == 13 ==> input[i] != 10 && input[i] != 0
    requires forall i | 0 < i < |input| :: input[i - 1] == 27 ==> input[i] != 91
    ensures Unnoticed(input, wants)
    decreases |wants|
  {
    hide ReadLine, ReadKey;
    if wants != [] {
      if wants[0].WantKey? {
        var rest := ReadKey(input, NEVER, 0).rest;
        if ReadKey(input, NEVER, 0).key.Some? {
          RawTail(input, rest);
          RawIsUnnoticed(rest, wants[1..]);
        }
      } else {
        LineConsumes(input, [], wants[0].mode, []);
        match ReadLine(input, [], wants[0].mode, [])
        case Line(_, _, rest, _) =>
          RawTail(input, rest);
          RawIsUnnoticed(rest, wants[1..]);
        case _ =>
      }
    }
  }

  lemma RawTail(input: seq<byte>, rest: seq<byte>)
    requires IsSuffix(rest, input)
    requires forall i | 0 < i < |input| :: input[i - 1] == 13 ==> input[i] != 10 && input[i] != 0
    requires forall i | 0 < i < |input| :: input[i - 1] == 27 ==> input[i] != 91
    ensures forall i | 0 < i < |rest| :: rest[i - 1] == 13 ==> rest[i] != 10 && rest[i] != 0
    ensures forall i | 0 < i < |rest| :: rest[i - 1] == 27 ==> rest[i] != 91
    ensures rest != [] && |rest| < |input| ==>
      && rest[0] == input[|input| - |rest|]
      && (input[|input| - |rest| - 1] == 13 ==> rest[0] != 10 && rest[0] != 0)
      && (input[|input| - |rest| - 1] == 27 ==> rest[0] != 91)
  {
    var m := |input| - |rest|;
    assert forall i | 0 <= i < |rest| :: rest[i] == input[m + i];
    forall i | 0 < i < |rest|
      ensures rest[i - 1] == 13 ==> rest[i] != 10 && rest[i] != 0
      ensures rest[i - 1] == 27 ==> rest[i] != 91
    {
      assert rest[i] == input[m + i] && rest[i - 1] == input[m + i - 1];
    }
  }

  // ---- Lines only, keys only ----

  ghost predicate Encodes(lines: seq<seq<byte>>, texts: seq<seq<scalar>>) {
    |lines| == |texts| && forall i | 0 <= i < |lines| :: lines[i] == Encode(texts[i])
  }

  lemma EncodesMore(lines: seq<seq<byte>>, texts: seq<seq<scalar>>, text: seq<scalar>)
    requires Encodes(lines, texts)
    ensures Encodes(lines + [Encode(text)], texts + [text])
  {
    hide Encode;
  }

  /** What is left to read once one line has been. */
  lemma LinesFront(input: seq<byte>, arrives: nat -> bool, k: nat)
    ensures
      match ReadLine(input, [], Visible, [])
      case Line(text, how, rest, _) =>
        var left := if how == ByCr then AfterCr(rest, arrives(k)) else rest;
        && |left| < |input|
        && ReadLines(input, arrives, k) == Prepend(text, ReadLines(left, arrives, if how == ByCr then k + 1 else k))
      case NoLine(_, _) => ReadLines(input, arrives, k) == Lines([], PeerClosed)
      case TooLong(_, _) => ReadLines(input, arrives, k) == Lines([], Overflowed)
  {
    LineConsumes(input, [], Visible, []);
    LineOfNothing(input);
    hide ReadLine;
  }

  lemma LineOfNothing(input: seq<byte>)
    ensures ReadLine([], [], Visible, []).NoLine?
  {
  }

  /** Reads lines until the peer closes or one is too long. */
  method ReadAllLines(s: TelnetStream) returns (lines: seq<seq<byte>>, end: Ending)
    requires s.Valid() && s.buf == []
    modifies s
    ensures
      var all := ReadLines(old(s.Remaining()), s.arrives, old(s.polls));
      end == all.end && Encodes(lines, all.lines)
  {
    hide Encode, ReadLine, AfterCr, ReadLines, Encodes, TelnetStream.Remaining;
    ghost var all, texts: seq<seq<scalar>> := ReadLines(s.Remaining(), s.arrives, s.polls), [];
    lines := [];
    NothingEncoded();
    NoneEncoded();
    assert [] + all.lines == all.lines;
    while true
      invariant s.Valid() && s.buf == [] && Encodes(lines, texts)
      invariant texts + ReadLines(s.Remaining(), s.arrives, s.polls).lines == all.lines
      invariant ReadLines(s.Remaining(), s.arrives, s.polls).end == all.end
      decreases |s.Remaining()|
    {
      ghost var input := s.Remaining();
      LinesFront(input, s.arrives, s.polls);
      var r := s.ReadTelnetLine(Visible, []);
      if !r.GotLine? {
        assert texts + [] == texts;
        end := if r.EndOfInput? then PeerClosed else Overflowed;
        return;
      }
      ghost var text := ReadLine(input, [], Visible, []).text;
      ghost var more := ReadLines(s.Remaining(), s.arrives, s.polls).lines;
      assert texts + ([text] + more) == (texts + [text]) + more;
      EncodesMore(lines, texts, text);
      lines, texts := lines + [r.bytes], texts + [text];
    }
  }

  lemma NoneEncoded()
    ensures Encodes([], [])
  {
  }

  /** The bytes that the keys of a connection are read from. */
  function KeyBytes(input: seq<byte>, arrives: nat -> bool, k: nat): seq<byte>
    decreases |input|
  {
    var run := ReadKey(input, arrives, k);
    if run.key.None? then []
    else
      KeyIsItsByte(input, arrives, k);
      [input[|input| - |ReadKey(input, NEVER, 0).rest| - 1]] + KeyBytes(run.rest, arrives, run.polls)
  }

  lemma {:induction false} EachByteNames(input: seq<byte>, arrives: nat -> bool, k: nat)
    ensures
      var keys, bytes := ReadKeys(input, arrives, k), KeyBytes(input, arrives, k);
      |keys| == |bytes| && forall i | 0 <= i < |keys| :: Names(bytes[i], keys[i])
    decreases |input|
  {
    hide ReadKey;
    KeyIsItsByte(input, arrives, k);
    var run := ReadKey(input, arrives, k);
    if run.key.Some? {
      var b := input[|input| - |ReadKey(input, NEVER, 0).rest| - 1];
      assert Names(b, run.key.value);
      hide Names;
      EachByteNames(run.rest, arrives, run.polls);
      assert ReadKeys(input, arrives, k) == [run.key.value] + ReadKeys(run.rest, arrives, run.polls);
      assert KeyBytes(input, arrives, k) == [b] + KeyBytes(run.rest, arrives, run.polls);
    }
  }

  /** Each key of a connection is the one its byte names. */
  lemma KeysAreTheirBytes(input: seq<byte>, arrives: nat -> bool, k: nat)
    ensures
      var keys, bytes := ReadKeys(input, arrives, k), KeyBytes(input, arrives, k);
      && |keys| == |bytes|
      && forall i | 0 <= i < |keys| ::
           && bytes[i] != 0x0A && bytes[i] != 0xFF
           && (keys[i] == Enter <==> bytes[i] == 0x0D)
           && (keys[i] == Backspace <==> bytes[i] == 0x08 || bytes[i] == 0x7F)
           && (keys[i] == CtrlC <==> bytes[i] == 0x03)
           && (keys[i].Char? <==> 0x20 <= bytes[i] <= 0x7E) && (keys[i].Char? ==> keys[i].b == bytes[i])
           && (keys[i] == Other <==>
                 bytes[i] > 0x7F || (bytes[i] < 0x20 && bytes[i] != 0x03 && bytes[i] != 0x08 && bytes[i] != 0x0D))
  {
    hide ReadKeys, KeyBytes;
    EachByteNames(input, arrives, k);
  }

  /** Reads keys until the peer closes. */
  method ReadAllKeys(s: TelnetStream) returns (keys: seq<KeyEvent>)
    requires s.Valid()
    modifies s`pos, s`polls, s`pushback
    ensures keys == ReadKeys(old(s.Remaining()), s.arrives, old(s.polls))
    ensures
      var bytes := KeyBytes(old(s.Remaining()), s.arrives, old(s.polls));
      && |keys| == |bytes|
      && forall i | 0 <= i < |keys| ::
           && bytes[i] != 0x0A && bytes[i] != 0xFF
           && (keys[i] == Enter <==> bytes[i] == 0x0D)
           && (keys[i] == Backspace <==> bytes[i] == 0x08 || bytes[i] == 0x7F)
           && (keys[i] == CtrlC <==> bytes[i] == 0x03)
           && (keys[i].Char? <==> 0x20 <= bytes[i] <= 0x7E) && (keys[i].Char? ==> keys[i].b == bytes[i])
           && (keys[i] == Other <==>
                 bytes[i] > 0x7F || (bytes[i] < 0x20 && bytes[i] != 0x03 && bytes[i] != 0x08 && bytes[i] != 0x0D))
  {
    hide ReadKey, KeyBytes;
    KeysAreTheirBytes(s.Remaining(), s.arrives, s.polls);
    keys := [];
    ghost var all := ReadKeys(s.Remaining(), s.arrives, s.polls);
    assert [] + all == all;
    while true
      invariant s.Valid() && keys + ReadKeys(s.Remaining(), s.arrives, s.polls) == all
      decreases |s.Remaining()|
    {
      var key := s.ReadTelnetKey();
      if key.None? {
        assert keys + [] == keys;
        return;
      }
      ghost var more := ReadKeys(s.Remaining(), s.arrives, s.polls);
      assert keys + ([key.value] + more) == (keys + [key.value]) + more;
      keys := keys + [key.value];
    }
  }
}
