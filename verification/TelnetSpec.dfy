/**
  What reading a line or a key from a telnet connection means, stated over the whole of the bytes
  still to come instead of one byte at a time.

  The line under construction is a stack of code points. `ReadLine` looks ahead: where a well-formed
  UTF-8 character starts it takes that character, and where none does it takes the single byte as
  the Latin-1 code point of the same number. There is no notion of a half-assembled character.
 */
module TelnetSpec {
  import opened Basics
  import opened Utf8

  const IAC: byte := 0xFF
  const SE: byte := 0xF0
  const SB: byte := 0xFA
  const NUL: byte := 0
  const ETX: byte := 0x03
  const BS: byte := 0x08
  const LF: byte := 0x0A
  const CR: byte := 0x0D
  const ESC: byte := 0x1B
  const DEL: byte := 0x7F

  const MAX_TERMINAL_LINE_BYTES := 4096

  const CRLF: seq<scalar> := [0x0D, 0x0A]
  /** Step back, blank the column, step back again. */
  const ERASE: seq<scalar> := [0x08, 0x20, 0x08]
  const STAR: scalar := 0x2A

  datatype EchoMode = Visible | Masked

  /** What the terminal is sent for one accepted character. */
  function EchoOf(mode: EchoMode, c: scalar): seq<scalar> {
    if mode == Visible then [c] else [STAR]
  }

  datatype Terminator = ByCr | ByLf | ByEof

  /** How one call ends: the text, what ended it and the bytes left; or why there is no line. */
  datatype LineRun =
    | Line(text: seq<scalar>, how: Terminator, rest: seq<byte>, echoed: seq<scalar>)
    | NoLine(kept: seq<scalar>, echoed: seq<scalar>)
    | TooLong(kept: seq<scalar>, echoed: seq<scalar>)

  ghost predicate IsSuffix(r: seq<byte>, s: seq<byte>) {
    |r| <= |s| && s[|s| - |r|..] == r
  }

  /**
    The bytes after a telnet command whose IAC has been read, or None if input ends inside it.
    A doubled IAC is a command like any other here: both bytes vanish.
   */
  function AfterIac(s: seq<byte>): (r: Option<seq<byte>>)
    ensures r.Some? ==> IsSuffix(r.value, s)
  {
    if s == [] then None
    else if 0xFB <= s[0] <= 0xFE then Some(if |s| >= 2 then s[2..] else [])
    else if s[0] == SB then AfterSub(s[1..])
    else Some(s[1..])
  }

  /** The bytes after the IAC SE that closes a subnegotiation. */
  function AfterSub(s: seq<byte>): (r: Option<seq<byte>>)
    ensures r.Some? ==> IsSuffix(r.value, s)
  {
    if s == [] then None
    else if s[0] != IAC then AfterSub(s[1..])
    else if |s| == 1 then None
    else if s[1] == SE then Some(s[2..])
    else AfterSub(s[2..])
  }

  predicate Fits(stack: seq<scalar>, c: scalar) {
    |Encode(stack)| + |EncodeChar(c)| <= MAX_TERMINAL_LINE_BYTES
  }

  /** Bytes of an unfinished character read as the Latin-1 code points of the same number. */
  function Latin1(s: seq<byte>): (cs: seq<scalar>)
    ensures |cs| == |s|
  {
    seq(|s|, i requires 0 <= i < |s| => s[i])
  }

  /** The character, and its length, that the high byte at the front of `s` contributes. */
  function HighChar(s: seq<byte>): (r: (scalar, nat))
    requires s != []
    ensures 1 <= r.1 <= |s|
  {
    var n := CharLen(s);
    if n > 0 then (DecodeChar(s[..n]), n) else (s[0], 1)
  }

  /** One unit of input: a character, a telnet command or a control byte; or the end of the call. */
  datatype Progress = Go(rest: seq<byte>, stack: seq<scalar>, echoed: seq<scalar>) | Stop(run: LineRun)

  function Accept(c: scalar, rest: seq<byte>, stack: seq<scalar>, mode: EchoMode, echoed: seq<scalar>): Progress {
    if Fits(stack, c) then Go(rest, stack + [c], echoed + EchoOf(mode, c)) else Stop(TooLong(stack, echoed))
  }

  function Step(input: seq<byte>, stack: seq<scalar>, mode: EchoMode, echoed: seq<scalar>): (p: Progress)
    ensures p.Go? ==> |p.rest| < |input| && IsSuffix(p.rest, input)
  {
    if input == [] then
      Stop(if stack == [] then NoLine([], echoed) else Line(stack, ByEof, [], echoed))
    else if Partial(input) then
      // The peer closed inside a character: it joins the line unechoed, whatever the cap says.
      Stop(Line(stack + Latin1(input), ByEof, [], echoed))
    else
      var b := input[0];
      if b == IAC then
        match AfterIac(input[1..])
        case None => Stop(NoLine(stack, echoed))
        case Some(rest) => Go(rest, stack, echoed)
      else if b >= 0x80 then var (c, n) := HighChar(input); Accept(c, input[n..], stack, mode, echoed)
      else if b == CR then Stop(Line(stack, ByCr, input[1..], echoed + CRLF))
      else if b == LF then Stop(Line(stack, ByLf, input[1..], echoed + CRLF))
      else if (b == BS || b == DEL) && stack != [] then
        Go(input[1..], stack[..|stack| - 1], echoed + ERASE)
      else if 0x20 <= b then Accept(b, input[1..], stack, mode, echoed)
      else Go(input[1..], stack, echoed)
  }

  function ReadLine(input: seq<byte>, stack: seq<scalar>, mode: EchoMode, echoed: seq<scalar>): (run: LineRun)
    decreases |input|
  {
    match Step(input, stack, mode, echoed)
    case Stop(run) => run
    case Go(rest, st, e) => ReadLine(rest, st, mode, e)
  }

  /** What is left after a CR, given whether the next byte had already arrived when it was polled. */
  function AfterCr(rest: seq<byte>, arrived: bool): seq<byte> {
    if arrived && rest != [] && (rest[0] == LF || rest[0] == NUL) then rest[1..] else rest
  }

  datatype KeyEvent = Char(b: byte) | Enter | Backspace | CtrlC | Other

  /** One key, the bytes left, and the number of the next poll; None at the end of input. */
  datatype KeyRun = KeyRun(key: Option<KeyEvent>, rest: seq<byte>, polls: nat)

  function ReadKey(input: seq<byte>, arrives: nat -> bool, k: nat): (run: KeyRun)
    ensures IsSuffix(run.rest, input)
    ensures run.key.Some? ==> |run.rest| < |input|
    decreases |input|
  {
    if input == [] then KeyRun(None, [], k)
    else
      var b, rest := input[0], input[1..];
      if b == IAC then
        match AfterIac(rest)
        case None => KeyRun(None, [], k)
        case Some(after) => ReadKey(after, arrives, k)
      else if b == LF then ReadKey(rest, arrives, k)
      else if b == CR then KeyRun(Some(Enter), AfterCr(rest, arrives(k)), k + 1)
      else if b == ESC then var (after, k') := SwallowCsi(rest, arrives, k); KeyRun(Some(Other), after, k')
      else KeyRun(Some(KeyOf(b)), rest, k)
  }

  function KeyOf(b: byte): KeyEvent {
    if b == BS || b == DEL then Backspace
    else if b == ETX then CtrlC
    else if 0x20 <= b <= 0x7E then Char(b)
    else Other
  }

  /** Skips a `[` that has already arrived, and then what has arrived of the sequence it opens. */
  function SwallowCsi(s: seq<byte>, arrives: nat -> bool, k: nat): (r: (seq<byte>, nat))
    ensures IsSuffix(r.0, s)
  {
    if arrives(k) && s != [] && s[0] == 0x5B then SwallowBody(s[1..], arrives, k + 1, 8) else (s, k + 1)
  }

  /** At most `left` parameter bytes that have already arrived, up to and including a final byte. */
  function SwallowBody(s: seq<byte>, arrives: nat -> bool, k: nat, left: nat): (r: (seq<byte>, nat))
    ensures IsSuffix(r.0, s)
    decreases left
  {
    if left == 0 then (s, k)
    else if !arrives(k) || s == [] then (s, k + 1)
    else if 0x40 <= s[0] <= 0x7E then (s[1..], k + 1)
    else SwallowBody(s[1..], arrives, k + 1, left - 1)
  }

  // ---- Which byte a key is read from, and which key a byte is ----

  const NEVER: nat -> bool := _ => false

  /** The byte that a key was read from, all that follows it being left. */
  function KeyByte(input: seq<byte>, rest: seq<byte>): byte
    requires |rest| < |input|
  {
    input[|input| - |rest| - 1]
  }

  lemma NothingSwallowed(rest: seq<byte>)
    ensures SwallowCsi(rest, NEVER, 0) == (rest, 1)
  {
  }

  lemma KeyByteLater(input: seq<byte>, later: seq<byte>)
    requires IsSuffix(later, input)
    ensures forall rest: seq<byte> :: |rest| < |later| ==> KeyByte(input, rest) == KeyByte(later, rest)
  {
  }

  /** A byte in front of a key read: it is the key's, or the read goes on behind it, or input ends. */
  lemma KeyFront(b: byte, rest: seq<byte>, arrives: nat -> bool, k: nat)
    ensures
      var run := ReadKey([b] + rest, arrives, k);
      if b == LF then run == ReadKey(rest, arrives, k)
      else if b == IAC then
        match AfterIac(rest)
        case None => run.key == None
        case Some(after) => run == ReadKey(after, arrives, k)
      else run.key == Some(if b == CR then Enter else if b == ESC then Other else KeyOf(b))
    ensures b != LF && b != IAC ==> ReadKey([b] + rest, NEVER, 0).rest == rest
  {
    hide AfterIac, SwallowCsi;
    assert ([b] + rest)[1..] == rest;
    NothingSwallowed(rest);
  }

  predicate Names(b: byte, key: KeyEvent) {
    && b != 0x0A && b != 0xFF
    && (key == Enter <==> b == 0x0D)
    && (key == Backspace <==> b == 0x08 || b == 0x7F)
    && (key == CtrlC <==> b == 0x03)
    && (key.Char? <==> 0x20 <= b <= 0x7E) && (key.Char? ==> key.b == b)
  }

  lemma ByteNames(b: byte)
    requires b != LF && b != IAC
    ensures Names(b, if b == CR then Enter else if b == ESC then Other else KeyOf(b))
  {
  }

  lemma FirstByte(b: byte, rest: seq<byte>)
    ensures KeyByte([b] + rest, rest) == b
  {
  }

  lemma {:induction false} KeyIsNamed(input: seq<byte>, arrives: nat -> bool, k: nat)
    ensures ReadKey(input, arrives, k).key == ReadKey(input, NEVER, 0).key
    ensures ReadKey(input, arrives, k).key.Some? ==>
      Names(KeyByte(input, ReadKey(input, NEVER, 0).rest), ReadKey(input, arrives, k).key.value)
    decreases |input|
  {
    if input == [] {
      return;
    }
    var b, rest := input[0], input[1..];
    assert input == [b] + rest;
    KeyFront(b, rest, arrives, k);
    KeyFront(b, rest, NEVER, 0);
    hide ReadKey, AfterIac, SwallowCsi, KeyByte, Names, KeyOf;
    if b == LF {
      KeyIsNamed(rest, arrives, k);
      KeyByteLater(input, rest);
    } else if b == IAC {
      if AfterIac(rest).Some? {
        KeyIsNamed(AfterIac(rest).value, arrives, k);
        KeyByteLater(input, AfterIac(rest).value);
      }
    } else {
      ByteNames(b);
      FirstByte(b, rest);
    }
  }

  /** For every stream and schedule, the key is the one its byte names. */
  lemma KeyIsItsByte(input: seq<byte>, arrives: nat -> bool, k: nat)
    ensures ReadKey(input, arrives, k).key == ReadKey(input, NEVER, 0).key
    ensures ReadKey(input, arrives, k).key.Some? ==>
      var key, b := ReadKey(input, arrives, k).key.value, input[|input| - |ReadKey(input, NEVER, 0).rest| - 1];
      && b != 0x0A && b != 0xFF
      && (key == Enter <==> b == 0x0D)
      && (key == Backspace <==> b == 0x08 || b == 0x7F)
      && (key == CtrlC <==> b == 0x03)
      && (key.Char? <==> 0x20 <= b <= 0x7E) && (key.Char? ==> key.b == b)
      && (key == Other <==> b > 0x7F || (b < 0x20 && b != 0x03 && b != 0x08 && b != 0x0D))
  {
    hide ReadKey;
    KeyIsNamed(input, arrives, k);
  }
}
