/** What holds of every run of the line reader, whatever bytes arrive and whenever they do. */
module TelnetLaws {
  import opened Basics
  import opened Utf8
  import opened TelnetSpec

  // ---- The length cap ----

  /**
    A line ended by CR or LF is within the cap. One ended by the peer closing can exceed it, by the
    three bytes of an unfinished character that are each restated in two.
   */
  lemma {:induction false} LineBounds(input: seq<byte>, stack: seq<scalar>, mode: EchoMode, echoed: seq<scalar>)
    requires |Encode(stack)| <= MAX_TERMINAL_LINE_BYTES
    ensures
      match ReadLine(input, stack, mode, echoed)
      case Line(text, how, _, _) =>
        |Encode(text)| <= MAX_TERMINAL_LINE_BYTES + if how == ByEof then 6 else 0
      case NoLine(kept, _) => |Encode(kept)| <= MAX_TERMINAL_LINE_BYTES
      case TooLong(kept, _) => |Encode(kept)| <= MAX_TERMINAL_LINE_BYTES
    decreases |input|
  {
    hide EncodeChar, Encode;
    match Step(input, stack, mode, echoed)
    case Stop(_) =>
      if Partial(input) {
        EncodeConcat(stack, Latin1(input));
        Latin1Length(input);
      }
    case Go(rest, st, e) =>
      StepShape(input, stack, mode, echoed);
      if |st| > |stack| {
        EncodeSnoc(stack, st[|stack|]);
      } else if |st| < |stack| {
        LastCharBytes(stack);
      }
      LineBounds(rest, st, mode, e);
  }

  lemma {:induction false} Latin1Length(s: seq<byte>)
    requires forall i | 0 <= i < |s| :: s[i] >= 0x80
    ensures |Encode(Latin1(s))| == 2 * |s|
  {
    if s != [] {
      var front := s[..|s| - 1];
      Latin1Length(front);
      assert Latin1(s) == Latin1(front) + [s[|s| - 1]];
    } else {
      assert Latin1(s) == [];
    }
  }

  /** A step pushes one displayable character, pops one, or leaves the line alone. */
  lemma StepShape(input: seq<byte>, stack: seq<scalar>, mode: EchoMode, echoed: seq<scalar>)
    ensures
      match Step(input, stack, mode, echoed)
      case Go(_, st, e) =>
        || (st == stack && e == echoed)
        || (stack != [] && st == stack[..|stack| - 1] && e == echoed + ERASE)
        || exists c :: st == stack + [c] && Fits(stack, c) && 0x20 <= c && e == echoed + EchoOf(mode, c)
      case Stop(_) => true
  {
    hide Encode, AfterIac;
  }

  // ---- What the terminal shows ----

  /** One row of a terminal: its cells, and the column the cursor is in. */
  datatype Row = Row(cells: seq<scalar>, cursor: nat)

  /** A backspace moves the cursor left; anything else is drawn over the cell under the cursor. */
  ghost function Draw(row: Row, c: scalar): Row
    requires row.cursor <= |row.cells|
    ensures Draw(row, c).cursor <= |Draw(row, c).cells|
  {
    if c == BS then Row(row.cells, if row.cursor == 0 then 0 else row.cursor - 1)
    else
      var under := if row.cursor < |row.cells| then row.cells[row.cursor + 1..] else [];
      Row(row.cells[..row.cursor] + [c] + under, row.cursor + 1)
  }

  ghost function DrawAll(row: Row, cs: seq<scalar>): (r: Row)
    requires row.cursor <= |row.cells|
    ensures r.cursor <= |r.cells|
  {
    if cs == [] then row else Draw(DrawAll(row, cs[..|cs| - 1]), cs[|cs| - 1])
  }

  /** The row reads `text` up to the cursor and is blank from there on. */
  ghost predicate Shows(row: Row, text: seq<scalar>) {
    && row.cursor == |text| <= |row.cells|
    && row.cells[..|text|] == text
    && forall i | |text| <= i < |row.cells| :: row.cells[i] == 0x20
  }

  /** A line as its echo mode displays it: itself, or one star for each character. */
  ghost function Image(mode: EchoMode, text: seq<scalar>): (r: seq<scalar>)
    ensures |r| == |text|
  {
    if mode == Visible then text else seq(|text|, _ => STAR)
  }

  lemma DrawSnoc(row: Row, cs: seq<scalar>, c: scalar)
    requires row.cursor <= |row.cells|
    ensures DrawAll(row, cs + [c]) == Draw(DrawAll(row, cs), c)
  {
    assert (cs + [c])[..|cs|] == cs;
  }

  lemma EraseRow(row: Row, text: seq<scalar>)
    requires text != [] && Shows(row, text)
    ensures Shows(Draw(Draw(Draw(row, BS), 0x20), BS), text[..|text| - 1])
  {
    var n := |text| - 1;
    var blanked := row.cells[..n] + [0x20] + row.cells[n + 1..];
    assert Draw(row, BS) == Row(row.cells, n);
    assert Draw(Row(row.cells, n), 0x20) == Row(blanked, n + 1);
    assert blanked[..n] == text[..n] by { assert row.cells[..n] == row.cells[..|text|][..n]; }
  }

  lemma DrawErase(row: Row, echoed: seq<scalar>, text: seq<scalar>)
    requires row.cursor <= |row.cells| && text != [] && Shows(DrawAll(row, echoed), text)
    ensures Shows(DrawAll(row, echoed + ERASE), text[..|text| - 1])
  {
    hide Shows, DrawAll, Draw;
    DrawSnoc(row, echoed, BS);
    DrawSnoc(row, echoed + [BS], 0x20);
    DrawSnoc(row, echoed + [BS] + [0x20], BS);
    assert echoed + [BS] + [0x20] + [BS] == echoed + ERASE;
    EraseRow(DrawAll(row, echoed), text);
  }

  /**
    Echo accounting. However much is typed and erased, the row on the user's terminal always shows
    exactly the line held so far, in stars when masked, with the cursor after its last character.
    Only the bytes of a character cut off by the peer closing are in the line but not on the row.
   */
  lemma {:induction false} EchoShowsLine(
      input: seq<byte>, stack: seq<scalar>, mode: EchoMode, echoed: seq<scalar>, row: Row)
    requires row.cursor <= |row.cells| && Shows(DrawAll(row, echoed), Image(mode, stack))
    ensures
      match ReadLine(input, stack, mode, echoed)
      case Line(text, how, _, all) =>
        if how == ByEof then
          exists shown :: shown <= text && |text| <= |shown| + 3 && Shows(DrawAll(row, all), Image(mode, shown))
        else
          exists before :: all == before + CRLF && Shows(DrawAll(row, before), Image(mode, text))
      case NoLine(kept, all) => Shows(DrawAll(row, all), Image(mode, kept))
      case TooLong(kept, all) => Shows(DrawAll(row, all), Image(mode, kept))
    decreases |input|
  {
    hide DrawAll, Shows;
    match Step(input, stack, mode, echoed)
    case Stop(run) =>
      if Partial(input) { assert stack <= run.text; }
    case Go(rest, st, e) =>
      StepShape(input, stack, mode, echoed);
      if |st| > |stack| {
        var c := st[|stack|];
        DrawSnoc(row, echoed, EchoOf(mode, c)[0]);
        ShowsPush(DrawAll(row, echoed), Image(mode, stack), EchoOf(mode, c)[0]);
        assert Image(mode, st) == Image(mode, stack) + EchoOf(mode, c);
      } else if |st| < |stack| {
        DrawErase(row, echoed, Image(mode, stack));
        assert Image(mode, st) == Image(mode, stack)[..|stack| - 1];
      }
      EchoShowsLine(rest, st, mode, e, row);
  }

  lemma ShowsPush(row: Row, text: seq<scalar>, c: scalar)
    requires Shows(row, text) && c != BS
    ensures Shows(Draw(row, c), text + [c])
  {
  }

  // ---- Decoding ----

  /** Printable input: no control bytes, no DEL and no telnet commands. */
  ghost predicate Printable(bytes: seq<byte>) {
    forall i | 0 <= i < |bytes| :: 0x20 <= bytes[i] && bytes[i] != DEL && bytes[i] != IAC
  }

  /**
    The text that bytes stand for: a character wherever a well-formed one starts, and a single byte
    as its Latin-1 code point wherever none does.
   */
  ghost function Text(bytes: seq<byte>): seq<scalar>
    decreases |bytes|
  {
    if bytes == [] then [] else var (c, n) := HighChar(bytes); [c] + Text(bytes[n..])
  }

  /** UTF-8 stands for the code points it encodes. */
  lemma {:induction false} TextOfUtf8(cs: seq<scalar>)
    ensures Text(Encode(cs)) == cs
  {
    hide EncodeChar, DecodeChar;
    if cs != [] {
      var c, rest := cs[0], cs[1..];
      assert cs == [c] + rest;
      EncodeCons(c, rest);
      EncodeCharRoundTrip(c);
      CharLenOfComplete(EncodeChar(c), Encode(rest));
      TextOfUtf8(rest);
    }
  }

  /** A CR is no continuation byte, so no character reaches over one. */
  lemma NoCharReachesCr(bytes: seq<byte>, rest: seq<byte>, n: nat)
    requires bytes != [] && |bytes| < n <= |bytes| + 1 + |rest|
    ensures !Viable((bytes + ([CR] + rest))[..n])
  {
    var t := (bytes + ([CR] + rest))[..n];
    assert t[|bytes|] == CR;
  }

  lemma CharLenBeforeCr(bytes: seq<byte>, rest: seq<byte>)
    requires bytes != []
    ensures
      var input := bytes + ([CR] + rest);
      CharLen(input) == CharLen(bytes) && !Partial(input) && HighChar(input) == HighChar(bytes)
      && input[HighChar(bytes).1..] == bytes[HighChar(bytes).1..] + ([CR] + rest)
  {
    hide DecodeChar, Viable;
    var input := bytes + ([CR] + rest);
    var n := Needed(bytes[0]);
    NoCharReachesCr(bytes, rest, |input|);
    assert input[..|input|] == input;
    if n <= |bytes| {
      assert input[..n] == bytes[..n];
    } else if n <= |input| {
      NoCharReachesCr(bytes, rest, n);
    }
    assert input[..CharLen(bytes)] == bytes[..CharLen(bytes)];
  }

  /**
    Printable bytes ended by CR are read as the text they stand for and echoed as that text, unless
    the line would pass its cap. In particular (TextOfUtf8) UTF-8 input comes back unchanged.
   */
  lemma {:induction false} PrintableLine(
      bytes: seq<byte>, rest: seq<byte>, stack: seq<scalar>, echoed: seq<scalar>)
    requires Printable(bytes)
    ensures
      var run := ReadLine(bytes + ([CR] + rest), stack, Visible, echoed);
      if |Encode(stack + Text(bytes))| <= MAX_TERMINAL_LINE_BYTES || bytes == [] then
        run == Line(stack + Text(bytes), ByCr, rest, echoed + Text(bytes) + CRLF)
      else run.TooLong?
    decreases |bytes|
  {
    hide EncodeChar, Encode, HighChar, Step;
    var input := bytes + ([CR] + rest);
    if bytes == [] {
      CrStep(rest, stack, Visible, echoed);
      assert input == [CR] + rest;
      assert echoed + [] == echoed && stack + [] == stack;
    } else {
      PrintableStep(bytes, rest, stack, echoed);
      TextStep(bytes, stack);
      EncodeAscii([]);
      var (c, n) := HighChar(bytes);
      if Fits(stack, c) {
        PrintableLine(bytes[n..], rest, stack + [c], echoed + [c]);
        assert (echoed + [c]) + Text(bytes[n..]) + CRLF == echoed + Text(bytes) + CRLF;
      }
    }
  }

  lemma TextStep(bytes: seq<byte>, stack: seq<scalar>)
    requires bytes != []
    ensures
      var (c, n) := HighChar(bytes);
      && stack + Text(bytes) == (stack + [c]) + Text(bytes[n..])
      && |Encode(stack + Text(bytes))| == |Encode(stack)| + |EncodeChar(c)| + |Encode(Text(bytes[n..]))|
  {
    hide EncodeChar, Encode, HighChar;
    var (c, n) := HighChar(bytes);
    EncodeConcat(stack + [c], Text(bytes[n..]));
    EncodeSnoc(stack, c);
    assert stack + Text(bytes) == (stack + [c]) + Text(bytes[n..]);
  }

  lemma CrStep(rest: seq<byte>, stack: seq<scalar>, mode: EchoMode, echoed: seq<scalar>)
    ensures Step([CR] + rest, stack, mode, echoed) == Stop(Line(stack, ByCr, rest, echoed + CRLF))
  {
    assert ([CR] + rest)[1..] == rest;
  }

  lemma PrintableStep(bytes: seq<byte>, rest: seq<byte>, stack: seq<scalar>, echoed: seq<scalar>)
    requires Printable(bytes) && bytes != []
    ensures
      var (c, n) := HighChar(bytes);
      Step(bytes + ([CR] + rest), stack, Visible, echoed)
      == Accept(c, bytes[n..] + ([CR] + rest), stack, Visible, echoed)
  {
    hide DecodeChar, Encode;
    CharLenBeforeCr(bytes, rest);
    if bytes[0] < 0x80 { AsciiChar(bytes); }
  }

  /** An ASCII byte is a character by itself. */
  lemma AsciiChar(s: seq<byte>)
    requires s != [] && s[0] < 0x80
    ensures HighChar(s) == (s[0], 1)
  {
  }
}
