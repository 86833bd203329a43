/** Line endings of screen files: everything found on disk is sent as CR LF. */
module ScreenText {
  import opened Basics

  const BS: byte := 0x08
  const LF: byte := 0x0A
  const CR: byte := 0x0D

  predicate IsLineByte(b: byte) {
    b == CR || b == LF
  }

  /** A two-byte ending at the front: CR LF, or the Amiga BS LF. */
  predicate PairAtFront(s: seq<byte>) {
    |s| >= 2 && (s[0] == BS || s[0] == CR) && s[1] == LF
  }

  function Normalise(s: seq<byte>): (r: seq<byte>)
    decreases |s|
  {
    if s == [] then []
    else if PairAtFront(s) then [CR, LF] + Normalise(s[2..])
    else if IsLineByte(s[0]) then [CR, LF] + Normalise(s[1..])
    else [s[0]] + Normalise(s[1..])
  }

  lemma NormaliseStep(input: seq<byte>, i: nat, out: seq<byte>)
    requires i < |input|
    ensures
      var b := input[i];
      out + Normalise(input[i..])
      == if (b == BS || b == CR) && i + 1 < |input| && input[i + 1] == LF then
           (out + [CR, LF]) + Normalise(input[i + 2..])
         else if IsLineByte(b) then (out + [CR, LF]) + Normalise(input[i + 1..])
         else (out + [b]) + Normalise(input[i + 1..])
  {
    var rest := input[i..];
    assert |rest| >= 2 ==> rest[2..] == input[i + 2..];
    assert rest[1..] == input[i + 1..];
  }

  lemma NormaliseNothing()
    ensures Normalise([]) == []
  {
  }

  /** What each byte at the front becomes, in numbers, with all that follows it. */
  lemma NormaliseFront(b: byte, rest: seq<byte>)
    ensures Normalise([8, 10] + rest) == [13, 10] + Normalise(rest)
    ensures Normalise([13, 10] + rest) == [13, 10] + Normalise(rest)
    ensures Normalise([10] + rest) == [13, 10] + Normalise(rest)
    ensures rest == [] || rest[0] != 10 ==> Normalise([13] + rest) == [13, 10] + Normalise(rest)
    ensures b != 10 && b != 13 && (b == 8 ==> rest == [] || rest[0] != 10) ==>
      Normalise([b] + rest) == [b] + Normalise(rest)
    ensures Normalise([]) == []
  {
    assert ([8, 10] + rest)[2..] == rest && ([13, 10] + rest)[2..] == rest;
    assert ([10] + rest)[1..] == rest && ([13] + rest)[1..] == rest && ([b] + rest)[1..] == rest;
  }

  method NormaliseToCrlf(input: seq<byte>) returns (out: seq<byte>)
    ensures out == Normalise(input)
  {
    hide Normalise;
    out := [];
    var i := 0;
    assert input[0..] == input && [] + Normalise(input) == Normalise(input);
    while i < |input|
      invariant 0 <= i <= |input|
      invariant out + Normalise(input[i..]) == Normalise(input)
    {
      var b := input[i];
      NormaliseStep(input, i, out);
      if (b == BS || b == CR) && i + 1 < |input| && input[i + 1] == LF {
        out := out + [CR, LF];
        i := i + 2;
      } else if IsLineByte(b) {
        out := out + [CR, LF];
        i := i + 1;
      } else {
        out := out + [b];
        i := i + 1;
      }
    }
    NormaliseNothing();
    assert input[i..] == [] && out + [] == out;
  }

  /** Each CR is followed by an LF, each LF preceded by a CR. */
  ghost predicate Normal(s: seq<byte>) {
    forall i :: 0 <= i < |s| ==> PairedAt(s, i)
  }

  predicate PairedAt(s: seq<byte>, i: nat)
    requires i < |s|
  {
    && (s[i] == CR ==> i + 1 < |s| && s[i + 1] == LF)
    && (s[i] == LF ==> i > 0 && s[i - 1] == CR)
  }

  /** How many line endings: every LF ends one line, and so does every CR no LF follows. */
  function Endings(s: seq<byte>): nat {
    if s == [] then 0
    else (if s[0] == LF || (s[0] == CR && (|s| == 1 || s[1] != LF)) then 1 else 0) + Endings(s[1..])
  }

  /** The bytes that are content: neither line bytes nor a BS directly before an LF. */
  function Content(s: seq<byte>): seq<byte> {
    if s == [] then []
    else if IsLineByte(s[0]) || (s[0] == BS && |s| > 1 && s[1] == LF) then Content(s[1..])
    else [s[0]] + Content(s[1..])
  }

  /** The lines of a text, without their endings; one more than there are endings. */
  function Lines(s: seq<byte>): (lines: seq<seq<byte>>)
    ensures lines != []
    decreases |s|
  {
    if s == [] then [[]]
    else if PairAtFront(s) then [[]] + Lines(s[2..])
    else if IsLineByte(s[0]) then [[]] + Lines(s[1..])
    else var more := Lines(s[1..]); [[s[0]] + more[0]] + more[1..]
  }

  function Joined(lines: seq<seq<byte>>): seq<byte>
    requires lines != []
  {
    if |lines| == 1 then lines[0] else lines[0] + [CR, LF] + Joined(lines[1..])
  }

  lemma {:induction false} NormaliseJoins(s: seq<byte>)
    ensures Normalise(s) == Joined(Lines(s))
    decreases |s|
  {
    if s != [] {
      var n := if PairAtFront(s) then 2 else 1;
      NormaliseJoins(s[n..]);
      if !PairAtFront(s) && !IsLineByte(s[0]) { JoinedFront(s[0], Lines(s[1..])); }
    }
  }

  lemma JoinedFront(b: byte, lines: seq<seq<byte>>)
    requires lines != []
    ensures Joined([[b] + lines[0]] + lines[1..]) == [b] + Joined(lines)
  {
    var r := [[b] + lines[0]] + lines[1..];
    assert r[1..] == lines[1..];
    if |lines| > 1 {
      assert ([b] + lines[0]) + [CR, LF] + Joined(lines[1..]) == [b] + (lines[0] + [CR, LF] + Joined(lines[1..]));
    }
  }

  /**
    The output is in normal form, has exactly the input's line endings, carries exactly its content,
    and consists of exactly its lines.
   */
  lemma {:induction false} NormaliseIsFaithful(s: seq<byte>)
    ensures Normal(Normalise(s))
    ensures Endings(Normalise(s)) == Endings(s)
    ensures Content(Normalise(s)) == Content(s)
    ensures Lines(Normalise(s)) == Lines(s)
    decreases |s|
  {
    if s != [] {
      var n := if PairAtFront(s) then 2 else 1;
      NormaliseIsFaithful(s[n..]);
      if PairAtFront(s) || IsLineByte(s[0]) {
        PrependEnding(Normalise(s[n..]));
        if PairAtFront(s) { assert s[1..][1..] == s[2..]; }
      } else {
        PrependContent(s[0], Normalise(s[1..]));
      }
    }
  }

  lemma PrependEnding(t: seq<byte>)
    requires Normal(t)
    ensures var r := [CR, LF] + t; Normal(r) && Endings(r) == 1 + Endings(t) && Content(r) == Content(t)
    ensures Lines([CR, LF] + t) == [[]] + Lines(t)
  {
    var r := [CR, LF] + t;
    assert r[1..] == [LF] + t && r[1..][1..] == t;
    forall i | 0 <= i < |r|
      ensures PairedAt(r, i)
    {
      if i >= 2 { assert PairedAt(t, i - 2); }
    }
  }

  lemma PrependContent(b: byte, t: seq<byte>)
    requires Normal(t) && !IsLineByte(b)
    ensures var r := [b] + t; Normal(r) && Endings(r) == Endings(t) && Content(r) == [b] + Content(t)
    ensures Lines([b] + t) == [[b] + Lines(t)[0]] + Lines(t)[1..]
  {
    var r := [b] + t;
    assert r[1..] == t;
    assert t != [] ==> PairedAt(t, 0);
    forall i | 0 <= i < |r|
      ensures PairedAt(r, i)
    {
      if i >= 1 { assert PairedAt(t, i - 1); }
    }
  }

  lemma {:induction false} NormalIsUnchanged(s: seq<byte>)
    requires Normal(s)
    ensures Normalise(s) == s
    decreases |s|
  {
    if s != [] {
      var n := if PairAtFront(s) then 2 else 1;
      assert PairedAt(s, 0);
      assert |s| > 1 ==> PairedAt(s, 1);
      var rest := s[n..];
      forall i | 0 <= i < |rest|
        ensures PairedAt(rest, i)
      {
        assert PairedAt(s, n + i);
      }
      NormalIsUnchanged(rest);
      assert s == s[..n] + rest;
    }
  }

  /** Exactly the texts in normal form are left alone. */
  lemma UnchangedIffNormal(s: seq<byte>)
    ensures Normalise(s) == s <==> Normal(s)
  {
    NormaliseIsFaithful(s);
    if Normal(s) { NormalIsUnchanged(s); }
  }

  /** No other text in normal form has the same lines. */
  lemma NormalFormIsUnique(s: seq<byte>, t: seq<byte>)
    ensures Normal(t) && Lines(t) == Lines(s) <==> t == Normalise(s)
  {
    hide Normalise, Lines, Normal, Joined;
    NormaliseIsFaithful(s);
    if Normal(t) {
      NormalIsUnchanged(t);
      NormaliseJoins(t);
      NormaliseJoins(s);
    }
  }

  /** Normalising twice is normalising once. */
  lemma NormaliseIdempotent(s: seq<byte>)
    ensures Normalise(Normalise(s)) == Normalise(s)
  {
    NormaliseIsFaithful(s);
    UnchangedIffNormal(Normalise(s));
  }
}
