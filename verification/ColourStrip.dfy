/**
  The terminal decorator that removes ANSI colour runs (`ESC [ digits and semicolons m`) from output
  while colour is off.
 */
module ColourStrip {
  import opened Basics
  import opened Utf8

  const ESC: byte := 0x1B
  const BRACKET: byte := 0x5B
  const FINAL: byte := 0x6D

  predicate IsParam(b: byte) {
    0x30 <= b <= 0x39 || b == 0x3B
  }

  /** ESC, or ESC and an opening bracket and parameters: a colour run not yet finished. */
  predicate IsOpen(t: seq<byte>) {
    && t != [] && t[0] == ESC
    && (|t| >= 2 ==> t[1] == BRACKET)
    && forall i :: 2 <= i < |t| ==> IsParam(t[i])
  }

  /** A complete colour run. */
  predicate IsRun(t: seq<byte>) {
    |t| >= 3 && t[|t| - 1] == FINAL && IsOpen(t[..|t| - 1])
  }

  /** The first position from `j` on that does not hold a parameter byte. */
  function ParamsEnd(s: seq<byte>, j: nat): (e: nat)
    requires j <= |s|
    ensures j <= e <= |s|
    ensures forall i :: j <= i < e ==> IsParam(s[i])
    ensures e < |s| ==> !IsParam(s[e])
    decreases |s| - j
  {
    if j < |s| && IsParam(s[j]) then ParamsEnd(s, j + 1) else j
  }

  /** Length of the colour run at the front of `s`, or 0. */
  function RunLen(s: seq<byte>): (n: nat)
    ensures n <= |s|
    ensures n > 0 ==> IsRun(s[..n])
  {
    if |s| >= 2 && s[0] == ESC && s[1] == BRACKET then
      var e := ParamsEnd(s, 2);
      if e < |s| && s[e] == FINAL then
        assert s[..e + 1][..e] == s[..e];
        e + 1
      else 0
    else 0
  }

  /** There is no other run at the front. */
  lemma RunIsUnique(s: seq<byte>, k: nat)
    requires k <= |s| && IsRun(s[..k])
    ensures RunLen(s) == k
  {
    var t := s[..k - 1];
    assert s[..k][..k - 1] == t && s[..k][k - 1] == s[k - 1];
    assert forall i | 2 <= i < k - 1 :: s[i] == t[i];
    assert t[0] == s[0] && t[1] == s[1];
  }

  /** Every colour run deleted, leftmost first; everything else kept. */
  function Strip(s: seq<byte>): (r: seq<byte>)
    decreases |s|
  {
    if s == [] then []
    else if RunLen(s) > 0 then Strip(s[RunLen(s)..])
    else [s[0]] + Strip(s[1..])
  }

  lemma StripFront(s: seq<byte>)
    requires s != []
    ensures Strip(s) == if RunLen(s) > 0 then Strip(s[RunLen(s)..]) else [s[0]] + Strip(s[1..])
  {
  }

  lemma StripStep(bytes: seq<byte>, i: nat, out: seq<byte>)
    requires i < |bytes|
    ensures
      var n := RunLen(bytes[i..]);
      out + Strip(bytes[i..])
      == if n > 0 then out + Strip(bytes[i + n..]) else (out + [bytes[i]]) + Strip(bytes[i + 1..])
  {
    hide RunLen;
    var rest := bytes[i..];
    assert rest[RunLen(rest)..] == bytes[i + RunLen(rest)..] && rest[1..] == bytes[i + 1..];
  }

  /** How scanning the parameters decides whether a colour run starts at `i`. */
  lemma RunLenAt(bytes: seq<byte>, i: nat, j: nat)
    requires i + 2 <= j <= |bytes| && bytes[i] == ESC && bytes[i + 1] == BRACKET
    requires forall k | i + 2 <= k < j :: IsParam(bytes[k])
    requires j < |bytes| ==> !IsParam(bytes[j])
    ensures RunLen(bytes[i..]) == if j < |bytes| && bytes[j] == FINAL then j + 1 - i else 0
  {
    hide IsRun;
    var rest := bytes[i..];
    var e := ParamsEnd(rest, 2);
    assert e == j - i by {
      assert e < |rest| ==> rest[e] == bytes[i + e];
      assert j < |bytes| ==> rest[j - i] == bytes[j];
    }
  }

  /** A run in numbers, `ESC [`, digits and semicolons, `m`: it is deleted wherever it stands at the front. */
  lemma RunIsDeleted(params: seq<byte>, rest: seq<byte>)
    requires forall i | 0 <= i < |params| :: 48 <= params[i] <= 57 || params[i] == 59
    ensures Strip([27, 91] + params + [109] + rest) == Strip(rest)
  {
    var s, n := [27, 91] + params + [109] + rest, |params| + 3;
    assert forall i | 2 <= i < n - 1 :: s[i] == params[i - 2];
    assert s[..n][..n - 1] == [27, 91] + params;
    assert IsRun(s[..n]);
    RunIsUnique(s, n);
    assert s[n..] == rest;
  }

  lemma NoRunStarts(b: byte, rest: seq<byte>)
    requires !(b == 27 && rest != [] && rest[0] == 91
               && exists e | 1 <= e < |rest| ::
                    rest[e] == 109 && forall i | 1 <= i < e :: 48 <= rest[i] <= 57 || rest[i] == 59)
    ensures RunLen([b] + rest) == 0
  {
    hide IsRun, IsOpen;
    var s := [b] + rest;
    if |s| >= 2 {
      var e := ParamsEnd(s, 2);
      forall i | 1 <= i < e - 1
        ensures 48 <= rest[i] <= 57 || rest[i] == 59
      {
        assert rest[i] == s[i + 1];
      }
      assert e < |s| ==> rest[e - 1] == s[e];
    }
  }

  /** A byte that starts no such run is kept. */
  lemma OtherByteIsKept(b: byte, rest: seq<byte>)
    requires !(b == 27 && rest != [] && rest[0] == 91
               && exists e | 1 <= e < |rest| ::
                    rest[e] == 109 && forall i | 1 <= i < e :: 48 <= rest[i] <= 57 || rest[i] == 59)
    ensures Strip([b] + rest) == [b] + Strip(rest)
    ensures Strip([]) == []
  {
    NoRunStarts(b, rest);
    hide RunLen;
    assert ([b] + rest)[1..] == rest;
  }

  method StripAnsiSgr(bytes: seq<byte>) returns (out: seq<byte>)
    ensures out == Strip(bytes)
  {
    hide Strip, IsRun, IsOpen, ParamsEnd;
    out := [];
    var i := 0;
    assert bytes[0..] == bytes && [] + Strip(bytes) == Strip(bytes);
    StripNothing();
    while i < |bytes|
      invariant 0 <= i <= |bytes|
      invariant out + Strip(bytes[i..]) == Strip(bytes)
    {
      StripStep(bytes, i, out);
      if bytes[i] == ESC && i + 1 < |bytes| && bytes[i + 1] == BRACKET {
        var j := i + 2;
        while j < |bytes| && IsParam(bytes[j])
          invariant i + 2 <= j <= |bytes|
          invariant forall k | i + 2 <= k < j :: IsParam(bytes[k])
        {
          j := j + 1;
        }
        RunLenAt(bytes, i, j);
        if j < |bytes| && bytes[j] == FINAL {
          i := j + 1;
          continue;
        }
      }
      assert RunLen(bytes[i..]) == 0;
      out := out + [bytes[i]];
      i := i + 1;
    }
    assert bytes[i..] == [] && out + [] == out;
  }

  lemma StripNothing()
    ensures Strip([]) == []
  {
  }

  // ---- Where stripping can be split ----

  /** No colour run begins in `a` and ends in `b`. */
  ghost predicate Separate(a: seq<byte>, b: seq<byte>) {
    forall i :: 0 <= i < |a| ==> RunLen(a[i..] + b) <= |a| - i
  }

  lemma RunLenPrefix(a: seq<byte>, b: seq<byte>)
    requires RunLen(a + b) <= |a|
    ensures RunLen(a) == RunLen(a + b)
  {
    hide RunLen, IsRun;
    var n, m := RunLen(a + b), RunLen(a);
    assert (a + b)[..n] == a[..n] && (a + b)[..m] == a[..m];
    if n > 0 {
      RunIsUnique(a, n);
    } else if m > 0 {
      RunIsUnique(a + b, m);
    }
  }

  lemma SeparateFront(a: seq<byte>, b: seq<byte>)
    requires Separate(a, b) && a != []
    ensures RunLen(a) == RunLen(a + b) <= |a|
  {
    assert a[0..] == a;
    RunLenPrefix(a, b);
  }

  lemma SeparateRest(a: seq<byte>, b: seq<byte>, n: nat)
    requires Separate(a, b) && n <= |a|
    ensures Separate(a[n..], b)
  {
    hide RunLen;
    forall i | 0 <= i < |a[n..]|
      ensures RunLen(a[n..][i..] + b) <= |a[n..]| - i
    {
      assert a[n..][i..] == a[n + i..];
    }
  }

  lemma {:induction false} StripSplits(a: seq<byte>, b: seq<byte>)
    requires Separate(a, b)
    ensures Strip(a + b) == Strip(a) + Strip(b)
    decreases |a|
  {
    hide Separate, RunLen, Strip, IsRun;
    if a == [] {
      assert a + b == b;
      StripNothing();
    } else {
      SeparateFront(a, b);
      StripFront(a);
      StripFront(a + b);
      var n := if RunLen(a) > 0 then RunLen(a) else 1;
      assert (a + b)[n..] == a[n..] + b;
      SeparateRest(a, b, n);
      StripSplits(a[n..], b);
      assert [a[0]] + (Strip(a[n..]) + Strip(b)) == ([a[0]] + Strip(a[n..])) + Strip(b);
    }
  }

  /** Output ends inside a colour run that more output could complete. */
  ghost predicate EndsOpen(a: seq<byte>) {
    exists i :: 0 <= i < |a| && IsOpen(a[i..])
  }

  /**
    Stripping two pieces separately is stripping them together, whatever the second piece is, if
    and only if the first does not end inside an unfinished colour run.
   */
  lemma SplitIffNotOpen(a: seq<byte>)
    ensures (forall b :: Strip(a + b) == Strip(a) + Strip(b)) <==> !EndsOpen(a)
  {
    hide Strip, IsOpen;
    if !EndsOpen(a) {
      forall b
        ensures Strip(a + b) == Strip(a) + Strip(b)
      {
        ClosedIsSeparate(a, b);
        StripSplits(a, b);
      }
    } else {
      var i :| 0 <= i < |a| && IsOpen(a[i..]);
      var b := OpenDoesNotSplit(a, i);
    }
  }

  lemma OpenDoesNotSplit(a: seq<byte>, i: nat) returns (b: seq<byte>)
    requires i < |a| && IsOpen(a[i..])
    ensures Strip(a + b) != Strip(a) + Strip(b)
  {
    hide Strip, IsOpen;
    b := if |a[i..]| == 1 then [BRACKET, FINAL] else [FINAL];
    OpenCompletes(a[..i], a[i..], b);
    assert a == a[..i] + a[i..];
    assert a + b == a[..i] + (a[i..] + b);
    assert |Strip(a) + Strip(b)| > |Strip(a[..i])|;
  }

  /** A run that reaches past `t` leaves `t` open. */
  lemma LongRunLeavesOpen(t: seq<byte>, b: seq<byte>)
    requires t != []
    ensures RunLen(t + b) > |t| ==> IsOpen(t)
  {
    var n := RunLen(t + b);
    if n > |t| {
      var body := (t + b)[..n][..n - 1];
      assert forall i | 0 <= i < |t| :: t[i] == body[i];
    }
  }

  lemma ClosedIsSeparate(a: seq<byte>, b: seq<byte>)
    requires !EndsOpen(a)
    ensures Separate(a, b)
  {
    hide RunLen, IsOpen;
    forall i | 0 <= i < |a|
      ensures RunLen(a[i..] + b) <= |a| - i
    {
      LongRunLeavesOpen(a[i..], b);
    }
  }

  /** Completing an open run deletes it, so nothing of it is left; alone it would have been kept. */
  lemma OpenCompletes(before: seq<byte>, open: seq<byte>, b: seq<byte>)
    requires IsOpen(open)
    requires b == if |open| == 1 then [BRACKET, FINAL] else [FINAL]
    ensures Strip(before + (open + b)) == Strip(before)
    ensures Strip(before + open) == Strip(before) + open
  {
    var run := open + b;
    assert IsRun(run) by {
      var t := run[..|run| - 1];
      assert t == if |open| == 1 then open + [BRACKET] else open;
    }
    hide RunLen, IsRun, IsOpen;
    assert run[..|run|] == run;
    RunIsUnique(run, |run|);
    assert run[|run|..] == [];
    assert Strip(run) == [];
    EscapeSeparates(before, run);
    StripSplits(before, run);
    EscapeSeparates(before, open);
    StripSplits(before, open);
    OpenIsKept(open);
  }

  /** A run never contains a second ESC, so none can reach past one. */
  lemma EscapeSeparates(a: seq<byte>, b: seq<byte>)
    requires b != [] && b[0] == ESC
    ensures Separate(a, b)
  {
    forall i | 0 <= i < |a|
      ensures RunLen(a[i..] + b) <= |a| - i
    {
      var s, n := a[i..] + b, RunLen(a[i..] + b);
      assert s[|a| - i] == ESC;
      if n > 0 { assert forall k :: 0 <= k < n - 1 ==> s[..n][..n - 1][k] == s[k]; }
    }
  }

  lemma OpenIsKept(open: seq<byte>)
    requires IsOpen(open)
    ensures Strip(open) == open
  {
    NoRunIsKept(open) by {
      forall i | 0 <= i < |open|
        ensures RunLen(open[i..]) == 0
      {
      }
    }
  }

  lemma {:induction false} NoRunIsKept(s: seq<byte>)
    requires forall i :: 0 <= i < |s| ==> RunLen(s[i..]) == 0
    ensures Strip(s) == s
    decreases |s|
  {
    if s != [] {
      assert s[0..] == s;
      forall i | 0 <= i < |s[1..]|
        ensures RunLen(s[1..][i..]) == 0
      {
        assert s[1..][i..] == s[i + 1..];
      }
      NoRunIsKept(s[1..]);
    }
  }

  lemma {:induction false} RunShortens(s: seq<byte>, i: nat)
    requires i < |s|
    ensures |Strip(s)| <= |s|
    ensures RunLen(s[i..]) > 0 ==> |Strip(s)| < |s|
    decreases |s|
  {
    assert s[0..] == s;
    var n := if RunLen(s) > 0 then RunLen(s) else 1;
    if n < |s| {
      RunShortens(s[n..], if i < n then 0 else i - n);
      if i >= n { assert s[n..][i - n..] == s[i..]; }
    }
  }

  /** Output is unchanged exactly when it contains no colour run. */
  lemma UnchangedIffNoRun(s: seq<byte>)
    ensures Strip(s) == s <==> forall i :: 0 <= i < |s| ==> RunLen(s[i..]) == 0
  {
    if Strip(s) == s {
      forall i | 0 <= i < |s|
        ensures RunLen(s[i..]) == 0
      {
        RunShortens(s, i);
      }
    } else if forall i :: 0 <= i < |s| ==> RunLen(s[i..]) == 0 {
      NoRunIsKept(s);
    }
  }

  // ---- When one pass is not enough ----

  ghost predicate HasRun(s: seq<byte>) {
    exists i :: 0 <= i < |s| && RunLen(s[i..]) > 0
  }

  /** An ESC that starts no run here, but would with everything behind it stripped. */
  predicate SplicedAt(s: seq<byte>, i: nat)
    requires i < |s|
  {
    s[i] == ESC && RunLen(s[i..]) == 0 && RunLen([ESC] + Strip(s[i + 1..])) > 0
  }

  ghost predicate Spliced(s: seq<byte>) {
    exists i :: 0 <= i < |s| && SplicedAt(s, i)
  }

  lemma HasRunFront(b: byte, t: seq<byte>)
    ensures HasRun([b] + t) <==> RunLen([b] + t) > 0 || HasRun(t)
  {
    hide RunLen;
    var s := [b] + t;
    assert s[0..] == s;
    forall i | 0 <= i < |t|
      ensures s[i + 1..] == t[i..]
    {
    }
    if i :| 0 <= i < |t| && RunLen(t[i..]) > 0 {
      assert RunLen(s[i + 1..]) > 0;
    }
    if i :| 0 < i < |s| && RunLen(s[i..]) > 0 {
      assert s[i..] == t[i - 1..];
    }
  }

  lemma SplicedLater(s: seq<byte>, n: nat)
    requires n <= |s| && forall i | 0 <= i < n :: !SplicedAt(s, i)
    ensures Spliced(s) <==> Spliced(s[n..])
  {
    hide RunLen, Strip;
    forall i | 0 <= i < |s| - n
      ensures SplicedAt(s[n..], i) <==> SplicedAt(s, n + i)
    {
      assert s[n..][i..] == s[n + i..] && s[n..][i + 1..] == s[n + i + 1..];
    }
    if i :| 0 <= i < |s| && SplicedAt(s, i) {
      assert SplicedAt(s[n..], i - n);
    }
  }

  /** An ESC opens a run and is never inside one. */
  lemma RunIsNotSpliced(s: seq<byte>, i: nat)
    requires i < RunLen(s)
    ensures !SplicedAt(s, i)
  {
    var n := RunLen(s);
    assert s[0..] == s;
    assert forall k | 0 <= k < n - 1 :: s[..n][..n - 1][k] == s[k];
    assert s[n - 1] == s[..n][n - 1];
  }

  /** Colour is left over exactly where deleting runs puts one together. */
  lemma {:induction false} RunSurvivesIffSpliced(s: seq<byte>)
    ensures HasRun(Strip(s)) <==> Spliced(s)
    decreases |s|
  {
    if s == [] {
      StripNothing();
    } else {
      hide RunLen, Strip, HasRun, Spliced;
      StripFront(s);
      var n := RunLen(s);
      if n > 0 {
        forall i | 0 <= i < n
          ensures !SplicedAt(s, i)
        {
          RunIsNotSpliced(s, i);
        }
        SplicedLater(s, n);
        RunSurvivesIffSpliced(s[n..]);
      } else {
        RunSurvivesIffSpliced(s[1..]);
        HasRunFront(s[0], Strip(s[1..]));
        SplicedFront(s);
      }
    }
  }

  lemma SplicedFront(s: seq<byte>)
    requires s != [] && RunLen(s) == 0
    ensures Spliced(s) <==> RunLen([s[0]] + Strip(s[1..])) > 0 || Spliced(s[1..])
  {
    hide Strip;
    assert s[0..] == s;
    assert SplicedAt(s, 0) <==> RunLen([s[0]] + Strip(s[1..])) > 0;
    if !SplicedAt(s, 0) { SplicedLater(s, 1); }
  }

  /** A second pass changes nothing exactly when the first put no run together. */
  lemma IdempotentIffNotSpliced(s: seq<byte>)
    ensures Strip(Strip(s)) == Strip(s) <==> !Spliced(s)
  {
    hide RunLen, Strip, Spliced;
    RunSurvivesIffSpliced(s);
    UnchangedIffNoRun(Strip(s));
  }

  /** It can: a run inside a run. */
  lemma NestedRunSurvives()
    ensures
      var inner, outer := [ESC, BRACKET, FINAL], [ESC, BRACKET] + [ESC, BRACKET, FINAL] + [FINAL];
      Spliced(outer) && Strip(outer) == inner && Strip(inner) == []
  {
    var inner, outer := [ESC, BRACKET, FINAL], [ESC, BRACKET] + [ESC, BRACKET, FINAL] + [FINAL];
    assert RunLen(inner) == 3 && inner[3..] == [];
    assert RunLen(outer) == 0 && outer[1..] == [BRACKET] + inner + [FINAL];
    assert outer[1..][1..] == inner + [FINAL];
    assert RunLen(inner + [FINAL]) == 3 && (inner + [FINAL])[3..] == [FINAL];
    assert [FINAL][1..] == [] && Strip([FINAL]) == [FINAL];
    assert Strip(outer[1..]) == [BRACKET, FINAL];
    assert outer[0..] == outer && SplicedAt(outer, 0);
  }

  // ---- Stripping keeps UTF-8 valid ----

  lemma {:induction false} AsciiPrefix(s: seq<byte>, n: nat)
    requires IsUtf8(s) && n <= |s| && forall i :: 0 <= i < n ==> s[i] < 0x80
    ensures IsUtf8(s[n..])
  {
    if n > 0 {
      assert CharLen(s) == 1;
      AsciiPrefix(s[1..], n - 1);
      assert s[1..][n - 1..] == s[n..];
    }
  }

  lemma RunIsAscii(s: seq<byte>)
    ensures forall i | 0 <= i < RunLen(s) :: s[i] < 0x80
  {
    var n := RunLen(s);
    if n > 0 {
      assert forall i | 0 <= i < n - 1 :: s[..n][..n - 1][i] == s[i];
      assert s[n - 1] == s[..n][n - 1];
    }
  }

  lemma {:induction false} StripKeepsUtf8(s: seq<byte>)
    requires IsUtf8(s)
    ensures IsUtf8(Strip(s))
    decreases |s|
  {
    hide RunLen, Strip, IsRun, IsOpen, IsUtf8, Complete, CharLen;
    if s == [] {
      StripNothing();
    } else if RunLen(s) > 0 {
      StripFront(s);
      RunIsAscii(s);
      AsciiPrefix(s, RunLen(s));
      StripKeepsUtf8(s[RunLen(s)..]);
    } else {
      var m := Utf8Front(s);
      assert s == s[..m] + s[m..];
      StripKeepsUtf8(s[m..]);
      CharIsKept(s[..m], s[m..]);
      Utf8Cons(s[..m], Strip(s[m..]));
    }
  }

  /** A character that is not the start of a run passes through whole. */
  lemma CharIsKept(c: seq<byte>, rest: seq<byte>)
    requires Complete(c) && RunLen(c + rest) == 0
    ensures Strip(c + rest) == c + Strip(rest)
  {
    forall i | 0 <= i < |c|
      ensures RunLen(c[i..] + rest) == 0
    {
      assert c[0..] == c;
      assert i > 0 ==> IsTail(c[i]);
      assert (c[i..] + rest)[0] == c[i];
    }
    StripSplits(c, rest);
    forall i | 0 <= i < |c|
      ensures RunLen(c[i..]) == 0
    {
      RunLenPrefix(c[i..], rest);
    }
    NoRunIsKept(c);
  }

  // ---- The decorator ----

  class ColourTerminal {
    /** Everything passed on to the wrapped terminal. */
    var inner: seq<byte>
    var ansiColour: bool

    constructor (ansiColour: bool)
      ensures inner == [] && this.ansiColour == ansiColour
    {
      inner, this.ansiColour := [], ansiColour;
    }

    method Write(bytes: seq<byte>)
      modifies this`inner
      ensures inner == old(inner) + if ansiColour then bytes else Strip(bytes)
    {
      if ansiColour {
        inner := inner + bytes;
      } else {
        var stripped := StripAnsiSgr(bytes);
        inner := inner + stripped;
      }
    }

    method SetAnsiColour(enabled: bool)
      modifies this`ansiColour
      ensures ansiColour == enabled
    {
      ansiColour := enabled;
    }
  }

  function Concat(writes: seq<seq<byte>>): seq<byte> {
    if writes == [] then [] else Concat(writes[..|writes| - 1]) + writes[|writes| - 1]
  }

  /** What the wrapped terminal receives from a run of writes with colour off. */
  function StrippedWrites(writes: seq<seq<byte>>): seq<byte> {
    if writes == [] then [] else StrippedWrites(writes[..|writes| - 1]) + Strip(writes[|writes| - 1])
  }

  /** Output cut into writes comes out as if written at once, as long as no cut falls inside a colour run. */
  lemma {:induction false} CutsDoNotMatter(writes: seq<seq<byte>>)
    requires forall k :: 0 <= k < |writes| ==> !EndsOpen(Concat(writes[..k]))
    ensures StrippedWrites(writes) == Strip(Concat(writes))
  {
    if writes != [] {
      var front, last := writes[..|writes| - 1], writes[|writes| - 1];
      assert forall k :: 0 <= k < |front| ==> front[..k] == writes[..k];
      CutsDoNotMatter(front);
      SplitIffNotOpen(Concat(front));
      assert Strip(Concat(front) + last) == Strip(Concat(front)) + Strip(last);
    }
  }

  /** Then no colour gets through, unless the output itself splices a run together. */
  lemma ColourGetsThroughIffSpliced(writes: seq<seq<byte>>)
    requires forall k :: 0 <= k < |writes| ==> !EndsOpen(Concat(writes[..k]))
    ensures HasRun(StrippedWrites(writes)) <==> Spliced(Concat(writes))
  {
    hide Strip, HasRun, Spliced;
    CutsDoNotMatter(writes);
    RunSurvivesIffSpliced(Concat(writes));
  }

  // ---- A session's output, with colour switched on and off ----

  datatype Op = WriteOp(bytes: seq<byte>) | SetColourOp(enabled: bool)

  /** What the wrapped terminal receives, colour being `colour` at the start. */
  function Received(ops: seq<Op>, colour: bool): seq<byte> {
    if ops == [] then []
    else
      match ops[0]
      case WriteOp(bytes) => (if colour then bytes else Strip(bytes)) + Received(ops[1..], colour)
      case SetColourOp(enabled) => Received(ops[1..], enabled)
  }

  method Play(t: ColourTerminal, ops: seq<Op>)
    modifies t
    ensures t.inner == old(t.inner) + Received(ops, old(t.ansiColour))
  {
    hide Strip;
    var i := 0;
    assert ops[0..] == ops;
    while i < |ops|
      invariant 0 <= i <= |ops|
      invariant t.inner + Received(ops[i..], t.ansiColour) == old(t.inner) + Received(ops, old(t.ansiColour))
    {
      assert ops[i..][1..] == ops[i + 1..];
      match ops[i] {
        case WriteOp(bytes) => t.Write(bytes);
        case SetColourOp(enabled) => t.SetAnsiColour(enabled);
      }
      i := i + 1;
    }
    assert ops[i..] == [] && t.inner + [] == t.inner;
  }

  function AsOps(writes: seq<seq<byte>>): seq<Op> {
    if writes == [] then [] else AsOps(writes[..|writes| - 1]) + [WriteOp(writes[|writes| - 1])]
  }

  lemma {:induction false} ReceivedSnoc(ops: seq<Op>, bytes: seq<byte>)
    requires forall i | 0 <= i < |ops| :: ops[i].WriteOp?
    ensures Received(ops + [WriteOp(bytes)], false) == Received(ops, false) + Strip(bytes)
  {
    hide Strip;
    var all := ops + [WriteOp(bytes)];
    if ops == [] {
      assert all[1..] == [];
    } else {
      assert all[1..] == ops[1..] + [WriteOp(bytes)];
      ReceivedSnoc(ops[1..], bytes);
    }
  }

  lemma {:induction false} AsOpsWrite(writes: seq<seq<byte>>)
    ensures |AsOps(writes)| == |writes| && forall i | 0 <= i < |writes| :: AsOps(writes)[i] == WriteOp(writes[i])
  {
    if writes != [] { AsOpsWrite(writes[..|writes| - 1]); }
  }

  lemma {:induction false} ReceivedIsStripped(writes: seq<seq<byte>>)
    ensures Received(AsOps(writes), false) == StrippedWrites(writes)
  {
    hide Strip;
    if writes != [] {
      var front := writes[..|writes| - 1];
      ReceivedIsStripped(front);
      AsOpsWrite(front);
      ReceivedSnoc(AsOps(front), writes[|writes| - 1]);
    }
  }

  /** With colour off and no run cut, colour gets through exactly if the output splices a run together. */
  lemma ColourOffIsColourless(writes: seq<seq<byte>>)
    requires forall k :: 0 <= k < |writes| ==> !EndsOpen(Concat(writes[..k]))
    ensures HasRun(Received(AsOps(writes), false)) <==> Spliced(Concat(writes))
  {
    hide Strip, HasRun, Spliced;
    ReceivedIsStripped(writes);
    ColourGetsThroughIffSpliced(writes);
  }
}
