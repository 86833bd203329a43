/**
  The comparison harness's telnet stripper, which reparses everything received so far each time more
  arrives, and the wait for a pattern that is built on it.
 */
module HarnessTelnet {
  import opened Basics

  const IAC: byte := 255
  const SB: byte := 250
  const SE: byte := 240

  /** WILL, WONT, DO and DONT. */
  predicate Negotiates(cmd: byte) {
    251 <= cmd <= 254
  }

  datatype Event = Option(cmd: byte, opt: byte) | Subnegotiation | Command(cmd: byte)
  datatype Stripped = Stripped(clean: seq<byte>, events: seq<Event>)

  /** Index from `j` on of the IAC SE pair that closes a subnegotiation, or the last index looked at. */
  function SubEnd(s: seq<byte>, j: nat): (e: nat)
    ensures e >= j
    ensures j + 1 < |s| ==> e + 1 <= |s|
    decreases |s| - j
  {
    if j + 1 < |s| && !(s[j] == IAC && s[j + 1] == SE) then SubEnd(s, j + 1) else j
  }

  /** One unit at the front: how many bytes it takes, and what it contributes. */
  datatype Unit = Unit(len: nat, clean: seq<byte>, events: seq<Event>)

  function Front(s: seq<byte>): (u: Unit)
    requires s != []
    ensures u.len > 0
  {
    if s[0] != IAC then Unit(1, [s[0]], [])
    else if |s| == 1 then Unit(1, [], [])
    else
      var cmd := s[1];
      if cmd == IAC then Unit(2, [IAC], [])
      else if Negotiates(cmd) then
        if |s| > 2 then Unit(3, [], [Option(cmd, s[2])]) else Unit(2, [], [])
      else if cmd == SB then Unit(SubEnd(s, 2) + 2, [], [Subnegotiation])
      else Unit(2, [], [Command(cmd)])
  }

  function Strip(s: seq<byte>): Stripped
    decreases |s|
  {
    if s == [] then Stripped([], [])
    else
      var u := Front(s);
      var more := if u.len < |s| then Strip(s[u.len..]) else Stripped([], []);
      Stripped(u.clean + more.clean, u.events + more.events)
  }

  /** What is still to be stripped from index `i`, which a subnegotiation can carry past the end. */
  ghost function StripFrom(s: seq<byte>, i: nat): Stripped {
    if i < |s| then Strip(s[i..]) else Stripped([], [])
  }

  lemma {:induction false} SubEndShift(s: seq<byte>, i: nat, j: nat)
    requires i <= |s|
    ensures SubEnd(s, i + j) == i + SubEnd(s[i..], j)
    decreases |s| - j
  {
    if i + j + 1 < |s| && !(s[i + j] == IAC && s[i + j + 1] == SE) {
      SubEndShift(s, i, j + 1);
    }
  }

  // ---- What each command becomes, in numbers ----

  lemma {:induction false} SubEndAfter(s: seq<byte>, j: nat, e: nat)
    requires j <= e && e + 1 < |s| && s[e] == 255 && s[e + 1] == 240
    requires forall i | j <= i < e :: !(s[i] == 255 && s[i + 1] == 240)
    ensures SubEnd(s, j) == e
    decreases e - j
  {
    if j < e { SubEndAfter(s, j + 1, e); }
  }

  lemma {:induction false} SubEndNever(s: seq<byte>, j: nat)
    requires forall i | j <= i < |s| - 1 :: !(s[i] == 255 && s[i + 1] == 240)
    ensures SubEnd(s, j) + 1 >= |s|
    decreases |s| - j
  {
    if j + 1 < |s| { SubEndNever(s, j + 1); }
  }

  /** Data, a doubled 255, a negotiation and any other command at the front, with all that follows. */
  lemma StripUnits(b: byte, c: byte, o: byte, rest: seq<byte>)
    ensures
      var more := Strip(rest);
      && (b != 255 ==> Strip([b] + rest) == Stripped([b] + more.clean, more.events))
      && Strip([255, 255] + rest) == Stripped([255] + more.clean, more.events)
      && (251 <= c <= 254 ==>
            && Strip([255, c, o] + rest) == Stripped(more.clean, [Option(c, o)] + more.events)
            && Strip([255, c]) == Stripped([], []))
      && (c < 250 ==> Strip([255, c] + rest) == Stripped(more.clean, [Command(c)] + more.events))
    ensures Strip([]) == Stripped([], []) && Strip([255]) == Stripped([], [])
  {
    hide SubEnd;
    var data, doubled, option, command := [b] + rest, [255, 255] + rest, [255, c, o] + rest, [255, c] + rest;
    assert data[1..] == rest && doubled[2..] == rest && option[3..] == rest && command[2..] == rest;
    assert forall xs: seq<byte> :: [] + xs == xs;
    assert forall es: seq<Event> :: [] + es == es;
  }

  /** A subnegotiation vanishes with its body up to the first 255 240, or with all the rest if there is none. */
  lemma StripSubnegotiation(body: seq<byte>, rest: seq<byte>)
    requires forall i | 0 <= i < |body| - 1 :: !(body[i] == 255 && body[i + 1] == 240)
    ensures Strip([255, 250] + body + [255, 240] + rest)
         == Stripped(Strip(rest).clean, [Subnegotiation] + Strip(rest).events)
    ensures Strip([255, 250] + body) == Stripped([], [Subnegotiation])
  {
    hide SubEnd;
    var closed, open := [255, 250] + body + [255, 240] + rest, [255, 250] + body;
    assert forall i | 2 <= i < 2 + |body| :: closed[i] == body[i - 2] && open[i] == body[i - 2];
    SubEndAfter(closed, 2, 2 + |body|);
    SubEndNever(open, 2);
    assert closed[|body| + 4..] == rest;
    assert [] + Strip(rest).clean == Strip(rest).clean;
    StripNone(open, SubEnd(open, 2) + 2);
    StripSub(closed);
    StripSub(open);
  }

  lemma StripNone(s: seq<byte>, i: nat)
    requires i >= |s|
    ensures StripFrom(s, i) == Stripped([], [])
  {
  }

  lemma StripSub(s: seq<byte>)
    requires |s| >= 2 && s[0] == 255 && s[1] == 250
    ensures Strip(s) == Stripped([] + StripFrom(s, SubEnd(s, 2) + 2).clean,
                                 [Subnegotiation] + StripFrom(s, SubEnd(s, 2) + 2).events)
  {
  }

  method StripIac(data: seq<byte>) returns (clean: seq<byte>, events: seq<Event>)
    ensures Stripped(clean, events) == Strip(data)
  {
    hide Strip, StripFrom, Front, SubEnd;
    clean, events := [], [];
    var i: nat := 0;
    StripFromStart(data);
    while i < |data|
      invariant
        var more := StripFrom(data, i);
        Strip(data) == Stripped(clean + more.clean, events + more.events)
      decreases |data| - i
    {
      UnfoldAt(data, i, clean, events);
      FrontAt(data, i);
      var b := data[i];
      if b == IAC {
        if i + 1 >= |data| {
          StripFromEnd(data, i + 1);
          break;
        }
        var cmd := data[i + 1];
        if cmd == IAC {
          clean := clean + [IAC];
          i := i + 2;
        } else if Negotiates(cmd) {
          if i + 2 < |data| {
            events := events + [Option(cmd, data[i + 2])];
            i := i + 3;
          } else {
            i := i + 2;
          }
        } else if cmd == SB {
          var j := i + 2;
          while j + 1 < |data| && !(data[j] == IAC && data[j + 1] == SE)
            invariant SubEnd(data, i + 2) == SubEnd(data, j)
          {
            SubEndStep(data, j);
            j := j + 1;
          }
          SubEndStep(data, j);
          events := events + [Subnegotiation];
          i := j + 2;
        } else {
          events := events + [Command(cmd)];
          i := i + 2;
        }
      } else {
        clean := clean + [b];
        i := i + 1;
      }
    }
    if i >= |data| { StripFromEnd(data, i); }
  }

  lemma SubEndStep(s: seq<byte>, j: nat)
    ensures SubEnd(s, j) == if j + 1 < |s| && !(s[j] == IAC && s[j + 1] == SE) then SubEnd(s, j + 1) else j
  {
  }

  lemma StripFromStart(data: seq<byte>)
    ensures Strip(data) == StripFrom(data, 0)
    ensures Strip(data) == Stripped([] + Strip(data).clean, [] + Strip(data).events)
  {
    assert data[0..] == data;
  }

  lemma StripFromEnd(data: seq<byte>, i: nat)
    requires i >= |data|
    ensures StripFrom(data, i) == Stripped([], [])
  {
  }

  /** The unit that starts at index `i`. */
  lemma FrontAt(data: seq<byte>, i: nat)
    requires i < |data|
    ensures Front(data[i..]) ==
      if data[i] != IAC then Unit(1, [data[i]], [])
      else if i + 1 == |data| then Unit(1, [], [])
      else if data[i + 1] == IAC then Unit(2, [IAC], [])
      else if Negotiates(data[i + 1]) then
        if i + 2 < |data| then Unit(3, [], [Option(data[i + 1], data[i + 2])]) else Unit(2, [], [])
      else if data[i + 1] == SB then Unit(SubEnd(data, i + 2) - i + 2, [], [Subnegotiation])
      else Unit(2, [], [Command(data[i + 1])])
  {
    SubEndShift(data, i, 2);
  }

  lemma UnfoldAt(data: seq<byte>, i: nat, clean: seq<byte>, events: seq<Event>)
    requires i < |data|
    ensures
      var u := Front(data[i..]);
      var now, more := StripFrom(data, i), StripFrom(data, i + u.len);
      && clean + now.clean == (clean + u.clean) + more.clean
      && events + now.events == (events + u.events) + more.events
  {
    var u := Front(data[i..]);
    if i + u.len < |data| { assert data[i..][u.len..] == data[i + u.len..]; }
  }

  // ---- More input never takes anything back ----

  lemma {:induction false} SubEndExtends(a: seq<byte>, b: seq<byte>, j: nat)
    ensures SubEnd(a + b, j) == SubEnd(a, j) || SubEnd(a, j) + 2 > |a|
    decreases |a| - j
  {
    if j + 1 < |a| && !(a[j] == IAC && a[j + 1] == SE) {
      SubEndExtends(a, b, j + 1);
    }
  }

  /**
    Both outputs for a prefix of the input are prefixes of the outputs for all of it, wherever the
    prefix was cut.
   */
  lemma {:induction false} StripIsMonotone(a: seq<byte>, b: seq<byte>)
    ensures Strip(a).clean <= Strip(a + b).clean
    ensures Strip(a).events <= Strip(a + b).events
    decreases |a|
  {
    if a != [] {
      var u, v := Front(a), Front(a + b);
      assert (a + b)[0] == a[0];
      SubEndExtends(a, b, 2);
      if u.len < |a| {
        assert v == u;
        assert (a + b)[u.len..] == a[u.len..] + b;
        StripIsMonotone(a[u.len..], b);
      } else {
        assert u.clean <= v.clean && u.events <= v.events;
      }
    }
  }

  /** Telnet's escaping of data: each IAC doubled. */
  function Doubled(s: seq<byte>): seq<byte> {
    if s == [] then [] else (if s[0] == IAC then [IAC, IAC] else [s[0]]) + Doubled(s[1..])
  }

  /** Escaped data is restored exactly, and nothing in it is taken for a command. */
  lemma {:induction false} StripUndoesDoubling(s: seq<byte>)
    ensures Strip(Doubled(s)) == Stripped(s, [])
  {
    if s != [] {
      var unit := if s[0] == IAC then [IAC, IAC] else [s[0]];
      var t := Doubled(s);
      assert t == unit + Doubled(s[1..]);
      assert t[|unit|..] == Doubled(s[1..]);
      StripUndoesDoubling(s[1..]);
      assert Front(t) == Unit(|unit|, [s[0]], []);
      assert s == [s[0]] + s[1..];
    }
  }

  // ---- Waiting for a pattern ----

  predicate Contains(s: seq<byte>, pattern: seq<byte>) {
    exists i :: 0 <= i <= |s| && pattern <= s[i..]
  }

  lemma ContainsExtends(s: seq<byte>, t: seq<byte>, pattern: seq<byte>)
    requires Contains(s, pattern) && s <= t
    ensures Contains(t, pattern)
  {
    var i :| 0 <= i <= |s| && pattern <= s[i..];
    assert s[i..] <= t[i..];
  }

  /** What one `recv` before the deadline gives: bytes, nothing yet, or the end of the stream. */
  datatype Recv = Data(bytes: seq<byte>) | TimedOut | Closed

  /** Everything received before the stream ends. */
  function Received(recvs: seq<Recv>): seq<byte> {
    if recvs == [] || recvs[0] == Closed || recvs[0] == Data([]) then []
    else (if recvs[0].Data? then recvs[0].bytes else []) + Received(recvs[1..])
  }

  /**
    The stream is all the data up to its end, which is a close or an empty receive; timeouts add
    nothing.
   */
  lemma {:induction false} ReceivedIsTheData(chunks: seq<seq<byte>>, rest: seq<Recv>)
    requires forall i | 0 <= i < |chunks| :: chunks[i] != []
    ensures Received(DataOf(chunks) + [Closed] + rest) == Received(DataOf(chunks) + [Data([])] + rest)
         == Received(DataOf(chunks)) == Concat(chunks)
    ensures Received([TimedOut] + rest) == Received(rest)
    decreases |chunks|
  {
    assert ([TimedOut] + rest)[1..] == rest;
    if chunks == [] {
      assert [] + [Closed] + rest == [Closed] + rest && [] + [Data([])] + rest == [Data([])] + rest;
    } else {
      var first, more := Data(chunks[0]), DataOf(chunks[1..]);
      ReceivedIsTheData(chunks[1..], rest);
      assert DataOf(chunks) == [first] + more;
      assert DataOf(chunks) + [Closed] + rest == [first] + (more + [Closed] + rest);
      assert DataOf(chunks) + [Data([])] + rest == [first] + (more + [Data([])] + rest);
      hide Received;
      ReceivedFront(first.bytes, more);
      ReceivedFront(first.bytes, more + [Closed] + rest);
      ReceivedFront(first.bytes, more + [Data([])] + rest);
    }
  }

  lemma ReceivedFront(bytes: seq<byte>, rest: seq<Recv>)
    requires bytes != []
    ensures Received([Data(bytes)] + rest) == bytes + Received(rest)
  {
    assert ([Data(bytes)] + rest)[1..] == rest;
  }

  function DataOf(chunks: seq<seq<byte>>): (recvs: seq<Recv>)
    ensures |recvs| == |chunks| && forall i | 0 <= i < |chunks| :: recvs[i] == Data(chunks[i])
  {
    seq(|chunks|, i requires 0 <= i < |chunks| => Data(chunks[i]))
  }

  function Concat(chunks: seq<seq<byte>>): seq<byte> {
    if chunks == [] then [] else chunks[0] + Concat(chunks[1..])
  }

  lemma StripNothing()
    ensures Strip([]).clean == []
  {
  }

  class Bbs {
    /** Every byte ever received. */
    var allRaw: seq<byte>

    constructor ()
      ensures allRaw == []
    {
      allRaw := [];
    }

    /**
      Reads until `pattern` shows in the stripped output, over the receives made before the
      deadline. How the stream was cut into chunks makes no difference to the answer.
     */
    method ReadUntil(pattern: seq<byte>, recvs: seq<Recv>) returns (clean: seq<byte>, matched: bool)
      modifies this`allRaw
      ensures matched <==> Contains(Strip(Received(recvs)).clean, pattern)
      ensures clean <= Strip(Received(recvs)).clean && (matched <==> Contains(clean, pattern))
      ensures !matched ==> clean == Strip(Received(recvs)).clean && allRaw == old(allRaw) + Received(recvs)
      ensures old(allRaw) <= allRaw
      ensures
        var got := allRaw[|old(allRaw)|..];
        got <= Received(recvs) && clean == Strip(got).clean
    {
      hide Contains, Strip;
      var chunks: seq<byte> := [];
      clean := [];
      StripNothing();
      var k := 0;
      while k < |recvs|
        invariant 0 <= k <= |recvs|
        invariant chunks + Received(recvs[k..]) == Received(recvs)
        invariant clean == Strip(chunks).clean && allRaw == old(allRaw) + chunks
      {
        var recv := recvs[k];
        k := k + 1;
        if recv == Closed || recv == Data([]) {
          assert chunks + [] == chunks;
          break;
        }
        if recv.Data? {
          assert chunks + (recv.bytes + Received(recvs[k..])) == (chunks + recv.bytes) + Received(recvs[k..]);
          chunks := chunks + recv.bytes;
          allRaw := allRaw + recv.bytes;
          var events;
          clean, events := StripIac(chunks);
          StripIsMonotone(chunks, Received(recvs[k..]));
          if Contains(clean, pattern) {
            ContainsExtends(clean, Strip(Received(recvs)).clean, pattern);
            assert allRaw[|old(allRaw)|..] == chunks;
            return clean, true;
          }
        }
      }
      assert chunks + [] == chunks && allRaw[|old(allRaw)|..] == chunks;
      matched := Contains(clean, pattern);
    }
  }
}
