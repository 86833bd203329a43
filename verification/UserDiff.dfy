/**
  The patch between a user as last stored and as the session has changed it, and when storing that
  patch stores the session's user.
 */
module UserDiff {
  import opened Basics
  import opened SqliteUsers
  import opened SqliteUserLaws
  import opened UserCommands

  // ---- Computing the patch ----

  /** The order in which the session's user lists its conferences, and each one's message bases. */
  datatype Order = Order(conferences: seq<u32>, bases: map<u32, seq<u32>>)

  ghost predicate ListsOnce(xs: seq<u32>, keys: set<u32>) {
    && (forall i, j | 0 <= i < j < |xs| :: xs[i] != xs[j])
    && forall x :: x in xs <==> x in keys
  }

  ghost predicate Lists(o: Order, s: Snapshot) {
    && ListsOnce(o.conferences, s.memberships.Keys)
    && forall c | c in s.memberships :: c in o.bases && ListsOnce(o.bases[c], s.memberships[c].pointers.Keys)
  }

  function Grew(before: nat, now: nat): nat {
    if now > before then now - before else 0
  }

  function Changed<T(==)>(before: T, now: T): Option<T> {
    if now != before then Some(now) else None
  }

  predicate Advanced(base: map<u32, PointerRow>, row: PointerRow, b: u32) {
    b !in base || row.lastRead > base[b].lastRead || row.lastScanned > base[b].lastScanned
  }

  function PointerPatches(bs: seq<u32>, base: map<u32, PointerRow>, now: map<u32, PointerRow>): seq<PointerPatch>
    requires forall i | 0 <= i < |bs| :: bs[i] in now
  {
    if bs == [] then []
    else
      var b, row := bs[0], now[bs[0]];
      (if Advanced(base, row, b) then [PointerPatch(b, row.lastRead, row.lastScanned, row.newSince)] else [])
      + PointerPatches(bs[1..], base, now)
  }

  /** The patch of one membership, `base` being its stored row if there is one; `None` if nothing changed. */
  function MembershipPatchBetween(
      base: Option<Membership>, now: Membership, c: u32, bs: seq<u32>): Option<MembershipPatch>
    requires now.row.posted <= U32_MAX && forall i | 0 <= i < |bs| :: bs[i] in now.pointers
  {
    match base
    case None =>
      Some(MembershipPatch(c, true, Some(now.row.granted), now.row.posted, Some(now.row.scan),
                           PointerPatches(bs, map[], now.pointers)))
    case Some(was) =>
      var granted, scan := Changed(was.row.granted, now.row.granted), Changed(was.row.scan, now.row.scan);
      var posted, pointers := Grew(was.row.posted, now.row.posted), PointerPatches(bs, was.pointers, now.pointers);
      if granted.Some? || scan.Some? || posted > 0 || pointers != [] then
        Some(MembershipPatch(c, false, granted, posted, scan, pointers))
      else None
  }

  function MembershipOf(ms: map<u32, Membership>, c: u32): Option<Membership> {
    if c in ms then Some(ms[c]) else None
  }

  ghost predicate ListedIn(cs: seq<u32>, now: map<u32, Membership>, o: Order) {
    forall i | 0 <= i < |cs| ::
      && cs[i] in now && cs[i] in o.bases && MembershipFits(now[cs[i]])
      && ListsOnce(o.bases[cs[i]], now[cs[i]].pointers.Keys)
  }

  ghost function MembershipPatches(
      cs: seq<u32>, base: map<u32, Membership>, now: map<u32, Membership>, o: Order): seq<MembershipPatch>
    requires ListedIn(cs, now, o)
  {
    if cs == [] then []
    else
      var m := MembershipPatchBetween(MembershipOf(base, cs[0]), now[cs[0]], cs[0], o.bases[cs[0]]);
      (if m.Some? then [m.value] else []) + MembershipPatches(cs[1..], base, now, o)
  }

  function LastJoined(u: UserRow): Option<(u32, u32)> {
    if u.joinedConference.Some? && u.joinedMsgbase.Some? then
      Some((u.joinedConference.value, u.joinedMsgbase.value))
    else None
  }

  ghost function Between(base: Snapshot, now: Snapshot, o: Order): UserPatch
    requires Readable(now) && Lists(o, now)
  {
    var b, u := base.user, now.user;
    UserPatch(
      Grew(b.timesCalled, u.timesCalled), Grew(b.timesCalledToday, u.timesCalledToday),
      Grew(b.timeUsedToday, u.timeUsedToday), Grew(b.messagesPosted, u.messagesPosted),
      if u.lastCall != b.lastCall then u.lastCall else None,
      Changed(b.expert, u.expert), Changed(b.flags, u.flags),
      if LastJoined(u) != LastJoined(b) then LastJoined(u) else None,
      MembershipPatches(o.conferences, base.memberships, now.memberships, o))
  }

  /** What the patch carries of the user's own row: how much each counter grew, and what else changed. */
  lemma BetweenCarries(base: Snapshot, now: Snapshot, o: Order)
    requires Readable(now) && Lists(o, now)
    ensures
      var p, b, u := Between(base, now, o), base.user, now.user;
      && (u.timesCalled >= b.timesCalled ==> b.timesCalled + p.timesCalled == u.timesCalled)
      && (u.timesCalled < b.timesCalled ==> p.timesCalled == 0)
      && (u.timesCalledToday >= b.timesCalledToday ==> b.timesCalledToday + p.timesCalledToday == u.timesCalledToday)
      && (u.timesCalledToday < b.timesCalledToday ==> p.timesCalledToday == 0)
      && (u.timeUsedToday >= b.timeUsedToday ==> b.timeUsedToday + p.timeUsedToday == u.timeUsedToday)
      && (u.timeUsedToday < b.timeUsedToday ==> p.timeUsedToday == 0)
      && (u.messagesPosted >= b.messagesPosted ==> b.messagesPosted + p.messagesPosted == u.messagesPosted)
      && (u.messagesPosted < b.messagesPosted ==> p.messagesPosted == 0)
      && p.lastCall == (if u.lastCall == b.lastCall then None else u.lastCall)
      && p.expert == (if u.expert == b.expert then None else Some(u.expert))
      && p.flags == (if u.flags == b.flags then None else Some(u.flags))
      && (p.lastJoined == None <==>
            || u.joinedConference == None || u.joinedMsgbase == None
            || (u.joinedConference == b.joinedConference && u.joinedMsgbase == b.joinedMsgbase))
      && (p.lastJoined.Some? ==>
            p.lastJoined.value.0 == u.joinedConference.value && p.lastJoined.value.1 == u.joinedMsgbase.value)
  {
    hide MembershipPatches;
  }

  lemma {:induction false} PointersCarried(bs: seq<u32>, base: map<u32, PointerRow>, now: map<u32, PointerRow>)
    requires forall i | 0 <= i < |bs| :: bs[i] in now
    ensures forall p | p in PointerPatches(bs, base, now) ::
      p.msgbase in bs && PointerRow(p.lastRead, p.lastScanned, p.newSince) == now[p.msgbase]
    ensures forall b | b in bs ::
      (exists p | p in PointerPatches(bs, base, now) :: p.msgbase == b)
      <==> b !in base || now[b].lastRead > base[b].lastRead || now[b].lastScanned > base[b].lastScanned
  {
    if bs != [] {
      var rest := bs[1..];
      assert bs == [bs[0]] + rest;
      PointersCarried(rest, base, now);
      var more, all := PointerPatches(rest, base, now), PointerPatches(bs, base, now);
      var row := now[bs[0]];
      var first := PointerPatch(bs[0], row.lastRead, row.lastScanned, row.newSince);
      if Advanced(base, row, bs[0]) {
        assert all == [first] + more && first in all;
      } else {
        assert all == more;
      }
      forall b | b in bs
        ensures (exists p | p in all :: p.msgbase == b)
          <==> b !in base || now[b].lastRead > base[b].lastRead || now[b].lastScanned > base[b].lastScanned
      {
        if p :| p in more && p.msgbase == b { assert p in all; }
      }
    }
  }

  /** The patch of one membership says exactly what changed; there is none exactly if nothing did. */
  ghost predicate SaysChange(m: MembershipPatch, base: map<u32, Membership>, now: Membership) {
    && (m.conference !in base ==>
          && m.createIfMissing && m.granted == Some(now.row.granted) && m.scan == Some(now.row.scan)
          && m.postedDelta == now.row.posted)
    && (m.conference in base ==>
          var was := base[m.conference].row;
          && !m.createIfMissing
          && m.granted == (if now.row.granted == was.granted then None else Some(now.row.granted))
          && m.scan == (if now.row.scan == was.scan then None else Some(now.row.scan))
          && m.postedDelta == (if now.row.posted > was.posted then now.row.posted - was.posted else 0))
    && (forall p | p in m.pointers ::
          p.msgbase in now.pointers && PointerRow(p.lastRead, p.lastScanned, p.newSince) == now.pointers[p.msgbase])
    && forall b | b in now.pointers ::
         (exists p | p in m.pointers :: p.msgbase == b) <==> PointerChanged(base, now, m.conference, b)
  }

  /** The pointer is new, or one of its marks advanced. */
  predicate PointerChanged(base: map<u32, Membership>, now: Membership, c: u32, b: u32)
    requires b in now.pointers
  {
    || c !in base || b !in base[c].pointers
    || now.pointers[b].lastRead > base[c].pointers[b].lastRead
    || now.pointers[b].lastScanned > base[c].pointers[b].lastScanned
  }

  lemma MembershipCarried(base: map<u32, Membership>, now: Membership, c: u32, bs: seq<u32>)
    requires now.row.posted <= U32_MAX && ListsOnce(bs, now.pointers.Keys)
    requires forall i | 0 <= i < |bs| :: bs[i] in now.pointers
    ensures
      var m := MembershipPatchBetween(MembershipOf(base, c), now, c, bs);
      && (m.Some? ==> m.value.conference == c && SaysChange(m.value, base, now))
      && (m.Some? <==>
            || c !in base
            || now.row.granted != base[c].row.granted || now.row.scan != base[c].row.scan
            || now.row.posted > base[c].row.posted
            || exists b | b in now.pointers :: PointerChanged(base, now, c, b))
  {
    var was := if c in base then base[c].pointers else map[];
    PointersCarried(bs, was, now.pointers);
    var patches := PointerPatches(bs, was, now.pointers);
    forall b | b in now.pointers
      ensures (exists p | p in patches :: p.msgbase == b) <==> PointerChanged(base, now, c, b)
    {
      assert b in bs;
    }
    hide PointerPatches, ListsOnce;
    if patches != [] {
      assert patches[0] in patches;
      assert PointerChanged(base, now, c, patches[0].msgbase);
    }
  }

  lemma {:induction false} MembershipsCarried(
      cs: seq<u32>, base: map<u32, Membership>, now: map<u32, Membership>, o: Order)
    requires ListedIn(cs, now, o) && forall i, j | 0 <= i < j < |cs| :: cs[i] != cs[j]
    ensures forall m | m in MembershipPatches(cs, base, now, o) ::
      m.conference in cs && m.conference in now && SaysChange(m, base, now[m.conference])
    ensures forall c | c in cs ::
      (exists m | m in MembershipPatches(cs, base, now, o) :: m.conference == c)
      <==> MembershipPatchBetween(MembershipOf(base, c), now[c], c, o.bases[c]).Some?
  {
    if cs != [] {
      var c0, rest := cs[0], cs[1..];
      assert cs == [c0] + rest && c0 !in rest;
      MembershipsCarried(rest, base, now, o);
      assert MembershipFits(now[c0]) && forall i | 0 <= i < |o.bases[c0]| :: o.bases[c0][i] in o.bases[c0];
      MembershipCarried(base, now[c0], c0, o.bases[c0]);
      hide SaysChange, MembershipPatchBetween, ListsOnce, MembershipFits, MembershipOf;
      var more, all := MembershipPatches(rest, base, now, o), MembershipPatches(cs, base, now, o);
      var m := MembershipPatchBetween(MembershipOf(base, c0), now[c0], c0, o.bases[c0]);
      if m.Some? {
        assert all == [m.value] + more && m.value in all;
      } else {
        assert all == more;
      }
      forall c | c in cs
        ensures (exists m | m in all :: m.conference == c)
          <==> MembershipPatchBetween(MembershipOf(base, c), now[c], c, o.bases[c]).Some?
      {
        if m' :| m' in more && m'.conference == c { assert m' in all; }
      }
    }
  }

  /**
    A membership is in the patch exactly if it is new, its flags changed, it has more posts or one of
    its pointers is new or advanced; and then the patch creates it, or says just that much of it.
   */
  lemma BetweenCarriesMemberships(base: Snapshot, now: Snapshot, o: Order, c: u32)
    requires Readable(now) && Lists(o, now) && c in now.memberships
    ensures
      var p, row, known := Between(base, now, o), now.memberships[c].row, c in base.memberships;
      (exists m | m in p.memberships :: m.conference == c)
      <==> (|| !known
            || row.granted != base.memberships[c].row.granted || row.scan != base.memberships[c].row.scan
            || row.posted > base.memberships[c].row.posted
            || exists b | b in now.memberships[c].pointers ::
                 || b !in base.memberships[c].pointers
                 || now.memberships[c].pointers[b].lastRead > base.memberships[c].pointers[b].lastRead
                 || now.memberships[c].pointers[b].lastScanned > base.memberships[c].pointers[b].lastScanned)
    ensures forall m | m in Between(base, now, o).memberships && m.conference == c ::
      var row := now.memberships[c].row;
      && (c !in base.memberships ==>
            && m.createIfMissing && m.granted == Some(row.granted) && m.scan == Some(row.scan)
            && m.postedDelta == row.posted)
      && (c in base.memberships ==>
            var was := base.memberships[c].row;
            && !m.createIfMissing
            && m.granted == (if row.granted == was.granted then None else Some(row.granted))
            && m.scan == (if row.scan == was.scan then None else Some(row.scan))
            && m.postedDelta == (if row.posted > was.posted then row.posted - was.posted else 0))
      && (forall p | p in m.pointers ::
            && p.msgbase in now.memberships[c].pointers
            && p.lastRead == now.memberships[c].pointers[p.msgbase].lastRead
            && p.lastScanned == now.memberships[c].pointers[p.msgbase].lastScanned
            && p.newSince == now.memberships[c].pointers[p.msgbase].newSince)
      && forall b | b in now.memberships[c].pointers ::
           (exists p | p in m.pointers :: p.msgbase == b)
           <==> || c !in base.memberships || b !in base.memberships[c].pointers
                || now.memberships[c].pointers[b].lastRead > base.memberships[c].pointers[b].lastRead
                || now.memberships[c].pointers[b].lastScanned > base.memberships[c].pointers[b].lastScanned
  {
    var cs := o.conferences;
    assert forall i | 0 <= i < |cs| :: cs[i] in cs;
    assert c in cs;
    MembershipsCarried(cs, base.memberships, now.memberships, o);
    assert MembershipFits(now.memberships[c]);
    assert forall i | 0 <= i < |o.bases[c]| :: o.bases[c][i] in o.bases[c];
    MembershipCarried(base.memberships, now.memberships[c], c, o.bases[c]);
    hide MembershipPatches, MembershipPatchBetween, ListsOnce;
    forall b | b in now.memberships[c].pointers
      ensures PointerChanged(base.memberships, now.memberships[c], c, b)
         <==> || c !in base.memberships || b !in base.memberships[c].pointers
              || now.memberships[c].pointers[b].lastRead > base.memberships[c].pointers[b].lastRead
              || now.memberships[c].pointers[b].lastScanned > base.memberships[c].pointers[b].lastScanned
    {
    }
  }

  // ---- Merging it back ----

  /** The row that patching `base` with the advance to `now` leaves. */
  function MergedRow(base: map<u32, PointerRow>, row: PointerRow, b: u32): PointerRow {
    if Advanced(base, row, b) then AdvancePointer(base, PointerPatch(b, row.lastRead, row.lastScanned, row.newSince))[b]
    else base[b]
  }

  lemma {:induction false} PointersMerge(
      ptrs: map<u32, PointerRow>, bs: seq<u32>, base: map<u32, PointerRow>, now: map<u32, PointerRow>)
    requires forall i, j | 0 <= i < j < |bs| :: bs[i] != bs[j]
    requires forall i | 0 <= i < |bs| :: bs[i] in now
    requires forall i | 0 <= i < |bs| ::
      (bs[i] in ptrs <==> bs[i] in base) && (bs[i] in base ==> ptrs[bs[i]] == base[bs[i]])
    ensures
      var r := AdvancePointers(ptrs, PointerPatches(bs, base, now));
      && (forall i | 0 <= i < |bs| :: bs[i] in r && r[bs[i]] == MergedRow(base, now[bs[i]], bs[i]))
      && (forall b | b !in bs :: (b in r <==> b in ptrs) && (b in r ==> r[b] == ptrs[b]))
    decreases |bs|
  {
    if bs != [] {
      var b, row, rest := bs[0], now[bs[0]], bs[1..];
      var patch := PointerPatch(b, row.lastRead, row.lastScanned, row.newSince);
      var next := if Advanced(base, row, b) then AdvancePointer(ptrs, patch) else ptrs;
      assert forall i | 0 <= i < |rest| :: rest[i] == bs[i + 1] && rest[i] != b;
      PointersMerge(next, rest, base, now);
      var more := PointerPatches(rest, base, now);
      assert Advanced(base, row, b) ==> ([patch] + more)[1..] == more;
      assert [] + more == more;
    }
  }

  function MergedMembership(base: Option<Membership>, now: Membership, c: u32, bs: seq<u32>): Membership
    requires now.row.posted <= U32_MAX && forall i | 0 <= i < |bs| :: bs[i] in now.pointers
  {
    match MembershipPatchBetween(base, now, c, bs)
    case None => base.value
    case Some(m) =>
      var before := if base.Some? then base.value
                    else Membership(MembershipRow(OrElse(m.granted, true), 0, DEFAULT_SCAN), map[]);
      MembershipAfter(before, m)
  }

  /** The list after the patch of one membership, if there is one. */
  function Patched(ms: map<u32, Membership>, m: Option<MembershipPatch>): map<u32, Membership> {
    if m.Some? then ApplyMembership(ms, m.value) else ms
  }

  lemma MembershipMerges(ms: map<u32, Membership>, base: Option<Membership>, now: Membership, c: u32, bs: seq<u32>)
    requires now.row.posted <= U32_MAX && forall i | 0 <= i < |bs| :: bs[i] in now.pointers
    requires MembershipOf(ms, c) == base
    ensures
      var r := Patched(ms, MembershipPatchBetween(base, now, c, bs));
      && MembershipOf(r, c) == Some(MergedMembership(base, now, c, bs))
      && forall d | d != c :: MembershipOf(r, d) == MembershipOf(ms, d)
  {
    hide MembershipAfter, PointerPatches;
  }

  lemma PatchedCons(ms: map<u32, Membership>, m: Option<MembershipPatch>, rest: seq<MembershipPatch>)
    ensures ApplyMemberships(ms, (if m.Some? then [m.value] else []) + rest) == ApplyMemberships(Patched(ms, m), rest)
  {
    if m.Some? {
      assert ([m.value] + rest)[1..] == rest;
    } else {
      assert [] + rest == rest;
    }
  }

  lemma {:induction false} MembershipsMerge(
      ms: map<u32, Membership>, cs: seq<u32>, base: map<u32, Membership>, now: map<u32, Membership>, o: Order)
    requires forall i, j | 0 <= i < j < |cs| :: cs[i] != cs[j]
    requires ListedIn(cs, now, o)
    requires forall i | 0 <= i < |cs| :: MembershipOf(ms, cs[i]) == MembershipOf(base, cs[i])
    ensures
      var r := ApplyMemberships(ms, MembershipPatches(cs, base, now, o));
      && (forall i | 0 <= i < |cs| ::
            MembershipOf(r, cs[i])
              == Some(MergedMembership(MembershipOf(base, cs[i]), now[cs[i]], cs[i], o.bases[cs[i]])))
      && (forall c | c !in cs :: MembershipOf(r, c) == MembershipOf(ms, c))
    decreases |cs|
  {
    if cs != [] {
      hide MembershipPatchBetween, MergedMembership, ApplyMemberships, Patched, MembershipOf;
      var c, rest := cs[0], cs[1..];
      var m := MembershipPatchBetween(MembershipOf(base, c), now[c], c, o.bases[c]);
      MembershipMerges(ms, MembershipOf(base, c), now[c], c, o.bases[c]);
      PatchedCons(ms, m, MembershipPatches(rest, base, now, o));
      assert forall i | 0 <= i < |rest| :: rest[i] == cs[i + 1] && rest[i] != c;
      MembershipsMerge(Patched(ms, m), rest, base, now, o);
      assert forall i | 0 < i < |cs| :: cs[i] == rest[i - 1];
      assert c !in rest;
    }
  }

  // ---- When the session's user comes back ----

  /** What changes in a session only ever does: counters and marks grow, and nothing is taken away. */
  ghost predicate RowGrew(base: PointerRow, now: PointerRow) {
    base.lastRead <= now.lastRead && base.lastScanned <= now.lastScanned && base.newSince == now.newSince
  }

  ghost predicate MembershipGrew(base: Membership, now: Membership) {
    && base.row.posted <= now.row.posted
    && forall b | b in base.pointers :: b in now.pointers && RowGrew(base.pointers[b], now.pointers[b])
  }

  ghost predicate CountersGrew(base: UserRow, now: UserRow) {
    && base.timesCalled <= now.timesCalled && base.timesCalledToday <= now.timesCalledToday
    && base.timeUsedToday <= now.timeUsedToday && base.messagesPosted <= now.messagesPosted
    && (base.lastCall.Some? ==> now.lastCall.Some? && base.lastCall.value <= now.lastCall.value)
    && (LastJoined(base).Some? ==> LastJoined(now).Some?)
  }

  /** The fields no patch carries: identity, credentials, login failures and the rest of the profile. */
  predicate SameOtherwise(base: UserRow, now: UserRow) {
    && base.handle == now.handle && base.folded == now.folded && base.credentials == now.credentials
    && base.forceReset == now.forceReset && base.invalidAttempts == now.invalidAttempts
    && base.locked == now.locked && base.profile == now.profile
  }

  ghost predicate Grown(base: Snapshot, now: Snapshot) {
    && SameOtherwise(base.user, now.user) && CountersGrew(base.user, now.user)
    && forall c | c in base.memberships ::
      c in now.memberships && MembershipGrew(base.memberships[c], now.memberships[c])
  }

  predicate JoinedPaired(u: UserRow) {
    u.joinedConference.Some? == u.joinedMsgbase.Some?
  }

  lemma RowComesBack(base: UserRow, now: UserRow, p: UserPatch)
    requires CountersFit(base) && CountersFit(now) && JoinedPaired(base) && JoinedPaired(now)
    requires p.timesCalled == Grew(base.timesCalled, now.timesCalled)
    requires p.timesCalledToday == Grew(base.timesCalledToday, now.timesCalledToday)
    requires p.timeUsedToday == Grew(base.timeUsedToday, now.timeUsedToday)
    requires p.messagesPosted == Grew(base.messagesPosted, now.messagesPosted)
    requires p.lastCall == if now.lastCall != base.lastCall then now.lastCall else None
    requires p.expert == Changed(base.expert, now.expert) && p.flags == Changed(base.flags, now.flags)
    requires p.lastJoined == if LastJoined(now) != LastJoined(base) then LastJoined(now) else None
    ensures ApplyToRow(base, p) == now <==> SameOtherwise(base, now) && CountersGrew(base, now)
  {
  }

  lemma MarkComesBack(base: map<u32, PointerRow>, row: PointerRow, b: u32)
    requires row.lastRead <= row.lastScanned
    requires b in base ==> base[b].lastRead <= base[b].lastScanned
    ensures MergedRow(base, row, b) == row <==> (b in base ==> RowGrew(base[b], row))
  {
  }

  lemma PointersComeBack(base: map<u32, PointerRow>, now: map<u32, PointerRow>, bs: seq<u32>)
    requires ListsOnce(bs, now.Keys)
    requires forall b | b in now :: now[b].lastRead <= now[b].lastScanned
    requires forall b | b in base :: base[b].lastRead <= base[b].lastScanned
    ensures AdvancePointers(base, PointerPatches(bs, base, now)) == now
       <==> forall b | b in base :: b in now && RowGrew(base[b], now[b])
  {
    var r := AdvancePointers(base, PointerPatches(bs, base, now));
    PointersMerge(base, bs, base, now);
    hide AdvancePointers, PointerPatches, MergedRow, RowGrew;
    forall b | b in now
      ensures b in r && (r[b] == now[b] <==> (b in base ==> RowGrew(base[b], now[b])))
    {
      assert b in bs;
      MarkComesBack(base, now[b], b);
    }
    forall b | b !in now
      ensures b in r <==> b in base
    {
      assert b !in bs;
    }
  }

  lemma NothingAdvanced(bs: seq<u32>, base: map<u32, PointerRow>, now: map<u32, PointerRow>)
    requires forall i | 0 <= i < |bs| :: bs[i] in now
    ensures PointerPatches(bs, base, now) == [] ==> AdvancePointers(base, PointerPatches(bs, base, now)) == base
  {
  }

  lemma MembershipComesBack(base: Option<Membership>, now: Membership, c: u32, bs: seq<u32>)
    requires MembershipFits(now) && ListsOnce(bs, now.pointers.Keys)
    requires base.Some? ==> MembershipFits(base.value)
    ensures MergedMembership(base, now, c, bs) == now <==> (base.Some? ==> MembershipGrew(base.value, now))
  {
    var was := if base.Some? then base.value.pointers else map[];
    PointersComeBack(was, now.pointers, bs);
    NothingAdvanced(bs, was, now.pointers);
    hide AdvancePointers, PointerPatches, RowGrew, ListsOnce;
  }

  /**
    Applying the patch to the stored user gives the session's user back exactly when the session
    only did what sessions do: counters and marks grew and nothing was taken away.
   */
  lemma BetweenReproduces(base: Snapshot, now: Snapshot, o: Order)
    requires Readable(base) && Readable(now) && Lists(o, now) && JoinedPaired(base.user) && JoinedPaired(now.user)
    ensures ApplyTo(base, Between(base, now, o)) == now <==> Grown(base, now)
  {
    var p := Between(base, now, o);
    RowComesBack(base.user, now.user, p);
    MembershipsComeBack(base.memberships, now.memberships, o);
    hide ApplyToRow, ApplyMemberships, SameOtherwise, CountersGrew, MembershipGrew;
  }

  lemma MembershipsComeBack(base: map<u32, Membership>, now: map<u32, Membership>, o: Order)
    requires ListsOnce(o.conferences, now.Keys)
    requires forall c | c in now ::
      c in o.bases && ListsOnce(o.bases[c], now[c].pointers.Keys) && MembershipFits(now[c])
    requires forall c | c in base :: MembershipFits(base[c])
    ensures ListedIn(o.conferences, now, o)
    ensures ApplyMemberships(base, MembershipPatches(o.conferences, base, now, o)) == now
       <==> forall c | c in base :: c in now && MembershipGrew(base[c], now[c])
  {
    var cs := o.conferences;
    hide MembershipGrew, ApplyMemberships, MergedMembership, MembershipPatches;
    assert forall i | 0 <= i < |cs| :: cs[i] in cs;
    var r := ApplyMemberships(base, MembershipPatches(cs, base, now, o));
    MembershipsMerge(base, cs, base, now, o);
    forall c | c in now
      ensures c in r && (r[c] == now[c] <==> (c in base ==> MembershipGrew(base[c], now[c])))
    {
      assert c in cs;
      var i :| 0 <= i < |cs| && cs[i] == c;
      assert MembershipOf(r, cs[i])
        == Some(MergedMembership(MembershipOf(base, cs[i]), now[cs[i]], cs[i], o.bases[cs[i]]));
      MembershipComesBack(MembershipOf(base, c), now[c], c, o.bases[c]);
    }
    forall c | c !in now
      ensures c in r <==> c in base
    {
      assert c !in cs;
      assert MembershipOf(r, c) == MembershipOf(base, c);
    }
  }

  // ---- Storing it ----

  lemma {:induction false} PointerPatchesOrdered(bs: seq<u32>, base: map<u32, PointerRow>, now: map<u32, PointerRow>)
    requires forall i | 0 <= i < |bs| :: bs[i] in now
    requires forall b | b in now :: now[b].lastRead <= now[b].lastScanned
    ensures Ordered(PointerPatches(bs, base, now))
  {
    if bs != [] { PointerPatchesOrdered(bs[1..], base, now); }
  }

  /** Each membership patch is in order, names a listed conference, and creates the row if none was stored. */
  predicate SoundPatch(m: MembershipPatch, cs: seq<u32>, base: map<u32, Membership>) {
    Ordered(m.pointers) && m.conference in cs && (m.conference in base || m.createIfMissing)
  }

  predicate AllSound(ms: seq<MembershipPatch>, cs: seq<u32>, base: map<u32, Membership>) {
    forall i | 0 <= i < |ms| :: SoundPatch(ms[i], cs, base)
  }

  lemma {:induction false} MembershipPatchesSound(
      cs: seq<u32>, base: map<u32, Membership>, now: map<u32, Membership>, o: Order)
    requires ListedIn(cs, now, o)
    ensures AllSound(MembershipPatches(cs, base, now, o), cs, base)
  {
    if cs != [] {
      var c, rest := cs[0], cs[1..];
      assert MembershipFits(now[c]) && forall i | 0 <= i < |o.bases[c]| :: o.bases[c][i] in o.bases[c];
      PointerPatchesOrdered(o.bases[c], if c in base then base[c].pointers else map[], now[c].pointers);
      MembershipPatchesSound(rest, base, now, o);
      var more := MembershipPatches(rest, base, now, o);
      assert forall x | x in rest :: x in cs;
      assert AllSound(more, cs, base);
    }
  }

  /** A session's own patch is never refused: it creates every membership it adds marks to. */
  lemma BetweenIsApplicable(db: Db, slot: u32, base: Snapshot, now: Snapshot, o: Order)
    requires slot in db.users && Readable(now) && Lists(o, now)
    requires forall c | c in base.memberships :: MembershipKey(slot, c) in db.memberships
    ensures Applicable(db, slot, Between(base, now, o))
  {
    var ms := MembershipPatches(o.conferences, base.memberships, now.memberships, o);
    MembershipPatchesSound(o.conferences, base.memberships, now.memberships, o);
    forall i | 0 <= i < |ms|
      ensures Ordered(ms[i].pointers) && HasRow(JoinedBy(db, slot), ms, i)
    {
      assert SoundPatch(ms[i], o.conferences, base.memberships);
    }
  }

  lemma {:induction false} PostedFits(
      stored: Option<nat>, cs: seq<u32>, base: map<u32, Membership>, now: map<u32, Membership>, o: Order, c: u32)
    requires forall i, j | 0 <= i < j < |cs| :: cs[i] != cs[j]
    requires ListedIn(cs, now, o) && Fits(stored)
    requires c in cs ==> stored == if c in base then Some(base[c].row.posted) else None
    ensures Fits(PostedAfter(stored, MembershipPatches(cs, base, now, o), c))
    decreases |cs|
  {
    if cs != [] {
      var d, rest := cs[0], cs[1..];
      var m := MembershipPatchBetween(MembershipOf(base, d), now[d], d, o.bases[d]);
      var more := MembershipPatches(rest, base, now, o);
      assert forall i | 0 <= i < |rest| :: rest[i] == cs[i + 1] && rest[i] != d;
      assert d !in rest;
      assert cs == [d] + rest;
      PostedOfCons(stored, m, more, c);
      var next := if m.Some? then PostedAfter(stored, [m.value], c) else stored;
      assert m.Some? ==> [m.value][1..] == [];
      assert Fits(next) by { assert MembershipFits(now[d]); }
      PostedFits(next, rest, base, now, o, c);
    }
  }

  lemma PostedOfCons(stored: Option<nat>, m: Option<MembershipPatch>, more: seq<MembershipPatch>, c: u32)
    ensures PostedAfter(stored, (if m.Some? then [m.value] else []) + more, c)
         == PostedAfter(if m.Some? then PostedAfter(stored, [m.value], c) else stored, more, c)
  {
    if m.Some? {
      PostedAfterCons(stored, [m.value] + more, c);
      assert ([m.value] + more)[1..] == more;
    } else {
      assert [] + more == more;
    }
  }

  /**
    End to end: a user loaded, changed as sessions change users, and stored through its patch, is
    loaded again as the session left it.
   */
  lemma SessionIsSaved(db: Db, slot: u32, base: Snapshot, now: Snapshot, o: Order)
    requires Integrity(db) && LoadUser(db, slot) == Found(base)
    requires Readable(now) && Lists(o, now) && JoinedPaired(now.user) && Grown(base, now)
    ensures
      var r := ApplyPatch(db, slot, Between(base, now, o));
      r.Ok? && LoadUser(r.value, slot) == Found(now)
  {
    var p := Between(base, now, o);
    ViewMatches(db, slot);
    forall c | c in base.memberships
      ensures MembershipKey(slot, c) in db.memberships
    {
      assert MembershipMatches(db, slot, base.memberships, c);
    }
    BetweenIsApplicable(db, slot, base, now, o);
    assert JoinedPaired(base.user);
    BetweenReproduces(base, now, o);
    CountersStayInRange(db, slot, base, now, o);
    PatchMeansTheSame(db, slot, p);
  }

  lemma CountersStayInRange(db: Db, slot: u32, base: Snapshot, now: Snapshot, o: Order)
    requires Integrity(db) && LoadUser(db, slot) == Found(base)
    requires Readable(now) && Lists(o, now) && Grown(base, now)
    ensures CountersWillFit(db, slot, Between(base, now, o))
  {
    var ms := MembershipPatches(o.conferences, base.memberships, now.memberships, o);
    ViewMatches(db, slot);
    ReadableIff(db, slot);
    hide Integrity, View, LoadUser, PostedAfter;
    forall i | 0 <= i < |ms|
      ensures Fits(PostedAfter(StoredPosted(db, slot, ms[i].conference), ms, ms[i].conference))
    {
      var c := ms[i].conference;
      assert MembershipMatches(db, slot, base.memberships, c);
      PostedFits(StoredPosted(db, slot, c), o.conferences, base.memberships, now.memberships, o, c);
    }
  }
}
