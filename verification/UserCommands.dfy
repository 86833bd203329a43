/**
  What each user command means, as the domain's own `apply_to` methods say it on one user, and
  exactly when the statements of the database mean the same.
 */
module UserCommands {
  import opened Basics
  import opened SqliteUsers
  import opened SqliteUserLaws

  function Saturated(n: nat): nat {
    if n <= U32_MAX then n else U32_MAX
  }

  /** Advancing the read mark lifts the scan mark with it. */
  function AdvancePointer(pointers: map<u32, PointerRow>, p: PointerPatch): map<u32, PointerRow> {
    var row := if p.msgbase in pointers then pointers[p.msgbase] else PointerRow(0, 0, p.newSince);
    var read := Max(row.lastRead, p.lastRead);
    pointers[p.msgbase := PointerRow(read, Max(Max(row.lastScanned, read), p.lastScanned), row.newSince)]
  }

  function AdvancePointers(pointers: map<u32, PointerRow>, ps: seq<PointerPatch>): map<u32, PointerRow>
    decreases |ps|
  {
    if ps == [] then pointers else AdvancePointers(AdvancePointer(pointers, ps[0]), ps[1..])
  }

  function MembershipAfter(stored: Membership, m: MembershipPatch): Membership {
    Membership(
      MembershipRow(OrElse(m.granted, stored.row.granted),
                    Saturated(stored.row.posted + m.postedDelta),
                    OrElse(m.scan, stored.row.scan)),
      AdvancePointers(stored.pointers, m.pointers))
  }

  /** A patch for a membership that is not there, and may not be created, is skipped. */
  function ApplyMembership(ms: map<u32, Membership>, m: MembershipPatch): map<u32, Membership> {
    if m.conference in ms then
      ms[m.conference := MembershipAfter(ms[m.conference], m)]
    else if !m.createIfMissing then
      ms
    else
      ms[m.conference := MembershipAfter(Membership(MembershipRow(OrElse(m.granted, true), 0, DEFAULT_SCAN), map[]), m)]
  }

  function ApplyMemberships(ms: map<u32, Membership>, patches: seq<MembershipPatch>): map<u32, Membership>
    decreases |patches|
  {
    if patches == [] then ms else ApplyMemberships(ApplyMembership(ms, patches[0]), patches[1..])
  }

  function ApplyToRow(row: UserRow, p: UserPatch): UserRow {
    row.(timesCalled := Saturated(row.timesCalled + p.timesCalled),
         timesCalledToday := Saturated(row.timesCalledToday + p.timesCalledToday),
         timeUsedToday := row.timeUsedToday + p.timeUsedToday,
         messagesPosted := Saturated(row.messagesPosted + p.messagesPosted),
         lastCall := if p.lastCall.None? then row.lastCall
                     else if row.lastCall.None? then p.lastCall
                     else Some(Max(row.lastCall.value, p.lastCall.value)),
         expert := OrElse(p.expert, row.expert),
         flags := OrElse(p.flags, row.flags),
         joinedConference := if p.lastJoined.Some? then Some(p.lastJoined.value.0) else row.joinedConference,
         joinedMsgbase := if p.lastJoined.Some? then Some(p.lastJoined.value.1) else row.joinedMsgbase)
  }

  function ApplyTo(s: Snapshot, p: UserPatch): Snapshot {
    Snapshot(ApplyToRow(s.user, p), ApplyMemberships(s.memberships, p.memberships))
  }

  function ApplyAuth(s: Snapshot, outcome: AuthOutcome): Snapshot {
    match outcome
    case Matched(daily, forceReset) =>
      var u := s.user.(invalidAttempts := 0, forceReset := if forceReset then true else s.user.forceReset);
      s.(user := match daily
                 case None => u
                 case Some(NewDay) => u.(timesCalledToday := 0, timeUsedToday := 0)
                 case Some(SameDay) => u.(timesCalledToday := Saturated(u.timesCalledToday + 1)))
    case Mismatched(lock) =>
      s.(user := s.user.(invalidAttempts := Saturated(s.user.invalidAttempts + 1),
                         locked := if lock then true else s.user.locked))
  }

  function ApplyPassword(s: Snapshot, change: Credentials): Snapshot {
    s.(user := s.user.(credentials := change, forceReset := false))
  }

  // ---- What the domain's own methods write, column by column ----

  /** Counters stop at the top of their range; what a patch leaves out stays as it was. */
  lemma RowApplied(s: Snapshot, p: UserPatch)
    ensures
      var was, now := s.user, ApplyTo(s, p).user;
      && (var sum := was.timesCalled + p.timesCalled;
          now.timesCalled == if sum > 4294967295 then 4294967295 else sum)
      && (var sum := was.timesCalledToday + p.timesCalledToday;
          now.timesCalledToday == if sum > 4294967295 then 4294967295 else sum)
      && (var sum := was.messagesPosted + p.messagesPosted;
          now.messagesPosted == if sum > 4294967295 then 4294967295 else sum)
      && now.timeUsedToday == was.timeUsedToday + p.timeUsedToday
      && (p.lastCall.None? ==> now.lastCall == was.lastCall)
      && (p.lastCall.Some? ==>
           && now.lastCall.Some? && now.lastCall.value >= p.lastCall.value
           && (was.lastCall.Some? ==> now.lastCall.value >= was.lastCall.value)
           && (now.lastCall == was.lastCall || now.lastCall == p.lastCall))
      && now.expert == (if p.expert.Some? then p.expert.value else was.expert)
      && now.flags == (if p.flags.Some? then p.flags.value else was.flags)
      && (p.lastJoined.Some? ==>
           && now.joinedConference == Some(p.lastJoined.value.0)
           && now.joinedMsgbase == Some(p.lastJoined.value.1))
      && (p.lastJoined.None? ==>
           now.joinedConference == was.joinedConference && now.joinedMsgbase == was.joinedMsgbase)
      && now.handle == was.handle && now.folded == was.folded && now.credentials == was.credentials
      && now.forceReset == was.forceReset && now.invalidAttempts == was.invalidAttempts
      && now.locked == was.locked && now.profile == was.profile
  {
  }

  /** A pointer advances to the highest marks, the read mark lifting the scan mark; its date is set once. */
  lemma PointerAdvanced(pointers: map<u32, PointerRow>, p: PointerPatch, more: seq<PointerPatch>)
    ensures
      var after := AdvancePointers(pointers, [p]);
      && after.Keys == pointers.Keys + {p.msgbase}
      && (forall b | b in pointers && b != p.msgbase :: after[b] == pointers[b])
      && var now := after[p.msgbase];
         && now.lastRead >= p.lastRead && now.lastScanned >= p.lastScanned && now.lastScanned >= now.lastRead
         && (if p.msgbase in pointers then
               var was := pointers[p.msgbase];
               && now.newSince == was.newSince && now.lastRead >= was.lastRead && now.lastScanned >= was.lastScanned
               && (now.lastRead == was.lastRead || now.lastRead == p.lastRead)
               && now.lastScanned in {was.lastScanned, p.lastScanned, now.lastRead}
             else
               && now.newSince == p.newSince && now.lastRead == p.lastRead
               && now.lastScanned in {p.lastScanned, p.lastRead})
    ensures AdvancePointers(pointers, []) == pointers
    ensures AdvancePointers(pointers, [p] + more) == AdvancePointers(AdvancePointers(pointers, [p]), more)
  {
    assert ([p] + more)[1..] == more && [p][1..] == [];
  }

  /** One membership patch: applied, created with the defaults, or skipped. */
  lemma MembershipApplied(ms: map<u32, Membership>, m: MembershipPatch, more: seq<MembershipPatch>)
    ensures
      var after := ApplyMemberships(ms, [m]);
      && (m.conference !in ms && !m.createIfMissing ==> after == ms)
      && (m.conference in ms || m.createIfMissing ==>
            && after.Keys == ms.Keys + {m.conference}
            && (forall c | c in ms && c != m.conference :: after[c] == ms[c])
            && var now := after[m.conference];
               && (m.granted.Some? ==> now.row.granted == m.granted.value)
               && (m.scan.Some? ==> now.row.scan == m.scan.value)
               && (if m.conference in ms then
                     var was := ms[m.conference];
                     && now.pointers == AdvancePointers(was.pointers, m.pointers)
                     && (var sum := was.row.posted + m.postedDelta;
                         now.row.posted == if sum > 4294967295 then 4294967295 else sum)
                     && (m.granted.None? ==> now.row.granted == was.row.granted)
                     && (m.scan.None? ==> now.row.scan == was.row.scan)
                   else
                     && now.pointers == AdvancePointers(map[], m.pointers) && now.row.posted == m.postedDelta
                     && (m.granted.None? ==> now.row.granted)
                     && (m.scan.None? ==>
                           && now.row.scan.mailScan && !now.row.scan.mailScanAll
                           && now.row.scan.fileScan && !now.row.scan.zoomScan)))
    ensures ApplyMemberships(ms, []) == ms
    ensures ApplyMemberships(ms, [m] + more) == ApplyMemberships(ApplyMemberships(ms, [m]), more)
  {
    hide AdvancePointers;
    assert ([m] + more)[1..] == more && [m][1..] == [];
  }

  /** A login outcome and a password change write the columns of their own, counters up to the top of their range. */
  lemma AuthApplied(s: Snapshot, o: AuthOutcome, change: Credentials)
    ensures
      var was, after := s.user, ApplyAuth(s, o);
      var now := after.user;
      && after.memberships == s.memberships
      && now.(invalidAttempts := was.invalidAttempts, locked := was.locked, forceReset := was.forceReset,
              timesCalledToday := was.timesCalledToday, timeUsedToday := was.timeUsedToday) == was
      && match o
         case Mismatched(lockAccount) =>
           && (now.invalidAttempts == if was.invalidAttempts >= 4294967295 then 4294967295 else was.invalidAttempts + 1)
           && (now.locked <==> was.locked || lockAccount) && now.forceReset == was.forceReset
           && now.timesCalledToday == was.timesCalledToday && now.timeUsedToday == was.timeUsedToday
         case Matched(daily, forceReset) =>
           && now.invalidAttempts == 0 && now.locked == was.locked && (now.forceReset <==> was.forceReset || forceReset)
           && (daily == Some(NewDay) ==> now.timesCalledToday == 0 && now.timeUsedToday == 0)
           && (daily == Some(SameDay) ==>
                 now.timesCalledToday
                 == if was.timesCalledToday >= 4294967295 then 4294967295 else was.timesCalledToday + 1)
           && (daily == None ==> now.timesCalledToday == was.timesCalledToday)
           && (daily != Some(NewDay) ==> now.timeUsedToday == was.timeUsedToday)
    ensures
      var after := ApplyPassword(s, change);
      && after.user.credentials == change && !after.user.forceReset && after.memberships == s.memberships
      && after.user.(credentials := s.user.credentials, forceReset := s.user.forceReset) == s.user
  {
  }

  // ---- The database holds what the domain computes ----

  lemma ViewMatches(db: Db, slot: u32)
    requires slot in db.users
    ensures Matches(db, slot, View(db, slot).memberships)
  {
    var ms := View(db, slot).memberships;
    forall c: u32
      ensures MembershipMatches(db, slot, ms, c)
    {
      var k := MembershipKey(slot, c);
      if k in db.memberships {
        assert c in ms && ms[c] == Membership(db.memberships[k], PointersOf(db, k));
      }
      forall b: u32
        ensures b in PointersOf(db, k) <==> PointerKey(slot, c, b) in db.pointers
        ensures b in PointersOf(db, k) ==> PointersOf(db, k)[b] == db.pointers[PointerKey(slot, c, b)]
      {
      }
    }
  }

  lemma MatchIsUnique(db: Db, slot: u32, ms: map<u32, Membership>, ns: map<u32, Membership>)
    requires Matches(db, slot, ms) && Matches(db, slot, ns)
    ensures ms == ns
  {
    forall c: u32
      ensures c in ms <==> c in ns
      ensures c in ms ==> ms[c] == ns[c]
    {
      assert MembershipMatches(db, slot, ms, c) && MembershipMatches(db, slot, ns, c);
      if c in ms {
        assert ms[c].pointers == ns[c].pointers;
      }
    }
  }

  lemma {:induction false} PointersAgree(db: Db, k: MembershipKey, stored: map<u32, PointerRow>, ps: seq<PointerPatch>)
    requires k in db.memberships && Ordered(ps) && PointersMatch(db, k, stored)
    requires forall b | b in stored :: stored[b].lastRead <= stored[b].lastScanned
    ensures
      var r := UpsertPointers(db, k.slot, k.conference, ps);
      && r.Ok? && r.value.users == db.users && r.value.memberships == db.memberships
      && PointersMatch(r.value, k, AdvancePointers(stored, ps))
      && forall q | q in db.pointers || q in r.value.pointers :: (q.slot != k.slot || q.conference != k.conference) ==>
           q in db.pointers && q in r.value.pointers && r.value.pointers[q] == db.pointers[q]
    decreases |ps|
  {
    if ps != [] {
      var p := ps[0];
      var next, advanced := UpsertPointer(db, k.slot, k.conference, p).value, AdvancePointer(stored, p);
      assert PointersMatch(next, k, advanced) by {
        assert PointerKey(k.slot, k.conference, p.msgbase) in db.pointers <==> p.msgbase in stored;
        forall b: u32
          ensures b in advanced <==> PointerKey(k.slot, k.conference, b) in next.pointers
          ensures b in advanced ==> advanced[b] == next.pointers[PointerKey(k.slot, k.conference, b)]
        {
          assert b in stored <==> PointerKey(k.slot, k.conference, b) in db.pointers;
        }
      }
      PointersAgree(next, k, advanced, ps[1..]);
    }
  }

  /** A conference's posted counter after the patches: what was stored or created, and every delta that lands. */
  function PostedAfter(stored: Option<nat>, ms: seq<MembershipPatch>, conference: u32): Option<nat>
    decreases |ms|
  {
    if ms == [] then stored
    else
      var m := ms[0];
      var next := if m.conference != conference then stored
                  else if stored.Some? then Some(stored.value + m.postedDelta)
                  else if m.createIfMissing then Some(m.postedDelta)
                  else None;
      PostedAfter(next, ms[1..], conference)
  }

  function StoredPosted(db: Db, slot: u32, conference: u32): Option<nat> {
    var k := MembershipKey(slot, conference);
    if k in db.memberships then Some(db.memberships[k].posted) else None
  }

  predicate Fits(n: Option<nat>) {
    n.Some? ==> n.value <= U32_MAX
  }

  /** No counter would pass the 32-bit range. */
  predicate CountersWillFit(db: Db, slot: u32, p: UserPatch)
    requires slot in db.users
  {
    && CountersFit(BumpRow(db.users[slot], p))
    && forall i | 0 <= i < |p.memberships| ::
         var c := p.memberships[i].conference; Fits(PostedAfter(StoredPosted(db, slot, c), p.memberships, c))
  }

  lemma {:induction false} PostedGrows(stored: Option<nat>, ms: seq<MembershipPatch>, conference: u32)
    ensures stored.Some? ==>
      PostedAfter(stored, ms, conference).Some? && stored.value <= PostedAfter(stored, ms, conference).value
    decreases |ms|
  {
    if ms != [] {
      var m := ms[0];
      var next := if m.conference != conference then stored
                  else if stored.Some? then Some(stored.value + m.postedDelta)
                  else if m.createIfMissing then Some(m.postedDelta)
                  else None;
      PostedGrows(next, ms[1..], conference);
    }
  }

  /** One membership patch on the database and on the domain's list. */
  lemma MembershipAgrees(db: Db, slot: u32, ms: map<u32, Membership>, m: MembershipPatch)
    requires Integrity(db) && Matches(db, slot, ms) && PatchMembership(db, slot, m).Ok?
    requires slot in db.users
    requires Fits(PostedAfter(StoredPosted(db, slot, m.conference), [m], m.conference))
    ensures Matches(PatchMembership(db, slot, m).value, slot, ApplyMembership(ms, m))
  {
    var k := MembershipKey(slot, m.conference);
    PatchMembershipOk(db, slot, m);
    assert MembershipMatches(db, slot, ms, m.conference);
    var mid := PatchMembershipRow(db, slot, m).value;
    var after, ns := PatchMembership(db, slot, m).value, ApplyMembership(ms, m);
    assert PostedAfter(StoredPosted(db, slot, m.conference), [m], m.conference)
        == if k in db.memberships then Some(db.memberships[k].posted + m.postedDelta)
           else if m.createIfMissing then Some(m.postedDelta) else None by {
      assert [m][1..] == [];
    }
    if k in mid.memberships {
      var stored := if m.conference in ms then ms[m.conference].pointers else map[];
      forall b: u32
        ensures b in stored <==> PointerKey(slot, m.conference, b) in db.pointers
        ensures b in stored ==>
          stored[b] == db.pointers[PointerKey(slot, m.conference, b)] && stored[b].lastRead <= stored[b].lastScanned
      {
      }
      UpsertPointersOk(mid, slot, m.conference, m.pointers) by { assert Integrity(mid); }
      PointersAgree(mid, k, stored, m.pointers);
      forall c: u32
        ensures MembershipMatches(after, slot, ns, c)
      {
        assert MembershipMatches(db, slot, ms, c);
        if c != m.conference && c in ms {
          forall b: u32
            ensures b in ms[c].pointers <==> PointerKey(slot, c, b) in after.pointers
            ensures b in ms[c].pointers ==> ms[c].pointers[b] == after.pointers[PointerKey(slot, c, b)]
          {
            var q := PointerKey(slot, c, b);
            assert q in db.pointers <==> q in after.pointers;
          }
        }
      }
    } else {
      UpsertPointersOk(db, slot, m.conference, m.pointers);
    }
  }

  lemma PostedStep(db: Db, slot: u32, m: MembershipPatch, conference: u32)
    requires Integrity(db) && slot in db.users && PatchMembership(db, slot, m).Ok?
    ensures StoredPosted(PatchMembership(db, slot, m).value, slot, conference)
         == PostedAfter(StoredPosted(db, slot, conference), [m], conference)
  {
    assert [m][1..] == [];
    UpsertPointersKeepMemberships(PatchMembershipRow(db, slot, m).value, slot, m.conference, m.pointers);
  }

  lemma {:induction false} UpsertPointersKeepMemberships(db: Db, slot: u32, conference: u32, ps: seq<PointerPatch>)
    requires UpsertPointers(db, slot, conference, ps).Ok?
    ensures UpsertPointers(db, slot, conference, ps).value.memberships == db.memberships
    decreases |ps|
  {
    if ps != [] {
      UpsertPointersKeepMemberships(UpsertPointer(db, slot, conference, ps[0]).value, slot, conference, ps[1..]);
    }
  }

  lemma PostedAfterCons(stored: Option<nat>, ms: seq<MembershipPatch>, conference: u32)
    requires ms != []
    ensures PostedAfter(stored, ms, conference)
      == PostedAfter(PostedAfter(stored, [ms[0]], conference), ms[1..], conference)
  {
    assert [ms[0]][1..] == [];
  }

  /** The stored counter ends up where `PostedAfter` says. */
  lemma {:induction false} PostedTracks(db: Db, slot: u32, ms: seq<MembershipPatch>, conference: u32)
    requires Integrity(db) && slot in db.users && PatchMemberships(db, slot, ms).Ok?
    ensures StoredPosted(PatchMemberships(db, slot, ms).value, slot, conference)
         == PostedAfter(StoredPosted(db, slot, conference), ms, conference)
    decreases |ms|
  {
    if ms != [] {
      hide PatchMembership, StoredPosted, Integrity;
      PatchMembershipOk(db, slot, ms[0]);
      PostedStep(db, slot, ms[0], conference);
      PostedAfterCons(StoredPosted(db, slot, conference), ms, conference);
      PostedTracks(PatchMembership(db, slot, ms[0]).value, slot, ms[1..], conference);
    }
  }

  lemma {:induction false} MembershipsAgree(db: Db, slot: u32, ms: map<u32, Membership>, patches: seq<MembershipPatch>)
    requires Integrity(db) && slot in db.users && Matches(db, slot, ms) && PatchMemberships(db, slot, patches).Ok?
    requires forall c :: Fits(PostedAfter(StoredPosted(db, slot, c), patches, c))
    ensures Matches(PatchMemberships(db, slot, patches).value, slot, ApplyMemberships(ms, patches))
    decreases |patches|
  {
    if patches != [] {
      hide PatchMembership, StoredPosted, Integrity, Matches, ApplyMembership;
      var m, rest := patches[0], patches[1..];
      var next := PatchMembership(db, slot, m).value;
      PatchMembershipOk(db, slot, m);
      forall c: u32
        ensures Fits(PostedAfter(StoredPosted(db, slot, c), [m], c))
        ensures Fits(PostedAfter(StoredPosted(next, slot, c), rest, c))
      {
        PostedStep(db, slot, m, c);
        PostedAfterCons(StoredPosted(db, slot, c), patches, c);
        PostedGrows(StoredPosted(next, slot, c), rest, c);
      }
      MembershipAgrees(db, slot, ms, m);
      MembershipsAgree(next, slot, ApplyMembership(ms, m), rest);
    }
  }

  lemma {:induction false} PostedUntouched(stored: Option<nat>, ms: seq<MembershipPatch>, conference: u32)
    requires forall i | 0 <= i < |ms| :: ms[i].conference != conference
    ensures PostedAfter(stored, ms, conference) == stored
    decreases |ms|
  {
    if ms != [] { PostedUntouched(stored, ms[1..], conference); }
  }

  /** Which stored rows the domain can take back. */
  lemma ReadableIff(db: Db, slot: u32)
    requires Integrity(db) && slot in db.users
    ensures Readable(View(db, slot))
       <==> (&& db.users[slot].credentials.salt.Some? && CountersFit(db.users[slot])
             && forall c: u32 :: Fits(StoredPosted(db, slot, c)))
  {
    var ms := View(db, slot).memberships;
    ViewMatches(db, slot);
    hide View;
    forall c: u32
      ensures Fits(StoredPosted(db, slot, c)) <==> (c in ms ==> MembershipFits(ms[c]))
    {
      assert MembershipMatches(db, slot, ms, c);
    }
  }

  /** Commands that write only the user's own row leave its memberships as they were. */
  lemma RowOnly(db: Db, after: Db, slot: u32)
    requires slot in db.users && slot in after.users
    requires after.memberships == db.memberships && after.pointers == db.pointers
    ensures View(after, slot) == Snapshot(after.users[slot], View(db, slot).memberships)
    ensures View(db, slot).user == db.users[slot]
    ensures forall c: u32 :: StoredPosted(after, slot, c) == StoredPosted(db, slot, c)
  {
    ViewMatches(db, slot);
    ViewMatches(after, slot);
    assert Matches(after, slot, View(db, slot).memberships) by {
      assert forall c: u32 :: MembershipMatches(db, slot, View(db, slot).memberships, c)
                          ==> MembershipMatches(after, slot, View(db, slot).memberships, c);
    }
    MatchIsUnique(after, slot, View(db, slot).memberships, View(after, slot).memberships);
  }

  lemma RowsAgree(row: UserRow, p: UserPatch)
    requires CountersFit(BumpRow(row, p))
    ensures ApplyToRow(row, p) == BumpRow(row, p)
  {
  }

  lemma PatchedView(db: Db, slot: u32, p: UserPatch)
    requires Integrity(db) && Applicable(db, slot, p) && CountersFit(BumpRow(db.users[slot], p))
    requires forall c :: Fits(PostedAfter(StoredPosted(db, slot, c), p.memberships, c))
    ensures ApplyPatch(db, slot, p).Ok? && slot in ApplyPatch(db, slot, p).value.users
    ensures View(ApplyPatch(db, slot, p).value, slot) == ApplyTo(View(db, slot), p)
  {
    PatchSucceedsIffApplicable(db, slot, p);
    BumpKeepsIntegrity(db, slot, p);
    var bumped := db.(users := db.users[slot := BumpRow(db.users[slot], p)]);
    RowsAgree(db.users[slot], p);
    hide Integrity, View, Matches, PatchMemberships, ApplyMemberships, StoredPosted, PostedAfter, Applicable;
    hide BumpRow, ApplyToRow, CountersFit, Fits;
    var after := ApplyPatch(db, slot, p).value;
    assert after == PatchMemberships(bumped, slot, p.memberships).value;
    var ms := View(db, slot).memberships;
    RowOnly(db, bumped, slot);
    ViewMatches(bumped, slot);
    MembershipsAgree(bumped, slot, ms, p.memberships);
    ViewMatches(after, slot);
    MatchIsUnique(after, slot, View(after, slot).memberships, ApplyMemberships(ms, p.memberships));
  }

  lemma EveryCounterFits(db: Db, slot: u32, p: UserPatch, c: u32)
    requires slot in db.users && CountersWillFit(db, slot, p) && Fits(StoredPosted(db, slot, c))
    ensures Fits(PostedAfter(StoredPosted(db, slot, c), p.memberships, c))
  {
    if forall i | 0 <= i < |p.memberships| :: p.memberships[i].conference != c {
      PostedUntouched(StoredPosted(db, slot, c), p.memberships, c);
    }
  }

  lemma EveryCounterFitsIff(db: Db, slot: u32, p: UserPatch)
    requires slot in db.users && forall c: u32 :: Fits(StoredPosted(db, slot, c))
    ensures CountersWillFit(db, slot, p)
       <==> (&& CountersFit(BumpRow(db.users[slot], p))
             && forall c: u32 :: Fits(PostedAfter(StoredPosted(db, slot, c), p.memberships, c)))
  {
    hide Fits, PostedAfter, StoredPosted, CountersFit, BumpRow;
    if CountersWillFit(db, slot, p) {
      forall c: u32
        ensures Fits(PostedAfter(StoredPosted(db, slot, c), p.memberships, c))
      {
        EveryCounterFits(db, slot, p, c);
      }
    }
  }

  lemma PatchedPosted(db: Db, slot: u32, p: UserPatch)
    requires Integrity(db) && ApplyPatch(db, slot, p).Ok?
    ensures forall c: u32 :: StoredPosted(ApplyPatch(db, slot, p).value, slot, c)
                          == PostedAfter(StoredPosted(db, slot, c), p.memberships, c)
  {
    var bumped := db.(users := db.users[slot := BumpRow(db.users[slot], p)]);
    BumpKeepsIntegrity(db, slot, p);
    hide Integrity, PatchMemberships, BumpRow;
    forall c: u32
      ensures StoredPosted(PatchMemberships(bumped, slot, p.memberships).value, slot, c)
           == PostedAfter(StoredPosted(db, slot, c), p.memberships, c)
    {
      PostedTracks(bumped, slot, p.memberships, c);
    }
  }

  /** After a patch the user can be loaded again exactly when every counter fits. */
  lemma ReadableAfterPatch(db: Db, slot: u32, p: UserPatch)
    requires Integrity(db) && Applicable(db, slot, p) && slot in db.users && Readable(View(db, slot))
    requires ApplyPatch(db, slot, p).Ok? && slot in ApplyPatch(db, slot, p).value.users
    ensures Readable(View(ApplyPatch(db, slot, p).value, slot)) <==> CountersWillFit(db, slot, p)
    ensures CountersWillFit(db, slot, p) ==> forall c :: Fits(PostedAfter(StoredPosted(db, slot, c), p.memberships, c))
  {
    ApplicableNeedsUser(db, slot, p);
    hide View, Applicable, Integrity, Readable, StoredPosted, ApplyPatch, CountersFit, PostedAfter, Fits,
      CountersWillFit;
    PatchSucceedsIffApplicable(db, slot, p);
    var after := ApplyPatch(db, slot, p).value;
    ReadableIff(db, slot);
    ReadableIff(after, slot);
    PatchedPosted(db, slot, p);
    EveryCounterFitsIff(db, slot, p);
    forall c: u32
      ensures Fits(StoredPosted(after, slot, c)) <==> Fits(PostedAfter(StoredPosted(db, slot, c), p.memberships, c))
    {
    }
  }

  /**
    The database carries out a patch as the domain defines it exactly when the patch is applicable
    and no counter passes 32 bits. Otherwise the domain's version saturates or skips, while the
    database refuses, or stores what the domain cannot read back.
   */
  lemma PatchMeansTheSame(db: Db, slot: u32, p: UserPatch)
    requires Integrity(db) && LoadUser(db, slot).Found?
    ensures
      var r := ApplyPatch(db, slot, p);
      (r.Ok? && LoadUser(r.value, slot) == Found(ApplyTo(LoadUser(db, slot).user, p)))
      <==> Applicable(db, slot, p) && CountersWillFit(db, slot, p)
  {
    PatchSucceedsIffApplicable(db, slot, p);
    ApplicableNeedsUser(db, slot, p);
    hide View, Integrity, Readable, StoredPosted, ApplyTo, ApplyPatch, PostedAfter, BumpRow, Applicable,
      CountersWillFit;
    if Applicable(db, slot, p) {
      ReadableAfterPatch(db, slot, p);
      if CountersWillFit(db, slot, p) {
        PatchedView(db, slot, p);
      }
    }
  }

  lemma BumpKeepsIntegrity(db: Db, slot: u32, p: UserPatch)
    requires Integrity(db) && slot in db.users
    ensures Integrity(db.(users := db.users[slot := BumpRow(db.users[slot], p)]))
  {
  }

  lemma AuthKeepsIntegrity(db: Db, slot: u32, o: AuthOutcome)
    requires Integrity(db) && slot in db.users
    ensures Integrity(RecordAuth(db, slot, o).value)
  {
    ExecKeepsIntegrity(db, slot, Auth(o));
  }

  predicate AuthFits(u: UserRow, o: AuthOutcome) {
    && (o.Mismatched? ==> u.invalidAttempts < U32_MAX)
    && (o.Matched? && o.daily == Some(SameDay) ==> u.timesCalledToday < U32_MAX)
  }

  /** Login outcomes mean the same until a counter is at the top of its range. */
  lemma AuthMeansTheSame(db: Db, slot: u32, o: AuthOutcome)
    requires Integrity(db) && LoadUser(db, slot).Found?
    ensures
      var u := db.users[slot];
      LoadUser(RecordAuth(db, slot, o).value, slot) == Found(ApplyAuth(LoadUser(db, slot).user, o)) <==> AuthFits(u, o)
  {
    hide Integrity, View, StoredPosted, Readable;
    var after := RecordAuth(db, slot, o).value;
    AuthKeepsIntegrity(db, slot, o);
    RowOnly(db, after, slot);
    ReadableIff(db, slot);
    ReadableIff(after, slot);
  }

  /** A password stored without a salt locks its owner out for good: the record no longer loads. */
  lemma PasswordNeedsSalt(db: Db, slot: u32, change: Credentials)
    requires Integrity(db) && LoadUser(db, slot).Found?
    ensures
      LoadUser(ChangePassword(db, slot, change).value, slot)
      == if change.salt.Some? then Found(ApplyPassword(LoadUser(db, slot).user, change)) else Unreadable
  {
    var after := ChangePassword(db, slot, change).value;
    RowOnly(db, after, slot);
    ReadableIff(db, slot);
    ReadableIff(after, slot);
  }

  /** A user written whole is read back whole. */
  lemma UpsertThenLoad(db: Db, slot: u32, s: Snapshot)
    requires Integrity(db) && UpsertUser(db, slot, s).Ok? && Readable(s)
    ensures LoadUser(UpsertUser(db, slot, s).value, slot) == Found(s)
  {
    var after := UpsertUser(db, slot, s).value;
    RebornRows(db, slot, s);
    ViewMatches(after, slot);
    MatchIsUnique(after, slot, s.memberships, View(after, slot).memberships);
  }
}
