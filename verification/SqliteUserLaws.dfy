/** What the statements of the user database keep, and what sessions writing in any order agree on. */
module SqliteUserLaws {
  import opened Basics
  import opened SqliteUsers

  // ---- Integrity, and exactly when a patch fails ----

  ghost predicate Integrity(db: Db) {
    && (forall k | k in db.memberships :: k.slot in db.users)
    && (forall k | k in db.pointers ::
          MembershipKey(k.slot, k.conference) in db.memberships
            && db.pointers[k].lastRead <= db.pointers[k].lastScanned)
    && (forall s | s in db.users :: db.users[s].joinedConference.None? == db.users[s].joinedMsgbase.None?)
    && HandlesUnique(db.users)
  }

  predicate Ordered(ps: seq<PointerPatch>) {
    forall i | 0 <= i < |ps| :: ps[i].lastRead <= ps[i].lastScanned
  }

  /** The conferences the user of `slot` has a membership row for. */
  function JoinedBy(db: Db, slot: u32): set<u32> {
    set k | k in db.memberships && k.slot == slot :: k.conference
  }

  /** By the time membership patch `i` runs, its row is there: stored, or created by it or an earlier one. */
  predicate HasRow(joined: set<u32>, ms: seq<MembershipPatch>, i: nat)
    requires i < |ms|
  {
    || ms[i].conference in joined
    || exists j :: 0 <= j <= i && ms[j].conference == ms[i].conference && ms[j].createIfMissing
  }

  /** No patched pointer reads beyond its scan mark, and none lacks a membership row. */
  predicate CanRun(joined: set<u32>, ms: seq<MembershipPatch>) {
    forall i | 0 <= i < |ms| :: Ordered(ms[i].pointers) && (ms[i].pointers == [] || HasRow(joined, ms, i))
  }

  predicate Applicable(db: Db, slot: u32, p: UserPatch) {
    slot in db.users && CanRun(JoinedBy(db, slot), p.memberships)
  }

  /** The conferences that a list of membership patches creates rows for. */
  function Creates(ms: seq<MembershipPatch>): set<u32> {
    if ms == [] then {}
    else (if ms[0].createIfMissing then {ms[0].conference} else {}) + Creates(ms[1..])
  }

  lemma {:induction false} UpsertPointersOk(db: Db, slot: u32, conference: u32, ps: seq<PointerPatch>)
    requires Integrity(db)
    ensures
      var r := UpsertPointers(db, slot, conference, ps);
      && (r.Ok? <==> Ordered(ps) && (ps == [] || MembershipKey(slot, conference) in db.memberships))
      && (r.Ok? ==> Integrity(r.value) && r.value.users == db.users && r.value.memberships == db.memberships)
    decreases |ps|
  {
    if ps != [] {
      var r := UpsertPointer(db, slot, conference, ps[0]);
      if r.Ok? {
        UpsertPointersOk(r.value, slot, conference, ps[1..]);
        assert ps == [ps[0]] + ps[1..];
      }
    }
  }

  lemma PatchMembershipOk(db: Db, slot: u32, m: MembershipPatch)
    requires Integrity(db) && slot in db.users
    ensures
      var r, key := PatchMembership(db, slot, m), MembershipKey(slot, m.conference);
      && (r.Ok? <==> Ordered(m.pointers) && (m.pointers == [] || key in db.memberships || m.createIfMissing))
      && (r.Ok? ==>
        && Integrity(r.value) && r.value.users == db.users
        && r.value.memberships.Keys == db.memberships.Keys + if m.createIfMissing then {key} else {})
  {
    UpsertPointersOk(PatchMembershipRow(db, slot, m).value, slot, m.conference, m.pointers);
  }

  lemma {:induction false} PatchMembershipsOk(db: Db, slot: u32, ms: seq<MembershipPatch>)
    requires Integrity(db) && slot in db.users
    ensures
      var r := PatchMemberships(db, slot, ms);
      && (r.Ok? <==> CanRun(JoinedBy(db, slot), ms))
      && (r.Ok? ==>
        && Integrity(r.value) && r.value.users == db.users
        && db.memberships.Keys <= r.value.memberships.Keys
        && JoinedBy(r.value, slot) == JoinedBy(db, slot) + Creates(ms))
    decreases |ms|
  {
    if ms != [] {
      hide Integrity, PatchMembership;
      PatchMembershipOk(db, slot, ms[0]);
      var r := PatchMembership(db, slot, ms[0]);
      var joined, created := JoinedBy(db, slot), if ms[0].createIfMissing then {ms[0].conference} else {};
      assert MembershipKey(slot, ms[0].conference) in db.memberships <==> ms[0].conference in joined;
      CanRunFront(joined, ms);
      if r.Ok? {
        assert JoinedBy(r.value, slot) == joined + created by {
          forall c: u32
            ensures c in JoinedBy(r.value, slot) <==> MembershipKey(slot, c) in r.value.memberships
            ensures c in joined <==> MembershipKey(slot, c) in db.memberships
          {
          }
        }
        PatchMembershipsOk(r.value, slot, ms[1..]);
      }
    }
  }

  /** A list runs if its first patch does and the rest do once its row is there. */
  lemma CanRunFront(joined: set<u32>, ms: seq<MembershipPatch>)
    requires ms != []
    ensures
      var m := ms[0];
      CanRun(joined, ms) <==>
        && Ordered(m.pointers) && (m.pointers == [] || m.conference in joined || m.createIfMissing)
        && CanRun(joined + if m.createIfMissing then {m.conference} else {}, ms[1..])
  {
    hide Ordered;
    var m, rest := ms[0], ms[1..];
    var next := joined + if m.createIfMissing then {m.conference} else {};
    forall i | 0 <= i < |rest|
      ensures rest[i] == ms[i + 1] && (HasRow(next, rest, i) <==> HasRow(joined, ms, i + 1))
    {
      if j :| 0 <= j <= i && rest[j].conference == rest[i].conference && rest[j].createIfMissing {
        assert ms[j + 1] == rest[j];
      }
      if j :| 0 <= j <= i + 1 && ms[j].conference == ms[i + 1].conference && ms[j].createIfMissing {
        assert j > 0 ==> rest[j - 1] == ms[j];
      }
    }
    assert HasRow(joined, ms, 0) <==> m.conference in joined || m.createIfMissing;
    hide HasRow;
    if CanRun(next, rest) {
      forall i | 0 < i < |ms|
        ensures Ordered(ms[i].pointers) && (ms[i].pointers == [] || HasRow(joined, ms, i))
      {
        assert ms[i - 1 + 1] == rest[i - 1];
        assert HasRow(next, rest, i - 1) <==> HasRow(joined, ms, i - 1 + 1);
      }
    }
  }

  /** A patch goes through exactly when it is applicable, and then keeps every constraint. */
  lemma PatchSucceedsIffApplicable(db: Db, slot: u32, p: UserPatch)
    requires Integrity(db)
    ensures ApplyPatch(db, slot, p).Ok? <==> Applicable(db, slot, p)
    ensures ApplyPatch(db, slot, p).Ok? ==>
      && Integrity(ApplyPatch(db, slot, p).value)
      && ApplyPatch(db, slot, p).value.users == db.users[slot := BumpRow(db.users[slot], p)]
      && db.memberships.Keys <= ApplyPatch(db, slot, p).value.memberships.Keys
      && JoinedBy(ApplyPatch(db, slot, p).value, slot) == JoinedBy(db, slot) + Creates(p.memberships)
  {
    if slot in db.users {
      var bumped := db.(users := db.users[slot := BumpRow(db.users[slot], p)]);
      assert Integrity(bumped);
      PatchMembershipsOk(bumped, slot, p.memberships);
      assert JoinedBy(bumped, slot) == JoinedBy(db, slot);
    }
  }

  // ---- Runs of commands ----

  /** A registration finds its own slot, the one above the highest. */
  datatype Command =
    | Patch(patch: UserPatch)
    | Auth(outcome: AuthOutcome)
    | Password(change: Credentials)
    | Seed(user: Snapshot)
    | NewUser(draft: NewUserDraft)

  /** A command that fails leaves the database as it was. */
  ghost function Exec(db: Db, slot: u32, c: Command): Db {
    var r := match c
             case Patch(p) => ApplyPatch(db, slot, p)
             case Auth(o) => RecordAuth(db, slot, o)
             case Password(change) => ChangePassword(db, slot, change)
             case Seed(user) => UpsertUser(db, slot, user)
             case NewUser(draft) => Ok(Register(db, draft).0);
    if r.Ok? then r.value else db
  }

  /** Runs each command against its slot; sessions' commands may be interleaved in any way. */
  ghost function Run(db: Db, cs: seq<(u32, Command)>): Db
    decreases |cs|
  {
    if cs == [] then db else Run(Exec(db, cs[0].0, cs[0].1), cs[1..])
  }

  lemma RebornPointersSound(db: Db, slot: u32, s: Snapshot, k: PointerKey)
    requires k in RebornPointers(db, slot, s)
    requires forall k | k in db.pointers ::
      MembershipKey(k.slot, k.conference) in db.memberships && db.pointers[k].lastRead <= db.pointers[k].lastScanned
    requires forall c, b | c in s.memberships && b in s.memberships[c].pointers ::
      s.memberships[c].pointers[b].lastRead <= s.memberships[c].pointers[b].lastScanned
    ensures MembershipKey(k.slot, k.conference) in RebornMemberships(db, slot, s)
    ensures RebornPointers(db, slot, s)[k].lastRead <= RebornPointers(db, slot, s)[k].lastScanned
  {
    if k.slot == slot {
      assert k.conference in s.memberships && k.msgbase in s.memberships[k.conference].pointers;
    }
  }

  lemma RebornMembershipsSound(db: Db, slot: u32, s: Snapshot, k: MembershipKey)
    requires k in RebornMemberships(db, slot, s)
    ensures k.slot == slot || k in db.memberships
  {
  }

  lemma UpsertKeepsIntegrity(db: Db, slot: u32, s: Snapshot)
    requires Integrity(db) && UpsertUser(db, slot, s).Ok?
    ensures Integrity(UpsertUser(db, slot, s).value)
  {
    hide RebornPointers, RebornMemberships;
    var after := UpsertUser(db, slot, s).value;
    assert after == Db(db.users[slot := s.user], RebornMemberships(db, slot, s), RebornPointers(db, slot, s));
    forall k | k in after.pointers
      ensures MembershipKey(k.slot, k.conference) in after.memberships
      ensures after.pointers[k].lastRead <= after.pointers[k].lastScanned
    {
      RebornPointersSound(db, slot, s, k);
    }
    forall k | k in after.memberships
      ensures k.slot in after.users
    {
      RebornMembershipsSound(db, slot, s, k);
    }
  }

  lemma RowKeepsIntegrity(db: Db, slot: u32, row: UserRow)
    requires Integrity(db) && slot in db.users && row.folded == db.users[slot].folded
    requires row.joinedConference == db.users[slot].joinedConference
      && row.joinedMsgbase == db.users[slot].joinedMsgbase
    ensures Integrity(db.(users := db.users[slot := row]))
  {
  }

  lemma ExecKeepsIntegrity(db: Db, slot: u32, c: Command)
    requires Integrity(db)
    ensures Integrity(Exec(db, slot, c))
  {
    hide Integrity, ApplyPatch, UpsertUser, Register;
    match c {
      case Patch(p) => PatchSucceedsIffApplicable(db, slot, p);
      case Auth(o) => if slot in db.users { RowKeepsIntegrity(db, slot, AuthRow(db.users[slot], o)); }
      case Password(change) =>
        if slot in db.users {
          RowKeepsIntegrity(db, slot, db.users[slot].(credentials := change, forceReset := false));
        }
      case Seed(user) => if UpsertUser(db, slot, user).Ok? { UpsertKeepsIntegrity(db, slot, user); }
      case NewUser(draft) => RegisterKeepsIntegrity(db, draft);
    }
  }

  lemma RegisterKeepsIntegrity(db: Db, draft: NewUserDraft)
    requires Integrity(db)
    ensures Integrity(Register(db, draft).0)
  {
    hide Integrity, RebornMemberships, RebornPointers, Fold;
    if Register(db, draft).1.Registered? {
      var slot := Register(db, draft).1.slot;
      RegistrationUpserts(db, slot, draft);
      UpsertKeepsIntegrity(db, slot, Register(db, draft).1.user);
    }
  }

  lemma EmptyHasIntegrity()
    ensures Integrity(EMPTY)
  {
  }

  lemma {:induction false} RunKeepsIntegrity(db: Db, cs: seq<(u32, Command)>)
    requires Integrity(db)
    ensures Integrity(Run(db, cs))
    decreases |cs|
  {
    hide Integrity, Exec;
    if cs != [] {
      ExecKeepsIntegrity(db, cs[0].0, cs[0].1);
      RunKeepsIntegrity(Exec(db, cs[0].0, cs[0].1), cs[1..]);
    }
  }

  /** Every database reachable from the empty one, registrations included, has its integrity. */
  lemma ReachableHasIntegrity(cs: seq<(u32, Command)>)
    ensures Integrity(Run(EMPTY, cs))
  {
    hide Integrity;
    EmptyHasIntegrity();
    RunKeepsIntegrity(EMPTY, cs);
  }

  // ---- A statement touches no other user ----

  lemma {:induction false} UpsertPointersTouchOne(db: Db, slot: u32, conference: u32, ps: seq<PointerPatch>, t: u32)
    requires t != slot && UpsertPointers(db, slot, conference, ps).Ok?
    ensures SameRows(db, UpsertPointers(db, slot, conference, ps).value, t)
    decreases |ps|
  {
    if ps != [] {
      UpsertPointersTouchOne(UpsertPointer(db, slot, conference, ps[0]).value, slot, conference, ps[1..], t);
    }
  }

  lemma {:induction false} PatchMembershipsTouchOne(db: Db, slot: u32, ms: seq<MembershipPatch>, t: u32)
    requires t != slot && PatchMemberships(db, slot, ms).Ok?
    ensures SameRows(db, PatchMemberships(db, slot, ms).value, t)
    decreases |ms|
  {
    if ms != [] {
      var mid := PatchMembershipRow(db, slot, ms[0]).value;
      assert SameRows(db, mid, t);
      hide UpsertPointers;
      UpsertPointersTouchOne(mid, slot, ms[0].conference, ms[0].pointers, t);
      PatchMembershipsTouchOne(PatchMembership(db, slot, ms[0]).value, slot, ms[1..], t);
    }
  }

  // ---- What patches add up to ----

  datatype Marks = Marks(read: nat, scanned: nat)

  /**
    The parts of a user that patches merge: counters by adding, times and marks by taking the later.
    `posted` is the counter of each conference that the user has a row for.
   */
  datatype Totals = Totals(
    timesCalled: nat, timesCalledToday: nat, timeUsedToday: nat, messagesPosted: nat,
    lastCall: Option<int>, marks: map<PointerKey, Marks>, posted: map<u32, nat>)

  const NOTHING := Totals(0, 0, 0, 0, None, map[], map[])

  function CountOf(posted: map<u32, nat>, c: u32): nat {
    if c in posted then posted[c] else 0
  }

  function JoinPosted(a: map<u32, nat>, b: map<u32, nat>): map<u32, nat> {
    map c | c in a.Keys + b.Keys :: CountOf(a, c) + CountOf(b, c)
  }

  function JoinMark(a: map<PointerKey, Marks>, b: map<PointerKey, Marks>, k: PointerKey): Marks
    requires k in a || k in b
  {
    if k !in a then b[k] else if k !in b then a[k]
    else Marks(Max(a[k].read, b[k].read), Max(a[k].scanned, b[k].scanned))
  }

  function JoinMarks(a: map<PointerKey, Marks>, b: map<PointerKey, Marks>): map<PointerKey, Marks> {
    map k | k in a.Keys + b.Keys :: JoinMark(a, b, k)
  }

  function Join(a: Totals, b: Totals): Totals {
    Totals(a.timesCalled + b.timesCalled, a.timesCalledToday + b.timesCalledToday,
           a.timeUsedToday + b.timeUsedToday, a.messagesPosted + b.messagesPosted,
           Later(a.lastCall, b.lastCall), JoinMarks(a.marks, b.marks), JoinPosted(a.posted, b.posted))
  }

  function StoredMarks(db: Db, slot: u32): map<PointerKey, Marks> {
    map k | k in db.pointers && k.slot == slot :: Marks(db.pointers[k].lastRead, db.pointers[k].lastScanned)
  }

  function StoredPosts(db: Db, slot: u32): map<u32, nat> {
    map k | k in db.memberships && k.slot == slot :: k.conference := db.memberships[k].posted
  }

  function Stored(db: Db, slot: u32): Totals
    requires slot in db.users
  {
    var u := db.users[slot];
    Totals(u.timesCalled, u.timesCalledToday, u.timeUsedToday, u.messagesPosted, u.lastCall,
           StoredMarks(db, slot), StoredPosts(db, slot))
  }

  function PointerMarks(slot: u32, conference: u32, ps: seq<PointerPatch>): map<PointerKey, Marks> {
    if ps == [] then map[]
    else JoinMarks(map[PointerKey(slot, conference, ps[0].msgbase) := Marks(ps[0].lastRead, ps[0].lastScanned)],
                   PointerMarks(slot, conference, ps[1..]))
  }

  function PatchMarks(slot: u32, ms: seq<MembershipPatch>): map<PointerKey, Marks> {
    if ms == [] then map[]
    else JoinMarks(PointerMarks(slot, ms[0].conference, ms[0].pointers), PatchMarks(slot, ms[1..]))
  }

  /** The posts that are counted, for a user with rows for `joined`: those to a row that is there or created by then. */
  function PatchPosts(joined: set<u32>, ms: seq<MembershipPatch>): map<u32, nat>
    decreases |ms|
  {
    if ms == [] then map[]
    else
      var m := ms[0];
      if m.conference in joined || m.createIfMissing then
        JoinPosted(map[m.conference := m.postedDelta], PatchPosts(joined + {m.conference}, ms[1..]))
      else PatchPosts(joined, ms[1..])
  }

  /** What one patch brings to a user with rows for `joined`. */
  function Brings(slot: u32, joined: set<u32>, p: UserPatch): Totals {
    Totals(p.timesCalled, p.timesCalledToday, p.timeUsedToday, p.messagesPosted, p.lastCall,
           PatchMarks(slot, p.memberships), PatchPosts(joined, p.memberships))
  }

  lemma JoinMarksAssociative(a: map<PointerKey, Marks>, b: map<PointerKey, Marks>, c: map<PointerKey, Marks>)
    ensures JoinMarks(JoinMarks(a, b), c) == JoinMarks(a, JoinMarks(b, c))
  {
    assert JoinMarks(JoinMarks(a, b), c).Keys == JoinMarks(a, JoinMarks(b, c)).Keys;
  }

  lemma JoinMarksCommutes(a: map<PointerKey, Marks>, b: map<PointerKey, Marks>)
    ensures JoinMarks(a, b) == JoinMarks(b, a)
    ensures JoinMarks(a, map[]) == a
  {
  }

  lemma JoinPostedAt(a: map<u32, nat>, b: map<u32, nat>)
    ensures JoinPosted(a, b).Keys == a.Keys + b.Keys
    ensures forall c :: CountOf(JoinPosted(a, b), c) == CountOf(a, c) + CountOf(b, c)
  {
  }

  lemma SamePosts(a: map<u32, nat>, b: map<u32, nat>)
    requires a.Keys == b.Keys && forall c :: CountOf(a, c) == CountOf(b, c)
    ensures a == b
  {
    forall c | c in a
      ensures c in b && a[c] == b[c]
    {
      assert CountOf(a, c) == CountOf(b, c);
    }
  }

  lemma JoinPostedLaws(a: map<u32, nat>, b: map<u32, nat>, c: map<u32, nat>)
    ensures JoinPosted(a, b) == JoinPosted(b, a)
    ensures JoinPosted(JoinPosted(a, b), c) == JoinPosted(a, JoinPosted(b, c))
    ensures JoinPosted(a, map[]) == a
  {
    JoinPostedAt(a, b);
    JoinPostedAt(b, a);
    JoinPostedAt(b, c);
    JoinPostedAt(JoinPosted(a, b), c);
    JoinPostedAt(a, JoinPosted(b, c));
    JoinPostedAt(a, map[]);
    assert forall x: u32 :: CountOf(map[], x) == 0;
    hide JoinPosted, CountOf;
    SamePosts(JoinPosted(a, b), JoinPosted(b, a));
    SamePosts(JoinPosted(JoinPosted(a, b), c), JoinPosted(a, JoinPosted(b, c)));
    SamePosts(JoinPosted(a, map[]), a);
  }

  lemma JoinOnePost(a: map<u32, nat>, c: u32, n: nat)
    ensures JoinPosted(a, map[c := n]) == a[c := CountOf(a, c) + n]
  {
  }

  lemma JoinLaws(a: Totals, b: Totals, c: Totals)
    ensures Join(a, b) == Join(b, a)
    ensures Join(Join(a, b), c) == Join(a, Join(b, c))
    ensures Join(a, NOTHING) == a
  {
    JoinMarksCommutes(a.marks, b.marks);
    JoinMarksAssociative(a.marks, b.marks, c.marks);
    JoinPostedLaws(a.posted, b.posted, c.posted);
    hide JoinMarks, JoinPosted;
  }

  lemma UpsertPointerJoins(db: Db, slot: u32, conference: u32, p: PointerPatch)
    requires UpsertPointer(db, slot, conference, p).Ok?
    ensures StoredMarks(UpsertPointer(db, slot, conference, p).value, slot)
         == JoinMarks(StoredMarks(db, slot),
                      map[PointerKey(slot, conference, p.msgbase) := Marks(p.lastRead, p.lastScanned)])
  {
  }

  lemma {:induction false} UpsertPointersJoin(db: Db, slot: u32, conference: u32, ps: seq<PointerPatch>)
    requires UpsertPointers(db, slot, conference, ps).Ok?
    ensures StoredMarks(UpsertPointers(db, slot, conference, ps).value, slot)
         == JoinMarks(StoredMarks(db, slot), PointerMarks(slot, conference, ps))
    decreases |ps|
  {
    if ps == [] {
      assert JoinMarks(StoredMarks(db, slot), map[]) == StoredMarks(db, slot);
    } else {
      hide UpsertPointer, JoinMarks, StoredMarks;
      var next := UpsertPointer(db, slot, conference, ps[0]).value;
      UpsertPointerJoins(db, slot, conference, ps[0]);
      UpsertPointersJoin(next, slot, conference, ps[1..]);
      JoinMarksAssociative(StoredMarks(db, slot),
        map[PointerKey(slot, conference, ps[0].msgbase) := Marks(ps[0].lastRead, ps[0].lastScanned)],
        PointerMarks(slot, conference, ps[1..]));
    }
  }

  lemma {:induction false} PatchMembershipsJoin(db: Db, slot: u32, ms: seq<MembershipPatch>)
    requires PatchMemberships(db, slot, ms).Ok?
    ensures StoredMarks(PatchMemberships(db, slot, ms).value, slot)
      == JoinMarks(StoredMarks(db, slot), PatchMarks(slot, ms))
    decreases |ms|
  {
    if ms == [] {
      assert JoinMarks(StoredMarks(db, slot), map[]) == StoredMarks(db, slot);
    } else {
      hide UpsertPointers, JoinMarks;
      var next, m := PatchMembershipRow(db, slot, ms[0]).value, ms[0];
      assert StoredMarks(next, slot) == StoredMarks(db, slot);
      UpsertPointersJoin(next, slot, m.conference, m.pointers);
      PatchMembershipsJoin(PatchMembership(db, slot, m).value, slot, ms[1..]);
      JoinMarksAssociative(StoredMarks(db, slot), PointerMarks(slot, m.conference, m.pointers),
        PatchMarks(slot, ms[1..]));
    }
  }

  lemma PostsOfRows(db: Db, after: Db, slot: u32)
    requires after.memberships == db.memberships
    ensures StoredPosts(after, slot) == StoredPosts(db, slot) && JoinedBy(after, slot) == JoinedBy(db, slot)
  {
  }

  lemma PostsOfOneRow(db: Db, after: Db, slot: u32, c: u32, row: MembershipRow)
    requires after.memberships == db.memberships[MembershipKey(slot, c) := row]
    ensures StoredPosts(after, slot) == StoredPosts(db, slot)[c := row.posted]
    ensures JoinedBy(after, slot) == JoinedBy(db, slot) + {c}
  {
    assert forall k | k in after.memberships :: k == MembershipKey(slot, c) || k in db.memberships;
    assert MembershipKey(slot, c) in after.memberships;
    assert forall k | k in db.memberships :: k in after.memberships;
  }

  lemma RowOfPost(db: Db, slot: u32, c: u32)
    ensures MembershipKey(slot, c) in db.memberships <==> c in JoinedBy(db, slot)
    ensures CountOf(StoredPosts(db, slot), c)
         == if c in JoinedBy(db, slot) then db.memberships[MembershipKey(slot, c)].posted else 0
    ensures StoredPosts(db, slot).Keys == JoinedBy(db, slot)
  {
    var k := MembershipKey(slot, c);
    assert k.slot == slot && k.conference == c;
  }

  /** One membership patch adds its posts to the row, if there is one by then. */
  lemma PatchMembershipPosts(db: Db, slot: u32, m: MembershipPatch)
    requires Integrity(db) && slot in db.users && PatchMembership(db, slot, m).Ok?
    ensures
      var after, joined := PatchMembership(db, slot, m).value, JoinedBy(db, slot);
      if m.conference in joined || m.createIfMissing then
        && JoinedBy(after, slot) == joined + {m.conference}
        && StoredPosts(after, slot) == JoinPosted(StoredPosts(db, slot), map[m.conference := m.postedDelta])
      else JoinedBy(after, slot) == joined && StoredPosts(after, slot) == StoredPosts(db, slot)
  {
    hide Integrity, StoredPosts, JoinedBy, JoinPosted, CountOf, UpsertPointers;
    var mid, c := PatchMembershipRow(db, slot, m).value, m.conference;
    MembershipRowKeeps(db, slot, m);
    UpsertPointersOk(mid, slot, c, m.pointers);
    PostsOfRows(mid, PatchMembership(db, slot, m).value, slot);
    RowOfPost(db, slot, c);
    if c in JoinedBy(db, slot) || m.createIfMissing {
      PostsOfOneRow(db, mid, slot, c, mid.memberships[MembershipKey(slot, c)]);
      JoinOnePost(StoredPosts(db, slot), c, m.postedDelta);
    }
  }

  lemma MembershipRowKeeps(db: Db, slot: u32, m: MembershipPatch)
    requires Integrity(db) && slot in db.users && PatchMembershipRow(db, slot, m).Ok?
    ensures Integrity(PatchMembershipRow(db, slot, m).value)
  {
  }

  lemma PostsFront(joined: set<u32>, ms: seq<MembershipPatch>, before: map<u32, nat>)
    requires ms != []
    ensures
      var m := ms[0];
      JoinPosted(before, PatchPosts(joined, ms))
      == if m.conference in joined || m.createIfMissing then
           JoinPosted(JoinPosted(before, map[m.conference := m.postedDelta]),
                      PatchPosts(joined + {m.conference}, ms[1..]))
         else JoinPosted(before, PatchPosts(joined, ms[1..]))
  {
    hide JoinPosted;
    JoinPostedLaws(before, map[ms[0].conference := ms[0].postedDelta],
      PatchPosts(joined + {ms[0].conference}, ms[1..]));
  }

  lemma {:induction false} PatchPostsJoin(db: Db, slot: u32, ms: seq<MembershipPatch>)
    requires Integrity(db) && slot in db.users && PatchMemberships(db, slot, ms).Ok?
    ensures StoredPosts(PatchMemberships(db, slot, ms).value, slot)
         == JoinPosted(StoredPosts(db, slot), PatchPosts(JoinedBy(db, slot), ms))
    decreases |ms|
  {
    if ms == [] {
      JoinPostedLaws(StoredPosts(db, slot), map[], map[]);
    } else {
      hide Integrity, PatchMembership, JoinPosted, StoredPosts, JoinedBy, CountOf, PatchPosts;
      PatchMembershipOk(db, slot, ms[0]);
      PatchMembershipPosts(db, slot, ms[0]);
      PatchPostsJoin(PatchMembership(db, slot, ms[0]).value, slot, ms[1..]);
      PostsFront(JoinedBy(db, slot), ms, StoredPosts(db, slot));
    }
  }

  /** Every patch that goes through joins what it brings to what is stored. */
  lemma PatchJoins(db: Db, slot: u32, p: UserPatch)
    requires Integrity(db) && Applicable(db, slot, p)
    ensures
      var r := ApplyPatch(db, slot, p);
      && r.Ok? && slot in r.value.users
      && Stored(r.value, slot) == Join(Stored(db, slot), Brings(slot, JoinedBy(db, slot), p))
  {
    PatchSucceedsIffApplicable(db, slot, p);
    var bumped := db.(users := db.users[slot := BumpRow(db.users[slot], p)]);
    BumpKeeps(db, slot, p);
    hide Integrity, PatchMemberships, JoinMarks, JoinPosted, PatchMarks, PatchPosts, StoredMarks, StoredPosts, JoinedBy;
    PatchMembershipsJoin(bumped, slot, p.memberships);
    PatchPostsJoin(bumped, slot, p.memberships);
  }

  lemma BumpKeeps(db: Db, slot: u32, p: UserPatch)
    requires Integrity(db) && slot in db.users
    ensures
      var bumped := db.(users := db.users[slot := BumpRow(db.users[slot], p)]);
      && Integrity(bumped) && StoredMarks(bumped, slot) == StoredMarks(db, slot)
      && StoredPosts(bumped, slot) == StoredPosts(db, slot) && JoinedBy(bumped, slot) == JoinedBy(db, slot)
  {
  }

  lemma ApplicableNeedsUser(db: Db, slot: u32, p: UserPatch)
    ensures Applicable(db, slot, p) ==> slot in db.users
  {
  }

  // ---- Account flags over interleaved commands ----

  predicate Locks(slot: u32, c: (u32, Command)) {
    c.0 == slot && c.1.Auth? && c.1.outcome.Mismatched? && c.1.outcome.lockAccount
  }

  predicate Forces(slot: u32, c: (u32, Command)) {
    c.0 == slot && c.1.Auth? && c.1.outcome.Matched? && c.1.outcome.forceReset
  }

  predicate Resets(slot: u32, c: (u32, Command)) {
    c.0 == slot && c.1.Password?
  }

  predicate Reseeds(slot: u32, c: (u32, Command)) {
    c.0 == slot && c.1.Seed?
  }

  /** A command writes no user row but one, and a registration only a new one. */
  lemma ExecWritesOneRow(db: Db, slot: u32, c: Command, t: u32)
    requires Integrity(db) && t in db.users && (t != slot || c.NewUser?)
    ensures t in Exec(db, slot, c).users && Exec(db, slot, c).users[t] == db.users[t]
  {
    hide Integrity, ApplyPatch, Applicable, RebornMemberships, RebornPointers, Fold;
    if c.Patch? { PatchSucceedsIffApplicable(db, slot, c.patch); }
  }

  lemma ExecOnUser(db: Db, slot: u32, c: (u32, Command))
    requires Integrity(db) && slot in db.users && !Reseeds(slot, c)
    ensures
      var after := Exec(db, c.0, c.1);
      && slot in after.users
      && after.users[slot].locked == (db.users[slot].locked || Locks(slot, c))
      && after.users[slot].forceReset == (!Resets(slot, c) && (db.users[slot].forceReset || Forces(slot, c)))
  {
    hide Integrity, ApplyPatch, Applicable, UpsertUser, Register;
    if c.0 != slot || c.1.NewUser? {
      hide Exec;
      ExecWritesOneRow(db, c.0, c.1, slot);
    } else if c.1.Patch? {
      PatchSucceedsIffApplicable(db, slot, c.1.patch);
    }
  }

  /** An account is locked if it was or some failed attempt locked it, and nothing unlocks it. */
  lemma {:induction false} LockedForGood(db: Db, slot: u32, cs: seq<(u32, Command)>)
    requires Integrity(db) && slot in db.users
    requires forall i | 0 <= i < |cs| :: !Reseeds(slot, cs[i])
    ensures slot in Run(db, cs).users
    ensures Run(db, cs).users[slot].locked <==> db.users[slot].locked || exists i :: 0 <= i < |cs| && Locks(slot, cs[i])
    decreases |cs|
  {
    if cs != [] {
      hide Integrity, Exec, Locks;
      var next := Exec(db, cs[0].0, cs[0].1);
      ExecKeepsIntegrity(db, cs[0].0, cs[0].1);
      ExecOnUser(db, slot, cs[0]);
      LockedForGood(next, slot, cs[1..]);
      assert forall i | 0 < i < |cs| :: cs[i] == cs[1..][i - 1];
    }
  }

  /** No reset of the password from `i` on. */
  predicate KeptSince(slot: u32, cs: seq<(u32, Command)>, i: nat) {
    forall j | i <= j < |cs| :: !Resets(slot, cs[j])
  }

  /** A reset is due if one was and the password never changed, or a login after its last change set it. */
  lemma {:induction false} ResetClearedByPasswordOnly(db: Db, slot: u32, cs: seq<(u32, Command)>)
    requires Integrity(db) && slot in db.users
    requires forall i | 0 <= i < |cs| :: !Reseeds(slot, cs[i])
    ensures slot in Run(db, cs).users
    ensures Run(db, cs).users[slot].forceReset
         <==> (|| (db.users[slot].forceReset && KeptSince(slot, cs, 0))
               || exists i :: 0 <= i < |cs| && Forces(slot, cs[i]) && KeptSince(slot, cs, i))
    decreases |cs|
  {
    if cs != [] {
      hide Integrity, Exec, Forces, Resets;
      var next, rest := Exec(db, cs[0].0, cs[0].1), cs[1..];
      ExecKeepsIntegrity(db, cs[0].0, cs[0].1);
      ExecOnUser(db, slot, cs[0]);
      ResetClearedByPasswordOnly(next, slot, rest);
      forall i | 0 <= i < |rest|
        ensures cs[i + 1] == rest[i] && (KeptSince(slot, rest, i) <==> KeptSince(slot, cs, i + 1))
      {
        KeptShift(slot, cs, i);
      }
      KeptShift(slot, cs, 0);
      assert Forces(slot, cs[0]) ==> !Resets(slot, cs[0]) by { ForceIsNoReset(slot, cs[0]); }
      ForcedShift(slot, cs);
    }
  }

  lemma ForceIsNoReset(slot: u32, c: (u32, Command))
    ensures Forces(slot, c) ==> !Resets(slot, c)
  {
  }

  lemma KeptShift(slot: u32, cs: seq<(u32, Command)>, i: nat)
    requires cs != []
    ensures KeptSince(slot, cs[1..], i) <==> KeptSince(slot, cs, i + 1)
  {
    hide Resets;
    if KeptSince(slot, cs[1..], i) {
      forall j | i + 1 <= j < |cs|
        ensures !Resets(slot, cs[j])
      {
        assert cs[j] == cs[1..][j - 1];
      }
    }
  }

  lemma ForcedShift(slot: u32, cs: seq<(u32, Command)>)
    requires cs != []
    ensures (exists i :: 0 <= i < |cs| && Forces(slot, cs[i]) && KeptSince(slot, cs, i))
         <==> (|| (Forces(slot, cs[0]) && KeptSince(slot, cs, 0))
               || exists i :: 0 <= i < |cs[1..]| && Forces(slot, cs[1..][i]) && KeptSince(slot, cs[1..], i))
  {
    hide Forces, KeptSince;
    forall i | 0 <= i < |cs[1..]|
      ensures cs[1..][i] == cs[i + 1] && (KeptSince(slot, cs[1..], i) <==> KeptSince(slot, cs, i + 1))
    {
      KeptShift(slot, cs, i);
    }
    if i :| 0 <= i < |cs| && Forces(slot, cs[i]) && KeptSince(slot, cs, i) && i > 0 {
      assert Forces(slot, cs[1..][i - 1]) && KeptSince(slot, cs[1..], i - 1);
    }
    if i :| 0 <= i < |cs[1..]| && Forces(slot, cs[1..][i]) && KeptSince(slot, cs[1..], i) {
      assert Forces(slot, cs[i + 1]) && KeptSince(slot, cs, i + 1);
    }
  }

  // ---- An account from its registration on ----

  /** A registration that is accepted: its slot, and the row it starts as. */
  lemma RegistrationStarts(db: Db, draft: NewUserDraft, slot: u32)
    requires Integrity(db) && draft.salt.Some?
    requires forall s | s in db.users :: db.users[s].folded != Fold(draft.handle)
    requires (forall s | s in db.users :: s < slot) && (slot == 1 || slot - 1 in db.users)
    ensures Integrity(Register(db, draft).0) && slot in Register(db, draft).0.users
    ensures
      var u := Register(db, draft).0.users[slot];
      && !u.locked && !u.forceReset && u.handle == draft.handle && u.profile == draft.profile
      && u.timesCalled == 0 && u.messagesPosted == 0
  {
    hide Integrity, RebornMemberships, RebornPointers, Fold;
    RegisterKeepsIntegrity(db, draft);
  }

  /**
    From its registration on, whatever other sessions do, an account is locked exactly if some failed
    login since then locked it, and due a reset exactly if some login since its last password change
    said so.
   */
  lemma RegisteredAccountRuns(db: Db, draft: NewUserDraft, slot: u32, session: u32, cs: seq<(u32, Command)>)
    requires Integrity(db) && draft.salt.Some?
    requires forall s | s in db.users :: db.users[s].folded != Fold(draft.handle)
    requires (forall s | s in db.users :: s < slot) && (slot == 1 || slot - 1 in db.users)
    requires forall i | 0 <= i < |cs| :: !(cs[i].0 == slot && cs[i].1.Seed?)
    ensures
      var after := Run(db, [(session, NewUser(draft))] + cs);
      && slot in after.users
      && (after.users[slot].locked <==>
            exists i | 0 <= i < |cs| ::
              cs[i].0 == slot && cs[i].1.Auth? && cs[i].1.outcome.Mismatched? && cs[i].1.outcome.lockAccount)
      && (after.users[slot].forceReset <==>
            exists i | 0 <= i < |cs| ::
              && cs[i].0 == slot && cs[i].1.Auth? && cs[i].1.outcome.Matched? && cs[i].1.outcome.forceReset
              && forall j | i <= j < |cs| :: !(cs[j].0 == slot && cs[j].1.Password?))
  {
    RegistrationStarts(db, draft, slot);
    hide Integrity, Register, Fold;
    var next := Register(db, draft).0;
    RunAfterRegistration(db, draft, session, cs);
    assert forall i | 0 <= i < |cs| :: !Reseeds(slot, cs[i]);
    hide Exec, Run, Locks, Forces, KeptSince, Reseeds;
    LockedForGood(next, slot, cs);
    ResetClearedByPasswordOnly(next, slot, cs);
    LocksAndForces(slot, cs);
  }

  lemma RunAfterRegistration(db: Db, draft: NewUserDraft, session: u32, cs: seq<(u32, Command)>)
    ensures Run(db, [(session, NewUser(draft))] + cs) == Run(Register(db, draft).0, cs)
  {
    hide Register;
    var all := [(session, NewUser(draft))] + cs;
    assert all[1..] == cs && all[0] == (session, NewUser(draft));
  }

  lemma LocksAndForces(slot: u32, cs: seq<(u32, Command)>)
    ensures (exists i :: 0 <= i < |cs| && Locks(slot, cs[i])) <==>
      exists i | 0 <= i < |cs| ::
        cs[i].0 == slot && cs[i].1.Auth? && cs[i].1.outcome.Mismatched? && cs[i].1.outcome.lockAccount
    ensures (exists i :: 0 <= i < |cs| && Forces(slot, cs[i]) && KeptSince(slot, cs, i)) <==>
      exists i | 0 <= i < |cs| ::
        && cs[i].0 == slot && cs[i].1.Auth? && cs[i].1.outcome.Matched? && cs[i].1.outcome.forceReset
        && forall j | i <= j < |cs| :: !(cs[j].0 == slot && cs[j].1.Password?)
  {
    forall i | 0 <= i < |cs|
      ensures Locks(slot, cs[i]) <==>
        cs[i].0 == slot && cs[i].1.Auth? && cs[i].1.outcome.Mismatched? && cs[i].1.outcome.lockAccount
    {
    }
    forall i | 0 <= i < |cs|
      ensures KeptSince(slot, cs, i) <==> forall j | i <= j < |cs| :: !(cs[j].0 == slot && cs[j].1.Password?)
      ensures Forces(slot, cs[i]) <==>
        cs[i].0 == slot && cs[i].1.Auth? && cs[i].1.outcome.Matched? && cs[i].1.outcome.forceReset
    {
      if KeptSince(slot, cs, i) {
        assert forall j | i <= j < |cs| :: !Resets(slot, cs[j]);
      }
    }
  }
}
