/**
  The user database. Each table is a map from its primary key, and each statement a function from
  one database to the next, failing where a constraint of the schema would be broken.
 */
module SqliteUsers {
  import opened Basics

  // ---- Rows ----

  datatype Credentials = Credentials(hash: string, salt: Option<string>, updated: int)

  /** `profile` stands for the columns that no command writes. */
  datatype UserRow = UserRow(
    handle: string, folded: string, credentials: Credentials, forceReset: bool,
    invalidAttempts: nat, locked: bool,
    timesCalled: nat, timesCalledToday: nat, timeUsedToday: nat, messagesPosted: nat,
    lastCall: Option<int>, expert: bool, flags: set<nat>,
    joinedConference: Option<u32>, joinedMsgbase: Option<u32>, profile: string)

  datatype ScanFlags = ScanFlags(mailScan: bool, mailScanAll: bool, fileScan: bool, zoomScan: bool)
  datatype MembershipRow = MembershipRow(granted: bool, posted: nat, scan: ScanFlags)
  datatype PointerRow = PointerRow(lastRead: u32, lastScanned: u32, newSince: int)

  datatype MembershipKey = MembershipKey(slot: u32, conference: u32)
  datatype PointerKey = PointerKey(slot: u32, conference: u32, msgbase: u32)

  datatype Db = Db(
    users: map<u32, UserRow>,
    memberships: map<MembershipKey, MembershipRow>,
    pointers: map<PointerKey, PointerRow>)

  const EMPTY := Db(map[], map[], map[])
  const DEFAULT_SCAN := ScanFlags(true, false, true, false)

  datatype SqlError = UserNotFound | UniqueViolation | ForeignKeyViolation | CheckViolation
  datatype Result<+T> = Ok(value: T) | Err(error: SqlError)

  // ---- Commands ----

  datatype PointerPatch = PointerPatch(msgbase: u32, lastRead: u32, lastScanned: u32, newSince: int)
  datatype MembershipPatch = MembershipPatch(
    conference: u32, createIfMissing: bool, granted: Option<bool>, postedDelta: u32,
    scan: Option<ScanFlags>, pointers: seq<PointerPatch>)
  datatype UserPatch = UserPatch(
    timesCalled: u32, timesCalledToday: u32, timeUsedToday: nat, messagesPosted: u32,
    lastCall: Option<int>, expert: Option<bool>, flags: Option<set<nat>>,
    lastJoined: Option<(u32, u32)>, memberships: seq<MembershipPatch>)

  datatype Daily = NewDay | SameDay
  datatype AuthOutcome = Matched(daily: Option<Daily>, forceReset: bool) | Mismatched(lockAccount: bool)

  function OrElse<T>(o: Option<T>, default: T): T {
    if o.Some? then o.value else default
  }

  // ---- Statements ----

  function Later(stored: Option<int>, at: Option<int>): Option<int> {
    if at.None? then stored else if stored.None? then at else Some(Max(stored.value, at.value))
  }

  function BumpRow(row: UserRow, p: UserPatch): UserRow {
    row.(timesCalled := row.timesCalled + p.timesCalled,
         timesCalledToday := row.timesCalledToday + p.timesCalledToday,
         timeUsedToday := row.timeUsedToday + p.timeUsedToday,
         messagesPosted := row.messagesPosted + p.messagesPosted,
         lastCall := Later(row.lastCall, p.lastCall),
         expert := OrElse(p.expert, row.expert),
         flags := OrElse(p.flags, row.flags),
         joinedConference := if p.lastJoined.Some? then Some(p.lastJoined.value.0) else row.joinedConference,
         joinedMsgbase := if p.lastJoined.Some? then Some(p.lastJoined.value.1) else row.joinedMsgbase)
  }

  function MergeMembership(row: MembershipRow, m: MembershipPatch): MembershipRow {
    MembershipRow(OrElse(m.granted, row.granted), row.posted + m.postedDelta, OrElse(m.scan, row.scan))
  }

  /** An upsert when the patch may create the row, else an update that may match nothing. */
  function PatchMembershipRow(db: Db, slot: u32, m: MembershipPatch): Result<Db> {
    var key := MembershipKey(slot, m.conference);
    if key in db.memberships then
      Ok(db.(memberships := db.memberships[key := MergeMembership(db.memberships[key], m)]))
    else if !m.createIfMissing then
      Ok(db)
    else if slot !in db.users then
      Err(ForeignKeyViolation)
    else
      Ok(db.(memberships := db.memberships[key := MergeMembership(MembershipRow(true, 0, DEFAULT_SCAN), m)]))
  }

  /** The proposed row is checked before the conflict is looked at. */
  function UpsertPointer(db: Db, slot: u32, conference: u32, p: PointerPatch): Result<Db> {
    var key := PointerKey(slot, conference, p.msgbase);
    if p.lastRead > p.lastScanned then
      Err(CheckViolation)
    else if key in db.pointers then
      var stored := db.pointers[key];
      Ok(db.(pointers := db.pointers[key :=
        PointerRow(Max(stored.lastRead, p.lastRead), Max(stored.lastScanned, p.lastScanned), stored.newSince)]))
    else if MembershipKey(slot, conference) !in db.memberships then
      Err(ForeignKeyViolation)
    else
      Ok(db.(pointers := db.pointers[key := PointerRow(p.lastRead, p.lastScanned, p.newSince)]))
  }

  function UpsertPointers(db: Db, slot: u32, conference: u32, ps: seq<PointerPatch>): Result<Db>
    decreases |ps|
  {
    if ps == [] then Ok(db)
    else
      match UpsertPointer(db, slot, conference, ps[0])
      case Err(e) => Err(e)
      case Ok(next) => UpsertPointers(next, slot, conference, ps[1..])
  }

  function PatchMembership(db: Db, slot: u32, m: MembershipPatch): Result<Db> {
    match PatchMembershipRow(db, slot, m)
    case Err(e) => Err(e)
    case Ok(next) => UpsertPointers(next, slot, m.conference, m.pointers)
  }

  function PatchMemberships(db: Db, slot: u32, ms: seq<MembershipPatch>): Result<Db>
    decreases |ms|
  {
    if ms == [] then Ok(db)
    else
      match PatchMembership(db, slot, ms[0])
      case Err(e) => Err(e)
      case Ok(next) => PatchMemberships(next, slot, ms[1..])
  }

  /** The whole transaction: the counters first, then each membership in order. */
  function ApplyPatch(db: Db, slot: u32, p: UserPatch): Result<Db> {
    if slot !in db.users then Err(UserNotFound)
    else PatchMemberships(db.(users := db.users[slot := BumpRow(db.users[slot], p)]), slot, p.memberships)
  }

  function AuthRow(row: UserRow, outcome: AuthOutcome): UserRow {
    match outcome
    case Matched(daily, forceReset) =>
      var today := match daily
                   case None => row
                   case Some(NewDay) => row.(timesCalledToday := 0, timeUsedToday := 0)
                   case Some(SameDay) => row.(timesCalledToday := row.timesCalledToday + 1);
      today.(invalidAttempts := 0, forceReset := row.forceReset || forceReset)
    case Mismatched(lock) =>
      row.(invalidAttempts := row.invalidAttempts + 1, locked := row.locked || lock)
  }

  function RecordAuth(db: Db, slot: u32, outcome: AuthOutcome): Result<Db> {
    if slot !in db.users then Err(UserNotFound)
    else Ok(db.(users := db.users[slot := AuthRow(db.users[slot], outcome)]))
  }

  function ChangePassword(db: Db, slot: u32, change: Credentials): Result<Db> {
    if slot !in db.users then Err(UserNotFound)
    else Ok(db.(users := db.users[slot := db.users[slot].(credentials := change, forceReset := false)]))
  }

  // ---- What the statements write, column by column ----

  /** One membership patch on its own row: what is granted, counted and flagged; no other row changes. */
  lemma MembershipRowWritten(db: Db, slot: u32, m: MembershipPatch)
    ensures
      var r, key := PatchMembershipRow(db, slot, m), MembershipKey(slot, m.conference);
      && (r.Err? <==> key !in db.memberships && m.createIfMissing && slot !in db.users)
      && (r.Err? ==> r.error == ForeignKeyViolation)
      && (r.Ok? ==>
        && r.value.users == db.users && r.value.pointers == db.pointers
        && (key in r.value.memberships <==> key in db.memberships || m.createIfMissing)
        && (forall k | k != key :: k in r.value.memberships <==> k in db.memberships)
        && (forall k | k != key && k in db.memberships :: r.value.memberships[k] == db.memberships[k])
        && (key in r.value.memberships ==>
          var now := r.value.memberships[key];
          && (m.granted.Some? ==> now.granted == m.granted.value)
          && (m.scan.Some? ==> now.scan == m.scan.value)
          && (if key in db.memberships then
                && now.posted == db.memberships[key].posted + m.postedDelta
                && (m.granted.None? ==> now.granted == db.memberships[key].granted)
                && (m.scan.None? ==> now.scan == db.memberships[key].scan)
              else
                && now.posted == m.postedDelta
                && (m.granted.None? ==> now.granted)
                && (m.scan.None? ==>
                     now.scan.mailScan && !now.scan.mailScanAll && now.scan.fileScan && !now.scan.zoomScan))))
  {
  }

  /** When a list of pointer patches is refused, and that it writes pointers only. */
  lemma {:induction false} PointersAccepted(db: Db, slot: u32, conference: u32, ps: seq<PointerPatch>)
    ensures UpsertPointers(db, slot, conference, ps).Ok? <==>
      forall i | 0 <= i < |ps| ::
        && ps[i].lastRead <= ps[i].lastScanned
        && (|| PointerKey(slot, conference, ps[i].msgbase) in db.pointers
            || MembershipKey(slot, conference) in db.memberships)
    ensures UpsertPointers(db, slot, conference, ps).Ok? ==>
      && UpsertPointers(db, slot, conference, ps).value.users == db.users
      && UpsertPointers(db, slot, conference, ps).value.memberships == db.memberships
    decreases |ps|
  {
    if ps != [] {
      var r := UpsertPointer(db, slot, conference, ps[0]);
      if r.Ok? {
        PointersAccepted(r.value, slot, conference, ps[1..]);
        assert forall i | 0 < i < |ps| :: ps[i] == ps[1..][i - 1];
        assert forall i | 0 <= i < |ps| - 1 :: ps[1..][i] == ps[i + 1];
      }
    }
  }

  lemma PointerWritten(db: Db, slot: u32, conference: u32, p: PointerPatch, k: PointerKey)
    requires UpsertPointer(db, slot, conference, p).Ok?
    ensures
      var after, own := UpsertPointer(db, slot, conference, p).value, k == PointerKey(slot, conference, p.msgbase);
      && (k in after.pointers <==> k in db.pointers || own)
      && (!own && k in db.pointers ==> after.pointers[k] == db.pointers[k])
      && (own && k in db.pointers ==>
            && after.pointers[k].lastRead == Max(db.pointers[k].lastRead, p.lastRead)
            && after.pointers[k].lastScanned == Max(db.pointers[k].lastScanned, p.lastScanned)
            && after.pointers[k].newSince == db.pointers[k].newSince)
      && (own && k !in db.pointers ==> after.pointers[k] == PointerRow(p.lastRead, p.lastScanned, p.newSince))
  {
  }

  /** The patches of a list that are about pointer `k`. */
  function Mine(k: PointerKey, slot: u32, conference: u32, ps: seq<PointerPatch>): set<int> {
    set i | 0 <= i < |ps| && k == PointerKey(slot, conference, ps[i].msgbase)
  }

  lemma MineFront(k: PointerKey, slot: u32, conference: u32, ps: seq<PointerPatch>)
    requires ps != []
    ensures 0 in Mine(k, slot, conference, ps) <==> k == PointerKey(slot, conference, ps[0].msgbase)
    ensures forall i | i in Mine(k, slot, conference, ps[1..]) ::
      i + 1 in Mine(k, slot, conference, ps) && ps[i + 1] == ps[1..][i]
    ensures forall i | i in Mine(k, slot, conference, ps) ::
      i == 0 || (i - 1 in Mine(k, slot, conference, ps[1..]) && ps[i] == ps[1..][i - 1])
  {
  }

  lemma {:induction false} ReadMarkWritten(db: Db, slot: u32, conference: u32, ps: seq<PointerPatch>, k: PointerKey)
    requires UpsertPointers(db, slot, conference, ps).Ok?
    ensures
      var after, mine := UpsertPointers(db, slot, conference, ps).value, Mine(k, slot, conference, ps);
      && (k in after.pointers <==> k in db.pointers || mine != {})
      && (forall i | i in mine :: after.pointers[k].lastRead >= ps[i].lastRead)
      && (k in db.pointers ==> after.pointers[k].lastRead >= db.pointers[k].lastRead)
      && (k in after.pointers ==>
            || (k in db.pointers && after.pointers[k].lastRead == db.pointers[k].lastRead)
            || exists i | i in mine :: after.pointers[k].lastRead == ps[i].lastRead)
    decreases |ps|
  {
    if ps != [] {
      var next, rest := UpsertPointer(db, slot, conference, ps[0]).value, ps[1..];
      assert UpsertPointers(db, slot, conference, ps) == UpsertPointers(next, slot, conference, rest);
      PointerWritten(db, slot, conference, ps[0], k);
      MineFront(k, slot, conference, ps);
      hide UpsertPointers, UpsertPointer, Mine;
      ReadMarkWritten(next, slot, conference, rest, k);
      var after, others := UpsertPointers(next, slot, conference, rest).value, Mine(k, slot, conference, rest);
      if i :| i in others && after.pointers[k].lastRead == rest[i].lastRead {
        assert i + 1 in Mine(k, slot, conference, ps);
      }
    }
  }

  lemma {:induction false} ScanMarkWritten(db: Db, slot: u32, conference: u32, ps: seq<PointerPatch>, k: PointerKey)
    requires UpsertPointers(db, slot, conference, ps).Ok?
    ensures
      var after, mine := UpsertPointers(db, slot, conference, ps).value, Mine(k, slot, conference, ps);
      && (k in after.pointers <==> k in db.pointers || mine != {})
      && (forall i | i in mine :: after.pointers[k].lastScanned >= ps[i].lastScanned)
      && (k in db.pointers ==> after.pointers[k].lastScanned >= db.pointers[k].lastScanned)
      && (k in after.pointers ==>
            || (k in db.pointers && after.pointers[k].lastScanned == db.pointers[k].lastScanned)
            || exists i | i in mine :: after.pointers[k].lastScanned == ps[i].lastScanned)
    decreases |ps|
  {
    if ps != [] {
      var next, rest := UpsertPointer(db, slot, conference, ps[0]).value, ps[1..];
      assert UpsertPointers(db, slot, conference, ps) == UpsertPointers(next, slot, conference, rest);
      PointerWritten(db, slot, conference, ps[0], k);
      MineFront(k, slot, conference, ps);
      hide UpsertPointers, UpsertPointer, Mine;
      ScanMarkWritten(next, slot, conference, rest, k);
      var after, others := UpsertPointers(next, slot, conference, rest).value, Mine(k, slot, conference, rest);
      if i :| i in others && after.pointers[k].lastScanned == rest[i].lastScanned {
        assert i + 1 in Mine(k, slot, conference, ps);
      }
    }
  }

  lemma {:induction false} DateWritten(db: Db, slot: u32, conference: u32, ps: seq<PointerPatch>, k: PointerKey)
    requires UpsertPointers(db, slot, conference, ps).Ok?
    ensures
      var after, mine := UpsertPointers(db, slot, conference, ps).value, Mine(k, slot, conference, ps);
      && (k in after.pointers <==> k in db.pointers || mine != {})
      && (mine == {} && k in db.pointers ==> after.pointers[k] == db.pointers[k])
      && (k in db.pointers ==> after.pointers[k].newSince == db.pointers[k].newSince)
      && (k in after.pointers && k !in db.pointers ==>
            exists i | i in mine :: after.pointers[k].newSince == ps[i].newSince && forall j | j in mine :: i <= j)
    decreases |ps|
  {
    if ps != [] {
      var next, rest := UpsertPointer(db, slot, conference, ps[0]).value, ps[1..];
      assert UpsertPointers(db, slot, conference, ps) == UpsertPointers(next, slot, conference, rest);
      PointerWritten(db, slot, conference, ps[0], k);
      MineFront(k, slot, conference, ps);
      assert forall i | i in Mine(k, slot, conference, ps) :: 0 <= i;
      hide UpsertPointers, UpsertPointer, Mine;
      DateWritten(next, slot, conference, rest, k);
      var after, others := UpsertPointers(next, slot, conference, rest).value, Mine(k, slot, conference, rest);
      if k !in next.pointers && k in after.pointers {
        var i :| i in others && after.pointers[k].newSince == rest[i].newSince && forall j | j in others :: i <= j;
        assert i + 1 in Mine(k, slot, conference, ps);
      }
    }
  }

  /**
    What a list of pointer patches does to a pointer: its marks become the highest of what was
    stored and what its patches say, its new-mail date stays or is that of its first patch, and a
    pointer that no patch names is as it was.
   */
  lemma PointersWritten(db: Db, slot: u32, conference: u32, ps: seq<PointerPatch>, k: PointerKey)
    requires UpsertPointers(db, slot, conference, ps).Ok?
    ensures
      var after := UpsertPointers(db, slot, conference, ps).value;
      var mine := set i | 0 <= i < |ps| && k == PointerKey(slot, conference, ps[i].msgbase);
      && (k in after.pointers <==> k in db.pointers || mine != {})
      && (mine == {} && k in db.pointers ==> after.pointers[k] == db.pointers[k])
      && (forall i | i in mine ::
            after.pointers[k].lastRead >= ps[i].lastRead && after.pointers[k].lastScanned >= ps[i].lastScanned)
      && (k in db.pointers ==>
            && after.pointers[k].lastRead >= db.pointers[k].lastRead
            && after.pointers[k].lastScanned >= db.pointers[k].lastScanned
            && after.pointers[k].newSince == db.pointers[k].newSince)
      && (k in after.pointers ==>
            && (|| (k in db.pointers && after.pointers[k].lastRead == db.pointers[k].lastRead)
                || exists i | i in mine :: after.pointers[k].lastRead == ps[i].lastRead)
            && (|| (k in db.pointers && after.pointers[k].lastScanned == db.pointers[k].lastScanned)
                || exists i | i in mine :: after.pointers[k].lastScanned == ps[i].lastScanned)
            && (|| k in db.pointers
                || exists i | i in mine ::
                     after.pointers[k].newSince == ps[i].newSince && forall j | j in mine :: i <= j))
  {
    ReadMarkWritten(db, slot, conference, ps, k);
    ScanMarkWritten(db, slot, conference, ps, k);
    DateWritten(db, slot, conference, ps, k);
    hide UpsertPointers;
    assert Mine(k, slot, conference, ps) == set i | 0 <= i < |ps| && k == PointerKey(slot, conference, ps[i].msgbase);
  }

  /**
    Membership patches run one after the other up to the first that fails: each its row first and
    its pointers then.
   */
  lemma {:induction false} MembershipsInOrder(db: Db, slot: u32, ms: seq<MembershipPatch>, more: seq<MembershipPatch>)
    ensures PatchMemberships(db, slot, []) == Ok(db)
    ensures
      var first := PatchMemberships(db, slot, ms);
      PatchMemberships(db, slot, ms + more)
      == if first.Err? then first else PatchMemberships(first.value, slot, more)
    ensures |ms| == 1 ==>
      var row := PatchMembershipRow(db, slot, ms[0]);
      PatchMemberships(db, slot, ms)
      == if row.Err? then row else UpsertPointers(row.value, slot, ms[0].conference, ms[0].pointers)
    ensures PatchMemberships(db, slot, ms).Ok? ==> PatchMemberships(db, slot, ms).value.users == db.users
    decreases |ms|
  {
    hide PatchMembershipRow, UpsertPointers;
    if ms == [] {
      assert ms + more == more;
    } else {
      var row := PatchMembershipRow(db, slot, ms[0]);
      MembershipRowWritten(db, slot, ms[0]);
      if row.Ok? { PointersAccepted(row.value, slot, ms[0].conference, ms[0].pointers); }
      var r := PatchMembership(db, slot, ms[0]);
      assert (ms + more)[1..] == ms[1..] + more && (ms + more)[0] == ms[0];
      if r.Ok? { MembershipsInOrder(r.value, slot, ms[1..], more); }
    }
  }

  /** Only a missing row is reported as such. */
  lemma {:induction false} NoRowIsMissing(db: Db, slot: u32, ms: seq<MembershipPatch>)
    ensures PatchMemberships(db, slot, ms).Err? ==> PatchMemberships(db, slot, ms).error != UserNotFound
    decreases |ms|
  {
    hide UpsertPointers;
    if ms != [] {
      var row := PatchMembershipRow(db, slot, ms[0]);
      if row.Ok? { PointersRefused(row.value, slot, ms[0].conference, ms[0].pointers); }
      var r := PatchMembership(db, slot, ms[0]);
      if r.Ok? { NoRowIsMissing(r.value, slot, ms[1..]); }
    }
  }

  /** The first pointer patch that cannot be written is the one refused: for its marks, or for lack of a row. */
  lemma {:induction false} PointersRefused(db: Db, slot: u32, conference: u32, ps: seq<PointerPatch>)
    ensures UpsertPointers(db, slot, conference, ps).Err? ==>
      exists i | 0 <= i < |ps| ::
        && UpsertPointers(db, slot, conference, ps[..i]).Ok?
        && UpsertPointers(db, slot, conference, ps).error
           == if ps[i].lastRead > ps[i].lastScanned then CheckViolation else ForeignKeyViolation
    decreases |ps|
  {
    if ps != [] {
      var r := UpsertPointer(db, slot, conference, ps[0]);
      if r.Ok? {
        PointersRefused(r.value, slot, conference, ps[1..]);
        if UpsertPointers(r.value, slot, conference, ps[1..]).Err? {
          var i :| 0 <= i < |ps[1..]| && UpsertPointers(r.value, slot, conference, ps[1..][..i]).Ok?
            && UpsertPointers(r.value, slot, conference, ps[1..]).error
               == if ps[1..][i].lastRead > ps[1..][i].lastScanned then CheckViolation else ForeignKeyViolation;
          assert ps[..i + 1][1..] == ps[1..][..i] && ps[..i + 1][0] == ps[0];
          assert ps[i + 1] == ps[1..][i];
        }
      } else {
        assert UpsertPointers(db, slot, conference, ps[..0]).Ok?;
      }
    }
  }

  // ---- Whole users ----

  datatype Membership = Membership(row: MembershipRow, pointers: map<u32, PointerRow>)

  /** A user as the domain sees it, with its memberships by conference and pointers by message base. */
  datatype Snapshot = Snapshot(user: UserRow, memberships: map<u32, Membership>)

  function RebornMemberships(db: Db, slot: u32, s: Snapshot): map<MembershipKey, MembershipRow> {
    (map k | k in db.memberships && k.slot != slot :: db.memberships[k])
    + (map c | c in s.memberships :: MembershipKey(slot, c) := s.memberships[c].row)
  }

  function RebornPointers(db: Db, slot: u32, s: Snapshot): map<PointerKey, PointerRow> {
    (map k | k in db.pointers && k.slot != slot :: db.pointers[k])
    + (map c, b | c in s.memberships && b in s.memberships[c].pointers ::
         PointerKey(slot, c, b) := s.memberships[c].pointers[b])
  }

  /** The full-row write of a new or seeded user: its membership and pointer rows replaced from scratch. */
  function UpsertUser(db: Db, slot: u32, s: Snapshot): Result<Db> {
    if s.user.joinedConference.None? != s.user.joinedMsgbase.None? then
      Err(CheckViolation)
    else if exists other | other in db.users :: other != slot && db.users[other].folded == s.user.folded then
      Err(UniqueViolation)
    else if exists c, b | c in s.memberships && b in s.memberships[c].pointers ::
      s.memberships[c].pointers[b].lastRead > s.memberships[c].pointers[b].lastScanned then
      Err(CheckViolation)
    else
      Ok(Db(db.users[slot := s.user], RebornMemberships(db, slot, s), RebornPointers(db, slot, s)))
  }

  ghost predicate HandlesUnique(users: map<u32, UserRow>) {
    forall s, t | s in users && t in users && users[s].folded == users[t].folded :: s == t
  }

  predicate InOrder(ps: map<u32, PointerRow>) {
    forall b | b in ps :: ps[b].lastRead <= ps[b].lastScanned
  }

  /** Why a whole-user write is refused, if it is: the first constraint that its statements meet and break. */
  function SeedRefused(db: Db, slot: u32, s: Snapshot): Option<SqlError> {
    if s.user.joinedConference.None? != s.user.joinedMsgbase.None? then Some(CheckViolation)
    else if exists other | other in db.users :: other != slot && db.users[other].folded == s.user.folded then
      Some(UniqueViolation)
    else if !AllInOrder(s) then Some(CheckViolation)
    else None
  }

  predicate AllInOrder(s: Snapshot) {
    forall c | c in s.memberships :: InOrder(s.memberships[c].pointers)
  }

  lemma RefusalIsError(db: Db, slot: u32, s: Snapshot)
    ensures
      UpsertUser(db, slot, s)
      == match SeedRefused(db, slot, s)
         case Some(e) => Err(e)
         case None => Ok(Db(db.users[slot := s.user], RebornMemberships(db, slot, s), RebornPointers(db, slot, s)))
  {
    hide RebornMemberships, RebornPointers;
  }

  function Only(s: Snapshot, cs: set<u32>): Snapshot {
    s.(memberships := map c | c in s.memberships && c in cs :: s.memberships[c])
  }

  lemma OnlyAll(s: Snapshot)
    ensures Only(s, s.memberships.Keys) == s
  {
  }

  function PointerRows(k: MembershipKey, ps: map<u32, PointerRow>): map<PointerKey, PointerRow> {
    map b | b in ps :: PointerKey(k.slot, k.conference, b) := ps[b]
  }

  lemma RebornMembership(db: Db, slot: u32, s: Snapshot, k: MembershipKey)
    ensures k in RebornMemberships(db, slot, s)
       <==> if k.slot == slot then k.conference in s.memberships else k in db.memberships
    ensures k in RebornMemberships(db, slot, s) ==>
      RebornMemberships(db, slot, s)[k] == if k.slot == slot then s.memberships[k.conference].row else db.memberships[k]
  {
  }

  lemma RebornPointer(db: Db, slot: u32, s: Snapshot, k: PointerKey)
    ensures k in RebornPointers(db, slot, s)
       <==> if k.slot == slot then k.conference in s.memberships && k.msgbase in s.memberships[k.conference].pointers
            else k in db.pointers
    ensures k in RebornPointers(db, slot, s) ==>
      RebornPointers(db, slot, s)[k]
      == if k.slot == slot then s.memberships[k.conference].pointers[k.msgbase] else db.pointers[k]
  {
  }

  lemma NothingReborn(db: Db, slot: u32, s: Snapshot)
    ensures RebornMemberships(db, slot, Only(s, {}))
         == (map k | k in db.memberships && k.slot != slot :: db.memberships[k])
    ensures RebornPointers(db, slot, Only(s, {})) == (map k | k in db.pointers && k.slot != slot :: db.pointers[k])
  {
    hide RebornMemberships, RebornPointers;
    var none := Only(s, {});
    forall k: MembershipKey
      ensures k in RebornMemberships(db, slot, none) <==> k in db.memberships && k.slot != slot
      ensures k in RebornMemberships(db, slot, none) ==> RebornMemberships(db, slot, none)[k] == db.memberships[k]
    {
      RebornMembership(db, slot, none, k);
    }
    forall k: PointerKey
      ensures k in RebornPointers(db, slot, none) <==> k in db.pointers && k.slot != slot
      ensures k in RebornPointers(db, slot, none) ==> RebornPointers(db, slot, none)[k] == db.pointers[k]
    {
      RebornPointer(db, slot, none, k);
    }
  }

  lemma OneMoreMembership(db: Db, slot: u32, s: Snapshot, done: set<u32>, c: u32)
    requires c in s.memberships && c !in done
    ensures RebornMemberships(db, slot, Only(s, done + {c}))
         == RebornMemberships(db, slot, Only(s, done))[MembershipKey(slot, c) := s.memberships[c].row]
  {
    hide RebornMemberships;
    forall k: MembershipKey
      ensures
        var more := RebornMemberships(db, slot, Only(s, done + {c}));
        var before := RebornMemberships(db, slot, Only(s, done));
        && (k in more <==> k in before || k == MembershipKey(slot, c))
        && (k in more ==> more[k] == if k == MembershipKey(slot, c) then s.memberships[c].row else before[k])
    {
      RebornMembership(db, slot, Only(s, done + {c}), k);
      RebornMembership(db, slot, Only(s, done), k);
    }
  }

  lemma OneMorePointers(db: Db, slot: u32, s: Snapshot, done: set<u32>, c: u32)
    requires c in s.memberships && c !in done
    ensures RebornPointers(db, slot, Only(s, done + {c}))
         == RebornPointers(db, slot, Only(s, done)) + PointerRows(MembershipKey(slot, c), s.memberships[c].pointers)
  {
    hide RebornPointers;
    var rows := PointerRows(MembershipKey(slot, c), s.memberships[c].pointers);
    forall k: PointerKey
      ensures
        var more, before := RebornPointers(db, slot, Only(s, done + {c})), RebornPointers(db, slot, Only(s, done));
        && (k in more <==> k in before || k in rows)
        && (k in more ==> more[k] == if k in rows then rows[k] else before[k])
    {
      RebornPointer(db, slot, Only(s, done + {c}), k);
      RebornPointer(db, slot, Only(s, done), k);
    }
  }

  /** The pointers whose rows are written once those of `left` are still to come. */
  function Without(ps: map<u32, PointerRow>, left: set<u32>): map<u32, PointerRow> {
    map b | b in ps && b !in left :: ps[b]
  }

  lemma NoRows(k: MembershipKey, ps: map<u32, PointerRow>)
    ensures PointerRows(k, Without(ps, ps.Keys)) == map[]
  {
  }

  lemma OneMoreRow(k: MembershipKey, ps: map<u32, PointerRow>, left: set<u32>, b: u32)
    requires b in left && b in ps
    ensures PointerRows(k, Without(ps, left - {b}))
         == PointerRows(k, Without(ps, left))[PointerKey(k.slot, k.conference, b) := ps[b]]
  {
    assert Without(ps, left - {b}) == Without(ps, left)[b := ps[b]];
  }

  ghost predicate PointersMatch(db: Db, k: MembershipKey, ps: map<u32, PointerRow>) {
    forall b: u32 ::
      && (b in ps <==> PointerKey(k.slot, k.conference, b) in db.pointers)
      && (b in ps ==> ps[b] == db.pointers[PointerKey(k.slot, k.conference, b)])
  }

  ghost predicate MembershipMatches(db: Db, slot: u32, ms: map<u32, Membership>, c: u32) {
    var k := MembershipKey(slot, c);
    && (c in ms <==> k in db.memberships)
    && (c in ms ==> ms[c].row == db.memberships[k] && PointersMatch(db, k, ms[c].pointers))
  }

  /** The rows of `slot` are the memberships `ms`. */
  ghost predicate Matches(db: Db, slot: u32, ms: map<u32, Membership>) {
    forall c: u32 :: MembershipMatches(db, slot, ms, c)
  }

  ghost predicate NoStrayPointers(db: Db, slot: u32) {
    forall k | k in db.pointers && k.slot == slot :: MembershipKey(slot, k.conference) in db.memberships
  }

  /** The membership and pointer rows of `t` are in both databases, alike. */
  ghost predicate SameRows(db: Db, after: Db, t: u32) {
    && (forall c: u32 :: var k := MembershipKey(t, c);
          && (k in db.memberships <==> k in after.memberships)
          && (k in db.memberships ==> after.memberships[k] == db.memberships[k]))
    && (forall c: u32, b: u32 :: var k := PointerKey(t, c, b);
          (k in db.pointers <==> k in after.pointers) && (k in db.pointers ==> after.pointers[k] == db.pointers[k]))
  }

  lemma RebornTouchesOne(db: Db, slot: u32, s: Snapshot, t: u32)
    requires t != slot
    ensures SameRows(db, Db(db.users[slot := s.user], RebornMemberships(db, slot, s), RebornPointers(db, slot, s)), t)
  {
  }

  /** After a whole-user write the rows of the slot are the snapshot's, and all others as before. */
  lemma RebornRows(db: Db, slot: u32, s: Snapshot)
    ensures
      var after := Db(db.users[slot := s.user], RebornMemberships(db, slot, s), RebornPointers(db, slot, s));
      && Matches(after, slot, s.memberships) && NoStrayPointers(after, slot)
      && forall t | t != slot :: SameRows(db, after, t)
  {
    hide RebornMemberships, RebornPointers, SameRows;
    var after := Db(db.users[slot := s.user], RebornMemberships(db, slot, s), RebornPointers(db, slot, s));
    forall k: MembershipKey
      ensures k in after.memberships && k.slot == slot <==> k.slot == slot && k.conference in s.memberships
      ensures k.slot == slot && k in after.memberships ==> after.memberships[k] == s.memberships[k.conference].row
    {
      RebornMembership(db, slot, s, k);
    }
    forall k: PointerKey
      ensures k.slot == slot ==>
        && (k in after.pointers <==> k.conference in s.memberships && k.msgbase in s.memberships[k.conference].pointers)
        && (k in after.pointers ==> after.pointers[k] == s.memberships[k.conference].pointers[k.msgbase])
    {
      RebornPointer(db, slot, s, k);
    }
    forall c: u32
      ensures MembershipMatches(after, slot, s.memberships, c)
    {
      assert MembershipKey(slot, c).conference == c;
      forall b: u32 | c in s.memberships
        ensures PointerKey(slot, c, b) in after.pointers <==> b in s.memberships[c].pointers
        ensures PointerKey(slot, c, b) in after.pointers ==>
          after.pointers[PointerKey(slot, c, b)] == s.memberships[c].pointers[b]
      {
      }
    }
    forall t | t != slot
      ensures SameRows(db, after, t)
    {
      RebornTouchesOne(db, slot, s, t);
    }
  }

  /** The rows a load of `slot` reads. */
  function View(db: Db, slot: u32): Snapshot
    requires slot in db.users
  {
    Snapshot(db.users[slot],
             map k | k in db.memberships && k.slot == slot ::
               k.conference := Membership(db.memberships[k], PointersOf(db, k)))
  }

  function PointersOf(db: Db, m: MembershipKey): map<u32, PointerRow> {
    map k | k in db.pointers && k.slot == m.slot && k.conference == m.conference :: k.msgbase := db.pointers[k]
  }

  /** What the domain types demand of a stored row: 32-bit counters, a salt, ordered pointers. */
  predicate Readable(s: Snapshot) {
    && s.user.credentials.salt.Some?
    && CountersFit(s.user)
    && forall c | c in s.memberships :: MembershipFits(s.memberships[c])
  }

  predicate CountersFit(row: UserRow) {
    && row.invalidAttempts <= U32_MAX && row.timesCalled <= U32_MAX
    && row.timesCalledToday <= U32_MAX && row.messagesPosted <= U32_MAX
  }

  predicate MembershipFits(m: Membership) {
    m.row.posted <= U32_MAX && forall b | b in m.pointers :: m.pointers[b].lastRead <= m.pointers[b].lastScanned
  }

  datatype Lookup = Missing | Unreadable | Found(user: Snapshot)

  function LoadUser(db: Db, slot: u32): Lookup {
    if slot !in db.users then Missing
    else if !Readable(View(db, slot)) then Unreadable
    else Found(View(db, slot))
  }

  /** A user is found exactly if it has a salt and each of its columns fits the domain's types. */
  lemma LoadedIffFits(db: Db, slot: u32)
    ensures LoadUser(db, slot) == Missing <==> slot !in db.users
    ensures LoadUser(db, slot).Found? <==>
      && slot in db.users
      && var u := db.users[slot];
         && u.credentials.salt.Some? && u.invalidAttempts <= 4294967295 && u.timesCalled <= 4294967295
         && u.timesCalledToday <= 4294967295 && u.messagesPosted <= 4294967295
         && (forall k | k in db.memberships && k.slot == slot :: db.memberships[k].posted <= 4294967295)
         && (forall k | k in db.pointers && k.slot == slot && MembershipKey(slot, k.conference) in db.memberships ::
              db.pointers[k].lastRead <= db.pointers[k].lastScanned)
    ensures LoadUser(db, slot).Found? ==>
      var found := LoadUser(db, slot).user;
      && found.user == db.users[slot]
      && (forall c: u32 :: c in found.memberships <==> MembershipKey(slot, c) in db.memberships)
      && (forall c: u32 | c in found.memberships ::
            found.memberships[c].row == db.memberships[MembershipKey(slot, c)])
      && (forall c: u32, b: u32 | c in found.memberships ::
            b in found.memberships[c].pointers <==> PointerKey(slot, c, b) in db.pointers)
      && (forall c: u32, b: u32 | c in found.memberships && b in found.memberships[c].pointers ::
            found.memberships[c].pointers[b] == db.pointers[PointerKey(slot, c, b)])
  {
    if slot in db.users {
      var view := View(db, slot);
      forall c: u32
        ensures c in view.memberships <==> MembershipKey(slot, c) in db.memberships
      {
        var k := MembershipKey(slot, c);
        assert k.slot == slot && k.conference == c;
      }
      forall c: u32, b: u32 | c in view.memberships
        ensures b in view.memberships[c].pointers <==> PointerKey(slot, c, b) in db.pointers
      {
        var k := PointerKey(slot, c, b);
        assert k.slot == slot && k.conference == c && k.msgbase == b;
      }
      hide View, PointersOf;
      if Readable(view) {
        forall k | k in db.pointers && k.slot == slot && MembershipKey(slot, k.conference) in db.memberships
          ensures db.pointers[k].lastRead <= db.pointers[k].lastScanned
        {
          assert k.conference in view.memberships && MembershipFits(view.memberships[k.conference]);
          assert PointerKey(slot, k.conference, k.msgbase) == k;
          assert k.msgbase in view.memberships[k.conference].pointers;
        }
      }
    }
  }

  // ---- Handles, lookup and registration ----

  function ToAsciiLower(c: char): char {
    if 'A' <= c <= 'Z' then c - 'A' + 'a' else c
  }

  function Fold(s: string): (folded: string)
    ensures |folded| == |s|
    ensures forall i | 0 <= i < |s| :: folded[i] == if 'A' <= s[i] <= 'Z' then (s[i] as int + 32) as char else s[i]
  {
    if s == "" then "" else [ToAsciiLower(s[0])] + Fold(s[1..])
  }

  datatype NewUserDraft = NewUserDraft(
    handle: string, hash: string, salt: Option<string>, flags: set<nat>, profile: string, now: int)

  /** A new account, or `None` when its password hash has no salt. */
  function RegisterNew(draft: NewUserDraft): Option<Snapshot> {
    if draft.salt.None? then None
    else Some(Snapshot(
      UserRow(draft.handle, Fold(draft.handle), Credentials(draft.hash, draft.salt, draft.now), false, 0, false,
              0, 0, 0, 0, Some(draft.now), false, draft.flags, None, None, draft.profile),
      map[]))
  }

  lemma HasMax(slots: set<u32>)
    requires slots != {}
    ensures exists m :: m in slots && forall s | s in slots :: s <= m
  {
    var x :| x in slots;
    if slots != {x} {
      var rest := slots - {x};
      HasMax(rest);
      var m :| m in rest && forall s | s in rest :: s <= m;
      var top := Max(m, x);
      assert top in slots;
      forall s | s in slots
        ensures s <= top
      {
        assert s == x || s in rest;
      }
    }
  }

  /** One above the highest slot in use, or 1. */
  ghost function NextSlot(slots: set<u32>): (next: nat)
    ensures forall s | s in slots :: s < next
    ensures if slots == {} then next == 1 else next - 1 in slots
  {
    if slots == {} then 1
    else
      HasMax(slots);
      var m :| m in slots && forall s | s in slots :: s <= m;
      m + 1
  }

  datatype Created = Registered(slot: u32, user: Snapshot) | Duplicate | SaltRequired | OutOfSlots

  ghost function Register(db: Db, draft: NewUserDraft): (Db, Created) {
    var next := NextSlot(db.users.Keys);
    if exists s | s in db.users :: db.users[s].folded == Fold(draft.handle) then (db, Duplicate)
    else if next > U32_MAX then (db, OutOfSlots)
    else
      match RegisterNew(draft)
      case None => (db, SaltRequired)
      case Some(user) =>
        var slot: u32 := next;
        (Db(db.users[slot := user.user], RebornMemberships(db, slot, user), RebornPointers(db, slot, user)),
         Registered(slot, user))
  }

  lemma RegistrationUpserts(db: Db, slot: u32, draft: NewUserDraft)
    requires forall s | s in db.users :: db.users[s].folded != Fold(draft.handle)
    ensures
      match RegisterNew(draft)
      case None => true
      case Some(user) =>
        UpsertUser(db, slot, user)
        == Ok(Db(db.users[slot := user.user], RebornMemberships(db, slot, user), RebornPointers(db, slot, user)))
  {
    hide RebornMemberships, RebornPointers;
  }

  /** The user whose folded handle is `typed`, folded. */
  ghost function LookupHandle(db: Db, typed: string): Lookup {
    if exists s :: s in db.users && db.users[s].folded == Fold(typed) then
      var s :| s in db.users && db.users[s].folded == Fold(typed);
      LoadUser(db, s)
    else Missing
  }

  // ---- The repository ----

  class SqliteUserRepository {
    var db: Db

    constructor ()
      ensures db == EMPTY
    {
      db := EMPTY;
    }

    /** The statements of one membership, run on an open transaction `tx`. */
    static method ApplyMembershipPatch(tx: Db, slot: u32, m: MembershipPatch) returns (r: Result<Db>)
      ensures r == PatchMembership(tx, slot, m)
    {
      r := PatchMembershipRow(tx, slot, m);
      if r.Err? {
        return;
      }
      var i := 0;
      while i < |m.pointers|
        invariant 0 <= i <= |m.pointers| && r.Ok?
        invariant UpsertPointers(r.value, slot, m.conference, m.pointers[i..]) == PatchMembership(tx, slot, m)
      {
        r := UpsertPointer(r.value, slot, m.conference, m.pointers[i]);
        if r.Err? {
          return;
        }
        i := i + 1;
      }
    }

    /** Copies, patches the copy and commits it; returning early drops the copy. */
    method ApplyUserPatch(slot: u32, patch: UserPatch) returns (error: Option<SqlError>)
      modifies this
      ensures error == None ==> ApplyPatch(old(db), slot, patch) == Ok(db)
      ensures error.Some? ==> ApplyPatch(old(db), slot, patch) == Err(error.value) && db == old(db)
      ensures error == Some(UserNotFound) <==> slot !in old(db).users
      ensures error == None ==>
        && slot in old(db).users && slot in db.users
        && db.users == old(db).users[slot := db.users[slot]]
        && PatchMemberships(old(db).(users := db.users), slot, patch.memberships) == Ok(db)
        && var was, now := old(db).users[slot], db.users[slot];
           && now.timesCalled == was.timesCalled + patch.timesCalled
           && now.timesCalledToday == was.timesCalledToday + patch.timesCalledToday
           && now.timeUsedToday == was.timeUsedToday + patch.timeUsedToday
           && now.messagesPosted == was.messagesPosted + patch.messagesPosted
           && (patch.lastCall.None? ==> now.lastCall == was.lastCall)
           && (patch.lastCall.Some? ==>
                && now.lastCall.Some? && now.lastCall.value >= patch.lastCall.value
                && (was.lastCall.Some? ==> now.lastCall.value >= was.lastCall.value)
                && (now.lastCall == was.lastCall || now.lastCall == patch.lastCall))
           && (patch.expert.Some? ==> now.expert == patch.expert.value)
           && (patch.expert.None? ==> now.expert == was.expert)
           && (patch.flags.Some? ==> now.flags == patch.flags.value)
           && (patch.flags.None? ==> now.flags == was.flags)
           && (patch.lastJoined.Some? ==>
                && now.joinedConference == Some(patch.lastJoined.value.0)
                && now.joinedMsgbase == Some(patch.lastJoined.value.1))
           && (patch.lastJoined.None? ==>
                now.joinedConference == was.joinedConference && now.joinedMsgbase == was.joinedMsgbase)
           && now.handle == was.handle && now.folded == was.folded && now.credentials == was.credentials
           && now.forceReset == was.forceReset && now.invalidAttempts == was.invalidAttempts
           && now.locked == was.locked && now.profile == was.profile
    {
      var tx := db;
      if slot !in tx.users {
        return Some(UserNotFound);
      }
      tx := tx.(users := tx.users[slot := BumpRow(tx.users[slot], patch)]);
      MembershipsInOrder(tx, slot, patch.memberships, []);
      NoRowIsMissing(tx, slot, patch.memberships);
      var i := 0;
      while i < |patch.memberships|
        invariant 0 <= i <= |patch.memberships| && db == old(db)
        invariant PatchMemberships(tx, slot, patch.memberships[i..]) == ApplyPatch(db, slot, patch)
      {
        var r := ApplyMembershipPatch(tx, slot, patch.memberships[i]);
        if r.Err? {
          return Some(r.error);
        }
        tx := r.value;
        i := i + 1;
      }
      db := tx;
      error := None;
    }

    method RecordAuthOutcome(slot: u32, outcome: AuthOutcome) returns (error: Option<SqlError>)
      modifies this
      ensures error == if slot in old(db).users then None else Some(UserNotFound)
      ensures error.Some? ==> db == old(db)
      ensures error == None ==>
        && RecordAuth(old(db), slot, outcome) == Ok(db) && slot in db.users
        && db == old(db).(users := old(db).users[slot := db.users[slot]])
        && var was, now := old(db).users[slot], db.users[slot];
           && now.(invalidAttempts := was.invalidAttempts, locked := was.locked, forceReset := was.forceReset,
                   timesCalledToday := was.timesCalledToday, timeUsedToday := was.timeUsedToday) == was
           && match outcome
              case Mismatched(lockAccount) =>
                && now.invalidAttempts == was.invalidAttempts + 1 && (now.locked <==> was.locked || lockAccount)
                && now.forceReset == was.forceReset
                && now.timesCalledToday == was.timesCalledToday && now.timeUsedToday == was.timeUsedToday
              case Matched(daily, forceReset) =>
                && now.invalidAttempts == 0 && now.locked == was.locked
                && (now.forceReset <==> was.forceReset || forceReset)
                && (daily == Some(NewDay) ==> now.timesCalledToday == 0 && now.timeUsedToday == 0)
                && (daily == Some(SameDay) ==> now.timesCalledToday == was.timesCalledToday + 1)
                && (daily == None ==> now.timesCalledToday == was.timesCalledToday)
                && (daily != Some(NewDay) ==> now.timeUsedToday == was.timeUsedToday)
    {
      if slot !in db.users {
        return Some(UserNotFound);
      }
      db := db.(users := db.users[slot := AuthRow(db.users[slot], outcome)]);
      error := None;
    }

    method RecordPasswordChange(slot: u32, change: Credentials) returns (error: Option<SqlError>)
      modifies this
      ensures error == if slot in old(db).users then None else Some(UserNotFound)
      ensures error.Some? ==> db == old(db)
      ensures error == None ==>
        && ChangePassword(old(db), slot, change) == Ok(db) && slot in db.users
        && db == old(db).(users := old(db).users[slot := db.users[slot]])
        && db.users[slot].credentials == change && !db.users[slot].forceReset
        && db.users[slot].(credentials := old(db).users[slot].credentials, forceReset := old(db).users[slot].forceReset)
           == old(db).users[slot]
    {
      if slot !in db.users {
        return Some(UserNotFound);
      }
      db := db.(users := db.users[slot := db.users[slot].(credentials := change, forceReset := false)]);
      error := None;
    }

    /** The statements of a whole-user write on an open transaction: the row, then all it owns from scratch. */
    static method WriteUser(tx: Db, slot: u32, s: Snapshot) returns (r: Result<Db>)
      ensures r == UpsertUser(tx, slot, s)
    {
      hide RebornMemberships, RebornPointers, UpsertUser, AllInOrder;
      RefusalIsError(tx, slot, s);
      if s.user.joinedConference.None? != s.user.joinedMsgbase.None? {
        return Err(CheckViolation);
      }
      if exists other | other in tx.users :: other != slot && tx.users[other].folded == s.user.folded {
        return Err(UniqueViolation);
      }
      // Deleting the memberships deletes their pointers.
      var cleared := Db(tx.users[slot := s.user],
                        map k | k in tx.memberships && k.slot != slot :: tx.memberships[k],
                        map k | k in tx.pointers && k.slot != slot :: tx.pointers[k]);
      r := WriteMemberships(cleared, slot, s, tx);
    }

    static method WriteMemberships(cleared: Db, slot: u32, s: Snapshot, ghost before: Db) returns (r: Result<Db>)
      requires cleared.memberships == map k | k in before.memberships && k.slot != slot :: before.memberships[k]
      requires cleared.pointers == map k | k in before.pointers && k.slot != slot :: before.pointers[k]
      ensures r == if !AllInOrder(s) then Err(CheckViolation)
                   else Ok(Db(cleared.users, RebornMemberships(before, slot, s), RebornPointers(before, slot, s)))
    {
      hide RebornMemberships, RebornPointers, PointerRows, Only, InOrder;
      var now, left := cleared, s.memberships.Keys;
      ghost var done: set<u32> := {};
      NothingReborn(before, slot, s);
      while left != {}
        invariant left <= s.memberships.Keys && done == s.memberships.Keys - left
        invariant now == Db(cleared.users, RebornMemberships(before, slot, Only(s, done)),
                            RebornPointers(before, slot, Only(s, done)))
        invariant forall c | c in done :: InOrder(s.memberships[c].pointers)
        decreases |left|
      {
        var c :| c in left;
        left := left - {c};
        now := now.(memberships := now.memberships[MembershipKey(slot, c) := s.memberships[c].row]);
        var written := WritePointers(now, MembershipKey(slot, c), s.memberships[c].pointers);
        if written.Err? {
          return Err(CheckViolation);
        }
        OneMoreMembership(before, slot, s, done, c);
        OneMorePointers(before, slot, s, done, c);
        now, done := written.value, done + {c};
      }
      assert done == s.memberships.Keys;
      OnlyAll(s);
      r := Ok(now);
    }

    static method WritePointers(tx: Db, k: MembershipKey, ps: map<u32, PointerRow>) returns (r: Result<Db>)
      ensures r == if InOrder(ps) then Ok(tx.(pointers := tx.pointers + PointerRows(k, ps))) else Err(CheckViolation)
    {
      hide PointerRows;
      var now, left := tx, ps.Keys;
      NoRows(k, ps);
      assert tx.pointers + map[] == tx.pointers;
      while left != {}
        invariant left <= ps.Keys && forall b | b in ps && b !in left :: ps[b].lastRead <= ps[b].lastScanned
        invariant now == tx.(pointers := tx.pointers + PointerRows(k, Without(ps, left)))
        decreases |left|
      {
        var b :| b in left;
        if ps[b].lastRead > ps[b].lastScanned {
          return Err(CheckViolation);
        }
        OneMoreRow(k, ps, left, b);
        now := now.(pointers := now.pointers[PointerKey(k.slot, k.conference, b) := ps[b]]);
        left := left - {b};
      }
      assert Without(ps, {}) == ps;
      r := Ok(now);
    }

    /** The slot's rows become exactly the snapshot's and no other row changes, or nothing does. */
    method InsertSeed(slot: u32, user: Snapshot) returns (error: Option<SqlError>)
      modifies this
      ensures error == SeedRefused(old(db), slot, user)
      ensures error ==
        if user.user.joinedConference.None? != user.user.joinedMsgbase.None? then Some(CheckViolation)
        else if exists t | t in old(db).users :: t != slot && old(db).users[t].folded == user.user.folded then
          Some(UniqueViolation)
        else if exists c, b | c in user.memberships && b in user.memberships[c].pointers ::
          user.memberships[c].pointers[b].lastRead > user.memberships[c].pointers[b].lastScanned then
          Some(CheckViolation)
        else None
      ensures error.Some? ==> db == old(db)
      ensures error == None ==>
        && UpsertUser(old(db), slot, user) == Ok(db)
        && db.users == old(db).users[slot := user.user]
        && Matches(db, slot, user.memberships) && NoStrayPointers(db, slot)
        && (forall t | t != slot :: SameRows(old(db), db, t))
        && (HandlesUnique(old(db).users) ==> HandlesUnique(db.users))
    {
      var tx := WriteUser(db, slot, user);
      RefusalIsError(db, slot, user);
      if tx.Err? {
        return Some(tx.error);
      }
      RebornRows(db, slot, user);
      db := tx.value;
      error := None;
    }

    /** The highest slot in use, as the aggregate query finds it. */
    method HighestSlot() returns (highest: nat)
      ensures highest + 1 == NextSlot(db.users.Keys)
    {
      highest := 0;
      var left := db.users.Keys;
      while left != {}
        invariant left <= db.users.Keys
        invariant forall s | s in db.users :: s in left || s <= highest
        invariant highest in db.users || (left == db.users.Keys && highest == 0)
        decreases |left|
      {
        var s :| s in left;
        left := left - {s};
        if s > highest {
          highest := s;
        }
      }
    }

    method FindByHandle(typed: string) returns (r: Lookup)
      requires HandlesUnique(db.users)
      ensures r == LookupHandle(db, typed)
      ensures r == Missing <==> forall slot | slot in db.users :: db.users[slot].folded != Fold(typed)
      ensures r != Missing ==>
        exists slot | slot in db.users :: db.users[slot].folded == Fold(typed) && r == LoadUser(db, slot)
    {
      var folded := Fold(typed);
      if slot :| slot in db.users && db.users[slot].folded == folded {
        r := LoadUser(db, slot);
      } else {
        r := Missing;
      }
    }

    method CreateUser(draft: NewUserDraft) returns (r: Created)
      modifies this
      ensures (db, r) == Register(old(db), draft)
      ensures r == Duplicate <==> exists s | s in old(db).users :: old(db).users[s].folded == Fold(draft.handle)
      ensures r == OutOfSlots <==> r != Duplicate && 4294967295 in old(db).users
      ensures r == SaltRequired <==> r != Duplicate && r != OutOfSlots && draft.salt == None
      ensures !r.Registered? ==> db == old(db)
      ensures r.Registered? ==>
        var u := r.user.user;
        && u.handle == draft.handle && u.credentials.hash == draft.hash && u.credentials.salt == draft.salt
        && u.credentials.updated == draft.now && u.lastCall == Some(draft.now)
        && u.flags == draft.flags && u.profile == draft.profile
        && !u.locked && !u.forceReset && !u.expert
        && u.invalidAttempts == 0 && u.timesCalled == 0 && u.timesCalledToday == 0 && u.timeUsedToday == 0
        && u.messagesPosted == 0 && u.joinedConference == None && u.joinedMsgbase == None
        && r.user.memberships == map[]
        && |u.folded| == |draft.handle|
        && forall i | 0 <= i < |u.folded| ::
             var c := draft.handle[i];
             u.folded[i] == if 'A' <= c <= 'Z' then (c as int + 32) as char else c
      ensures r.Registered? ==>
        && (forall s | s in old(db).users :: s < r.slot) && (r.slot == 1 || r.slot - 1 in old(db).users)
        && db.users == old(db).users[r.slot := r.user.user]
        && (forall k | k in db.memberships :: k.slot != r.slot) && (forall k | k in db.pointers :: k.slot != r.slot)
        && (forall s | s != r.slot :: SameRows(old(db), db, s))
    {
      var folded := Fold(draft.handle);
      hide RebornMemberships, RebornPointers, UpsertUser;
      if exists s | s in db.users :: db.users[s].folded == folded {
        return Duplicate;
      }
      var highest := HighestSlot();
      if highest + 1 > U32_MAX {
        return OutOfSlots;
      }
      var next: u32 := highest + 1;
      RegistrationUpserts(db, next, draft);
      match RegisterNew(draft) {
        case None => r := SaltRequired;
        case Some(user) =>
          var tx := UpsertUser(db, next, user);
          RebornRows(db, next, user);
          assert forall k | k in tx.value.memberships && k.slot == next ::
            MembershipMatches(tx.value, next, user.memberships, k.conference);
          r := Registered(next, user);
          db := tx.value;
      }
    }
  }
}
