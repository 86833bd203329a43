/**
  The in-memory repository, which scans a list of users, beside the database, which looks handles
  up in a folded index: the same requests get the same answers, exactly as long as the commands
  mean the same.
 */
module UserRepositories {
  import opened Basics
  import opened SqliteUsers
  import opened SqliteUserLaws
  import opened UserCommands

  datatype Record = Record(slot: u32, user: Snapshot)

  predicate EqIgnoreAsciiCase(a: string, b: string) {
    |a| == |b| && forall i | 0 <= i < |a| :: ToAsciiLower(a[i]) == ToAsciiLower(b[i])
  }

  /** Comparing without case is comparing the folded handles. */
  lemma {:induction false} FoldDecidesCase(a: string, b: string)
    ensures EqIgnoreAsciiCase(a, b) <==> Fold(a) == Fold(b)
  {
    if |a| == |b| && a != "" {
      FoldDecidesCase(a[1..], b[1..]);
      assert Fold(a) == [ToAsciiLower(a[0])] + Fold(a[1..]);
      assert Fold(b) == [ToAsciiLower(b[0])] + Fold(b[1..]);
      assert Fold(a)[1..] == Fold(a[1..]) && Fold(b)[1..] == Fold(b[1..]);
      assert EqIgnoreAsciiCase(a, b) ==> EqIgnoreAsciiCase(a[1..], b[1..]);
      assert EqIgnoreAsciiCase(a[1..], b[1..]) && ToAsciiLower(a[0]) == ToAsciiLower(b[0]) ==>
        EqIgnoreAsciiCase(a, b) by {
        if EqIgnoreAsciiCase(a[1..], b[1..]) && ToAsciiLower(a[0]) == ToAsciiLower(b[0]) {
          forall i | 0 <= i < |a|
            ensures ToAsciiLower(a[i]) == ToAsciiLower(b[i])
          {
            if i > 0 { assert a[i] == a[1..][i - 1] && b[i] == b[1..][i - 1]; }
          }
        }
      }
    }
  }

  // ---- The list ----

  ghost function Slots(users: seq<Record>): set<u32> {
    set i | 0 <= i < |users| :: users[i].slot
  }

  /** `i` is the first record for which `p` holds; `|users|` if there is none. */
  ghost predicate IsFirst(users: seq<Record>, p: Record -> bool, i: nat) {
    && i <= |users| && (i < |users| ==> p(users[i]))
    && forall j | 0 <= j < i :: !p(users[j])
  }

  function First(users: seq<Record>, p: Record -> bool): (i: nat)
    ensures IsFirst(users, p, i)
  {
    if users == [] || p(users[0]) then 0
    else
      var i := First(users[1..], p);
      assert forall j | 0 < j < |users| :: users[j] == users[1..][j - 1];
      i + 1
  }

  function HasSlot(slot: u32): Record -> bool {
    (r: Record) => r.slot == slot
  }

  function HasHandle(typed: string): Record -> bool {
    (r: Record) => EqIgnoreAsciiCase(r.user.user.handle, typed)
  }

  datatype CommandResult = Done | NoSuchSlot | Rejected

  class InMemoryUserRepository {
    var users: seq<Record>

    constructor (seed: seq<Record>)
      ensures users == seed
    {
      users := seed;
    }

    method Find(p: Record -> bool) returns (i: nat)
      ensures i == First(users, p)
    {
      i := 0;
      while i < |users| && !p(users[i])
        invariant 0 <= i <= |users| && forall j | 0 <= j < i :: !p(users[j])
      {
        i := i + 1;
      }
    }

    method FindByHandle(typed: string) returns (r: Lookup)
      ensures r == Scanned(users, First(users, HasHandle(typed)))
      ensures r == Missing <==> forall i | 0 <= i < |users| :: !EqIgnoreAsciiCase(users[i].user.user.handle, typed)
      ensures r != Missing ==>
        exists i | 0 <= i < |users| ::
          && r == Found(users[i].user) && EqIgnoreAsciiCase(users[i].user.user.handle, typed)
          && forall j | 0 <= j < i :: !EqIgnoreAsciiCase(users[j].user.user.handle, typed)
    {
      hide EqIgnoreAsciiCase;
      var i := Find(HasHandle(typed));
      r := Scanned(users, i);
    }

    method FindSysop() returns (r: Lookup)
      ensures r == Scanned(users, First(users, HasSlot(1)))
      ensures r == Missing <==> forall i | 0 <= i < |users| :: users[i].slot != 1
      ensures r != Missing ==>
        exists i | 0 <= i < |users| ::
          r == Found(users[i].user) && users[i].slot == 1 && forall j | 0 <= j < i :: users[j].slot != 1
    {
      var i := Find(HasSlot(1));
      r := Scanned(users, i);
    }

    /** Snapshots the record, applies the command and rebuilds the user, which needs a salt. */
    method ApplyCommand(slot: u32, apply: Snapshot -> Snapshot) returns (r: CommandResult)
      modifies this
      ensures (users, r) == Applied(old(users), First(old(users), HasSlot(slot)), apply)
      ensures r == NoSuchSlot <==> forall i | 0 <= i < |old(users)| :: old(users)[i].slot != slot
      ensures r != Done ==> users == old(users)
      ensures r != NoSuchSlot ==>
        exists i | 0 <= i < |old(users)| ::
          && old(users)[i].slot == slot && (forall j | 0 <= j < i :: old(users)[j].slot != slot)
          && var now := apply(old(users)[i].user);
             if now.user.credentials.salt.None? then r == Rejected
             else r == Done && users == old(users)[i := Record(slot, now)]
    {
      var i := Find(HasSlot(slot));
      if i == |users| {
        return NoSuchSlot;
      }
      var snapshot := apply(users[i].user);
      if snapshot.user.credentials.salt.None? {
        return Rejected;
      }
      users := users[i := users[i].(user := snapshot)];
      r := Done;
    }

    /** The next slot is taken unchecked. */
    method CreateUser(draft: NewUserDraft) returns (r: Created)
      requires NextSlot(Slots(users)) <= U32_MAX
      modifies this
      ensures (users, r) == Appended(old(users), First(old(users), HasHandle(draft.handle)), draft)
      ensures r == Duplicate <==> exists i | 0 <= i < |old(users)| ::
        EqIgnoreAsciiCase(old(users)[i].user.user.handle, draft.handle)
      ensures r == SaltRequired <==> r != Duplicate && draft.salt == None
      ensures r != OutOfSlots && (!r.Registered? ==> users == old(users))
      ensures r.Registered? ==>
        && users == old(users) + [Record(r.slot, r.user)]
        && (forall i | 0 <= i < |old(users)| :: old(users)[i].slot < r.slot)
        && (r.slot == 1 || exists i | 0 <= i < |old(users)| :: old(users)[i].slot == r.slot - 1)
      ensures r.Registered? ==>
        var u := r.user.user;
        && u.handle == draft.handle && u.credentials.hash == draft.hash && u.credentials.salt == draft.salt
        && u.credentials.updated == draft.now && u.lastCall == Some(draft.now)
        && u.flags == draft.flags && u.profile == draft.profile
        && !u.locked && !u.forceReset && !u.expert
        && u.invalidAttempts == 0 && u.timesCalled == 0 && u.timesCalledToday == 0 && u.timeUsedToday == 0
        && u.messagesPosted == 0 && u.joinedConference == None && u.joinedMsgbase == None
        && r.user.memberships == map[]
        && |u.folded| == |draft.handle|
        && forall i | 0 <= i < |u.folded| ::
             var c := draft.handle[i];
             u.folded[i] == if 'A' <= c <= 'Z' then (c as int + 32) as char else c
    {
      var i := Find(HasHandle(draft.handle));
      if i < |users| {
        return Duplicate;
      }
      var highest: nat := 0;
      var j := 0;
      while j < |users|
        invariant 0 <= j <= |users|
        invariant forall k | 0 <= k < j :: users[k].slot <= highest
        invariant highest in Slots(users) || (j == 0 && highest == 0)
      {
        highest := if j == 0 then users[j].slot else Max(highest, users[j].slot);
        j := j + 1;
      }
      assert highest + 1 == NextSlot(Slots(users)) by {
        if users != [] { assert users[0].slot in Slots(users); }
      }
      match RegisterNew(draft) {
        case None => r := SaltRequired;
        case Some(user) =>
          users := users + [Record(highest + 1, user)];
          r := Registered(highest + 1, user);
      }
    }
  }

  function Scanned(users: seq<Record>, i: nat): Lookup {
    if i < |users| then Found(users[i].user) else Missing
  }

  function Applied(users: seq<Record>, i: nat, apply: Snapshot -> Snapshot): (seq<Record>, CommandResult)
    requires i <= |users|
  {
    if i == |users| then (users, NoSuchSlot)
    else if apply(users[i].user).user.credentials.salt.None? then (users, Rejected)
    else (users[i := users[i].(user := apply(users[i].user))], Done)
  }

  ghost function Appended(users: seq<Record>, i: nat, draft: NewUserDraft): (seq<Record>, Created)
    requires i <= |users| && NextSlot(Slots(users)) <= U32_MAX
  {
    if i < |users| then (users, Duplicate)
    else
      match RegisterNew(draft)
      case None => (users, SaltRequired)
      case Some(user) =>
        var slot: u32 := NextSlot(Slots(users));
        (users + [Record(slot, user)], Registered(slot, user))
  }

  // ---- The same requests to both ----

  datatype Request =
    | Create(draft: NewUserDraft)
    | FindHandle(typed: string)
    | FindSysop
    | ApplyUserPatch(slot: u32, patch: UserPatch)
    | RecordAuthOutcome(slot: u32, outcome: AuthOutcome)
    | RecordPasswordChange(slot: u32, change: Credentials)

  datatype Response = CreateAnswer(created: Created) | FindAnswer(found: Lookup) | CommandAnswer(result: CommandResult)

  function Settle(db: Db, r: Result<Db>): (Db, Response) {
    match r
    case Ok(after) => (after, CommandAnswer(Done))
    case Err(UserNotFound) => (db, CommandAnswer(NoSuchSlot))
    case Err(_) => (db, CommandAnswer(Rejected))
  }

  ghost function SqlServe(db: Db, q: Request): (Db, Response) {
    match q
    case Create(draft) => (Register(db, draft).0, CreateAnswer(Register(db, draft).1))
    case FindHandle(typed) => (db, FindAnswer(LookupHandle(db, typed)))
    case FindSysop => (db, FindAnswer(LoadUser(db, 1)))
    case ApplyUserPatch(slot, p) => Settle(db, ApplyPatch(db, slot, p))
    case RecordAuthOutcome(slot, o) => Settle(db, RecordAuth(db, slot, o))
    case RecordPasswordChange(slot, change) => Settle(db, ChangePassword(db, slot, change))
  }

  function Answered(r: (seq<Record>, CommandResult)): (seq<Record>, Response) {
    (r.0, CommandAnswer(r.1))
  }

  ghost function MemServe(users: seq<Record>, q: Request): (seq<Record>, Response)
    requires q.Create? ==> NextSlot(Slots(users)) <= U32_MAX
  {
    match q
    case Create(draft) =>
      var (after, created) := Appended(users, First(users, HasHandle(draft.handle)), draft);
      (after, CreateAnswer(created))
    case FindHandle(typed) => (users, FindAnswer(Scanned(users, First(users, HasHandle(typed)))))
    case FindSysop => (users, FindAnswer(Scanned(users, First(users, HasSlot(1)))))
    case ApplyUserPatch(slot, p) => Answered(Applied(users, First(users, HasSlot(slot)), s => ApplyTo(s, p)))
    case RecordAuthOutcome(slot, o) => Answered(Applied(users, First(users, HasSlot(slot)), s => ApplyAuth(s, o)))
    case RecordPasswordChange(slot, change) =>
      Answered(Applied(users, First(users, HasSlot(slot)), s => ApplyPassword(s, change)))
  }

  /** The list holds each stored user once, as it would be loaded. */
  ghost predicate Mirrors(db: Db, users: seq<Record>) {
    && Integrity(db)
    && (forall s | s in db.users :: db.users[s].folded == Fold(db.users[s].handle))
    && db.users.Keys == Slots(users)
    && (forall i, j | 0 <= i < j < |users| :: users[i].slot != users[j].slot)
    && (forall i | 0 <= i < |users| :: LoadUser(db, users[i].slot) == Found(users[i].user))
  }

  /** When the database carries a request out as the domain defines it; each conjunct can be checked beforehand. */
  ghost predicate SameMeaning(db: Db, q: Request) {
    match q
    case Create(_) => NextSlot(db.users.Keys) <= U32_MAX
    case FindHandle(_) => true
    case FindSysop => true
    case ApplyUserPatch(slot, p) => slot in db.users ==> Applicable(db, slot, p) && CountersWillFit(db, slot, p)
    case RecordAuthOutcome(slot, o) => slot in db.users ==> AuthFits(db.users[slot], o)
    case RecordPasswordChange(slot, change) => slot in db.users ==> change.salt.Some?
  }

  lemma FindAgrees(db: Db, users: seq<Record>, typed: string)
    requires Mirrors(db, users)
    ensures LookupHandle(db, typed) == Scanned(users, First(users, HasHandle(typed)))
    ensures First(users, HasHandle(typed)) < |users| <==> exists s | s in db.users :: db.users[s].folded == Fold(typed)
  {
    forall i | 0 <= i < |users|
      ensures HasHandle(typed)(users[i]) <==> db.users[users[i].slot].folded == Fold(typed)
    {
      assert users[i].slot in Slots(users);
      FoldDecidesCase(users[i].user.user.handle, typed);
      assert LoadUser(db, users[i].slot) == Found(users[i].user);
    }
    var i := First(users, HasHandle(typed));
    if i < |users| {
      assert users[i].slot in Slots(users) && LoadUser(db, users[i].slot) == Found(users[i].user);
      assert HasHandle(typed)(users[i]);
    }
  }

  lemma SlotsKept(users: seq<Record>, i: nat, user: Snapshot)
    requires i < |users|
    ensures Slots(users[i := users[i].(user := user)]) == Slots(users)
  {
    var r := users[i := users[i].(user := user)];
    assert forall k | 0 <= k < |users| :: r[k].slot == users[k].slot;
  }

  lemma ReplaceAgrees(db: Db, after: Db, users: seq<Record>, i: nat, user: Snapshot)
    requires Mirrors(db, users) && Integrity(after) && i < |users|
    requires after.users.Keys == db.users.Keys
    requires forall s | s in after.users :: after.users[s].folded == Fold(after.users[s].handle)
    requires forall t | t in db.users && t != users[i].slot :: LoadUser(after, t) == LoadUser(db, t)
    requires LoadUser(after, users[i].slot) == Found(user)
    ensures Mirrors(after, users[i := users[i].(user := user)])
  {
    hide Integrity, LoadUser, Fold;
    var r := users[i := users[i].(user := user)];
    SlotsKept(users, i, user);
    forall k | 0 <= k < |r|
      ensures LoadUser(after, r[k].slot) == Found(r[k].user)
    {
      if k != i {
        assert users[k].slot in Slots(users) && users[k].slot != users[i].slot;
      }
    }
  }

  /** A command that does in the database what `apply` does to the listed user, and touches no other. */
  lemma CommandAgrees(db: Db, after: Db, users: seq<Record>, slot: u32, apply: Snapshot -> Snapshot)
    requires Mirrors(db, users) && slot in db.users && Integrity(after)
    requires after.users.Keys == db.users.Keys
    requires forall s | s in after.users :: after.users[s].folded == Fold(after.users[s].handle)
    requires forall t | t in db.users && t != slot :: LoadUser(after, t) == LoadUser(db, t)
    requires LoadUser(after, slot) == Found(apply(LoadUser(db, slot).user))
    ensures
      var r := Applied(users, First(users, HasSlot(slot)), apply);
      r.1 == Done && Mirrors(after, r.0)
  {
    hide Integrity, LoadUser, Fold;
    var i := First(users, HasSlot(slot));
    SlotIsListed(users, slot);
    assert LoadUser(db, users[i].slot) == Found(users[i].user);
    FoundHasSalt(after, slot);
    ReplaceAgrees(db, after, users, i, apply(users[i].user));
  }

  lemma SlotIsListed(users: seq<Record>, slot: u32)
    requires slot in Slots(users)
    ensures First(users, HasSlot(slot)) < |users| && users[First(users, HasSlot(slot))].slot == slot
  {
    var i := First(users, HasSlot(slot));
    var j :| 0 <= j < |users| && users[j].slot == slot;
    assert HasSlot(slot)(users[j]);
    assert HasSlot(slot)(users[i]);
  }

  lemma FoundHasSalt(db: Db, slot: u32)
    ensures LoadUser(db, slot).Found? ==> LoadUser(db, slot).user.user.credentials.salt.Some?
  {
  }

  lemma UnknownSlotAgrees(db: Db, users: seq<Record>, slot: u32, apply: Snapshot -> Snapshot)
    requires Mirrors(db, users) && slot !in db.users
    ensures Applied(users, First(users, HasSlot(slot)), apply) == (users, NoSuchSlot)
  {
    assert forall i | 0 <= i < |users| :: users[i].slot in Slots(users);
  }

  // ---- A command touches no other user ----

  lemma SameRowsLoadTheSame(db: Db, after: Db, t: u32)
    requires SameRows(db, after, t) && t in db.users && t in after.users && after.users[t] == db.users[t]
    ensures LoadUser(after, t) == LoadUser(db, t)
  {
    ViewMatches(db, t);
    ViewMatches(after, t);
    var ms := View(db, t).memberships;
    forall c: u32
      ensures MembershipMatches(after, t, ms, c)
    {
      assert MembershipMatches(db, t, ms, c);
    }
    MatchIsUnique(after, t, ms, View(after, t).memberships);
  }

  lemma PatchTouchesOne(db: Db, slot: u32, p: UserPatch, t: u32)
    requires Integrity(db) && t != slot && t in db.users && ApplyPatch(db, slot, p).Ok?
    ensures t in ApplyPatch(db, slot, p).value.users && LoadUser(ApplyPatch(db, slot, p).value, t) == LoadUser(db, t)
  {
    PatchSucceedsIffApplicable(db, slot, p);
    var bumped := db.(users := db.users[slot := BumpRow(db.users[slot], p)]);
    PatchMembershipsTouchOne(bumped, slot, p.memberships, t);
    hide Integrity, PatchMemberships, LoadUser;
    SameRowsLoadTheSame(db, ApplyPatch(db, slot, p).value, t);
  }

  // ---- Starting both from the same users ----

  /** A user as the domain builds it: readable, with its handle folded and its last conference whole. */
  predicate WellFormed(s: Snapshot) {
    && Readable(s) && s.user.folded == Fold(s.user.handle)
    && s.user.joinedConference.None? == s.user.joinedMsgbase.None?
  }

  /** Slots and folded handles are pairwise distinct. */
  ghost predicate Distinct(users: seq<Record>) {
    forall i, j | 0 <= i < j < |users| ::
      users[i].slot != users[j].slot && users[i].user.user.folded != users[j].user.user.folded
  }

  function SeedAll(db: Db, users: seq<Record>): Result<Db>
    decreases |users|
  {
    if users == [] then Ok(db)
    else
      match UpsertUser(db, users[0].slot, users[0].user)
      case Err(e) => Err(e)
      case Ok(next) => SeedAll(next, users[1..])
  }

  lemma MirrorsFolded(db: Db, users: seq<Record>, i: nat)
    requires Mirrors(db, users) && i < |users|
    ensures users[i].slot in db.users && db.users[users[i].slot].folded == users[i].user.user.folded
  {
    assert users[i].slot in Slots(users) && LoadUser(db, users[i].slot) == Found(users[i].user);
  }

  /** One more user is written exactly if no user there has its handle in any case. */
  lemma SeedOne(db: Db, users: seq<Record>, r: Record)
    requires Mirrors(db, users) && WellFormed(r.user) && r.slot !in db.users
    ensures
      var written := UpsertUser(db, r.slot, r.user);
      && (written.Ok? <==> forall i | 0 <= i < |users| :: users[i].user.user.folded != r.user.user.folded)
      && (written.Ok? ==> Mirrors(written.value, users + [r]))
      && (written.Err? ==> written.error == UniqueViolation)
  {
    forall i | 0 <= i < |users|
      ensures users[i].slot in db.users && db.users[users[i].slot].folded == users[i].user.user.folded
    {
      MirrorsFolded(db, users, i);
    }
    forall t | t in db.users
      ensures exists i | 0 <= i < |users| :: users[i].slot == t
    {
      assert t in Slots(users);
    }
    hide Integrity, LoadUser, Fold, RebornMemberships, RebornPointers;
    RefusalIsError(db, r.slot, r.user);
    if UpsertUser(db, r.slot, r.user).Ok? {
      var after := UpsertUser(db, r.slot, r.user).value;
      UpsertThenLoad(db, r.slot, r.user);
      UpsertKeepsIntegrity(db, r.slot, r.user);
      forall t | t in db.users
        ensures LoadUser(after, t) == LoadUser(db, t)
      {
        RebornTouchesOne(db, r.slot, r.user, t);
        SameRowsLoadTheSame(db, after, t);
      }
      AppendMirrors(db, after, users, r.slot, r.user);
    }
  }

  /** Seeding goes on from mirrored stores to mirrored stores, or stops at a handle that is taken. */
  lemma {:induction false} SeedMore(db: Db, users: seq<Record>, rest: seq<Record>)
    requires Mirrors(db, users)
    requires forall i | 0 <= i < |rest| :: WellFormed(rest[i].user)
    requires forall i, j | 0 <= i < j < |users + rest| :: (users + rest)[i].slot != (users + rest)[j].slot
    ensures SeedAll(db, rest).Ok? <==> Distinct(users + rest)
    ensures SeedAll(db, rest).Ok? ==> Mirrors(SeedAll(db, rest).value, users + rest)
    decreases |rest|
  {
    hide Integrity, LoadUser, Fold, UpsertUser, WellFormed;
    if rest == [] {
      assert users + rest == users;
      forall i | 0 <= i < |users|
        ensures users[i].slot in db.users && db.users[users[i].slot].folded == users[i].user.user.folded
      {
        MirrorsFolded(db, users, i);
      }
      MirrorsDistinctFolds(db, users);
    } else {
      var r, all := rest[0], users + rest;
      assert all == (users + [r]) + rest[1..];
      assert all[|users|] == r;
      assert r.slot !in Slots(users) by {
        assert forall i | 0 <= i < |users| :: all[i] == users[i];
      }
      SeedOne(db, users, r);
      if UpsertUser(db, r.slot, r.user).Ok? {
        SeedMore(UpsertUser(db, r.slot, r.user).value, users + [r], rest[1..]);
      } else {
        var i :| 0 <= i < |users| && users[i].user.user.folded == r.user.user.folded;
        assert all[i] == users[i];
      }
    }
  }

  lemma MirrorsDistinctFolds(db: Db, users: seq<Record>)
    requires Mirrors(db, users)
    requires forall i | 0 <= i < |users| ::
      users[i].slot in db.users && db.users[users[i].slot].folded == users[i].user.user.folded
    ensures Distinct(users)
  {
  }

  lemma NothingMirrors()
    ensures Mirrors(EMPTY, [])
  {
  }

  /**
    Users with distinct slots can be seeded into an empty database exactly if no two handles are the
    same case apart, and then the database mirrors the list of them.
   */
  lemma SeedsMirror(users: seq<Record>)
    requires forall i | 0 <= i < |users| :: WellFormed(users[i].user)
    requires forall i, j | 0 <= i < j < |users| :: users[i].slot != users[j].slot
    ensures SeedAll(EMPTY, users).Ok? <==> Distinct(users)
    ensures SeedAll(EMPTY, users).Ok? ==> Mirrors(SeedAll(EMPTY, users).value, users)
  {
    hide Mirrors, WellFormed;
    NothingMirrors();
    assert [] + users == users;
    SeedMore(EMPTY, [], users);
  }

  /** Both repositories, opened on the same users. */
  method OpenSeeded(users: seq<Record>) returns (sql: SqliteUserRepository, mem: InMemoryUserRepository, ok: bool)
    requires forall i | 0 <= i < |users| :: WellFormed(users[i].user)
    requires forall i, j | 0 <= i < j < |users| :: users[i].slot != users[j].slot
    ensures fresh(sql) && fresh(mem) && mem.users == users
    ensures ok <==> Distinct(users)
    ensures ok ==> Mirrors(sql.db, mem.users)
  {
    hide Mirrors, WellFormed, UpsertUser, SeedRefused, SeedAll, Distinct;
    hide RebornMemberships, RebornPointers, Matches, NoStrayPointers, SameRows, HandlesUnique;
    SeedsMirror(users);
    sql := new SqliteUserRepository();
    mem := new InMemoryUserRepository(users);
    var i := 0;
    assert users[0..] == users;
    while i < |users|
      invariant 0 <= i <= |users| && mem.users == users
      invariant SeedAll(sql.db, users[i..]) == SeedAll(EMPTY, users)
    {
      assert users[i..][1..] == users[i + 1..];
      RefusalIsError(sql.db, users[i].slot, users[i].user);
      SeedFront(sql.db, users[i..]);
      var error := sql.InsertSeed(users[i].slot, users[i].user);
      if error.Some? {
        ok := false;
        return;
      }
      i := i + 1;
    }
    SeedFront(sql.db, []);
    assert users[i..] == [];
    ok := true;
  }

  lemma SeedFront(db: Db, users: seq<Record>)
    ensures SeedAll(db, users)
         == if users == [] then Ok(db)
            else
              match UpsertUser(db, users[0].slot, users[0].user)
              case Err(e) => Err(e)
              case Ok(next) => SeedAll(next, users[1..])
  {
  }

  // ---- Each request ----

  lemma PatchAgrees(db: Db, users: seq<Record>, slot: u32, p: UserPatch)
    requires Mirrors(db, users) && SameMeaning(db, ApplyUserPatch(slot, p))
    ensures
      var (after, answer) := SqlServe(db, ApplyUserPatch(slot, p));
      MemServe(users, ApplyUserPatch(slot, p)).1 == answer && Mirrors(after, MemServe(users, ApplyUserPatch(slot, p)).0)
  {
    hide Integrity, LoadUser, ApplyPatch, Applicable, CountersWillFit, ApplyTo;
    var apply := (s: Snapshot) => ApplyTo(s, p);
    if slot in db.users {
      PatchSucceedsIffApplicable(db, slot, p);
      SlotIsListed(users, slot);
      assert LoadUser(db, slot).Found?;
      PatchMeansTheSame(db, slot, p);
      var after := ApplyPatch(db, slot, p).value;
      forall t | t in db.users && t != slot
        ensures LoadUser(after, t) == LoadUser(db, t)
      {
        PatchTouchesOne(db, slot, p, t);
      }
      CommandAgrees(db, after, users, slot, apply);
    } else {
      assert ApplyPatch(db, slot, p) == Err(UserNotFound) by { UnknownSlotRefused(db, slot, p); }
      UnknownSlotAgrees(db, users, slot, apply);
    }
  }

  lemma UnknownSlotRefused(db: Db, slot: u32, p: UserPatch)
    requires slot !in db.users
    ensures ApplyPatch(db, slot, p) == Err(UserNotFound)
  {
  }

  /** A command that writes only the user's own row. */
  lemma RowCommandAgrees(db: Db, after: Db, users: seq<Record>, slot: u32, apply: Snapshot -> Snapshot)
    requires Mirrors(db, users) && slot in db.users && Integrity(after)
    requires slot in after.users && after == db.(users := after.users)
      && after.users == db.users[slot := after.users[slot]]
    requires after.users[slot].handle == db.users[slot].handle && after.users[slot].folded == db.users[slot].folded
    requires LoadUser(after, slot) == Found(apply(LoadUser(db, slot).user))
    ensures
      var r := Applied(users, First(users, HasSlot(slot)), apply);
      r.1 == Done && Mirrors(after, r.0)
  {
    hide Integrity, LoadUser, Applied;
    forall t | t in db.users && t != slot
      ensures LoadUser(after, t) == LoadUser(db, t)
    {
      SameRowsLoadTheSame(db, after, t);
    }
    CommandAgrees(db, after, users, slot, apply);
  }

  lemma AuthRequestAgrees(db: Db, users: seq<Record>, q: Request)
    requires Mirrors(db, users) && SameMeaning(db, q) && q.RecordAuthOutcome?
    ensures
      var (after, answer) := SqlServe(db, q);
      MemServe(users, q).1 == answer && Mirrors(after, MemServe(users, q).0)
  {
    hide LoadUser, Integrity, Fold;
    var after, slot := SqlServe(db, q).0, q.slot;
    var apply := (s: Snapshot) => ApplyAuth(s, q.outcome);
    if slot !in db.users {
      UnknownSlotAgrees(db, users, slot, apply);
    } else {
      SlotIsListed(users, slot);
      assert LoadUser(db, slot).Found?;
      ExecKeepsIntegrity(db, slot, Auth(q.outcome));
      AuthMeansTheSame(db, slot, q.outcome);
      RowCommandAgrees(db, after, users, slot, apply);
    }
  }

  lemma PasswordRequestAgrees(db: Db, users: seq<Record>, q: Request)
    requires Mirrors(db, users) && SameMeaning(db, q) && q.RecordPasswordChange?
    ensures
      var (after, answer) := SqlServe(db, q);
      MemServe(users, q).1 == answer && Mirrors(after, MemServe(users, q).0)
  {
    hide LoadUser, Integrity, Fold;
    var after, slot := SqlServe(db, q).0, q.slot;
    var apply := (s: Snapshot) => ApplyPassword(s, q.change);
    if slot !in db.users {
      UnknownSlotAgrees(db, users, slot, apply);
    } else {
      SlotIsListed(users, slot);
      assert LoadUser(db, slot).Found?;
      ExecKeepsIntegrity(db, slot, Password(q.change));
      PasswordNeedsSalt(db, slot, q.change);
      RowCommandAgrees(db, after, users, slot, apply);
    }
  }

  lemma RowRequestAgrees(db: Db, users: seq<Record>, q: Request)
    requires Mirrors(db, users) && SameMeaning(db, q) && (q.RecordAuthOutcome? || q.RecordPasswordChange?)
    ensures
      var (after, answer) := SqlServe(db, q);
      MemServe(users, q).1 == answer && Mirrors(after, MemServe(users, q).0)
  {
    hide *;
    if q.RecordAuthOutcome? { AuthRequestAgrees(db, users, q); } else { PasswordRequestAgrees(db, users, q); }
  }

  lemma AppendMirrors(db: Db, after: Db, users: seq<Record>, slot: u32, user: Snapshot)
    requires Mirrors(db, users) && Integrity(after) && slot !in db.users
    requires after.users == db.users[slot := user.user] && user.user.folded == Fold(user.user.handle)
    requires forall t | t in db.users :: LoadUser(after, t) == LoadUser(db, t)
    requires LoadUser(after, slot) == Found(user)
    ensures Mirrors(after, users + [Record(slot, user)])
  {
    hide Integrity, LoadUser, Fold;
    var r := users + [Record(slot, user)];
    assert forall i | 0 <= i < |users| :: r[i] == users[i] && users[i].slot in Slots(users);
    assert Slots(r) == Slots(users) + {slot} by {
      assert r[|users|].slot == slot;
    }
  }

  /** Registering a user under a free handle, seen from both sides. */
  lemma RegisterMirrors(db: Db, users: seq<Record>, draft: NewUserDraft, slot: u32)
    requires Mirrors(db, users) && draft.salt.Some? && slot !in db.users
    requires forall s | s in db.users :: db.users[s].folded != Fold(draft.handle)
    ensures
      var user := RegisterNew(draft).value;
      Mirrors(Db(db.users[slot := user.user], RebornMemberships(db, slot, user), RebornPointers(db, slot, user)),
              users + [Record(slot, user)])
  {
    var user := RegisterNew(draft).value;
    RegistrationUpserts(db, slot, draft);
    hide Integrity, LoadUser, Fold, UpsertUser, RebornMemberships, RebornPointers;
    var after := UpsertUser(db, slot, user).value;
    UpsertThenLoad(db, slot, user);
    UpsertKeepsIntegrity(db, slot, user);
    forall t | t in db.users
      ensures LoadUser(after, t) == LoadUser(db, t)
    {
      RebornTouchesOne(db, slot, user, t);
      SameRowsLoadTheSame(db, after, t);
    }
    AppendMirrors(db, after, users, slot, user);
  }

  lemma CreateAgrees(db: Db, users: seq<Record>, draft: NewUserDraft)
    requires Mirrors(db, users) && SameMeaning(db, Create(draft))
    ensures
      var (after, answer) := SqlServe(db, Create(draft));
      MemServe(users, Create(draft)).1 == answer && Mirrors(after, MemServe(users, Create(draft)).0)
  {
    FindAgrees(db, users, draft.handle);
    hide Integrity, LoadUser, Fold, RebornMemberships, RebornPointers;
    if (forall s | s in db.users :: db.users[s].folded != Fold(draft.handle)) && draft.salt.Some? {
      RegisterMirrors(db, users, draft, NextSlot(db.users.Keys));
    }
  }

  lemma RequestAgrees(db: Db, users: seq<Record>, q: Request)
    requires Mirrors(db, users) && SameMeaning(db, q)
    ensures
      var (after, answer) := SqlServe(db, q);
      MemServe(users, q).1 == answer && Mirrors(after, MemServe(users, q).0)
  {
    match q {
      case Create(draft) => CreateAgrees(db, users, draft);
      case FindHandle(typed) => FindAgrees(db, users, typed);
      case FindSysop =>
        if 1 in db.users {
          SlotIsListed(users, 1);
        } else {
          assert forall i | 0 <= i < |users| :: users[i].slot in Slots(users);
        }
      case ApplyUserPatch(slot, p) => PatchAgrees(db, users, slot, p);
      case _ => RowRequestAgrees(db, users, q);
    }
  }

  // ---- Every run ----

  ghost function SqlRun(db: Db, qs: seq<Request>): seq<Response>
    decreases |qs|
  {
    if qs == [] then [] else [SqlServe(db, qs[0]).1] + SqlRun(SqlServe(db, qs[0]).0, qs[1..])
  }

  /** Every request of the run means the same where it comes. */
  ghost predicate RunMeansTheSame(db: Db, qs: seq<Request>)
    decreases |qs|
  {
    qs == [] || (SameMeaning(db, qs[0]) && RunMeansTheSame(SqlServe(db, qs[0]).0, qs[1..]))
  }

  ghost predicate MemRuns(users: seq<Record>, qs: seq<Request>, answers: seq<Response>)
    decreases |qs|
  {
    if qs == [] then answers == []
    else
      && (qs[0].Create? ==> NextSlot(Slots(users)) <= U32_MAX)
      && answers != [] && answers[0] == MemServe(users, qs[0]).1
      && MemRuns(MemServe(users, qs[0]).0, qs[1..], answers[1..])
  }

  /** The two repositories give the same answers to every such run of requests. */
  lemma {:induction false} RepositoriesAgree(db: Db, users: seq<Record>, qs: seq<Request>)
    requires Mirrors(db, users) && RunMeansTheSame(db, qs)
    ensures MemRuns(users, qs, SqlRun(db, qs))
    decreases |qs|
  {
    if qs != [] {
      hide SqlServe, MemServe, Integrity, LoadUser;
      RequestAgrees(db, users, qs[0]);
      RepositoriesAgree(SqlServe(db, qs[0]).0, MemServe(users, qs[0]).0, qs[1..]);
      assert SqlRun(db, qs)[1..] == SqlRun(SqlServe(db, qs[0]).0, qs[1..]);
    }
  }

  /** So do repositories seeded with the same users. */
  lemma SeededRepositoriesAgree(users: seq<Record>, qs: seq<Request>)
    requires forall i | 0 <= i < |users| :: WellFormed(users[i].user)
    requires forall i, j | 0 <= i < j < |users| :: users[i].slot != users[j].slot
    requires SeedAll(EMPTY, users).Ok? && RunMeansTheSame(SeedAll(EMPTY, users).value, qs)
    ensures MemRuns(users, qs, SqlRun(SeedAll(EMPTY, users).value, qs))
  {
    hide Mirrors, WellFormed, RunMeansTheSame;
    SeedsMirror(users);
    RepositoriesAgree(SeedAll(EMPTY, users).value, users, qs);
  }

  /** Slots and folded handles stay distinct. */
  lemma CreateKeepsDistinct(db: Db, users: seq<Record>, draft: NewUserDraft)
    requires Mirrors(db, users) && NextSlot(db.users.Keys) <= U32_MAX
    ensures
      var after := MemServe(users, Create(draft)).0;
      forall i, j | 0 <= i < j < |after| ::
        after[i].slot != after[j].slot && Fold(after[i].user.user.handle) != Fold(after[j].user.user.handle)
  {
    CreateAgrees(db, users, draft);
    hide SqlServe, MemServe, Integrity, LoadUser;
    MirrorsDistinct(SqlServe(db, Create(draft)).0, MemServe(users, Create(draft)).0);
  }

  /** A handle is refused exactly when it is taken in some case; a new user takes the slot above the highest. */
  lemma CreateTakesNextSlot(db: Db, users: seq<Record>, draft: NewUserDraft)
    requires Mirrors(db, users) && NextSlot(db.users.Keys) <= U32_MAX
    ensures
      var answer := MemServe(users, Create(draft)).1;
      && (answer == CreateAnswer(Duplicate) <==>
            exists i | 0 <= i < |users| :: Fold(users[i].user.user.handle) == Fold(draft.handle))
      && (answer.created.Registered? ==>
            && (forall i | 0 <= i < |users| :: users[i].slot < answer.created.slot)
            && (users == [] ==> answer.created.slot == 1)
            && (users != [] ==> exists i | 0 <= i < |users| :: users[i].slot == answer.created.slot - 1))
  {
    var i := First(users, HasHandle(draft.handle));
    forall j | 0 <= j < |users|
      ensures HasHandle(draft.handle)(users[j]) <==> Fold(users[j].user.user.handle) == Fold(draft.handle)
      ensures users[j].slot in Slots(users)
    {
      FoldDecidesCase(users[j].user.user.handle, draft.handle);
    }
    hide Mirrors, Fold, EqIgnoreAsciiCase;
    assert users == [] ==> Slots(users) == {};
    assert users != [] ==> users[0].slot in Slots(users);
    assert i < |users| ==> HasHandle(draft.handle)(users[i]);
  }

  lemma MirrorsHandles(db: Db, users: seq<Record>)
    requires Mirrors(db, users)
    ensures forall i | 0 <= i < |users| ::
      users[i].slot in db.users && db.users[users[i].slot].folded == Fold(users[i].user.user.handle)
  {
    forall i | 0 <= i < |users|
      ensures users[i].slot in db.users && db.users[users[i].slot].folded == Fold(users[i].user.user.handle)
    {
      assert users[i].slot in Slots(users) && LoadUser(db, users[i].slot) == Found(users[i].user);
    }
  }

  lemma MirrorsDistinct(db: Db, users: seq<Record>)
    requires Mirrors(db, users)
    ensures forall i, j | 0 <= i < j < |users| ::
      users[i].slot != users[j].slot && Fold(users[i].user.user.handle) != Fold(users[j].user.user.handle)
  {
    MirrorsHandles(db, users);
  }
}
