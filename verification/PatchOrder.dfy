/**
  What patches of one user add up to, in whatever order sessions store them: what the accepted ones
  bring, each on the rows that are there at its turn. A patch that posts to a conference whose row is
  not there is accepted, and its posts are lost.
 */
module PatchOrder {
  import opened Basics
  import opened SqliteUsers
  import opened SqliteUserLaws

  // ---- Which patches are accepted, and what they come to ----

  /** The patches that are applicable at their turn, for a user who starts with rows for `joined`. */
  function Accepted(joined: set<u32>, ps: seq<UserPatch>): seq<UserPatch>
    decreases |ps|
  {
    if ps == [] then []
    else if CanRun(joined, ps[0].memberships) then
      [ps[0]] + Accepted(joined + Creates(ps[0].memberships), ps[1..])
    else Accepted(joined, ps[1..])
  }

  function Patches(slot: u32, ps: seq<UserPatch>): (cs: seq<(u32, Command)>)
    ensures |cs| == |ps|
  {
    if ps == [] then [] else [(slot, Patch(ps[0]))] + Patches(slot, ps[1..])
  }

  /** What a run of patches brings to a user who starts with rows for `joined`. */
  function Gain(slot: u32, joined: set<u32>, ps: seq<UserPatch>): Totals
    decreases |ps|
  {
    if ps == [] then NOTHING
    else if CanRun(joined, ps[0].memberships) then
      Join(Brings(slot, joined, ps[0]), Gain(slot, joined + Creates(ps[0].memberships), ps[1..]))
    else Gain(slot, joined, ps[1..])
  }

  function AllCreate(ps: seq<UserPatch>): set<u32> {
    if ps == [] then {} else Creates(ps[0].memberships) + AllCreate(ps[1..])
  }

  /** The rows there are after a run of patches. */
  function RowsAfter(joined: set<u32>, ps: seq<UserPatch>): set<u32> {
    joined + AllCreate(Accepted(joined, ps))
  }

  /** One patch, whether or not it is accepted. */
  lemma PatchStep(db: Db, slot: u32, p: UserPatch)
    requires Integrity(db) && slot in db.users
    ensures
      var after, joined := Exec(db, slot, Patch(p)), JoinedBy(db, slot);
      && slot in after.users
      && if CanRun(joined, p.memberships) then
           && Stored(after, slot) == Join(Stored(db, slot), Brings(slot, joined, p))
           && JoinedBy(after, slot) == joined + Creates(p.memberships)
         else after == db
  {
    hide Integrity, Stored, Join, Brings, JoinedBy, CanRun, ApplyPatch;
    PatchSucceedsIffApplicable(db, slot, p);
    if CanRun(JoinedBy(db, slot), p.memberships) { PatchJoins(db, slot, p); }
  }

  lemma GainFront(slot: u32, joined: set<u32>, p: UserPatch, rest: seq<UserPatch>, before: Totals)
    ensures Join(before, Gain(slot, joined, [p] + rest))
         == if CanRun(joined, p.memberships) then
              Join(Join(before, Brings(slot, joined, p)), Gain(slot, joined + Creates(p.memberships), rest))
            else Join(before, Gain(slot, joined, rest))
    ensures RowsAfter(joined, [p] + rest)
         == if CanRun(joined, p.memberships) then RowsAfter(joined + Creates(p.memberships), rest)
            else RowsAfter(joined, rest)
  {
    hide Join, Brings, CanRun, Creates;
    assert ([p] + rest)[1..] == rest;
    if CanRun(joined, p.memberships) {
      var next := joined + Creates(p.memberships);
      var accepted := Accepted(next, rest);
      assert ([p] + accepted)[1..] == accepted;
      JoinLaws(before, Brings(slot, joined, p), Gain(slot, next, rest));
    }
  }

  /** A patch and then a run add up to the longer run. */
  lemma GainStep(db: Db, slot: u32, p: UserPatch, rest: seq<UserPatch>)
    requires Integrity(db) && slot in db.users
    ensures
      var next := Exec(db, slot, Patch(p));
      && slot in next.users
      && Join(Stored(next, slot), Gain(slot, JoinedBy(next, slot), rest))
         == Join(Stored(db, slot), Gain(slot, JoinedBy(db, slot), [p] + rest))
      && RowsAfter(JoinedBy(next, slot), rest) == RowsAfter(JoinedBy(db, slot), [p] + rest)
  {
    hide Stored, Join, Exec, CanRun, JoinedBy, Integrity, Brings, Gain, RowsAfter;
    PatchStep(db, slot, p);
    GainFront(slot, JoinedBy(db, slot), p, rest, Stored(db, slot));
  }

  /** Any list of patches adds up to what is stored and all that the accepted ones bring at their turn. */
  lemma {:induction false} PatchesAddUp(db: Db, slot: u32, ps: seq<UserPatch>)
    requires Integrity(db) && slot in db.users
    ensures
      var after, joined := Run(db, Patches(slot, ps)), JoinedBy(db, slot);
      && slot in after.users
      && Stored(after, slot) == Join(Stored(db, slot), Gain(slot, joined, ps))
      && JoinedBy(after, slot) == RowsAfter(joined, ps)
    decreases |ps|
  {
    hide Stored, Join, Exec, JoinedBy, Integrity, Gain, RowsAfter, Run, Patches;
    if ps == [] {
      NothingGained(db, slot);
    } else {
      ExecKeepsIntegrity(db, slot, Patch(ps[0]));
      assert [ps[0]] + ps[1..] == ps;
      GainStep(db, slot, ps[0], ps[1..]);
      PatchesAddUp(Exec(db, slot, Patch(ps[0])), slot, ps[1..]);
      RunFront(db, slot, ps);
    }
  }

  lemma NothingGained(db: Db, slot: u32)
    requires slot in db.users
    ensures Run(db, Patches(slot, [])) == db
    ensures Join(Stored(db, slot), Gain(slot, JoinedBy(db, slot), [])) == Stored(db, slot)
    ensures RowsAfter(JoinedBy(db, slot), []) == JoinedBy(db, slot)
  {
    hide Stored, Join, JoinedBy;
    JoinLaws(Stored(db, slot), NOTHING, NOTHING);
  }

  lemma RunFront(db: Db, slot: u32, ps: seq<UserPatch>)
    requires ps != []
    ensures Run(db, Patches(slot, ps)) == Run(Exec(db, slot, Patch(ps[0])), Patches(slot, ps[1..]))
  {
    hide Exec;
    assert Patches(slot, ps)[1..] == Patches(slot, ps[1..]);
  }

  // ---- The posts that are lost ----

  /** All the posts a patch reports for a conference. */
  function PostsTo(ms: seq<MembershipPatch>, c: u32): nat {
    if ms == [] then 0 else (if ms[0].conference == c then ms[0].postedDelta else 0) + PostsTo(ms[1..], c)
  }

  /** Those it reports before it creates the row, if it ever does: lost unless the row is there. */
  function PostsMissed(ms: seq<MembershipPatch>, c: u32): nat {
    if ms == [] || (ms[0].conference == c && ms[0].createIfMissing) then 0
    else (if ms[0].conference == c then ms[0].postedDelta else 0) + PostsMissed(ms[1..], c)
  }

  lemma {:induction false} PostsCounted(joined: set<u32>, ms: seq<MembershipPatch>, c: u32)
    ensures CountOf(PatchPosts(joined, ms), c) + (if c in joined then 0 else PostsMissed(ms, c)) == PostsTo(ms, c)
    ensures PostsMissed(ms, c) <= PostsTo(ms, c)
    decreases |ms|
  {
    if ms != [] {
      hide JoinPosted, CountOf;
      var m, rest := ms[0], ms[1..];
      if m.conference in joined || m.createIfMissing {
        var next := joined + {m.conference};
        PostsCounted(next, rest, c);
        JoinPostedAt(map[m.conference := m.postedDelta], PatchPosts(next, rest));
        CountOfOne(m.conference, m.postedDelta, c);
      } else {
        PostsCounted(joined, rest, c);
      }
    } else {
      assert CountOf(map[], c) == 0;
    }
  }

  lemma CountOfOne(d: u32, n: nat, c: u32)
    ensures CountOf(map[d := n], c) == if c == d then n else 0
  {
  }

  function PostsOf(ps: seq<UserPatch>, c: u32): nat {
    if ps == [] then 0 else PostsTo(ps[0].memberships, c) + PostsOf(ps[1..], c)
  }

  /** The posts to `c` that accepted patches report and the database loses. */
  function Lost(joined: set<u32>, ps: seq<UserPatch>, c: u32): nat
    decreases |ps|
  {
    if ps == [] || c in joined then 0
    else if CanRun(joined, ps[0].memberships) then
      PostsMissed(ps[0].memberships, c) + Lost(joined + Creates(ps[0].memberships), ps[1..], c)
    else Lost(joined, ps[1..], c)
  }

  /** What is counted and what is lost are together what the accepted patches report. */
  lemma {:induction false} GainPosts(slot: u32, joined: set<u32>, ps: seq<UserPatch>, c: u32)
    ensures CountOf(Gain(slot, joined, ps).posted, c) + Lost(joined, ps, c) == PostsOf(Accepted(joined, ps), c)
    decreases |ps|
  {
    hide JoinPosted, CountOf, JoinMarks, CanRun, Creates, PatchPosts, PostsTo, PostsMissed, PatchMarks;
    if ps == [] {
      NothingPosted(c);
    } else {
      var p, rest := ps[0], ps[1..];
      if CanRun(joined, p.memberships) {
        var next := joined + Creates(p.memberships);
        GainPosts(slot, next, rest, c);
        PostsCounted(joined, p.memberships, c);
        JoinPostedAt(Brings(slot, joined, p).posted, Gain(slot, next, rest).posted);
        var accepted := Accepted(next, rest);
        assert ([p] + accepted)[1..] == accepted;
        if c in joined { NothingLost(next, rest, c); }
      } else {
        GainPosts(slot, joined, rest, c);
        if c in joined { NothingLost(joined, rest, c); }
      }
    }
  }

  lemma NothingPosted(c: u32)
    ensures CountOf(NOTHING.posted, c) == 0
  {
  }

  lemma NothingLost(joined: set<u32>, ps: seq<UserPatch>, c: u32)
    requires c in joined
    ensures Lost(joined, ps, c) == 0
  {
  }

  /** The stored posts and the lost ones are those stored before and those of the accepted patches. */
  lemma PostsAddUp(db: Db, slot: u32, ps: seq<UserPatch>, c: u32)
    requires Integrity(db) && slot in db.users
    ensures
      var after, joined := Run(db, Patches(slot, ps)), JoinedBy(db, slot);
      CountOf(StoredPosts(after, slot), c) + Lost(joined, ps, c)
      == CountOf(StoredPosts(db, slot), c) + PostsOf(Accepted(joined, ps), c)
  {
    hide Integrity, JoinedBy, JoinPosted, CountOf, StoredMarks, JoinMarks, Accepted, Lost, PostsOf, Run, StoredPosts;
    PatchesAddUp(db, slot, ps);
    GainPosts(slot, JoinedBy(db, slot), ps, c);
    JoinPostedAt(StoredPosts(db, slot), Gain(slot, JoinedBy(db, slot), ps).posted);
  }

  // ---- Everything else leaves them alone ----

  /** The totals that no new day resets. */
  function Lasting(t: Totals): Totals {
    t.(timesCalledToday := 0, timeUsedToday := 0)
  }

  predicate IsOwn(slot: u32, c: (u32, Command)) {
    c.0 == slot && c.1.Patch?
  }

  function OwnPatches(slot: u32, cs: seq<(u32, Command)>): seq<UserPatch> {
    if cs == [] then []
    else (if IsOwn(slot, cs[0]) then [cs[0].1.patch] else []) + OwnPatches(slot, cs[1..])
  }

  lemma SameRowsSameMarks(db: Db, after: Db, slot: u32)
    requires SameRows(db, after, slot)
    ensures JoinedBy(after, slot) == JoinedBy(db, slot) && StoredMarks(after, slot) == StoredMarks(db, slot)
    ensures StoredPosts(after, slot) == StoredPosts(db, slot)
  {
    forall c: u32
      ensures MembershipKey(slot, c) in db.memberships <==> MembershipKey(slot, c) in after.memberships
      ensures MembershipKey(slot, c) in db.memberships ==>
        after.memberships[MembershipKey(slot, c)] == db.memberships[MembershipKey(slot, c)]
    {
    }
    forall c: u32, b: u32
      ensures PointerKey(slot, c, b) in db.pointers <==> PointerKey(slot, c, b) in after.pointers
      ensures PointerKey(slot, c, b) in db.pointers ==>
        after.pointers[PointerKey(slot, c, b)] == db.pointers[PointerKey(slot, c, b)]
    {
    }
  }

  lemma OtherSlotsRows(db: Db, slot: u32, c: (u32, Command))
    requires Integrity(db) && slot in db.users && !Reseeds(slot, c) && !IsOwn(slot, c)
    ensures SameRows(db, Exec(db, c.0, c.1), slot)
  {
    hide Integrity, RebornMemberships, RebornPointers, PatchMemberships, Fold;
    match c.1
    case Patch(p) =>
      if ApplyPatch(db, c.0, p).Ok? {
        PatchMembershipsTouchOne(db.(users := db.users[c.0 := BumpRow(db.users[c.0], p)]), c.0, p.memberships, slot);
      }
    case Auth(_) =>
    case Password(_) =>
    case Seed(user) => RebornTouchesOne(db, c.0, user, slot);
    case NewUser(draft) =>
      if Register(db, draft).1.Registered? {
        RebornTouchesOne(db, Register(db, draft).1.slot, Register(db, draft).1.user, slot);
      }
  }

  lemma OthersKeepTotals(db: Db, slot: u32, c: (u32, Command))
    requires Integrity(db) && slot in db.users && !Reseeds(slot, c) && !IsOwn(slot, c)
    ensures
      var after := Exec(db, c.0, c.1);
      && slot in after.users && JoinedBy(after, slot) == JoinedBy(db, slot)
      && Lasting(Stored(after, slot)) == Lasting(Stored(db, slot))
  {
    hide Integrity, SameRows, StoredMarks, StoredPosts, JoinedBy, ApplyPatch, UpsertUser, Register;
    OtherSlotsRows(db, slot, c);
    SameRowsSameMarks(db, Exec(db, c.0, c.1), slot);
    if c.0 != slot || c.1.NewUser? {
      hide Exec;
      ExecWritesOneRow(db, c.0, c.1, slot);
    }
  }

  lemma LastingJoins(a: Totals, b: Totals, x: Totals)
    requires Lasting(a) == Lasting(b)
    ensures Lasting(Join(a, x)) == Lasting(Join(b, x))
  {
    hide JoinMarks, JoinPosted;
  }

  /**
    Logins, lockouts, password changes, registrations and all that other users do never change what
    a user's own patches add up to.
   */
  lemma {:induction false} OwnPatchesDecide(db: Db, slot: u32, cs: seq<(u32, Command)>)
    requires Integrity(db) && slot in db.users
    requires forall i | 0 <= i < |cs| :: !Reseeds(slot, cs[i])
    ensures
      var after, joined, own := Run(db, cs), JoinedBy(db, slot), OwnPatches(slot, cs);
      && slot in after.users
      && Lasting(Stored(after, slot)) == Lasting(Join(Stored(db, slot), Gain(slot, joined, own)))
      && JoinedBy(after, slot) == RowsAfter(joined, own)
    decreases |cs|
  {
    hide Stored, Join, Exec, JoinedBy, Integrity, Gain, RowsAfter, Lasting, Reseeds;
    if cs == [] {
      NothingGained(db, slot);
    } else {
      var c, rest := cs[0], cs[1..];
      var next, more := Exec(db, c.0, c.1), OwnPatches(slot, rest);
      ExecKeepsIntegrity(db, c.0, c.1);
      if IsOwn(slot, c) {
        GainStep(db, slot, c.1.patch, more);
        OwnPatchesDecide(next, slot, rest);
      } else {
        assert [] + more == more;
        OthersKeepTotals(db, slot, c);
        LastingJoins(Stored(next, slot), Stored(db, slot), Gain(slot, JoinedBy(db, slot), more));
        OwnPatchesDecide(next, slot, rest);
      }
    }
  }

  function CallsOf(ps: seq<UserPatch>): nat {
    if ps == [] then 0 else ps[0].timesCalled + CallsOf(ps[1..])
  }

  lemma {:induction false} CallsBrought(slot: u32, joined: set<u32>, ps: seq<UserPatch>)
    ensures Gain(slot, joined, ps).timesCalled == CallsOf(Accepted(joined, ps))
    decreases |ps|
  {
    hide CanRun, Creates, JoinMarks, JoinPosted, PatchMarks, PatchPosts;
    if ps != [] {
      if CanRun(joined, ps[0].memberships) {
        var next := joined + Creates(ps[0].memberships);
        CallsBrought(slot, next, ps[1..]);
        assert ([ps[0]] + Accepted(next, ps[1..]))[1..] == Accepted(next, ps[1..]);
      } else {
        CallsBrought(slot, joined, ps[1..]);
      }
    }
  }

  /** In particular the calls counted are those of the accepted patches. */
  lemma CallsAreCounted(db: Db, slot: u32, cs: seq<(u32, Command)>)
    requires Integrity(db) && slot in db.users
    requires forall i | 0 <= i < |cs| :: !Reseeds(slot, cs[i])
    ensures slot in Run(db, cs).users
    ensures Run(db, cs).users[slot].timesCalled
         == db.users[slot].timesCalled + CallsOf(Accepted(JoinedBy(db, slot), OwnPatches(slot, cs)))
  {
    hide Integrity, Gain, Accepted, RowsAfter, JoinMarks, StoredMarks, JoinPosted, StoredPosts;
    OwnPatchesDecide(db, slot, cs);
    CallsBrought(slot, JoinedBy(db, slot), OwnPatches(slot, cs));
  }

  // ---- Which patches can run, at once or ever ----

  /** The patches that can run for a user who has rows for `joined`. */
  function Ready(joined: set<u32>, ps: seq<UserPatch>): seq<UserPatch> {
    if ps == [] then []
    else (if CanRun(joined, ps[0].memberships) then [ps[0]] else []) + Ready(joined, ps[1..])
  }

  function NotReady(joined: set<u32>, ps: seq<UserPatch>): (rest: seq<UserPatch>)
    ensures |rest| + |Ready(joined, ps)| == |ps|
  {
    if ps == [] then []
    else (if CanRun(joined, ps[0].memberships) then [] else [ps[0]]) + NotReady(joined, ps[1..])
  }

  /** All the rows that come to be if the patches that are ready run first, over and over. */
  function Reach(joined: set<u32>, ps: seq<UserPatch>): (reach: set<u32>)
    ensures joined <= reach
    decreases |ps|
  {
    if Ready(joined, ps) == [] then joined
    else Reach(joined + AllCreate(Ready(joined, ps)), NotReady(joined, ps))
  }

  lemma CanRunMonotone(joined: set<u32>, more: set<u32>, ms: seq<MembershipPatch>)
    requires joined <= more && CanRun(joined, ms)
    ensures CanRun(more, ms)
  {
    assert forall i | 0 <= i < |ms| :: HasRow(joined, ms, i) ==> HasRow(more, ms, i);
  }

  /** No patch that can run with the rows of `all` creates any other. */
  ghost predicate Closed(all: set<u32>, ps: seq<UserPatch>) {
    forall i | 0 <= i < |ps| :: CanRun(all, ps[i].memberships) ==> Creates(ps[i].memberships) <= all
  }

  lemma {:induction false} ReadyIsPart(joined: set<u32>, ps: seq<UserPatch>)
    ensures forall p :: p in Ready(joined, ps) <==> p in ps && CanRun(joined, p.memberships)
    ensures forall p :: p in NotReady(joined, ps) <==> p in ps && !CanRun(joined, p.memberships)
  {
    hide CanRun;
    if ps != [] {
      ReadyIsPart(joined, ps[1..]);
      assert ps == [ps[0]] + ps[1..];
    }
  }

  /** Every patch is in one of the two parts, as often as in the whole. */
  lemma {:induction false} ReadySplits(joined: set<u32>, ps: seq<UserPatch>)
    ensures multiset(ps) == multiset(Ready(joined, ps)) + multiset(NotReady(joined, ps))
  {
    hide CanRun;
    if ps != [] {
      assert ps == [ps[0]] + ps[1..];
      ReadySplits(joined, ps[1..]);
    }
  }

  /** What is ready later is what is ready now and what of the rest becomes so. */
  lemma {:induction false} ReadyGrows(joined: set<u32>, all: set<u32>, ps: seq<UserPatch>)
    requires joined <= all
    ensures multiset(Ready(all, ps)) == multiset(Ready(joined, ps)) + multiset(Ready(all, NotReady(joined, ps)))
    decreases |ps|
  {
    if ps != [] {
      hide CanRun, Ready, NotReady;
      var p, rest := ps[0], ps[1..];
      assert [p] + rest == ps;
      ReadyGrows(joined, all, rest);
      ReadyFront(joined, p, rest);
      ReadyFront(all, p, rest);
      ReadyFront(all, p, NotReady(joined, rest));
      if CanRun(joined, p.memberships) { CanRunMonotone(joined, all, p.memberships); }
    }
  }

  lemma ReadyFront(joined: set<u32>, p: UserPatch, rest: seq<UserPatch>)
    ensures multiset(Ready(joined, [p] + rest))
         == (if CanRun(joined, p.memberships) then multiset{p} else multiset{}) + multiset(Ready(joined, rest))
    ensures NotReady(joined, [p] + rest)
         == if CanRun(joined, p.memberships) then NotReady(joined, rest) else [p] + NotReady(joined, rest)
  {
    assert ([p] + rest)[1..] == rest;
  }

  lemma {:induction false} CreatedByOne(ps: seq<UserPatch>, p: UserPatch)
    requires p in ps
    ensures Creates(p.memberships) <= AllCreate(ps)
  {
    hide Creates;
    if p != ps[0] { CreatedByOne(ps[1..], p); }
  }

  lemma {:induction false} ReachIsClosed(joined: set<u32>, ps: seq<UserPatch>)
    ensures Closed(Reach(joined, ps), ps)
    decreases |ps|
  {
    hide CanRun, Creates, Ready, NotReady;
    var now, later, all := Ready(joined, ps), NotReady(joined, ps), Reach(joined, ps);
    ReadyIsPart(joined, ps);
    if now != [] {
      ReachIsClosed(joined + AllCreate(now), later);
    }
    forall i | 0 <= i < |ps| && CanRun(all, ps[i].memberships)
      ensures Creates(ps[i].memberships) <= all
    {
      if ps[i] in now {
        CreatedByOne(now, ps[i]);
      } else {
        assert ps[i] in later;
      }
    }
  }

  /** The rows that are ever reached are no more than any closed set has. */
  lemma {:induction false} ReachWithin(joined: set<u32>, all: set<u32>, ps: seq<UserPatch>)
    requires joined <= all && Closed(all, ps)
    ensures Reach(joined, ps) <= all
    decreases |ps|
  {
    hide CanRun, Creates, Ready, NotReady;
    var now, later := Ready(joined, ps), NotReady(joined, ps);
    if now != [] {
      ReadyIsPart(joined, ps);
      forall p | p in now
        ensures Creates(p.memberships) <= all
      {
        CanRunMonotone(joined, all, p.memberships);
        var i :| 0 <= i < |ps| && ps[i] == p;
      }
      CreatedWithin(now, all);
      forall i | 0 <= i < |later| && CanRun(all, later[i].memberships)
        ensures Creates(later[i].memberships) <= all
      {
        assert later[i] in ps;
        var j :| 0 <= j < |ps| && ps[j] == later[i];
      }
      ReachWithin(joined + AllCreate(now), all, later);
    }
  }

  lemma {:induction false} CreatedWithin(ps: seq<UserPatch>, all: set<u32>)
    requires forall p | p in ps :: Creates(p.memberships) <= all
    ensures AllCreate(ps) <= all
  {
    hide Creates;
    if ps != [] { CreatedWithin(ps[1..], all); }
  }

  // ---- The orders that accept least and most ----

  /** Patches that can all run are all accepted, and then the rest is decided. */
  lemma {:induction false} ReadyFirst(joined: set<u32>, now: seq<UserPatch>, later: seq<UserPatch>)
    requires forall p | p in now :: CanRun(joined, p.memberships)
    ensures Accepted(joined, now + later) == now + Accepted(joined + AllCreate(now), later)
    decreases |now|
  {
    hide CanRun, Creates;
    if now == [] {
      assert now + later == later && joined + {} == joined;
    } else {
      var p, rest := now[0], now[1..];
      assert (now + later)[1..] == rest + later;
      var next := joined + Creates(p.memberships);
      forall q | q in rest
        ensures CanRun(next, q.memberships)
      {
        CanRunMonotone(joined, next, q.memberships);
      }
      ReadyFirst(next, rest, later);
      assert next + AllCreate(rest) == joined + AllCreate(now);
      assert [p] + (rest + Accepted(joined + AllCreate(now), later)) == now + Accepted(joined + AllCreate(now), later);
    }
  }

  lemma {:induction false} RefusedFirst(joined: set<u32>, refused: seq<UserPatch>, later: seq<UserPatch>)
    requires forall p | p in refused :: !CanRun(joined, p.memberships)
    ensures Accepted(joined, refused + later) == Accepted(joined, later)
    decreases |refused|
  {
    hide CanRun;
    if refused == [] {
      assert refused + later == later;
    } else {
      assert (refused + later)[1..] == refused[1..] + later;
      RefusedFirst(joined, refused[1..], later);
    }
  }

  /** Whatever is ready first, then whatever that made ready, and so on. */
  function BestOrder(joined: set<u32>, ps: seq<UserPatch>): seq<UserPatch>
    decreases |ps|
  {
    var now := Ready(joined, ps);
    if now == [] then ps else now + BestOrder(joined + AllCreate(now), NotReady(joined, ps))
  }

  lemma {:induction false} BestOrderReaches(joined: set<u32>, ps: seq<UserPatch>)
    ensures multiset(BestOrder(joined, ps)) == multiset(ps)
    ensures multiset(Accepted(joined, BestOrder(joined, ps))) == multiset(Ready(Reach(joined, ps), ps))
    decreases |ps|
  {
    hide CanRun;
    var now, later, all := Ready(joined, ps), NotReady(joined, ps), Reach(joined, ps);
    ReadyIsPart(joined, ps);
    ReadySplits(joined, ps);
    ReadyGrows(joined, all, ps);
    if now == [] {
      assert all == joined;
      RefusedFirst(joined, ps, []);
      assert ps + [] == ps;
    } else {
      var next := joined + AllCreate(now);
      BestOrderReaches(next, later);
      ReadyFirst(joined, now, BestOrder(next, later));
    }
  }

  /** The refused first: only what is ready at the start is accepted. */
  lemma WorstOrder(joined: set<u32>, ps: seq<UserPatch>)
    ensures
      var worst := NotReady(joined, ps) + Ready(joined, ps);
      multiset(worst) == multiset(ps) && Accepted(joined, worst) == Ready(joined, ps)
  {
    hide CanRun;
    var now := Ready(joined, ps);
    ReadyIsPart(joined, ps);
    ReadySplits(joined, ps);
    RefusedFirst(joined, NotReady(joined, ps), now);
    ReadyFirst(joined, now, []);
    assert now + [] == now;
  }

  // ---- How far orders can differ ----

  /** What the patches bring if each finds the rows of `joined`. */
  function AllBring(slot: u32, joined: set<u32>, ps: seq<UserPatch>): Totals {
    if ps == [] then NOTHING else Join(Brings(slot, joined, ps[0]), AllBring(slot, joined, ps[1..]))
  }

  lemma RemoveSame<T>(xs: seq<T>, ys: seq<T>, i: nat)
    requires xs != [] && i < |ys| && ys[i] == xs[0] && multiset(xs) == multiset(ys)
    ensures multiset(xs[1..]) == multiset(ys[..i] + ys[i + 1..])
  {
    assert xs == [xs[0]] + xs[1..];
    assert ys == ys[..i] + [ys[i]] + ys[i + 1..];
    assert multiset(xs[1..]) == multiset(xs) - multiset{xs[0]};
    assert multiset(ys[..i] + ys[i + 1..]) == multiset(ys) - multiset{ys[i]};
  }

  lemma {:induction false} BringInAnyOrder(slot: u32, joined: set<u32>, ps: seq<UserPatch>, i: nat)
    requires i < |ps|
    ensures AllBring(slot, joined, ps)
         == Join(Brings(slot, joined, ps[i]), AllBring(slot, joined, ps[..i] + ps[i + 1..]))
  {
    if i == 0 {
      assert ps[..0] + ps[1..] == ps[1..];
    } else {
      hide Join, Brings;
      var rest := ps[1..];
      BringInAnyOrder(slot, joined, rest, i - 1);
      var without := ps[..i] + ps[i + 1..];
      assert without[1..] == rest[..i - 1] + rest[i..];
      var first, x := Brings(slot, joined, ps[0]), Brings(slot, joined, ps[i]);
      var others := AllBring(slot, joined, without[1..]);
      JoinLaws(first, x, others);
      JoinLaws(x, first, others);
    }
  }

  lemma {:induction false} AllBringPermutes(slot: u32, joined: set<u32>, ps: seq<UserPatch>, qs: seq<UserPatch>)
    requires multiset(ps) == multiset(qs)
    ensures AllBring(slot, joined, ps) == AllBring(slot, joined, qs)
    decreases |ps|
  {
    if ps == [] {
      assert |multiset(qs)| == |qs|;
    } else {
      assert ps[0] in multiset(qs);
      hide Join, Brings;
      var i :| 0 <= i < |qs| && qs[i] == ps[0];
      var without := qs[..i] + qs[i + 1..];
      BringInAnyOrder(slot, joined, qs, i);
      RemoveSame(ps, qs, i);
      AllBringPermutes(slot, joined, ps[1..], without);
    }
  }

  /** `b` is `a` and something more, possibly nothing. */
  ghost predicate Extends(a: Totals, b: Totals) {
    exists c :: Join(a, c) == b
  }

  lemma ExtendsLaws(a: Totals, b: Totals, x: Totals)
    ensures Extends(a, a)
    ensures Extends(a, b) ==> Extends(Join(x, a), Join(x, b)) && Extends(a, Join(x, b))
  {
    hide Join, NOTHING;
    JoinLaws(a, NOTHING, NOTHING);
    if c :| Join(a, c) == b {
      JoinLaws(x, a, c);
      JoinLaws(a, c, x);
      JoinLaws(b, x, x);
    }
  }

  lemma ExtendsBoth(a: Totals, b: Totals, x: Totals, y: Totals)
    requires Extends(a, b) && Extends(x, y)
    ensures Extends(Join(x, a), Join(y, b))
  {
    hide Join;
    var c :| Join(a, c) == b;
    var d :| Join(x, d) == y;
    calc {
      Join(y, b);
      Join(Join(x, d), Join(a, c));
      { JoinLaws(x, d, Join(a, c)); }
      Join(x, Join(d, Join(a, c)));
      { JoinLaws(d, Join(a, c), c); JoinLaws(a, c, d); }
      Join(x, Join(a, Join(c, d)));
      { JoinLaws(x, a, Join(c, d)); }
      Join(Join(x, a), Join(c, d));
    }
  }

  function Minus(a: map<u32, nat>, b: map<u32, nat>): map<u32, nat> {
    map c | c in a :: if CountOf(a, c) >= CountOf(b, c) then CountOf(a, c) - CountOf(b, c) else 0
  }

  lemma MinusAdds(a: map<u32, nat>, b: map<u32, nat>)
    requires b.Keys <= a.Keys && forall c :: CountOf(b, c) <= CountOf(a, c)
    ensures JoinPosted(b, Minus(a, b)) == a
  {
    JoinPostedAt(b, Minus(a, b));
    assert forall c :: CountOf(Minus(a, b), c) == CountOf(a, c) - CountOf(b, c);
    hide JoinPosted;
    SamePosts(JoinPosted(b, Minus(a, b)), a);
  }

  lemma {:induction false} PostsMonotone(joined: set<u32>, more: set<u32>, ms: seq<MembershipPatch>)
    requires joined <= more
    ensures PatchPosts(joined, ms).Keys <= PatchPosts(more, ms).Keys
    decreases |ms|
  {
    if ms != [] {
      var m, rest := ms[0], ms[1..];
      if m.conference in joined || m.createIfMissing {
        PostsMonotone(joined + {m.conference}, more + {m.conference}, rest);
      } else if m.conference in more {
        PostsMonotone(joined, more + {m.conference}, rest);
      } else {
        PostsMonotone(joined, more, rest);
      }
    }
  }

  /** With more rows there a patch brings no less. */
  lemma BringsMore(slot: u32, joined: set<u32>, more: set<u32>, p: UserPatch)
    requires joined <= more
    ensures Extends(Brings(slot, joined, p), Brings(slot, more, p))
  {
    var a, b := PatchPosts(more, p.memberships), PatchPosts(joined, p.memberships);
    PostsMonotone(joined, more, p.memberships);
    forall c
      ensures CountOf(b, c) <= CountOf(a, c)
    {
      PostsCounted(joined, p.memberships, c);
      PostsCounted(more, p.memberships, c);
    }
    hide PatchPosts, CountOf, JoinPosted, JoinMarks, PatchMarks, Minus;
    MinusAdds(a, b);
    JoinMarksCommutes(PatchMarks(slot, p.memberships), map[]);
    var c := Totals(0, 0, 0, 0, None, map[], Minus(a, b));
    assert Join(Brings(slot, joined, p), c) == Brings(slot, more, p);
  }

  /** Whatever the order, at least what is ready at the start is accepted, and at most what ever can run. */
  lemma {:induction false} AcceptedBetween(
      slot: u32, start: set<u32>, joined: set<u32>, all: set<u32>, ps: seq<UserPatch>)
    requires start <= joined <= all && Closed(all, ps)
    ensures Extends(AllBring(slot, start, Ready(start, ps)), Gain(slot, joined, ps))
    ensures Extends(Gain(slot, joined, ps), AllBring(slot, all, Ready(all, ps)))
    decreases |ps|
  {
    hide Join, Brings, CanRun, Extends, Creates, NOTHING;
    if ps == [] {
      ExtendsLaws(NOTHING, NOTHING, NOTHING);
    } else {
      var p, rest := ps[0], ps[1..];
      var accepted := CanRun(joined, p.memberships);
      if CanRun(start, p.memberships) { CanRunMonotone(start, joined, p.memberships); }
      if accepted { CanRunMonotone(joined, all, p.memberships); }
      var next := if accepted then joined + Creates(p.memberships) else joined;
      AcceptedBetween(slot, start, next, all, rest);
      var low, mid, high := Ready(start, rest), Gain(slot, next, rest), Ready(all, rest);
      assert ([p] + low)[1..] == low && ([p] + high)[1..] == high;
      assert [] + low == low && [] + high == high;
      BringsMore(slot, start, joined, p);
      BringsMore(slot, joined, all, p);
      ExtendsBoth(AllBring(slot, start, low), mid, Brings(slot, start, p), Brings(slot, joined, p));
      ExtendsBoth(mid, AllBring(slot, all, high), Brings(slot, joined, p), Brings(slot, all, p));
      ExtendsLaws(AllBring(slot, start, low), mid, Brings(slot, joined, p));
      ExtendsLaws(mid, AllBring(slot, all, high), Brings(slot, all, p));
    }
  }

  lemma {:induction false} ReadyCount(joined: set<u32>, ps: seq<UserPatch>, p: UserPatch)
    ensures multiset(Ready(joined, ps))[p] == if CanRun(joined, p.memberships) then multiset(ps)[p] else 0
  {
    hide CanRun;
    if ps != [] {
      hide Ready, NotReady;
      assert ps == [ps[0]] + ps[1..];
      ReadyFront(joined, ps[0], ps[1..]);
      ReadyCount(joined, ps[1..], p);
    }
  }

  lemma ReadyPermutes(joined: set<u32>, ps: seq<UserPatch>, qs: seq<UserPatch>)
    requires multiset(ps) == multiset(qs)
    ensures multiset(Ready(joined, ps)) == multiset(Ready(joined, qs))
  {
    hide CanRun, Ready;
    forall p: UserPatch
      ensures multiset(Ready(joined, ps))[p] == multiset(Ready(joined, qs))[p]
    {
      ReadyCount(joined, ps, p);
      ReadyCount(joined, qs, p);
    }
  }

  ghost function StoredAfter(db: Db, slot: u32, ps: seq<UserPatch>): Totals
    requires Integrity(db) && slot in db.users
  {
    PatchesAddUp(db, slot, ps);
    Stored(Run(db, Patches(slot, ps)), slot)
  }

  /** What is stored once the patches of `accepted` have been, each finding the rows of `rows`. */
  function With(db: Db, slot: u32, rows: set<u32>, accepted: seq<UserPatch>): Totals
    requires slot in db.users
  {
    Join(Stored(db, slot), AllBring(slot, rows, accepted))
  }

  lemma ClosedPermutes(all: set<u32>, ps: seq<UserPatch>, qs: seq<UserPatch>)
    requires Closed(all, ps) && multiset(qs) == multiset(ps)
    ensures Closed(all, qs)
  {
    hide CanRun, Creates;
    forall i | 0 <= i < |qs| && CanRun(all, qs[i].memberships)
      ensures Creates(qs[i].memberships) <= all
    {
      assert qs[i] in multiset(ps);
      var j :| 0 <= j < |ps| && ps[j] == qs[i];
    }
  }

  /** Every order stores at least what is ready at once brings, and at most what can ever run does, all rows there. */
  lemma OrderBounds(db: Db, slot: u32, ps: seq<UserPatch>, qs: seq<UserPatch>)
    requires Integrity(db) && slot in db.users && multiset(qs) == multiset(ps)
    ensures
      var joined := JoinedBy(db, slot);
      var all := Reach(joined, ps);
      && Extends(With(db, slot, joined, Ready(joined, ps)), StoredAfter(db, slot, qs))
      && Extends(StoredAfter(db, slot, qs), With(db, slot, all, Ready(all, ps)))
  {
    hide Integrity, Stored, Join, Extends, CanRun, JoinedBy, Run, Closed;
    var joined := JoinedBy(db, slot);
    var all := Reach(joined, ps);
    ReachIsClosed(joined, ps);
    ClosedPermutes(all, ps, qs);
    AcceptedBetween(slot, joined, joined, all, qs);
    ReadyPermutes(joined, ps, qs);
    ReadyPermutes(all, ps, qs);
    AllBringPermutes(slot, joined, Ready(joined, ps), Ready(joined, qs));
    AllBringPermutes(slot, all, Ready(all, ps), Ready(all, qs));
    PatchesAddUp(db, slot, qs);
    var mid := Gain(slot, joined, qs);
    ExtendsLaws(AllBring(slot, joined, Ready(joined, qs)), mid, Stored(db, slot));
    ExtendsLaws(mid, AllBring(slot, all, Ready(all, qs)), Stored(db, slot));
  }
}
