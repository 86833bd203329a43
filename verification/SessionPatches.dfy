/**
  The patches that sessions really store: each the difference between a user loaded at some earlier
  point of the run and what the session made of it. None is refused and none of its posts is lost,
  so the order in which sessions store them does not show.
 */
module SessionPatches {
  import opened Basics
  import opened SqliteUsers
  import opened SqliteUserLaws
  import opened UserCommands
  import opened UserDiff
  import opened PatchOrder
  import opened PatchesAgree

  /** Command `i` stores what a session made of the user it had loaded before command `l`. */
  ghost predicate SavedFrom(
      db: Db, slot: u32, cs: seq<(u32, Command)>, i: nat, l: nat, base: Snapshot, now: Snapshot, o: Order)
  {
    && l <= i < |cs| && cs[i].1.Patch?
    && LoadUser(Run(db, cs[..l]), slot) == Found(base)
    && Readable(now) && Lists(o, now) && cs[i].1.patch == Between(base, now, o)
  }

  ghost predicate Saved(db: Db, slot: u32, cs: seq<(u32, Command)>, i: nat) {
    exists l: nat, base, now, o :: SavedFrom(db, slot, cs, i, l, base, now, o)
  }

  /** A run in which all patches of the user come from sessions, and the user is not seeded again. */
  ghost predicate SessionRun(db: Db, slot: u32, cs: seq<(u32, Command)>) {
    && (forall i | 0 <= i < |cs| :: !Reseeds(slot, cs[i]))
    && (forall i | 0 <= i < |cs| && IsOwn(slot, cs[i]) :: Saved(db, slot, cs, i))
  }

  // ---- Such a patch stands on rows that are there or its own ----

  predicate Firm(joined: set<u32>, ms: seq<MembershipPatch>) {
    forall i | 0 <= i < |ms| :: Ordered(ms[i].pointers) && (ms[i].conference in joined || ms[i].createIfMissing)
  }

  lemma BetweenIsFirm(joined: set<u32>, base: Snapshot, now: Snapshot, o: Order)
    requires Readable(now) && Lists(o, now) && base.memberships.Keys <= joined
    ensures Firm(joined, Between(base, now, o).memberships)
  {
    var ms := MembershipPatches(o.conferences, base.memberships, now.memberships, o);
    MembershipPatchesSound(o.conferences, base.memberships, now.memberships, o);
    forall i | 0 <= i < |ms|
      ensures Ordered(ms[i].pointers) && (ms[i].conference in joined || ms[i].createIfMissing)
    {
      assert SoundPatch(ms[i], o.conferences, base.memberships);
    }
  }

  lemma {:induction false} FirmMissesNothing(joined: set<u32>, ms: seq<MembershipPatch>, c: u32)
    requires Firm(joined, ms) && c !in joined
    ensures PostsMissed(ms, c) == 0
  {
    if ms != [] {
      assert Firm(joined, ms[1..]) by {
        assert forall i | 0 <= i < |ms[1..]| :: ms[1..][i] == ms[i + 1];
      }
      FirmMissesNothing(joined, ms[1..], c);
    }
  }

  lemma FirmPatch(joined: set<u32>, p: UserPatch, c: u32)
    requires Firm(joined, p.memberships)
    ensures Accepted(joined, [p]) == [p] && Lost(joined, [p], c) == 0
  {
    assert CanRun(joined, p.memberships) by {
      forall i | 0 <= i < |p.memberships|
        ensures HasRow(joined, p.memberships, i)
      {
      }
    }
    hide CanRun, PostsMissed, Creates;
    assert [p][1..] == [];
    if c !in joined { FirmMissesNothing(joined, p.memberships, c); }
  }

  // ---- Rows are never deleted ----

  lemma {:induction false} RunConcat(db: Db, cs: seq<(u32, Command)>, ds: seq<(u32, Command)>)
    ensures Run(db, cs + ds) == Run(Run(db, cs), ds)
    decreases |cs|
  {
    hide Exec;
    if cs == [] {
      assert cs + ds == ds;
    } else {
      assert (cs + ds)[1..] == cs[1..] + ds;
      RunConcat(Exec(db, cs[0].0, cs[0].1), cs[1..], ds);
    }
  }

  lemma RowsStay(db: Db, slot: u32, cs: seq<(u32, Command)>, l: nat, i: nat)
    requires Integrity(db) && slot in db.users && l <= i <= |cs|
    requires forall k | 0 <= k < |cs| :: !Reseeds(slot, cs[k])
    ensures slot in Run(db, cs[..l]).users && slot in Run(db, cs[..i]).users
    ensures JoinedBy(Run(db, cs[..l]), slot) <= JoinedBy(Run(db, cs[..i]), slot)
  {
    hide Integrity, Run, JoinedBy, Stored, Lasting, Gain, Reseeds, Accepted;
    var early, between := cs[..l], cs[l..i];
    assert early + between == cs[..i];
    RunConcat(db, early, between);
    RunKeepsIntegrity(db, early);
    OwnPatchesDecide(db, slot, early);
    OwnPatchesDecide(Run(db, early), slot, between);
  }

  lemma LoadedRows(db: Db, slot: u32, s: Snapshot)
    requires LoadUser(db, slot) == Found(s)
    ensures s.memberships.Keys == JoinedBy(db, slot)
  {
    hide Readable;
    ViewMatches(db, slot);
    forall c: u32
      ensures c in s.memberships <==> c in JoinedBy(db, slot)
    {
      assert MembershipMatches(db, slot, s.memberships, c);
      assert MembershipKey(slot, c).conference == c;
    }
  }

  lemma SessionPatchIsFirm(db: Db, slot: u32, cs: seq<(u32, Command)>, i: nat)
    requires Integrity(db) && slot in db.users && SessionRun(db, slot, cs) && i < |cs| && IsOwn(slot, cs[i])
    ensures slot in Run(db, cs[..i]).users
    ensures Firm(JoinedBy(Run(db, cs[..i]), slot), cs[i].1.patch.memberships)
  {
    hide Integrity, JoinedBy, Run, LoadUser, Readable, Lists, Between, Firm, Reseeds;
    assert Saved(db, slot, cs, i);
    var l: nat, base, now, o :| SavedFrom(db, slot, cs, i, l, base, now, o);
    RowsStay(db, slot, cs, l, i);
    LoadedRows(Run(db, cs[..l]), slot, base);
    BetweenIsFirm(JoinedBy(Run(db, cs[..i]), slot), base, now, o);
  }

  // ---- So nothing is refused and nothing is lost ----

  lemma {:induction false} OwnConcat(slot: u32, cs: seq<(u32, Command)>, ds: seq<(u32, Command)>)
    ensures OwnPatches(slot, cs + ds) == OwnPatches(slot, cs) + OwnPatches(slot, ds)
  {
    if cs == [] {
      assert cs + ds == ds;
    } else {
      hide IsOwn;
      assert (cs + ds)[1..] == cs[1..] + ds && (cs + ds)[0] == cs[0];
      OwnConcat(slot, cs[1..], ds);
      var rest, more := OwnPatches(slot, cs[1..]), OwnPatches(slot, ds);
      assert forall own: seq<UserPatch> :: own + (rest + more) == (own + rest) + more;
    }
  }

  lemma OwnSnoc(slot: u32, cs: seq<(u32, Command)>, k: nat)
    requires k < |cs|
    ensures OwnPatches(slot, cs[..k + 1])
         == OwnPatches(slot, cs[..k]) + if IsOwn(slot, cs[k]) then [cs[k].1.patch] else []
  {
    assert cs[..k + 1] == cs[..k] + [cs[k]];
    OwnConcat(slot, cs[..k], [cs[k]]);
    var one := [cs[k]];
    assert one[1..] == [];
  }

  lemma {:induction false} AcceptedSoFar(db: Db, slot: u32, cs: seq<(u32, Command)>, k: nat, c: u32)
    requires Integrity(db) && slot in db.users && SessionRun(db, slot, cs) && k <= |cs|
    ensures
      var joined, own := JoinedBy(db, slot), OwnPatches(slot, cs[..k]);
      Accepted(joined, own) == own && Lost(joined, own, c) == 0
    decreases k
  {
    hide Integrity, JoinedBy, Run, SessionRun, Firm, RowsAfter;
    var joined := JoinedBy(db, slot);
    if k > 0 {
      hide Lost, Accepted, OwnPatches;
      var i, own := k - 1, OwnPatches(slot, cs[..k - 1]);
      AcceptedSoFar(db, slot, cs, i, c);
      OwnSnoc(slot, cs, i);
      if IsOwn(slot, cs[i]) {
        SessionPatchIsFirm(db, slot, cs, i);
        RowsSoFar(db, slot, cs, i);
        LostConcat(joined, own, [cs[i].1.patch], c);
        FirmPatch(RowsAfter(joined, own), cs[i].1.patch, c);
      } else {
        assert own + [] == own;
      }
    }
  }

  lemma RowsSoFar(db: Db, slot: u32, cs: seq<(u32, Command)>, i: nat)
    requires Integrity(db) && slot in db.users && SessionRun(db, slot, cs) && i <= |cs|
    ensures JoinedBy(Run(db, cs[..i]), slot) == RowsAfter(JoinedBy(db, slot), OwnPatches(slot, cs[..i]))
  {
    hide Integrity, JoinedBy, Run, RowsAfter, Stored, Gain, Lasting, Reseeds, OwnPatches;
    OwnPatchesDecide(db, slot, cs[..i]);
  }

  /** Every patch of a session is applicable at its turn, and every post it reports is counted. */
  lemma SessionsLoseNothing(db: Db, slot: u32, cs: seq<(u32, Command)>, c: u32)
    requires Integrity(db) && slot in db.users && SessionRun(db, slot, cs)
    ensures Accepted(JoinedBy(db, slot), OwnPatches(slot, cs)) == OwnPatches(slot, cs)
    ensures CountOf(StoredPosts(Run(db, cs), slot), c)
         == CountOf(StoredPosts(db, slot), c) + PostsOf(OwnPatches(slot, cs), c)
  {
    var joined, own := JoinedBy(db, slot), OwnPatches(slot, cs);
    assert cs[..|cs|] == cs;
    AcceptedSoFar(db, slot, cs, |cs|, c);
    OwnPatchesDecide(db, slot, cs);
    GainPosts(slot, joined, own, c);
    hide Integrity, JoinedBy, Run, RowsAfter, Gain, OwnPatches, SessionRun, StoredPosts, StoredMarks, CountOf;
    hide JoinMarks, JoinPosted, Accepted, Lost, PostsOf;
    JoinPostedAt(StoredPosts(db, slot), Gain(slot, joined, own).posted);
  }

  /**
    Sessions agree: two runs in which they store the same patches, in any order that their loads
    allow and with anything else in between, leave the same totals, post counters included.
   */
  lemma SessionOrderDoesNotMatter(db: Db, slot: u32, cs: seq<(u32, Command)>, ds: seq<(u32, Command)>)
    requires Integrity(db) && slot in db.users && SessionRun(db, slot, cs) && SessionRun(db, slot, ds)
    requires multiset(OwnPatches(slot, cs)) == multiset(OwnPatches(slot, ds))
    ensures slot in Run(db, cs).users && slot in Run(db, ds).users
    ensures Lasting(Stored(Run(db, cs), slot)) == Lasting(Stored(Run(db, ds), slot))
  {
    var joined, own, owd := JoinedBy(db, slot), OwnPatches(slot, cs), OwnPatches(slot, ds);
    SessionParts(db, slot, cs);
    SessionParts(db, slot, ds);
    hide Integrity, JoinedBy, Run, OwnPatches, SessionRun, Stored, AllBring, Lasting, Merged, CountOf, AllCreate, Join;
    AllBringPermutes(slot, {}, own, owd);
    CreatePermutes(own, owd);
    var a, b := Lasting(Stored(Run(db, cs), slot)), Lasting(Stored(Run(db, ds), slot));
    forall c
      ensures CountOf(a.posted, c) == CountOf(b.posted, c)
    {
      SessionsLoseNothing(db, slot, cs, c);
      SessionsLoseNothing(db, slot, ds, c);
      PostsOfPermutes(own, owd, c);
      LastingPosts(Run(db, cs), slot);
      LastingPosts(Run(db, ds), slot);
    }
    SameParts(a, b);
  }

  lemma LastingPosts(db: Db, slot: u32)
    requires slot in db.users
    ensures Lasting(Stored(db, slot)).posted == StoredPosts(db, slot)
  {
  }

  lemma SessionParts(db: Db, slot: u32, cs: seq<(u32, Command)>)
    requires Integrity(db) && slot in db.users && SessionRun(db, slot, cs)
    ensures slot in Run(db, cs).users
    ensures
      var t, own := Lasting(Stored(Run(db, cs), slot)), OwnPatches(slot, cs);
      && Merged(t) == Merged(Lasting(Join(Stored(db, slot), AllBring(slot, {}, own))))
      && t.posted.Keys == JoinedBy(db, slot) + AllCreate(own)
  {
    var joined, own := JoinedBy(db, slot), OwnPatches(slot, cs);
    SessionsLoseNothing(db, slot, cs, 0);
    OwnPatchesDecide(db, slot, cs);
    GainMerged(slot, joined, {}, own);
    MergedJoin(Stored(db, slot), Gain(slot, joined, own), AllBring(slot, {}, own));
    LastingPosts(Run(db, cs), slot);
    RowOfPost(Run(db, cs), slot, 0);
    hide Integrity, JoinedBy, Run, Gain, OwnPatches, SessionRun, Stored, StoredPosts, AllBring, CountOf, AllCreate;
    hide Join, Accepted;
  }
}
