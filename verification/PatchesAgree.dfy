/**
  Exactly when sessions that store their patches in different orders leave the same totals, the post
  counters of the conferences included.
 */
module PatchesAgree {
  import opened Basics
  import opened SqliteUsers
  import opened SqliteUserLaws
  import opened PatchOrder

  ghost predicate OrdersAgree(db: Db, slot: u32, ps: seq<UserPatch>)
    requires Integrity(db) && slot in db.users
  {
    forall qs | multiset(qs) == multiset(ps) :: StoredAfter(db, slot, qs) == StoredAfter(db, slot, ps)
  }

  /** Everything but the post counters. */
  function Merged(t: Totals): Totals {
    t.(posted := map[])
  }

  // ---- Sums of posts ----

  lemma {:induction false} PostsOfWithout(ps: seq<UserPatch>, i: nat, c: u32)
    requires i < |ps|
    ensures PostsOf(ps, c) == PostsTo(ps[i].memberships, c) + PostsOf(ps[..i] + ps[i + 1..], c)
  {
    hide PostsTo;
    if i == 0 {
      assert ps[..0] + ps[1..] == ps[1..];
    } else {
      PostsOfWithout(ps[1..], i - 1, c);
      var without := ps[..i] + ps[i + 1..];
      assert without[1..] == ps[1..][..i - 1] + ps[1..][i..];
    }
  }

  lemma {:induction false} PostsOfPermutes(ps: seq<UserPatch>, qs: seq<UserPatch>, c: u32)
    requires multiset(ps) == multiset(qs)
    ensures PostsOf(ps, c) == PostsOf(qs, c)
    decreases |ps|
  {
    if ps == [] {
      assert |multiset(qs)| == |qs|;
    } else {
      hide PostsTo;
      assert ps[0] in multiset(qs);
      var i :| 0 <= i < |qs| && qs[i] == ps[0];
      PostsOfWithout(qs, i, c);
      RemoveSame(ps, qs, i);
      PostsOfPermutes(ps[1..], qs[..i] + qs[i + 1..], c);
    }
  }

  lemma {:induction false} PostsOfConcat(ps: seq<UserPatch>, qs: seq<UserPatch>, c: u32)
    ensures PostsOf(ps + qs, c) == PostsOf(ps, c) + PostsOf(qs, c)
  {
    hide PostsTo;
    if ps == [] {
      assert ps + qs == qs;
    } else {
      assert (ps + qs)[1..] == ps[1..] + qs;
      PostsOfConcat(ps[1..], qs, c);
    }
  }

  lemma {:induction false} NoPosts(ps: seq<UserPatch>, c: u32)
    ensures PostsOf(ps, c) == 0 <==> forall p | p in ps :: PostsTo(p.memberships, c) == 0
  {
    hide PostsTo;
    if ps != [] {
      NoPosts(ps[1..], c);
      assert ps == [ps[0]] + ps[1..];
    }
  }

  lemma {:induction false} PostsBetween(start: set<u32>, joined: set<u32>, all: set<u32>, ps: seq<UserPatch>, c: u32)
    requires start <= joined <= all && Closed(all, ps)
    ensures PostsOf(Ready(start, ps), c) <= PostsOf(Accepted(joined, ps), c) <= PostsOf(Ready(all, ps), c)
    ensures AllCreate(Ready(start, ps)) <= RowsAfter(joined, ps) <= all
    decreases |ps|
  {
    hide PostsTo, CanRun, Creates;
    if ps != [] {
      var p, rest := ps[0], ps[1..];
      var accepted := CanRun(joined, p.memberships);
      if CanRun(start, p.memberships) { CanRunMonotone(start, joined, p.memberships); }
      if accepted { CanRunMonotone(joined, all, p.memberships); }
      var next := if accepted then joined + Creates(p.memberships) else joined;
      PostsBetween(start, next, all, rest, c);
      var low, mid, high := Ready(start, rest), Accepted(next, rest), Ready(all, rest);
      assert ([p] + low)[1..] == low && ([p] + mid)[1..] == mid && ([p] + high)[1..] == high;
      assert [] + low == low && [] + high == high;
    }
  }

  // ---- Who creates the row of a conference first ----

  /** The patches that do not create the row of `c`. */
  function Others(ps: seq<UserPatch>, c: u32): seq<UserPatch> {
    if ps == [] then [] else (if c in Creates(ps[0].memberships) then [] else [ps[0]]) + Others(ps[1..], c)
  }

  function Creators(ps: seq<UserPatch>, c: u32): seq<UserPatch> {
    if ps == [] then [] else (if c in Creates(ps[0].memberships) then [ps[0]] else []) + Creators(ps[1..], c)
  }

  lemma {:induction false} CreatorsSplit(ps: seq<UserPatch>, c: u32)
    ensures multiset(ps) == multiset(Others(ps, c)) + multiset(Creators(ps, c))
    ensures forall p :: p in Others(ps, c) <==> p in ps && c !in Creates(p.memberships)
    ensures forall p :: p in Creators(ps, c) <==> p in ps && c in Creates(p.memberships)
  {
    hide Creates;
    if ps != [] {
      CreatorsSplit(ps[1..], c);
      assert ps == [ps[0]] + ps[1..];
    }
  }

  /** In some order `f` is the first to create the row of `c`. */
  predicate MayBeFirst(joined: set<u32>, ps: seq<UserPatch>, c: u32, f: UserPatch) {
    f in ps && c in Creates(f.memberships) && CanRun(Reach(joined, Others(ps, c)), f.memberships)
  }

  lemma ClosedPart(all: set<u32>, ps: seq<UserPatch>, part: seq<UserPatch>)
    requires Closed(all, ps) && forall p | p in part :: p in ps
    ensures Closed(all, part)
  {
    hide CanRun, Creates;
    forall i | 0 <= i < |part| && CanRun(all, part[i].memberships)
      ensures Creates(part[i].memberships) <= all
    {
      assert part[i] in part;
      var j :| 0 <= j < |ps| && ps[j] == part[i];
    }
  }

  /** Without its creators the row of `c` is not reached, and no other row that is not reached with them. */
  lemma ReachWithoutCreators(joined: set<u32>, ps: seq<UserPatch>, c: u32)
    requires c !in joined
    ensures c !in Reach(joined, Others(ps, c))
    ensures Reach(joined, Others(ps, c)) <= Reach(joined, ps)
  {
    hide CanRun, Creates, Closed;
    CreatorsSplit(ps, c);
    ReachIsClosed(joined, ps);
    ClosedPart(Reach(joined, ps), ps, Others(ps, c));
    ReachWithin(joined, Reach(joined, ps), Others(ps, c));
    ReachOnlyCreated(joined, Others(ps, c), c);
  }

  lemma {:induction false} NotCreated(ps: seq<UserPatch>, c: u32)
    requires forall p | p in ps :: c !in Creates(p.memberships)
    ensures c !in AllCreate(ps)
  {
    hide Creates;
    if ps != [] { NotCreated(ps[1..], c); }
  }

  lemma {:induction false} ReachOnlyCreated(joined: set<u32>, ps: seq<UserPatch>, c: u32)
    requires c !in joined && forall p | p in ps :: c !in Creates(p.memberships)
    ensures c !in Reach(joined, ps)
    decreases |ps|
  {
    hide CanRun, Creates, Ready, NotReady;
    var now, later := Ready(joined, ps), NotReady(joined, ps);
    ReadyIsPart(joined, ps);
    if now != [] {
      NotCreated(now, c);
      ReachOnlyCreated(joined + AllCreate(now), later, c);
    }
  }

  /** If only first creators lose posts, and each as many, every order that creates the row loses that many. */
  lemma {:induction false} LostIsFirst(joined: set<u32>, before: set<u32>, ps: seq<UserPatch>, c: u32, lost: nat)
    requires joined <= before && c !in joined && Closed(before, Others(ps, c))
    requires forall p | p in ps && c !in Creates(p.memberships) && CanRun(before, p.memberships) ::
      PostsMissed(p.memberships, c) == 0
    requires forall p | p in ps && c in Creates(p.memberships) && CanRun(before, p.memberships) ::
      PostsMissed(p.memberships, c) == lost
    requires c in RowsAfter(joined, ps)
    ensures Lost(joined, ps, c) == lost
    decreases |ps|
  {
    hide CanRun, Creates, PostsMissed, Closed;
    if ps != [] {
      var p, rest := ps[0], ps[1..];
      assert ps == [p] + rest;
      OthersFront(before, ps, c);
      if CanRun(joined, p.memberships) {
        CanRunMonotone(joined, before, p.memberships);
        var next := joined + Creates(p.memberships);
        var accepted := Accepted(next, rest);
        assert ([p] + accepted)[1..] == accepted;
        if c in next {
          NothingLost(next, rest, c);
        } else {
          LostIsFirst(next, before, rest, c, lost);
        }
      } else {
        LostIsFirst(joined, before, rest, c, lost);
      }
    }
  }

  lemma OthersFront(all: set<u32>, ps: seq<UserPatch>, c: u32)
    requires ps != [] && Closed(all, Others(ps, c))
    ensures Closed(all, Others(ps[1..], c))
    ensures c !in Creates(ps[0].memberships) && CanRun(all, ps[0].memberships) ==> Creates(ps[0].memberships) <= all
  {
    hide CanRun, Creates;
    var rest := Others(ps[1..], c);
    if c !in Creates(ps[0].memberships) {
      var all' := Others(ps, c);
      assert all' == [ps[0]] + rest && all'[0] == ps[0];
      forall i | 0 <= i < |rest|
        ensures rest[i] == all'[i + 1]
      {
      }
    } else {
      assert Others(ps, c) == [] + rest == rest;
    }
  }

  // ---- Losses along particular orders ----

  lemma {:induction false} LostRefused(joined: set<u32>, refused: seq<UserPatch>, later: seq<UserPatch>, c: u32)
    requires forall p | p in refused :: !CanRun(joined, p.memberships)
    ensures Lost(joined, refused + later, c) == Lost(joined, later, c)
    decreases |refused|
  {
    hide CanRun, Creates, PostsMissed;
    if refused == [] {
      assert refused + later == later;
    } else {
      assert (refused + later)[1..] == refused[1..] + later;
      LostRefused(joined, refused[1..], later, c);
    }
  }

  lemma {:induction false} LostConcat(joined: set<u32>, ps: seq<UserPatch>, qs: seq<UserPatch>, c: u32)
    ensures Lost(joined, ps + qs, c) == Lost(joined, ps, c) + Lost(RowsAfter(joined, ps), qs, c)
    ensures Accepted(joined, ps + qs) == Accepted(joined, ps) + Accepted(RowsAfter(joined, ps), qs)
    decreases |ps|
  {
    hide CanRun, Creates, PostsMissed;
    if ps == [] {
      assert ps + qs == qs && RowsAfter(joined, ps) == joined;
      assert [] + Accepted(joined, qs) == Accepted(joined, qs);
    } else {
      var p, rest := ps[0], ps[1..];
      assert (ps + qs)[1..] == rest + qs;
      if CanRun(joined, p.memberships) {
        var next := joined + Creates(p.memberships);
        LostConcat(next, rest, qs, c);
        var accepted := Accepted(next, rest);
        assert ([p] + accepted)[1..] == accepted;
        assert RowsAfter(joined, ps) == RowsAfter(next, rest);
        var more := Accepted(RowsAfter(next, rest), qs);
        assert [p] + (accepted + more) == ([p] + accepted) + more;
        if c in joined { NothingLost(RowsAfter(joined, ps), qs, c); }
        if c in next {
          NothingLost(next, rest + qs, c);
          NothingLost(next, rest, c);
          NothingLost(RowsAfter(joined, ps), qs, c);
        }
      } else {
        LostConcat(joined, rest, qs, c);
        if c in joined { NothingLost(RowsAfter(joined, ps), qs, c); }
      }
    }
  }

  /** The best order reaches every row that can be. */
  lemma {:induction false} BestOrderRows(joined: set<u32>, ps: seq<UserPatch>)
    ensures RowsAfter(joined, BestOrder(joined, ps)) == Reach(joined, ps)
    decreases |ps|
  {
    hide CanRun, Creates;
    var now, later := Ready(joined, ps), NotReady(joined, ps);
    ReadyIsPart(joined, ps);
    if now == [] {
      RefusedFirst(joined, ps, []);
      assert ps + [] == ps;
    } else {
      var next := joined + AllCreate(now);
      BestOrderRows(next, later);
      ReadyFirst(joined, now, BestOrder(next, later));
      CreateConcat(now, Accepted(next, BestOrder(next, later)));
    }
  }

  lemma {:induction false} CreateConcat(ps: seq<UserPatch>, qs: seq<UserPatch>)
    ensures AllCreate(ps + qs) == AllCreate(ps) + AllCreate(qs)
  {
    hide Creates;
    if ps == [] {
      assert ps + qs == qs;
    } else {
      assert (ps + qs)[1..] == ps[1..] + qs;
      CreateConcat(ps[1..], qs);
    }
  }

  lemma {:induction false} CreatedBySome(ps: seq<UserPatch>, c: u32) returns (p: UserPatch)
    requires c in AllCreate(ps)
    ensures p in ps && c in Creates(p.memberships)
  {
    hide Creates;
    if c in Creates(ps[0].memberships) {
      p := ps[0];
    } else {
      p := CreatedBySome(ps[1..], c);
    }
  }

  lemma CreatePermutes(ps: seq<UserPatch>, qs: seq<UserPatch>)
    requires multiset(ps) == multiset(qs)
    ensures AllCreate(ps) == AllCreate(qs)
  {
    hide AllCreate, Creates;
    forall c
      ensures c in AllCreate(ps) <==> c in AllCreate(qs)
    {
      if c in AllCreate(ps) {
        var p := CreatedBySome(ps, c);
        assert p in multiset(qs);
        CreatedByOne(qs, p);
      }
      if c in AllCreate(qs) {
        var q := CreatedBySome(qs, c);
        assert q in multiset(ps);
        CreatedByOne(ps, q);
      }
    }
  }

  // ---- What is stored, part by part ----

  lemma {:induction false} GainMerged(slot: u32, joined: set<u32>, rows: set<u32>, ps: seq<UserPatch>)
    ensures Merged(Gain(slot, joined, ps)) == Merged(AllBring(slot, rows, Accepted(joined, ps)))
    decreases |ps|
  {
    hide CanRun, Creates, JoinMarks, JoinPosted, PatchMarks, PatchPosts;
    if ps != [] {
      var p, rest := ps[0], ps[1..];
      if CanRun(joined, p.memberships) {
        var next := joined + Creates(p.memberships);
        GainMerged(slot, next, rows, rest);
        var accepted := Accepted(next, rest);
        assert ([p] + accepted)[1..] == accepted;
      } else {
        GainMerged(slot, joined, rows, rest);
      }
    }
  }

  lemma MergedJoin(a: Totals, b: Totals, b': Totals)
    requires Merged(b) == Merged(b')
    ensures Merged(Join(a, b)) == Merged(Join(a, b'))
  {
    hide JoinMarks, JoinPosted;
  }

  lemma StoredParts(db: Db, slot: u32, qs: seq<UserPatch>, rows: set<u32>)
    requires Integrity(db) && slot in db.users
    ensures
      var t, joined := StoredAfter(db, slot, qs), JoinedBy(db, slot);
      && Merged(t) == Merged(With(db, slot, rows, Accepted(joined, qs)))
      && t.posted.Keys == RowsAfter(joined, qs)
  {
    hide Integrity, JoinedBy, Run, Gain, Join, StoredMarks, StoredPosts, Merged, AllBring, Accepted, RowsAfter;
    PatchesAddUp(db, slot, qs);
    var joined := JoinedBy(db, slot);
    GainMerged(slot, joined, rows, qs);
    MergedJoin(Stored(db, slot), Gain(slot, joined, qs), AllBring(slot, rows, Accepted(joined, qs)));
    RowOfPost(Run(db, Patches(slot, qs)), slot, 0);
  }

  /** The counter of a conference after the patches, given what they lose. */
  lemma StoredPost(db: Db, slot: u32, qs: seq<UserPatch>, c: u32)
    requires Integrity(db) && slot in db.users
    ensures
      var joined := JoinedBy(db, slot);
      CountOf(StoredAfter(db, slot, qs).posted, c) + Lost(joined, qs, c)
      == CountOf(StoredPosts(db, slot), c) + PostsOf(Accepted(joined, qs), c)
  {
    hide Integrity, JoinedBy, StoredMarks, Accepted, Lost, PostsOf, StoredPosts, Run, CountOf;
    PostsAddUp(db, slot, qs, c);
  }

  lemma SameParts(a: Totals, b: Totals)
    ensures a == b <==>
      && Merged(a) == Merged(b) && a.posted.Keys == b.posted.Keys
      && forall c :: CountOf(a.posted, c) == CountOf(b.posted, c)
  {
    hide CountOf;
    if
      && Merged(a) == Merged(b) && a.posted.Keys == b.posted.Keys
      && forall c :: CountOf(a.posted, c) == CountOf(b.posted, c)
    {
      SamePosts(a.posted, b.posted);
      assert a == Merged(a).(posted := a.posted) && b == Merged(b).(posted := b.posted);
    }
  }

  // ---- The exact condition ----

  /**
    For a row that there is or that some order creates: no patch adds posts that cannot run at once;
    and if the row is still to be created, no patch posts to it without creating it, and all that may
    create it first have as many posts to it before they do.
   */
  ghost predicate PostsSettled(joined: set<u32>, ps: seq<UserPatch>, c: u32) {
    && (forall p | p in NotReady(joined, ps) && CanRun(Reach(joined, ps), p.memberships) ::
          PostsTo(p.memberships, c) == 0)
    && (c !in joined ==>
          && (forall p | p in Ready(joined, ps) && c !in Creates(p.memberships) :: PostsMissed(p.memberships, c) == 0)
          && (forall f, g | MayBeFirst(joined, ps, c, f) && MayBeFirst(joined, ps, c, g) ::
                PostsMissed(f.memberships, c) == PostsMissed(g.memberships, c)))
  }

  /**
    What can ever run merges nothing into the totals that what can run at once does not, creates no
    further row, and settles the posts of each.
   */
  ghost predicate Settled(db: Db, slot: u32, ps: seq<UserPatch>)
    requires slot in db.users
  {
    var joined := JoinedBy(db, slot);
    var all := Reach(joined, ps);
    && Merged(With(db, slot, all, Ready(joined, ps))) == Merged(With(db, slot, all, Ready(all, ps)))
    && all == joined + AllCreate(Ready(joined, ps))
    && forall c | c in all :: PostsSettled(joined, ps, c)
  }

  // -- If it holds, all orders agree

  lemma UnlockedPostNothing(joined: set<u32>, ps: seq<UserPatch>, qs: seq<UserPatch>, c: u32)
    requires multiset(qs) == multiset(ps)
    requires forall p | p in NotReady(joined, ps) && CanRun(Reach(joined, ps), p.memberships) ::
      PostsTo(p.memberships, c) == 0
    ensures PostsOf(Accepted(joined, qs), c) == PostsOf(Ready(joined, ps), c)
  {
    hide CanRun, Creates, PostsTo, PostsOf, Ready, NotReady, Accepted, Closed;
    var all, later := Reach(joined, ps), NotReady(joined, ps);
    ReadyGrows(joined, all, ps);
    PostsOfPermutes(Ready(all, ps), Ready(joined, ps) + Ready(all, later), c);
    PostsOfConcat(Ready(joined, ps), Ready(all, later), c);
    ReadyIsPart(all, later);
    NoPosts(Ready(all, later), c);
    ReachIsClosed(joined, ps);
    ClosedPermutes(all, ps, qs);
    PostsBetween(joined, joined, all, qs, c);
    ReadyPermutes(joined, ps, qs);
    ReadyPermutes(all, ps, qs);
    PostsOfPermutes(Ready(joined, ps), Ready(joined, qs), c);
    PostsOfPermutes(Ready(all, ps), Ready(all, qs), c);
  }

  /** The posts lost to a row still to be created: those of whichever patch creates it first. */
  lemma LossIsSettled(joined: set<u32>, ps: seq<UserPatch>, qs: seq<UserPatch>, c: u32, f: UserPatch)
    requires multiset(qs) == multiset(ps) && c !in joined && PostsSettled(joined, ps, c)
    requires MayBeFirst(joined, ps, c, f) && c in RowsAfter(joined, qs)
    ensures Lost(joined, qs, c) == PostsMissed(f.memberships, c)
  {
    hide CanRun, Creates, PostsTo, PostsMissed, Ready, NotReady, Closed, RowsAfter, Lost;
    var before, all := Reach(joined, Others(ps, c)), Reach(joined, ps);
    ReachWithoutCreators(joined, ps, c);
    ReachIsClosed(joined, Others(ps, c));
    CreatorsSplit(ps, c);
    CreatorsSplit(qs, c);
    forall p | p in qs
      ensures p in ps
    {
      assert p in multiset(ps);
    }
    ClosedPart(before, Others(ps, c), Others(qs, c));
    ReadyIsPart(joined, ps);
    forall p | p in qs && c !in Creates(p.memberships) && CanRun(before, p.memberships)
      ensures PostsMissed(p.memberships, c) == 0
    {
      if p !in Ready(joined, ps) {
        CanRunMonotone(before, all, p.memberships);
        PostsCounted(joined, p.memberships, c);
      }
    }
    forall p | p in qs && c in Creates(p.memberships) && CanRun(before, p.memberships)
      ensures PostsMissed(p.memberships, c) == PostsMissed(f.memberships, c)
    {
      assert MayBeFirst(joined, ps, c, p);
    }
    LostIsFirst(joined, before, qs, c, PostsMissed(f.memberships, c));
  }

  lemma ReadyMayBeFirst(joined: set<u32>, ps: seq<UserPatch>, c: u32) returns (f: UserPatch)
    requires c in AllCreate(Ready(joined, ps))
    ensures MayBeFirst(joined, ps, c, f) && f in Ready(joined, ps)
  {
    hide CanRun, Creates, Ready;
    f := CreatedBySome(Ready(joined, ps), c);
    ReadyIsPart(joined, ps);
    CanRunMonotone(joined, Reach(joined, Others(ps, c)), f.memberships);
  }

  lemma SettledPosts(db: Db, slot: u32, ps: seq<UserPatch>, qs: seq<UserPatch>, c: u32)
    requires Integrity(db) && slot in db.users && Settled(db, slot, ps) && multiset(qs) == multiset(ps)
    requires RowsAfter(JoinedBy(db, slot), qs) == RowsAfter(JoinedBy(db, slot), ps) == Reach(JoinedBy(db, slot), ps)
    ensures CountOf(StoredAfter(db, slot, qs).posted, c) == CountOf(StoredAfter(db, slot, ps).posted, c)
  {
    hide Integrity, JoinedBy, Stored, Merged, With, StoredAfter, Reach, RowsAfter, Lost, Ready, NotReady, CanRun;
    hide MayBeFirst, Accepted, PostsOf, StoredPosts;
    var joined, all := JoinedBy(db, slot), Reach(JoinedBy(db, slot), ps);
    if c in all {
      StoredPost(db, slot, qs, c);
      StoredPost(db, slot, ps, c);
      assert PostsSettled(joined, ps, c);
      UnlockedPostNothing(joined, ps, qs, c);
      UnlockedPostNothing(joined, ps, ps, c);
      if c in joined {
        NothingLost(joined, qs, c);
        NothingLost(joined, ps, c);
      } else {
        var f := ReadyMayBeFirst(joined, ps, c);
        hide PostsSettled;
        LossIsSettled(joined, ps, qs, c, f);
        LossIsSettled(joined, ps, ps, c, f);
      }
    } else {
      NoRowNoPosts(db, slot, qs, c);
      NoRowNoPosts(db, slot, ps, c);
    }
  }

  lemma NoRowNoPosts(db: Db, slot: u32, qs: seq<UserPatch>, c: u32)
    requires Integrity(db) && slot in db.users && c !in RowsAfter(JoinedBy(db, slot), qs)
    ensures CountOf(StoredAfter(db, slot, qs).posted, c) == 0
  {
    hide Integrity, JoinedBy, Stored, Merged, With, StoredAfter, RowsAfter;
    StoredParts(db, slot, qs, {});
  }

  lemma SettledRows(joined: set<u32>, ps: seq<UserPatch>, qs: seq<UserPatch>)
    requires multiset(qs) == multiset(ps) && Reach(joined, ps) == joined + AllCreate(Ready(joined, ps))
    ensures RowsAfter(joined, qs) == Reach(joined, ps)
  {
    hide CanRun, Creates, Ready, Accepted, Closed, PostsOf;
    var all := Reach(joined, ps);
    ReachIsClosed(joined, ps);
    ClosedPermutes(all, ps, qs);
    PostsBetween(joined, joined, all, qs, 0);
    ReadyPermutes(joined, ps, qs);
    CreatePermutes(Ready(joined, ps), Ready(joined, qs));
  }

  lemma MergedExtends(a: Totals, b: Totals)
    requires Extends(a, b)
    ensures Extends(Merged(a), Merged(b))
  {
    var c :| Join(a, c) == b;
    hide JoinMarks;
    assert JoinPosted(map[], map[]) == map[];
    assert Join(Merged(a), Merged(c)) == Merged(b);
  }

  /** What is squeezed between two equal totals equals them. */
  lemma Squeezed(a: Totals, b: Totals)
    requires Extends(a, b) && Extends(b, a) && a.posted == b.posted
    ensures a == b
  {
    hide JoinPosted;
    var c :| Join(a, c) == b;
    var d :| Join(b, d) == a;
    assert a.marks.Keys == b.marks.Keys;
    forall k | k in a.marks
      ensures a.marks[k] == b.marks[k]
    {
      assert b.marks[k] == JoinMark(a.marks, c.marks, k) && a.marks[k] == JoinMark(b.marks, d.marks, k);
    }
  }

  lemma MergedRows(db: Db, slot: u32, rows: set<u32>, rows': set<u32>, ps: seq<UserPatch>)
    requires slot in db.users
    ensures Merged(With(db, slot, rows, ps)) == Merged(With(db, slot, rows', ps))
  {
    hide Stored, Join, AllBring, Merged;
    BringMerged(slot, rows, rows', ps);
    MergedJoin(Stored(db, slot), AllBring(slot, rows, ps), AllBring(slot, rows', ps));
  }

  lemma {:induction false} BringMerged(slot: u32, rows: set<u32>, rows': set<u32>, ps: seq<UserPatch>)
    ensures Merged(AllBring(slot, rows, ps)) == Merged(AllBring(slot, rows', ps))
  {
    hide JoinMarks, JoinPosted, PatchMarks, PatchPosts;
    if ps != [] { BringMerged(slot, rows, rows', ps[1..]); }
  }

  lemma SettledMerged(db: Db, slot: u32, ps: seq<UserPatch>, qs: seq<UserPatch>)
    requires Integrity(db) && slot in db.users && Settled(db, slot, ps) && multiset(qs) == multiset(ps)
    ensures Merged(StoredAfter(db, slot, qs)) == Merged(With(db, slot, {}, Ready(JoinedBy(db, slot), ps)))
  {
    hide Integrity, JoinedBy, Stored, Join, With, StoredAfter, Reach, Extends, Ready, NotReady, CanRun, PostsSettled;
    var joined, all := JoinedBy(db, slot), Reach(JoinedBy(db, slot), ps);
    OrderBounds(db, slot, ps, qs);
    var low, mid := With(db, slot, joined, Ready(joined, ps)), StoredAfter(db, slot, qs);
    var high := With(db, slot, all, Ready(all, ps));
    MergedExtends(low, mid);
    MergedExtends(mid, high);
    MergedRows(db, slot, joined, all, Ready(joined, ps));
    MergedRows(db, slot, {}, all, Ready(joined, ps));
    Squeezed(Merged(low), Merged(mid));
  }

  lemma SettledAgree(db: Db, slot: u32, ps: seq<UserPatch>)
    requires Integrity(db) && slot in db.users && Settled(db, slot, ps)
    ensures OrdersAgree(db, slot, ps)
  {
    forall qs | multiset(qs) == multiset(ps)
      ensures StoredAfter(db, slot, qs) == StoredAfter(db, slot, ps)
    {
      var joined := JoinedBy(db, slot);
      SettledRows(joined, ps, qs);
      SettledRows(joined, ps, ps);
      hide Integrity, JoinedBy, Stored, With, StoredAfter, Reach, RowsAfter, Ready, Merged, CountOf;
      forall c
        ensures CountOf(StoredAfter(db, slot, qs).posted, c) == CountOf(StoredAfter(db, slot, ps).posted, c)
      {
        SettledPosts(db, slot, ps, qs, c);
      }
      SettledMerged(db, slot, ps, qs);
      SettledMerged(db, slot, ps, ps);
      StoredParts(db, slot, qs, {});
      StoredParts(db, slot, ps, {});
      SameParts(StoredAfter(db, slot, qs), StoredAfter(db, slot, ps));
    }
  }

  // -- If all orders agree, it holds

  lemma PostsAgree(db: Db, slot: u32, ps: seq<UserPatch>, qs: seq<UserPatch>, rs: seq<UserPatch>, c: u32)
    requires Integrity(db) && slot in db.users && OrdersAgree(db, slot, ps)
    requires multiset(qs) == multiset(ps) && multiset(rs) == multiset(ps)
    ensures
      var joined := JoinedBy(db, slot);
      PostsOf(Accepted(joined, qs), c) + Lost(joined, rs, c) == PostsOf(Accepted(joined, rs), c) + Lost(joined, qs, c)
  {
    hide Integrity, JoinedBy, StoredAfter, Accepted, Lost, PostsOf, StoredPosts, CountOf;
    assert StoredAfter(db, slot, qs) == StoredAfter(db, slot, ps) == StoredAfter(db, slot, rs);
    StoredPost(db, slot, qs, c);
    StoredPost(db, slot, rs, c);
  }

  function Worst(joined: set<u32>, ps: seq<UserPatch>): seq<UserPatch> {
    NotReady(joined, ps) + Ready(joined, ps)
  }

  lemma AgreeMergedAndRows(db: Db, slot: u32, ps: seq<UserPatch>)
    requires Integrity(db) && slot in db.users && OrdersAgree(db, slot, ps)
    ensures
      var joined := JoinedBy(db, slot);
      var all := Reach(joined, ps);
      && Merged(With(db, slot, all, Ready(joined, ps))) == Merged(With(db, slot, all, Ready(all, ps)))
      && all == joined + AllCreate(Ready(joined, ps))
  {
    hide Integrity, JoinedBy, StoredAfter, Accepted, Lost, PostsOf, StoredPosts, CountOf;
    hide Stored, CanRun, Ready, Merged, Join;
    var joined := JoinedBy(db, slot);
    var all, worst, best := Reach(joined, ps), Worst(joined, ps), BestOrder(joined, ps);
    WorstOrder(joined, ps);
    BestOrderReaches(joined, ps);
    assert StoredAfter(db, slot, worst) == StoredAfter(db, slot, ps) == StoredAfter(db, slot, best);
    StoredParts(db, slot, worst, all);
    StoredParts(db, slot, best, all);
    AllBringPermutes(slot, all, Accepted(joined, best), Ready(all, ps));
    BestOrderRows(joined, ps);
  }

  lemma AgreeUnlocked(db: Db, slot: u32, ps: seq<UserPatch>, c: u32, p: UserPatch)
    requires Integrity(db) && slot in db.users && OrdersAgree(db, slot, ps) && c in Reach(JoinedBy(db, slot), ps)
    requires p in NotReady(JoinedBy(db, slot), ps) && CanRun(Reach(JoinedBy(db, slot), ps), p.memberships)
    ensures PostsTo(p.memberships, c) == 0
  {
    AgreeMergedAndRows(db, slot, ps);
    hide Integrity, JoinedBy, StoredAfter, Accepted, Lost, PostsOf, CanRun, Ready, NotReady, Merged, With, PostsTo;
    hide OrdersAgree, Creates;
    var joined := JoinedBy(db, slot);
    var now, later, worst, best := Ready(joined, ps), NotReady(joined, ps), Worst(joined, ps), BestOrder(joined, ps);
    ReadyIsPart(joined, ps);
    if now != [] {
      var next := joined + AllCreate(now);
      WorstOrder(joined, ps);
      BestOrderReaches(joined, ps);
      BestOrderReaches(next, later);
      PostsAgree(db, slot, ps, worst, best, c);
      LostRefused(joined, later, now, c);
      LostConcat(joined, now, BestOrder(next, later), c);
      AllReady(joined, now);
      NothingLost(next, BestOrder(next, later), c);
      PostsOfConcat(now, Accepted(next, BestOrder(next, later)), c);
      PostsOfPermutes(Accepted(next, BestOrder(next, later)), Ready(Reach(next, later), later), c);
      ReadyIsPart(Reach(next, later), later);
      NoPosts(Ready(Reach(next, later), later), c);
    }
  }

  lemma AllReady(joined: set<u32>, now: seq<UserPatch>)
    requires forall p | p in now :: CanRun(joined, p.memberships)
    ensures Accepted(joined, now) == now && RowsAfter(joined, now) == joined + AllCreate(now)
  {
    hide CanRun, Creates;
    ReadyFirst(joined, now, []);
    assert now + [] == now;
  }

  lemma TakeOut(ps: seq<UserPatch>, p: UserPatch) returns (rest: seq<UserPatch>)
    requires p in ps
    ensures multiset(ps) == multiset([p] + rest)
  {
    var i :| 0 <= i < |ps| && ps[i] == p;
    rest := ps[..i] + ps[i + 1..];
    assert ps == ps[..i] + [p] + ps[i + 1..];
  }

  /** Two patches that can both run, one losing posts that the other makes room for. */
  lemma AgreeLeaner(db: Db, slot: u32, ps: seq<UserPatch>, c: u32, p: UserPatch, f: UserPatch)
    requires Integrity(db) && slot in db.users && OrdersAgree(db, slot, ps) && c !in JoinedBy(db, slot)
    requires p in Ready(JoinedBy(db, slot), ps) && c !in Creates(p.memberships)
    requires f in Ready(JoinedBy(db, slot), ps) && c in Creates(f.memberships)
    ensures PostsMissed(p.memberships, c) == 0
  {
    hide Integrity, JoinedBy, CanRun, Ready, NotReady, PostsMissed, Creates, OrdersAgree, Accepted, Lost, PostsOf;
    var joined := JoinedBy(db, slot);
    ReadyIsPart(joined, ps);
    var rest := PairOut(ps, p, f);
    PostsAgree(db, slot, ps, [p, f] + rest, [f, p] + rest, c);
    PairLoses(joined, p, f, rest, c);
  }

  lemma PairOut(ps: seq<UserPatch>, p: UserPatch, q: UserPatch) returns (rest: seq<UserPatch>)
    requires p in ps && q in ps && p != q
    ensures multiset([p, q] + rest) == multiset(ps) == multiset([q, p] + rest)
  {
    var others := TakeOut(ps, p);
    assert q in multiset([p] + others);
    assert q in others;
    rest := TakeOut(others, q);
    assert multiset([p] + others) == multiset{p} + multiset(others);
    assert multiset([q] + rest) == multiset{q} + multiset(rest);
    assert multiset([p, q] + rest) == multiset{p} + multiset{q} + multiset(rest);
    assert multiset([q, p] + rest) == multiset{q} + multiset{p} + multiset(rest);
  }

  /** In which order two such patches run decides whether the posts of the one are lost. */
  lemma PairLoses(joined: set<u32>, p: UserPatch, f: UserPatch, rest: seq<UserPatch>, c: u32)
    requires CanRun(joined, p.memberships) && CanRun(joined, f.memberships) && c !in joined
    requires c !in Creates(p.memberships) && c in Creates(f.memberships)
    ensures PostsOf(Accepted(joined, [p, f] + rest), c) == PostsOf(Accepted(joined, [f, p] + rest), c)
    ensures Lost(joined, [p, f] + rest, c) == Lost(joined, [f, p] + rest, c) + PostsMissed(p.memberships, c)
  {
    hide CanRun, PostsMissed, Creates, Accepted, Lost, PostsOf;
    var next := joined + Creates(p.memberships) + Creates(f.memberships);
    assert next == joined + Creates(f.memberships) + Creates(p.memberships);
    PairFirst(joined, p, f, rest, c);
    PairFirst(joined, f, p, rest, c);
    PostsOfConcat([p, f], Accepted(next, rest), c);
    PostsOfConcat([f, p], Accepted(next, rest), c);
    PostsOfPermutes([p, f], [f, p], c);
  }

  /** Two patches that can both run at once, run first. */
  lemma PairFirst(joined: set<u32>, p: UserPatch, q: UserPatch, rest: seq<UserPatch>, c: u32)
    requires CanRun(joined, p.memberships) && CanRun(joined, q.memberships) && c !in joined
    ensures
      var next := joined + Creates(p.memberships) + Creates(q.memberships);
      && Accepted(joined, [p, q] + rest) == [p, q] + Accepted(next, rest)
      && Lost(joined, [p, q] + rest, c)
         == PostsMissed(p.memberships, c)
            + (if c in Creates(p.memberships) then 0 else PostsMissed(q.memberships, c)) + Lost(next, rest, c)
  {
    hide CanRun, Creates, PostsMissed;
    var ps := [p, q] + rest;
    var mid := joined + Creates(p.memberships);
    var next := mid + Creates(q.memberships);
    assert ps[1..] == [q] + rest && ps[1..][1..] == rest;
    CanRunMonotone(joined, mid, q.memberships);
    assert [p] + ([q] + Accepted(next, rest)) == [p, q] + Accepted(next, rest);
    if c in next { NothingLost(next, rest, c); }
    if c in mid { NothingLost(mid, [q] + rest, c); }
  }

  /** `f` creates the row of `c` first: after all that can run without it, before all others that create it. */
  lemma FirstOrder(joined: set<u32>, ps: seq<UserPatch>, c: u32, f: UserPatch) returns (qs: seq<UserPatch>)
    requires c !in joined && MayBeFirst(joined, ps, c, f)
    ensures multiset(qs) == multiset(ps)
    ensures Lost(joined, qs, c) == Lost(joined, BestOrder(joined, Others(ps, c)), c) + PostsMissed(f.memberships, c)
  {
    hide CanRun, Creates, PostsMissed, Others, Creators;
    var first := BestOrder(joined, Others(ps, c));
    CreatorsSplit(ps, c);
    var rest := TakeOut(Creators(ps, c), f);
    qs := first + ([f] + rest);
    BestOrderReaches(joined, Others(ps, c));
    assert multiset(qs) == multiset(first) + multiset([f] + rest);
    ReachWithoutCreators(joined, ps, c);
    BestOrderRows(joined, Others(ps, c));
    LostConcat(joined, first, [f] + rest, c);
    var rows := Reach(joined, Others(ps, c));
    assert ([f] + rest)[1..] == rest;
    NothingLost(rows + Creates(f.memberships), rest, c);
  }

  lemma AgreeFirst(db: Db, slot: u32, ps: seq<UserPatch>, c: u32, f: UserPatch, g: UserPatch)
    requires Integrity(db) && slot in db.users && OrdersAgree(db, slot, ps) && c !in JoinedBy(db, slot)
    requires MayBeFirst(JoinedBy(db, slot), ps, c, f) && MayBeFirst(JoinedBy(db, slot), ps, c, g)
    requires forall p | p in NotReady(JoinedBy(db, slot), ps) && CanRun(Reach(JoinedBy(db, slot), ps), p.memberships) ::
      PostsTo(p.memberships, c) == 0
    ensures PostsMissed(f.memberships, c) == PostsMissed(g.memberships, c)
  {
    hide Integrity, JoinedBy, StoredAfter, PostsOf, CanRun, Ready, NotReady, PostsTo, PostsMissed, Creates, OrdersAgree;
    hide Accepted, Lost, MayBeFirst;
    var joined := JoinedBy(db, slot);
    var qs := FirstOrder(joined, ps, c, f);
    var rs := FirstOrder(joined, ps, c, g);
    PostsAgree(db, slot, ps, qs, rs, c);
    UnlockedPostNothing(joined, ps, qs, c);
    UnlockedPostNothing(joined, ps, rs, c);
  }

  lemma AgreeSettled(db: Db, slot: u32, ps: seq<UserPatch>)
    requires Integrity(db) && slot in db.users && OrdersAgree(db, slot, ps)
    ensures Settled(db, slot, ps)
  {
    AgreeMergedAndRows(db, slot, ps);
    hide Integrity, JoinedBy, StoredAfter, CanRun, Ready, NotReady, PostsTo, PostsMissed, Creates, OrdersAgree, Reach;
    hide Merged, With, MayBeFirst;
    var joined := JoinedBy(db, slot);
    var all := Reach(joined, ps);
    forall c | c in all
      ensures PostsSettled(joined, ps, c)
    {
      forall p | p in NotReady(joined, ps) && CanRun(all, p.memberships)
        ensures PostsTo(p.memberships, c) == 0
      {
        AgreeUnlocked(db, slot, ps, c, p);
      }
      if c !in joined {
        var first := ReadyMayBeFirst(joined, ps, c);
        assert c in Creates(first.memberships) by { FirstCreates(joined, ps, c, first); }
        forall p | p in Ready(joined, ps) && c !in Creates(p.memberships)
          ensures PostsMissed(p.memberships, c) == 0
        {
          AgreeLeaner(db, slot, ps, c, p, first);
        }
        forall f, g | MayBeFirst(joined, ps, c, f) && MayBeFirst(joined, ps, c, g)
          ensures PostsMissed(f.memberships, c) == PostsMissed(g.memberships, c)
        {
          AgreeFirst(db, slot, ps, c, f, g);
        }
      }
    }
  }

  lemma FirstCreates(joined: set<u32>, ps: seq<UserPatch>, c: u32, f: UserPatch)
    requires MayBeFirst(joined, ps, c, f)
    ensures c in Creates(f.memberships)
  {
  }

  /** For any patches whatever: every order stores the same totals if and only if they are settled. */
  lemma OrdersAgreeIff(db: Db, slot: u32, ps: seq<UserPatch>)
    requires Integrity(db) && slot in db.users
    ensures OrdersAgree(db, slot, ps) <==> Settled(db, slot, ps)
  {
    hide OrdersAgree, Settled, Integrity;
    if OrdersAgree(db, slot, ps) { AgreeSettled(db, slot, ps); }
    if Settled(db, slot, ps) { SettledAgree(db, slot, ps); }
  }

  // ---- What that comes to for patches as sessions make them ----

  /** Each conference is named once. */
  predicate NamesOnce(ms: seq<MembershipPatch>) {
    forall i, j | 0 <= i < j < |ms| :: ms[i].conference != ms[j].conference
  }

  predicate Counts(p: UserPatch) {
    p.timesCalled > 0 || p.timesCalledToday > 0 || p.timeUsedToday > 0 || p.messagesPosted > 0
  }

  /**
    The patch can run once what is ready has, and has pointers or posts for a row that is there then
    but not at the start: one that others of the patches create.
   */
  predicate Leans(joined: set<u32>, ps: seq<UserPatch>, p: UserPatch) {
    var after, ms := joined + AllCreate(Ready(joined, ps)), p.memberships;
    && p in ps && CanRun(after, ms)
    && exists i :: 0 <= i < |ms| && LeansAt(joined, after, ms, i)
  }

  predicate LeansAt(joined: set<u32>, after: set<u32>, ms: seq<MembershipPatch>, i: nat)
    requires i < |ms|
  {
    (ms[i].pointers != [] || ms[i].postedDelta > 0) && !HasRow(joined, ms, i) && HasRow(after, ms, i)
  }

  lemma UnreadyLeans(joined: set<u32>, ps: seq<UserPatch>, p: UserPatch)
    requires p in ps && !CanRun(joined, p.memberships)
    requires CanRun(joined + AllCreate(Ready(joined, ps)), p.memberships)
    ensures Leans(joined, ps, p)
  {
    hide Ready, AllCreate, Ordered;
    var ms := p.memberships;
    var i :| 0 <= i < |ms| && !(Ordered(ms[i].pointers) && (ms[i].pointers == [] || HasRow(joined, ms, i)));
    assert LeansAt(joined, joined + AllCreate(Ready(joined, ps)), ms, i);
  }

  /** If nothing leans on anything, nothing more ever runs. */
  lemma NothingUnlocked(joined: set<u32>, ps: seq<UserPatch>)
    requires forall p :: !Leans(joined, ps, p)
    ensures Reach(joined, ps) == joined + AllCreate(Ready(joined, ps))
    ensures forall p | p in NotReady(joined, ps) :: !CanRun(Reach(joined, ps), p.memberships)
  {
    hide CanRun, Creates, Leans, NotReady;
    var now, later := Ready(joined, ps), NotReady(joined, ps);
    var next := joined + AllCreate(now);
    ReadyIsPart(joined, ps);
    forall p | p in later
      ensures !CanRun(next, p.memberships)
    {
      if CanRun(next, p.memberships) { UnreadyLeans(joined, ps, p); }
    }
    if now != [] {
      ReadyIsPart(next, later);
      EmptyOrNot(Ready(next, later));
    }
  }

  lemma EmptyOrNot(ps: seq<UserPatch>)
    ensures ps == [] || exists p :: p in ps
  {
    if ps != [] { assert ps[0] in ps; }
  }

  /** Posts are missed where a patch has them for a row it does not create by then. */
  lemma {:induction false} MissedAt(ms: seq<MembershipPatch>, c: u32) returns (i: nat)
    requires PostsMissed(ms, c) > 0
    ensures i < |ms| && ms[i].conference == c && ms[i].postedDelta > 0
    ensures forall j | 0 <= j <= i :: ms[j].conference == c ==> !ms[j].createIfMissing
  {
    if ms[0].conference == c && ms[0].postedDelta > 0 {
      i := 0;
    } else {
      var k := MissedAt(ms[1..], c);
      i := k + 1;
      forall j | 0 <= j <= i
        ensures ms[j].conference == c ==> !ms[j].createIfMissing
      {
        if j > 0 { assert ms[j] == ms[1..][j - 1]; }
      }
    }
  }

  lemma {:induction false} MissesAtLeast(ms: seq<MembershipPatch>, i: nat)
    requires i < |ms| && forall j | 0 <= j <= i :: ms[j].conference == ms[i].conference ==> !ms[j].createIfMissing
    ensures PostsMissed(ms, ms[i].conference) >= ms[i].postedDelta
  {
    if i > 0 {
      assert ms[1..][i - 1] == ms[i];
      forall j | 0 <= j <= i - 1
        ensures ms[1..][j].conference == ms[i].conference ==> !ms[1..][j].createIfMissing
      {
        assert ms[1..][j] == ms[j + 1];
      }
      MissesAtLeast(ms[1..], i - 1);
    }
  }

  lemma {:induction false} CreatesAt(ms: seq<MembershipPatch>, c: u32)
    ensures c in Creates(ms) <==> exists i :: 0 <= i < |ms| && ms[i].conference == c && ms[i].createIfMissing
  {
    if ms != [] {
      CreatesAt(ms[1..], c);
      assert ms == [ms[0]] + ms[1..];
    }
  }

  /** Missing posts to a row that is there in the end is leaning on it, for who names each conference once. */
  lemma MissedLeans(joined: set<u32>, ps: seq<UserPatch>, p: UserPatch, c: u32)
    requires p in Ready(joined, ps) && NamesOnce(p.memberships) && PostsMissed(p.memberships, c) > 0
    requires c !in joined && c in joined + AllCreate(Ready(joined, ps))
    ensures Leans(joined, ps, p) && c !in Creates(p.memberships)
  {
    var ms, after := p.memberships, joined + AllCreate(Ready(joined, ps));
    ReadyIsPart(joined, ps);
    CanRunMonotone(joined, after, ms);
    hide Ready, AllCreate, CanRun;
    var i := MissedAt(ms, c);
    CreatesAt(ms, c);
    assert LeansAt(joined, after, ms, i);
  }

  lemma {:induction false} AllCount(slot: u32, rows: set<u32>, ps: seq<UserPatch>)
    requires forall p | p in ps :: Counts(p)
    ensures Counted(AllBring(slot, rows, ps)) >= |ps|
  {
    hide JoinMarks, JoinPosted, PatchMarks, PatchPosts;
    if ps != [] {
      assert Counts(ps[0]);
      AllCount(slot, rows, ps[1..]);
    }
  }

  function Counted(t: Totals): nat {
    t.timesCalled + t.timesCalledToday + t.timeUsedToday + t.messagesPosted
  }

  lemma {:induction false} BringConcat(slot: u32, rows: set<u32>, ps: seq<UserPatch>, qs: seq<UserPatch>)
    ensures Counted(AllBring(slot, rows, ps + qs))
         == Counted(AllBring(slot, rows, ps)) + Counted(AllBring(slot, rows, qs))
  {
    hide JoinMarks, JoinPosted, PatchMarks, PatchPosts;
    if ps == [] {
      assert ps + qs == qs;
    } else {
      assert (ps + qs)[1..] == ps[1..] + qs;
      BringConcat(slot, rows, ps[1..], qs);
    }
  }

  /** A patch that counts something and runs only after others shows in the totals. */
  lemma UnlockedShows(db: Db, slot: u32, ps: seq<UserPatch>)
    requires slot in db.users && forall p | p in ps :: Counts(p)
    requires
      var joined := JoinedBy(db, slot);
      var all := Reach(joined, ps);
      Merged(With(db, slot, all, Ready(joined, ps))) == Merged(With(db, slot, all, Ready(all, ps)))
    ensures forall p | p in NotReady(JoinedBy(db, slot), ps) :: !CanRun(Reach(JoinedBy(db, slot), ps), p.memberships)
  {
    hide CanRun, JoinedBy, Stored, JoinMarks, JoinPosted, AllBring, Ready, NotReady, Counts;
    var joined := JoinedBy(db, slot);
    var now, later, all := Ready(joined, ps), NotReady(joined, ps), Reach(joined, ps);
    var more := Ready(all, later);
    ReadyGrows(joined, all, ps);
    ReadyIsPart(joined, ps);
    ReadyIsPart(all, later);
    assert multiset(now + more) == multiset(now) + multiset(more);
    AllBringPermutes(slot, all, Ready(all, ps), now + more);
    BringConcat(slot, all, now, more);
    AllCount(slot, all, more);
    assert more == [];
    forall p | p in later
      ensures !CanRun(all, p.memberships)
    {
      assert p !in more;
    }
  }

  /**
    If every patch counts something and names each conference once, the order shows if and only if
    some patch has pointers or posts for a row that others of them create.
   */
  lemma OrdersAgreeIffNothingLeans(db: Db, slot: u32, ps: seq<UserPatch>)
    requires Integrity(db) && slot in db.users
    requires forall p | p in ps ::
      p.timesCalled > 0 || p.timesCalledToday > 0 || p.timeUsedToday > 0 || p.messagesPosted > 0
    requires forall p | p in ps :: forall i, j | 0 <= i < j < |p.memberships| ::
      p.memberships[i].conference != p.memberships[j].conference
    ensures OrdersAgree(db, slot, ps) <==> forall p :: !Leans(JoinedBy(db, slot), ps, p)
  {
    assert forall p | p in ps :: Counts(p) && NamesOnce(p.memberships);
    OrdersAgreeIff(db, slot, ps);
    hide OrdersAgree;
    if Settled(db, slot, ps) {
      forall p
        ensures !Leans(JoinedBy(db, slot), ps, p)
      {
        SettledDoesNotLean(db, slot, ps, p);
      }
    }
    if forall p :: !Leans(JoinedBy(db, slot), ps, p) {
      UnleaningSettles(db, slot, ps);
    }
  }

  lemma SettledDoesNotLean(db: Db, slot: u32, ps: seq<UserPatch>, p: UserPatch)
    requires slot in db.users && Settled(db, slot, ps)
    requires forall p | p in ps :: Counts(p) && NamesOnce(p.memberships)
    ensures !Leans(JoinedBy(db, slot), ps, p)
  {
    var joined := JoinedBy(db, slot);
    UnlockedShows(db, slot, ps);
    ReadyIsPart(joined, ps);
    hide JoinedBy, Ready, NotReady, AllCreate, Merged, With, Counts, Reach, MayBeFirst;
    if Leans(joined, ps, p) {
      var ms, after := p.memberships, joined + AllCreate(Ready(joined, ps));
      var i :| 0 <= i < |ms| && LeansAt(joined, after, ms, i);
      assert CanRun(joined, ms);
      var c := ms[i].conference;
      assert PostsSettled(joined, ps, c);
      CreatesAt(ms, c);
      MissesAtLeast(ms, i);
    }
  }

  lemma UnleaningSettles(db: Db, slot: u32, ps: seq<UserPatch>)
    requires slot in db.users
    requires forall p | p in ps :: NamesOnce(p.memberships)
    requires forall p :: !Leans(JoinedBy(db, slot), ps, p)
    ensures Settled(db, slot, ps)
  {
    var joined := JoinedBy(db, slot);
    NothingUnlocked(joined, ps);
    hide JoinedBy, Ready, NotReady, AllCreate, Reach, CanRun, Leans, PostsSettled, Merged;
    var now, later, all := Ready(joined, ps), NotReady(joined, ps), Reach(joined, ps);
    ReadyGrows(joined, all, ps);
    ReadyIsPart(all, later);
    EmptyOrNot(Ready(all, later));
    AllBringPermutes(slot, all, Ready(all, ps), now);
    forall c | c in all
      ensures PostsSettled(joined, ps, c)
    {
      UnleaningPosts(joined, ps, c);
    }
  }

  lemma UnleaningPosts(joined: set<u32>, ps: seq<UserPatch>, c: u32)
    requires forall p | p in ps :: NamesOnce(p.memberships)
    requires forall p :: !Leans(joined, ps, p)
    requires c in Reach(joined, ps)
    ensures PostsSettled(joined, ps, c)
  {
    NothingUnlocked(joined, ps);
    ReadyIsPart(joined, ps);
    hide Ready, NotReady, AllCreate, Reach, CanRun, Leans, PostsMissed, PostsTo, Creates, NamesOnce;
    if c !in joined {
      forall p | p in Ready(joined, ps)
        ensures PostsMissed(p.memberships, c) == 0
      {
        if PostsMissed(p.memberships, c) > 0 { MissedLeans(joined, ps, p, c); }
      }
      forall f | MayBeFirst(joined, ps, c, f)
        ensures f in Ready(joined, ps)
      {
        ReachWithoutCreators(joined, ps, c);
        CanRunMonotone(Reach(joined, Others(ps, c)), Reach(joined, ps), f.memberships);
      }
    }
  }

  // ---- Patches that lean on another ----

  const CALLER := UserRow(
    "sysop", "sysop", Credentials("", Some(""), 0), false, 0, false, 0, 0, 0, 0, None, false, {}, None, None, "")
  const BEFORE := Db(map[1 := CALLER], map[], map[])

  /** One call that joins conference 1, one that reads a message there, and one that posts there. */
  const JOINS := UserPatch(1, 0, 0, 0, None, None, None, None, [MembershipPatch(1, true, None, 0, None, [])])
  const READS := UserPatch(
    1, 0, 0, 0, None, None, None, None, [MembershipPatch(1, false, None, 0, None, [PointerPatch(1, 1, 1, 0)])])
  const POSTS := UserPatch(1, 0, 0, 0, None, None, None, None, [MembershipPatch(1, false, None, 1, None, [])])

  /** Coming first, the reading patch is refused and its call is not counted. */
  lemma DependentPatchIsLost()
    ensures Integrity(BEFORE)
    ensures StoredAfter(BEFORE, 1, [JOINS, READS]).timesCalled == 2
    ensures StoredAfter(BEFORE, 1, [READS, JOINS]).timesCalled == 1
  {
    NothingBefore();
    AcceptedInEitherOrder();
    hide Accepted, StoredAfter, JoinedBy, Integrity, CallsOf, JOINS, READS;
    StoredCalls(BEFORE, 1, [JOINS, READS]);
    StoredCalls(BEFORE, 1, [READS, JOINS]);
  }

  lemma StoredCalls(db: Db, slot: u32, ps: seq<UserPatch>)
    requires Integrity(db) && slot in db.users
    ensures StoredAfter(db, slot, ps).timesCalled
         == db.users[slot].timesCalled + CallsOf(Accepted(JoinedBy(db, slot), ps))
  {
    hide Integrity, JoinedBy, Run, Gain, Accepted, JoinMarks, JoinPosted, StoredMarks, StoredPosts;
    PatchesAddUp(db, slot, ps);
    CallsBrought(slot, JoinedBy(db, slot), ps);
  }

  lemma AcceptedInEitherOrder()
    ensures Accepted({}, [JOINS, READS]) == [JOINS, READS] && CallsOf([JOINS, READS]) == 2
    ensures Accepted({}, [READS, JOINS]) == [JOINS] && CallsOf([JOINS]) == 1
  {
    assert [JOINS, READS][1..] == [READS] && [READS, JOINS][1..] == [JOINS];
    assert HasRow({1}, READS.memberships, 0) && !HasRow({}, READS.memberships, 0);
    assert Creates(JOINS.memberships) == {1} by { assert JOINS.memberships[1..] == []; }
    assert Accepted({}, [JOINS, READS]) == [JOINS, READS] by {
      assert Accepted({1}, [READS]) == [READS] + Accepted({1} + Creates(READS.memberships), []);
      assert {} + {1} == {1};
    }
    assert Accepted({}, [READS, JOINS]) == [JOINS] by {
      assert Accepted({}, [JOINS]) == [JOINS] + Accepted({1}, []);
    }
    assert [READS][1..] == [] && [JOINS][1..] == [] && CallsOf([READS]) == 1;
  }

  /** Coming first, the posting patch is accepted, and its post is lost. */
  lemma DependentPostIsLost()
    ensures Integrity(BEFORE)
    ensures Accepted({}, [JOINS, POSTS]) == [JOINS, POSTS] && Accepted({}, [POSTS, JOINS]) == [POSTS, JOINS]
    ensures CountOf(StoredAfter(BEFORE, 1, [JOINS, POSTS]).posted, 1) == 1
    ensures CountOf(StoredAfter(BEFORE, 1, [POSTS, JOINS]).posted, 1) == 0
  {
    NothingBefore();
    PostsInEitherOrder();
    hide Accepted, StoredAfter, Lost, PostsOf, StoredPosts, CountOf, JoinedBy, Integrity, JOINS, POSTS;
    StoredPost(BEFORE, 1, [JOINS, POSTS], 1);
    StoredPost(BEFORE, 1, [POSTS, JOINS], 1);
  }

  lemma NothingBefore()
    ensures Integrity(BEFORE) && 1 in BEFORE.users && JoinedBy(BEFORE, 1) == {}
    ensures CountOf(StoredPosts(BEFORE, 1), 1) == 0
  {
  }

  lemma PostsInEitherOrder()
    ensures Accepted({}, [JOINS, POSTS]) == [JOINS, POSTS] && Accepted({}, [POSTS, JOINS]) == [POSTS, JOINS]
    ensures PostsOf([JOINS, POSTS], 1) == 1 && PostsOf([POSTS, JOINS], 1) == 1
    ensures Lost({}, [JOINS, POSTS], 1) == 0 && Lost({}, [POSTS, JOINS], 1) == 1
  {
    var joins, posts := JOINS.memberships, POSTS.memberships;
    assert joins[1..] == [] && posts[1..] == [];
    assert Creates(joins) == {1} && Creates(posts) == {};
    assert CanRun({}, joins) && CanRun({}, posts) && CanRun({1}, posts);
    assert PostsTo(joins, 1) == 0 && PostsTo(posts, 1) == 1 && PostsMissed(joins, 1) == 0 && PostsMissed(posts, 1) == 1;
    hide CanRun, Creates, PostsTo, PostsMissed, JOINS, POSTS;
    assert {} + {1} == {1};
    TwoPatches({}, JOINS, POSTS, 1);
    TwoPatches({}, POSTS, JOINS, 1);
  }

  lemma TwoPatches(joined: set<u32>, p: UserPatch, q: UserPatch, c: u32)
    requires CanRun(joined, p.memberships) && CanRun(joined, q.memberships) && c !in joined
    ensures Accepted(joined, [p, q]) == [p, q]
    ensures PostsOf([p, q], c) == PostsTo(p.memberships, c) + PostsTo(q.memberships, c)
    ensures Lost(joined, [p, q], c)
         == PostsMissed(p.memberships, c) + if c in Creates(p.memberships) then 0 else PostsMissed(q.memberships, c)
  {
    hide CanRun, Creates, PostsTo, PostsMissed;
    assert [p, q] + [] == [p, q] && [p, q][1..] == [q] && [q][1..] == [];
    PairFirst(joined, p, q, [], c);
    assert PostsOf([q], c) == PostsTo(q.memberships, c) + PostsOf([], c);
  }
}
