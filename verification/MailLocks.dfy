/**
  The registry of mail stores: one mutex a message base, and a pair of bases locked in one global
  order, so that moving mail between bases cannot deadlock whatever the other sessions do. A session
  may be cut off while it waits, between the two mutexes of a pair included.
 */
module MailLocks {
  import opened Basics

  /** The identity of one `Arc<Mutex<_>>`. */
  type Slot = nat
  type Registry = map<MessageBaseRef, Slot>

  /** The derived order: by conference, then by message base. */
  predicate Below(a: MessageBaseRef, b: MessageBaseRef) {
    a.conference < b.conference || (a.conference == b.conference && a.msgbase < b.msgbase)
  }

  /** Distinct coordinates have distinct mutexes. */
  ghost predicate OneStorePerBase(reg: Registry) {
    forall a, b | a in reg && b in reg && reg[a] == reg[b] :: a == b
  }

  class InMemoryMailStores {
    var byMsgbase: Registry
    var unused: Slot

    ghost predicate Valid()
      reads this
    {
      OneStorePerBase(byMsgbase) && forall b | b in byMsgbase :: byMsgbase[b] < unused
    }

    constructor ()
      ensures Valid() && byMsgbase == map[]
    {
      byMsgbase, unused := map[], 0;
    }

    /** Puts a new mutex behind `msgbase`, in place of any earlier one. */
    method Register(msgbase: MessageBaseRef) returns (slot: Slot)
      requires Valid()
      modifies this
      ensures Valid() && byMsgbase == old(byMsgbase)[msgbase := slot]
      ensures slot !in old(byMsgbase).Values
    {
      slot := unused;
      unused := unused + 1;
      byMsgbase := byMsgbase[msgbase := slot];
    }
  }

  // ---- One session's requests ----

  datatype Request =
    | LockOne(base: MessageBaseRef)
    | LockPair(source: MessageBaseRef, target: MessageBaseRef)

  /** What a request comes back with; the guards are the mutexes it holds. */
  datatype Outcome =
    | NoStore
    | Guard(store: Slot)
    | MissingSource
    | MissingTarget
    | SameStore
    | Locked(sourceGuard: Slot, targetGuard: Slot)

  datatype State =
    | Ready
    | AwaitOnly(slot: Slot)
    | AwaitFirst(firstIsSource: bool, first: Slot, second: Slot)
    | AwaitSecond(firstIsSource: bool, first: Slot, second: Slot)
    | Returned(outcome: Outcome)

  /** A session and the requests it has still to make; the one under way is the first. */
  datatype Session = Session(state: State, script: seq<Request>)

  /** What a request does before it first waits. */
  function Begin(reg: Registry, r: Request): State {
    match r
    case LockOne(base) =>
      if base in reg then AwaitOnly(reg[base]) else Returned(NoStore)
    case LockPair(source, target) =>
      if source !in reg then Returned(MissingSource)
      else if target !in reg then Returned(MissingTarget)
      else if source == target then Returned(SameStore)
      else if Below(source, target) then AwaitFirst(true, reg[source], reg[target])
      else AwaitFirst(false, reg[target], reg[source])
  }

  function Guards(o: Outcome): set<Slot> {
    match o
    case Guard(s) => {s}
    case Locked(s, t) => {s, t}
    case _ => {}
  }

  /**
    The session's next step, with the mutexes locked after it; `None` while it waits for a locked
    one, or when it has nothing left to do.
   */
  function Advance(reg: Registry, locked: set<Slot>, s: Session): Option<(set<Slot>, Session)> {
    match s.state
    case Ready =>
      if s.script == [] then None else Some((locked, s.(state := Begin(reg, s.script[0]))))
    case AwaitOnly(slot) =>
      if slot in locked then None else Some((locked + {slot}, s.(state := Returned(Guard(slot)))))
    case AwaitFirst(firstIsSource, first, second) =>
      if first in locked then None
      else Some((locked + {first}, s.(state := AwaitSecond(firstIsSource, first, second))))
    case AwaitSecond(firstIsSource, first, second) =>
      if second in locked then None
      else
        var outcome := if firstIsSource then Locked(first, second) else Locked(second, first);
        Some((locked + {second}, s.(state := Returned(outcome))))
    case Returned(outcome) =>
      Some((locked - Guards(outcome), Session(Ready, if s.script == [] then [] else s.script[1..])))
  }

  predicate Finished(s: Session) {
    s.state == Ready && s.script == []
  }

  function Held(s: Session): set<Slot> {
    match s.state
    case AwaitSecond(_, first, _) => {first}
    case Returned(outcome) => Guards(outcome)
    case _ => {}
  }

  // ---- Any number of sessions ----

  datatype World = World(reg: Registry, locked: set<Slot>, sessions: seq<Session>)

  predicate CanMove(w: World, i: nat) {
    i < |w.sessions| && Advance(w.reg, w.locked, w.sessions[i]).Some?
  }

  /** A request whose future can be dropped: one that waits for a mutex, the second of a pair included. */
  predicate IsWaiting(s: Session) {
    (s.state.AwaitOnly? || s.state.AwaitFirst? || s.state.AwaitSecond?) && s.script != []
  }

  /** A session takes its next step, or abandons the request it waits in, letting go of what it holds. */
  datatype Action = Take(session: nat) | Abandon(session: nat)

  predicate Enabled(w: World, a: Action) {
    match a
    case Take(i) => CanMove(w, i)
    case Abandon(i) => i < |w.sessions| && IsWaiting(w.sessions[i])
  }

  function Act(w: World, a: Action): World
    requires Enabled(w, a)
  {
    var s := w.sessions[a.session];
    var (locked, session) := match a
                             case Take(_) => Advance(w.reg, w.locked, s).value
                             case Abandon(_) => (w.locked - Held(s), Session(Ready, s.script[1..]));
    w.(locked := locked, sessions := w.sessions[a.session := session])
  }

  ghost predicate Initial(w: World) {
    && OneStorePerBase(w.reg) && w.locked == {}
    && forall i | 0 <= i < |w.sessions| :: w.sessions[i].state == Ready
  }

  /** The world after the actions of `schedule`, in that order. */
  ghost predicate Runs(w: World, schedule: seq<Action>, w': World)
    decreases |schedule|
  {
    if schedule == [] then w' == w
    else Enabled(w, schedule[0]) && Runs(Act(w, schedule[0]), schedule[1..], w')
  }

  // ---- What every reachable state keeps ----

  /** The answer to a request, said without reference to the order of locking. */
  function Expected(reg: Registry, r: Request): Outcome {
    match r
    case LockOne(base) =>
      if base in reg then Guard(reg[base]) else NoStore
    case LockPair(source, target) =>
      if source !in reg then MissingSource
      else if target !in reg then MissingTarget
      else if source == target then SameStore
      else Locked(reg[source], reg[target])
  }

  predicate PairUnderWay(reg: Registry, s: Session, firstIsSource: bool, first: Slot, second: Slot) {
    && s.script != [] && s.script[0].LockPair?
    && s.script[0].source in reg && s.script[0].target in reg && s.script[0].source != s.script[0].target
    && firstIsSource == Below(s.script[0].source, s.script[0].target)
    && first == reg[Lower(s.script[0])] && second == reg[Upper(s.script[0])]
  }

  function Lower(r: Request): MessageBaseRef
    requires r.LockPair?
  {
    if Below(r.source, r.target) then r.source else r.target
  }

  function Upper(r: Request): MessageBaseRef
    requires r.LockPair?
  {
    if Below(r.source, r.target) then r.target else r.source
  }

  /** A session's state belongs to its current request, and a returned outcome is the expected one. */
  ghost predicate Consistent(reg: Registry, s: Session) {
    match s.state
    case Ready => true
    case AwaitOnly(slot) =>
      s.script != [] && s.script[0].LockOne? && s.script[0].base in reg && slot == reg[s.script[0].base]
    case AwaitFirst(fs, first, second) => PairUnderWay(reg, s, fs, first, second)
    case AwaitSecond(fs, first, second) => PairUnderWay(reg, s, fs, first, second)
    case Returned(outcome) => s.script != [] && outcome == Expected(reg, s.script[0])
  }

  ghost predicate IsHeld(w: World, slot: Slot) {
    exists i :: 0 <= i < |w.sessions| && slot in Held(w.sessions[i])
  }

  /** Every locked mutex is held, by one session only. */
  ghost predicate Exclusive(w: World) {
    && (forall i, j | 0 <= i < j < |w.sessions| :: Held(w.sessions[i]) !! Held(w.sessions[j]))
    && (forall i | 0 <= i < |w.sessions| :: Held(w.sessions[i]) <= w.locked)
    && (forall slot | slot in w.locked :: IsHeld(w, slot))
  }

  ghost predicate Inv(w: World) {
    && OneStorePerBase(w.reg)
    && (forall i | 0 <= i < |w.sessions| :: Consistent(w.reg, w.sessions[i]))
    && Exclusive(w)
  }

  /** What one action does to what the session holds. */
  lemma ActHolds(w: World, a: Action)
    requires Inv(w) && Enabled(w, a)
    ensures
      var w', i := Act(w, a), a.session;
      var before, after := Held(w.sessions[i]), Held(w'.sessions[i]);
      && Consistent(w.reg, w'.sessions[i])
      && w'.locked == (w.locked - before) + after
      && (after - before) !! w.locked
  {
    assert Consistent(w.reg, w.sessions[a.session]);
    assert Held(w.sessions[a.session]) <= w.locked;
  }

  lemma ActKeepsInv(w: World, a: Action)
    requires Inv(w) && Enabled(w, a)
    ensures Inv(Act(w, a))
  {
    var w', i := Act(w, a), a.session;
    ActHolds(w, a);
    ActFrame(w, a);
    hide Advance, Act, Consistent, Held, Enabled;
    forall j | 0 <= j < |w.sessions| && j != i
      ensures Held(w'.sessions[i]) !! Held(w'.sessions[j])
      ensures Held(w'.sessions[j]) <= w'.locked
    {
      assert Held(w.sessions[i]) !! Held(w.sessions[j]);
    }
    forall slot | slot in w'.locked
      ensures IsHeld(w', slot)
    {
      if slot !in Held(w'.sessions[i]) {
        assert IsHeld(w, slot);
        var j :| 0 <= j < |w.sessions| && slot in Held(w.sessions[j]);
        assert slot in Held(w'.sessions[j]);
      }
    }
  }

  lemma ActFrame(w: World, a: Action)
    requires Enabled(w, a)
    ensures a.session < |w.sessions|
    ensures Act(w, a).reg == w.reg && |Act(w, a).sessions| == |w.sessions|
    ensures forall j | 0 <= j < |w.sessions| && j != a.session :: Act(w, a).sessions[j] == w.sessions[j]
  {
  }

  // ---- Deadlock freedom ----

  predicate Waits(s: Session) {
    s.script != [] && match s.state
                      case AwaitOnly(_) => s.script[0].LockOne?
                      case AwaitFirst(_, _, _) => s.script[0].LockPair?
                      case AwaitSecond(_, _, _) => s.script[0].LockPair?
                      case _ => false
  }

  /** The base whose mutex a waiting session waits for. */
  function Awaited(s: Session): MessageBaseRef
    requires Waits(s)
  {
    match s.state
    case AwaitOnly(_) => s.script[0].base
    case AwaitFirst(_, _, _) => Lower(s.script[0])
    case AwaitSecond(_, _, _) => Upper(s.script[0])
  }

  ghost predicate Blocked(w: World, i: nat) {
    && i < |w.sessions| && !CanMove(w, i) && !Finished(w.sessions[i])
  }

  /** A blocked session waits for a locked mutex. */
  lemma BlockedWaits(w: World, i: nat)
    requires Inv(w) && Blocked(w, i)
    ensures
      var s := w.sessions[i];
      Waits(s) && Awaited(s) in w.reg && w.reg[Awaited(s)] in w.locked
  {
    assert Consistent(w.reg, w.sessions[i]);
  }

  function Higher(reg: Registry, base: MessageBaseRef): set<MessageBaseRef> {
    set b | b in reg && Below(base, b)
  }

  /** A session that holds a mutex and cannot move holds the lower one of its pair and waits for the upper. */
  lemma HolderWaits(w: World, k: nat, base: MessageBaseRef)
    requires Inv(w) && k < |w.sessions| && base in w.reg && w.reg[base] in Held(w.sessions[k]) && !CanMove(w, k)
    ensures Waits(w.sessions[k]) && Awaited(w.sessions[k]) in Higher(w.reg, base)
  {
    assert Consistent(w.reg, w.sessions[k]);
    assert w.sessions[k].state.AwaitSecond?;
    assert w.reg[Lower(w.sessions[k].script[0])] == w.reg[base];
  }

  /** Follows the holders up the order of bases until one of them can move. */
  lemma FindMover(w: World, i: nat) returns (j: nat)
    requires Inv(w) && i < |w.sessions| && !Finished(w.sessions[i])
    requires CanMove(w, i) || Waits(w.sessions[i])
    ensures CanMove(w, j)
    decreases if CanMove(w, i) then {} else Higher(w.reg, Awaited(w.sessions[i]))
  {
    hide CanMove, Consistent, Held, Awaited, Waits;
    if CanMove(w, i) {
      return i;
    }
    BlockedWaits(w, i);
    var wanted := Awaited(w.sessions[i]);
    assert IsHeld(w, w.reg[wanted]);
    var k: nat :| k < |w.sessions| && w.reg[wanted] in Held(w.sessions[k]);
    if CanMove(w, k) {
      return k;
    }
    HolderWaits(w, k, wanted);
    HigherIsLess(w.reg, wanted, Awaited(w.sessions[k]));
    WaitsIsUnfinished(w.sessions[k]);
    j := FindMover(w, k);
  }

  lemma HigherIsLess(reg: Registry, base: MessageBaseRef, above: MessageBaseRef)
    requires above in Higher(reg, base)
    ensures Higher(reg, above) < Higher(reg, base)
  {
  }

  lemma WaitsIsUnfinished(s: Session)
    ensures Waits(s) ==> !Finished(s)
  {
  }

  lemma NoDeadlockAt(w: World)
    requires Inv(w) && forall i: nat :: !CanMove(w, i)
    ensures forall i | 0 <= i < |w.sessions| :: Finished(w.sessions[i])
  {
    forall i | 0 <= i < |w.sessions|
      ensures Finished(w.sessions[i])
    {
      if !Finished(w.sessions[i]) {
        BlockedWaits(w, i);
        var j := FindMover(w, i);
      }
    }
  }

  // ---- Every run ends ----

  /** Steps a session has still to take: four a request. */
  function Remaining(s: Session): int {
    4 * |s.script| - match s.state
                     case Ready => 0
                     case AwaitOnly(_) => 1
                     case AwaitFirst(_, _, _) => 1
                     case AwaitSecond(_, _, _) => 2
                     case Returned(_) => 3
  }

  function TotalRemaining(ss: seq<Session>): int {
    if ss == [] then 0 else TotalRemaining(ss[..|ss| - 1]) + Remaining(ss[|ss| - 1])
  }

  lemma {:induction false} TotalUpdate(ss: seq<Session>, i: nat, s: Session)
    requires i < |ss|
    ensures TotalRemaining(ss[i := s]) == TotalRemaining(ss) - Remaining(ss[i]) + Remaining(s)
  {
    var last := |ss| - 1;
    if i == last {
      assert ss[i := s][..last] == ss[..last];
    } else {
      assert ss[i := s][..last] == ss[..last][i := s];
      TotalUpdate(ss[..last], i, s);
    }
  }

  lemma {:induction false} TotalNonNegative(reg: Registry, ss: seq<Session>)
    requires forall i | 0 <= i < |ss| :: Consistent(reg, ss[i])
    ensures TotalRemaining(ss) >= 0
  {
    if ss != [] {
      TotalNonNegative(reg, ss[..|ss| - 1]);
      assert Consistent(reg, ss[|ss| - 1]);
    }
  }

  lemma {:induction false} RunKeepsInv(w: World, schedule: seq<Action>, w': World)
    requires Inv(w) && Runs(w, schedule, w')
    ensures Inv(w') && w'.reg == w.reg && |w'.sessions| == |w.sessions|
    ensures |schedule| <= TotalRemaining(w.sessions)
    decreases |schedule|
  {
    if schedule == [] {
      TotalNonNegative(w.reg, w.sessions);
    } else {
      var i := schedule[0].session;
      var next := Act(w, schedule[0]);
      ActKeepsInv(w, schedule[0]);
      RunKeepsInv(next, schedule[1..], w');
      assert Consistent(w.reg, w.sessions[i]);
      TotalUpdate(w.sessions, i, next.sessions[i]);
    }
  }

  /** In every reachable state no mutex is held by two sessions, nor twice by one. */
  lemma NoStoreHeldTwice(start: World, schedule: seq<Action>, w: World, i: nat, j: nat)
    requires Initial(start) && Runs(start, schedule, w) && i < |w.sessions| && j < |w.sessions|
    ensures i != j ==> Held(w.sessions[i]) !! Held(w.sessions[j])
    ensures w.sessions[i].state.Returned? && w.sessions[i].state.outcome.Locked?
        ==> w.sessions[i].state.outcome.sourceGuard != w.sessions[i].state.outcome.targetGuard
  {
    RunKeepsInv(start, schedule, w);
    assert Consistent(w.reg, w.sessions[i]);
  }

  /** What a request returns is its expected answer: each guard is the mutex of the base it is labelled with. */
  lemma GuardsAreLabelled(start: World, schedule: seq<Action>, w: World, i: nat)
    requires Initial(start) && Runs(start, schedule, w) && i < |w.sessions| && w.sessions[i].state.Returned?
    ensures w.sessions[i].script != []
    ensures w.sessions[i].state.outcome == Expected(start.reg, w.sessions[i].script[0])
    ensures
      var reg, outcome := start.reg, w.sessions[i].state.outcome;
      match w.sessions[i].script[0]
      case LockOne(base) => outcome == if base in reg then Guard(reg[base]) else NoStore
      case LockPair(source, target) =>
        if source !in reg then outcome == MissingSource
        else if target !in reg then outcome == MissingTarget
        else if source == target then outcome == SameStore
        else outcome.Locked? && outcome.sourceGuard == reg[source] && outcome.targetGuard == reg[target]
  {
    RunKeepsInv(start, schedule, w);
    assert Consistent(w.reg, w.sessions[i]);
  }

  /**
    Of a pair, the mutex of the lower conference is taken first, and within one conference that of
    the lower base; what a session holds are the mutexes it has taken.
   */
  lemma LowerIsTakenFirst(start: World, schedule: seq<Action>, w: World, i: nat)
    requires Initial(start) && Runs(start, schedule, w) && i < |w.sessions|
    requires w.sessions[i].state.AwaitFirst? || w.sessions[i].state.AwaitSecond?
    ensures w.sessions[i].script != [] && w.sessions[i].script[0].LockPair?
    ensures
      var request, state := w.sessions[i].script[0], w.sessions[i].state;
      var (source, target) := (request.source, request.target);
      && source in start.reg && target in start.reg && source != target
      && (if source.conference < target.conference
            || (source.conference == target.conference && source.msgbase < target.msgbase) then
            state.first == start.reg[source] && state.second == start.reg[target]
          else state.first == start.reg[target] && state.second == start.reg[source])
      && (state.AwaitSecond? ==> state.first in w.locked)
  {
    RunKeepsInv(start, schedule, w);
    assert Consistent(w.reg, w.sessions[i]);
    assert Held(w.sessions[i]) <= w.locked;
  }

  /** While any session has work left, some session can take a step, without any request being abandoned. */
  lemma NoDeadlock(start: World, schedule: seq<Action>, w: World, i: nat)
    requires Initial(start) && Runs(start, schedule, w) && i < |w.sessions| && !Finished(w.sessions[i])
    ensures exists j: nat :: CanMove(w, j)
  {
    RunKeepsInv(start, schedule, w);
    if forall j: nat :: !CanMove(w, j) { NoDeadlockAt(w); }
  }

  /**
    No run is longer than four steps a request, and one in which no session can take a step has
    served all requests but those abandoned.
   */
  lemma EveryRunCompletes(start: World, schedule: seq<Action>, w: World)
    requires Initial(start) && Runs(start, schedule, w)
    ensures |schedule| <= TotalRemaining(start.sessions)
    ensures (forall j: nat :: !CanMove(w, j)) ==> forall i | 0 <= i < |w.sessions| :: Finished(w.sessions[i])
    ensures (forall j: nat :: !CanMove(w, j)) ==>
      forall i | 0 <= i < |w.sessions| :: w.sessions[i].state == Ready && w.sessions[i].script == []
  {
    RunKeepsInv(start, schedule, w);
    if forall j: nat :: !CanMove(w, j) { NoDeadlockAt(w); }
  }
}
