/**
  The fixed pool of nodes and its signal lanes. The two lists sit behind separate locks, and
  `Release` takes them one after the other, so other sessions run in between.
 */
module NodePool {
  import opened Basics

  datatype NodeStatus = Idle | Connecting | LoggedOn | LoggingOff
  datatype Node = Node(number: u32, status: NodeStatus)
  datatype ReleaseError = UnknownNode(number: u32) | InvalidTransition(from: NodeStatus, to: NodeStatus)

  /** A session's signal channel, named by the session it reaches. */
  type Sender = nat

  predicate TransitionAllowed(from: NodeStatus, to: NodeStatus) {
    match (from, to)
    case (Idle, Connecting) => true
    case (Connecting, Idle) => true
    case (LoggingOff, Idle) => true
    case (Connecting, LoggedOn) => true
    case (LoggedOn, LoggingOff) => true
    case _ => false
  }

  /** The five changes of status there are; `Allocate` and `Release` make the first three. */
  lemma TransitionsAre(from: NodeStatus, to: NodeStatus)
    ensures TransitionAllowed(from, to) <==>
      (from, to) in {(Idle, Connecting), (Connecting, Idle), (LoggingOff, Idle),
                     (Connecting, LoggedOn), (LoggedOn, LoggingOff)}
  {
  }

  predicate Exists(nodes: seq<Node>, number: u32) {
    1 <= number <= |nodes|
  }

  ghost predicate Numbered(nodes: seq<Node>) {
    |nodes| <= U32_MAX && forall i | 0 <= i < |nodes| :: nodes[i].number == i + 1
  }

  // ---- What each critical section does ----

  /** The lowest idle node, and only that one, starts connecting; none does when none is idle. */
  ghost predicate Claims(before: seq<Node>, number: Option<u32>, after: seq<Node>) {
    match number
    case None => after == before && forall i | 0 <= i < |before| :: before[i].status != Idle
    case Some(n) =>
      && Exists(before, n)
      && before[n - 1].status == Idle
      && (forall i | 0 <= i < n - 1 :: before[i].status != Idle)
      && after == before[n - 1 := Node(n, Connecting)]
  }

  ghost predicate SetsLane(before: seq<Option<Sender>>, number: u32, lane: Option<Sender>, after: seq<Option<Sender>>) {
    after == if 1 <= number <= |before| then before[number - 1 := lane] else before
  }

  ghost predicate Frees(before: seq<Node>, number: u32, error: Option<ReleaseError>, after: seq<Node>) {
    if !Exists(before, number) then
      error == Some(UnknownNode(number)) && after == before
    else if !TransitionAllowed(before[number - 1].status, Idle) then
      error == Some(InvalidTransition(before[number - 1].status, Idle)) && after == before
    else
      error == None && after == before[number - 1 := Node(number, Idle)]
  }

  class NodePool {
    var nodes: seq<Node>
    var signals: seq<Option<Sender>>

    ghost predicate Valid()
      reads this
    {
      Numbered(nodes) && |signals| == |nodes|
    }

    constructor (maxNodes: u32)
      ensures Valid() && |nodes| == maxNodes
      ensures forall i | 0 <= i < maxNodes :: nodes[i].status == Idle && signals[i] == None
    {
      nodes := seq(maxNodes, i requires 0 <= i < maxNodes => Node(i + 1, Idle));
      signals := seq(maxNodes, i => None);
    }

    method AttachSignalSender(number: u32, sender: Sender)
      requires Valid()
      modifies this`signals
      ensures Valid() && SetsLane(old(signals), number, Some(sender), signals)
      ensures
        signals == if 1 <= number <= |old(signals)| then old(signals)[number - 1 := Some(sender)] else old(signals)
    {
      if 1 <= number <= |signals| {
        signals := signals[number - 1 := Some(sender)];
      }
    }

    method SignalSender(number: u32) returns (sender: Option<Sender>)
      requires Valid()
      ensures forall s :: sender == Some(s) <==> Exists(nodes, number) && signals[number - 1] == Some(s)
      ensures sender == if 1 <= number <= |nodes| then signals[number - 1] else None
    {
      sender := if 1 <= number <= |signals| then signals[number - 1] else None;
    }

    method Allocate() returns (number: Option<u32>)
      requires Valid()
      modifies this`nodes
      ensures Valid() && Claims(old(nodes), number, nodes)
      ensures number == None <==> forall i | 0 <= i < |old(nodes)| :: old(nodes)[i].status != Idle
      ensures number == None ==> nodes == old(nodes)
      ensures number.Some? ==>
        && 1 <= number.value <= |old(nodes)| && old(nodes)[number.value - 1].status == Idle
        && (forall i | 0 <= i < number.value - 1 :: old(nodes)[i].status != Idle)
        && nodes == old(nodes)[number.value - 1 := Node(number.value, Connecting)]
    {
      var i := 0;
      while i < |nodes| && nodes[i].status != Idle
        invariant 0 <= i <= |nodes| && nodes == old(nodes)
        invariant forall j | 0 <= j < i :: nodes[j].status != Idle
      {
        i := i + 1;
      }
      if i == |nodes| {
        return None;
      }
      number := Some(nodes[i].number);
      nodes := nodes[i := nodes[i].(status := Connecting)];
    }

    /** Clears the lane under its own lock, then frees the node under the other. */
    method Release(number: u32) returns (error: Option<ReleaseError>)
      requires Valid()
      modifies this
      ensures Valid()
      ensures SetsLane(old(signals), number, None, signals) && Frees(old(nodes), number, error, nodes)
      ensures signals == if 1 <= number <= |old(signals)| then old(signals)[number - 1 := None] else old(signals)
      ensures
        if !(1 <= number <= |old(nodes)|) then error == Some(UnknownNode(number)) && nodes == old(nodes)
        else
          match old(nodes)[number - 1].status
          case Idle => error == Some(InvalidTransition(Idle, Idle)) && nodes == old(nodes)
          case LoggedOn => error == Some(InvalidTransition(LoggedOn, Idle)) && nodes == old(nodes)
          case Connecting => error == None && nodes == old(nodes)[number - 1 := Node(number, Idle)]
          case LoggingOff => error == None && nodes == old(nodes)[number - 1 := Node(number, Idle)]
    {
      if 1 <= number <= |signals| {
        signals := signals[number - 1 := None];
      }
      var i := 0;
      while i < |nodes| && nodes[i].number != number
        invariant 0 <= i <= |nodes| && nodes == old(nodes)
        invariant Exists(nodes, number) ==> i <= number - 1
      {
        i := i + 1;
      }
      if i == |nodes| {
        return Some(UnknownNode(number));
      }
      if !TransitionAllowed(nodes[i].status, Idle) {
        return Some(InvalidTransition(nodes[i].status, Idle));
      }
      error := None;
      nodes := nodes[i := nodes[i].(status := Idle)];
    }
  }

  // ---- Any number of connections sharing one pool ----

  /**
    Where one connection task stands. It allocates, attaches its channel, runs its session, then
    releases; the release is two steps, with `LaneCleared` between them.
   */
  datatype Session =
    | Accepted
    | TurnedAway
    | Claimed(node: u32)
    | Installed(node: u32)
    | LaneCleared(node: u32)
    | Finished

  datatype World = World(nodes: seq<Node>, signals: seq<Option<Sender>>, sessions: seq<Session>)

  ghost predicate Initial(w: World) {
    && Numbered(w.nodes) && |w.signals| == |w.nodes| && w.sessions == []
    && forall i | 0 <= i < |w.nodes| :: w.nodes[i].status == Idle && w.signals[i] == None
  }

  ghost predicate SessionStep(w: World, i: nat, w': World)
    requires i < |w.sessions|
  {
    && |w'.sessions| == |w.sessions|
    && w'.sessions == w.sessions[i := w'.sessions[i]]
    && match w.sessions[i]
       case Accepted =>
         && w'.signals == w.signals
         && match w'.sessions[i] {
            case TurnedAway => Claims(w.nodes, None, w'.nodes)
            case Claimed(n) => Claims(w.nodes, Some(n), w'.nodes)
            case _ => false
            }
       case Claimed(n) =>
         w'.nodes == w.nodes && SetsLane(w.signals, n, Some(i), w'.signals) && w'.sessions[i] == Installed(n)
       case Installed(n) =>
         w'.nodes == w.nodes && SetsLane(w.signals, n, None, w'.signals) && w'.sessions[i] == LaneCleared(n)
       case LaneCleared(n) =>
         && w'.signals == w.signals && w'.sessions[i] == Finished
         && exists error :: Frees(w.nodes, n, error, w'.nodes)
       case _ => false
  }

  ghost predicate Step(w: World, w': World) {
    || w' == w.(sessions := w.sessions + [Accepted])
    || exists i: nat :: i < |w.sessions| && SessionStep(w, i, w')
  }

  ghost predicate StepAt(worlds: seq<World>, k: nat)
    requires 0 < k < |worlds|
  {
    Step(worlds[k - 1], worlds[k])
  }

  ghost predicate Run(worlds: seq<World>) {
    && worlds != [] && Initial(worlds[0])
    && forall k | 0 < k < |worlds| :: StepAt(worlds, k)
  }

  // ---- What every reachable state keeps ----

  predicate Holds(s: Session) {
    s.Claimed? || s.Installed? || s.LaneCleared?
  }

  predicate IsIdle(n: Node) {
    n.status == Idle
  }

  /** No node has two owners, and every owned node is connecting. */
  ghost predicate OwnedOnce(w: World) {
    && (forall i | 0 <= i < |w.sessions| && Holds(w.sessions[i]) ::
          Exists(w.nodes, w.sessions[i].node) && w.nodes[w.sessions[i].node - 1].status == Connecting)
    && (forall i, j | 0 <= i < j < |w.sessions| && Holds(w.sessions[i]) && Holds(w.sessions[j]) ::
          w.sessions[i].node != w.sessions[j].node)
  }

  /** The sender installed on a node is its current owner's, and only while that owner is running. */
  ghost predicate LanesMatchOwners(w: World) {
    && |w.signals| == |w.nodes| <= U32_MAX
    && (forall n | 0 <= n < |w.signals| && w.signals[n].Some? ::
          w.signals[n].value < |w.sessions| && w.sessions[w.signals[n].value] == Installed(n + 1))
    && (forall i | 0 <= i < |w.sessions| && w.sessions[i].Installed? && Exists(w.nodes, w.sessions[i].node) ::
          w.signals[w.sessions[i].node - 1] == Some(i))
  }

  /** Idle nodes and held nodes together are all the nodes. */
  ghost predicate Conserved(w: World) {
    Count(w.nodes, IsIdle) + Count(w.sessions, Holds) == |w.nodes|
  }

  ghost predicate Inv(w: World) {
    Numbered(w.nodes) && OwnedOnce(w) && LanesMatchOwners(w) && Conserved(w)
  }

  lemma StepKeepsOwners(w: World, i: nat, w': World)
    requires Numbered(w.nodes) && OwnedOnce(w) && i < |w.sessions| && SessionStep(w, i, w')
    ensures Numbered(w'.nodes) && |w'.nodes| == |w.nodes| && OwnedOnce(w')
  {
    forall j | 0 <= j < |w'.sessions| && j != i
      ensures w'.sessions[j] == w.sessions[j]
    {
    }
  }

  lemma StepKeepsLanes(w: World, i: nat, w': World)
    requires Numbered(w.nodes) && OwnedOnce(w) && LanesMatchOwners(w) && i < |w.sessions| && SessionStep(w, i, w')
    requires |w'.nodes| == |w.nodes|
    ensures LanesMatchOwners(w')
  {
    forall j | 0 <= j < |w'.sessions| && j != i
      ensures w'.sessions[j] == w.sessions[j]
    {
    }
  }

  lemma StepConserves(w: World, i: nat, w': World)
    requires Numbered(w.nodes) && OwnedOnce(w) && Conserved(w) && i < |w.sessions| && SessionStep(w, i, w')
    ensures Conserved(w')
  {
    var s, s' := w.sessions[i], w'.sessions[i];
    CountUpdate(w.sessions, i, s', Holds);
    if s.Accepted? && s'.Claimed? {
      CountUpdate(w.nodes, s'.node - 1, Node(s'.node, Connecting), IsIdle);
    }
    if s.LaneCleared? {
      CountUpdate(w.nodes, s.node - 1, Node(s.node, Idle), IsIdle);
    }
  }

  lemma StepKeepsInv(w: World, w': World)
    requires Inv(w) && Step(w, w')
    ensures Inv(w') && |w'.nodes| == |w.nodes|
  {
    if w' == w.(sessions := w.sessions + [Accepted]) {
      assert w'.sessions[..|w.sessions|] == w.sessions;
    } else {
      hide Conserved, LanesMatchOwners, OwnedOnce, SessionStep;
      var i: nat :| i < |w.sessions| && SessionStep(w, i, w');
      StepKeepsOwners(w, i, w');
      StepKeepsLanes(w, i, w');
      StepConserves(w, i, w');
    }
  }

  /** In every run: one owner a node, idle plus held is the pool's size, lanes belong to the owners. */
  lemma {:induction false} RunKeepsInv(worlds: seq<World>, k: nat)
    requires Run(worlds) && k < |worlds|
    ensures Inv(worlds[k]) && |worlds[k].nodes| == |worlds[0].nodes|
  {
    if k == 0 {
      CountAll(worlds[0].nodes, IsIdle);
    } else {
      hide Inv, Step;
      RunKeepsInv(worlds, k - 1);
      assert StepAt(worlds, k);
      StepKeepsInv(worlds[k - 1], worlds[k]);
    }
  }

  /** A connection's release always succeeds, though its result is thrown away. */
  lemma ReleaseNeverFails(worlds: seq<World>, k: nat, i: nat, error: Option<ReleaseError>, after: seq<Node>)
    requires Run(worlds) && k < |worlds|
    requires i < |worlds[k].sessions| && worlds[k].sessions[i].LaneCleared?
    requires Frees(worlds[k].nodes, worlds[k].sessions[i].node, error, after)
    ensures error == None
  {
    RunKeepsInv(worlds, k);
  }

  /** A caller is turned away exactly when every node is held. */
  lemma TurnedAwayIffFull(worlds: seq<World>, k: nat, number: Option<u32>, after: seq<Node>)
    requires Run(worlds) && k < |worlds|
    requires Claims(worlds[k].nodes, number, after)
    ensures number == None <==> Count(worlds[k].sessions, Holds) == |worlds[0].nodes|
  {
    RunKeepsInv(worlds, k);
    CountAll(worlds[k].nodes, IsIdle);
  }

  /** Once every connection is over, every node is idle again and every lane is empty. */
  lemma NothingLeaks(worlds: seq<World>, k: nat)
    requires Run(worlds) && k < |worlds|
    requires forall i | 0 <= i < |worlds[k].sessions| :: !Holds(worlds[k].sessions[i])
    ensures |worlds[k].signals| == |worlds[k].nodes|
    ensures forall n | 0 <= n < |worlds[k].nodes| ::
      worlds[k].nodes[n].status == Idle && worlds[k].signals[n] == None
  {
    RunKeepsInv(worlds, k);
    CountAll(worlds[k].sessions, Holds);
    CountAll(worlds[k].nodes, IsIdle);
  }
}
