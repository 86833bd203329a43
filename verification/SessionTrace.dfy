/**
  The life of one session as the events a driver may produce, in which order; and what follows for
  every sequence of events that keeps to it.
 */
module SessionTrace {
  import opened Basics

  datatype LogoffReason =
    | NewUserRejected | ExcessivePasswordFails | LockedAccount | NormalLogoff
    | NoConferenceAccess | OutOfTime | InputTimeout | CarrierLoss

  /** `Gone` is a session dropped after a storage failure. */
  datatype Phase =
    | Connecting | Identifying | Authenticating | Registering | Onboarded | InMenu
    | LoggingOff(reason: LogoffReason) | Ended | Gone

  predicate IsActive(p: Phase) {
    p.Identifying? || p.Authenticating? || p.Registering? || p.Onboarded? || p.InMenu?
  }

  /** What the domain and the stores decide about a session; the driver does not choose these. */
  datatype Verdict =
    // about a name
    | LookupFailed | KnownName | UnknownName | NewUserWelcome | NewUserRefused
    // about a password
    | LoginNotSaved | PasswordRight | RightButLocked | RightButTooLow | PasswordWrong | WrongAndLocked | WrongTooOften
    // about a registration
    | GateRight | GateWrong | GateWrongTooOften | HandleFree | HandleTaken | HandleCheckFailed | HandlesExhausted
    | UserCreated | CreatedButLocked | CreatedButTooLow | CreateFailed
    // about the way into the menu
    | ConferenceFound | NoConference | MenuAdmitted | MenuNotSaved | ResetRequired
    | ResetDone | ResetRefused | ResetNotSaved | ResetsExhausted
    // about the way out
    | CallerSaidGoodbye | CarrierGone | CallerIdle | CallOverTime

  const MAX_NAME_RETRIES := 5

  datatype ReadAnswer = ReadFailed | GotLine(text: string) | GotEof | GotTimeout

  datatype Event =
    | Writes(ok: bool)
    | Flushes(ok: bool)
    | Reads(answer: ReadAnswer)
    | Decides(verdict: Verdict)
    | Enters(phase: Phase)
    | LogsOff(reason: LogoffReason)
    | Finalises(reason: LogoffReason)

  /** What was last done to the terminal: nothing since, a write, or a write and a flush. */
  datatype Output = Quiet | Written | Flushed

  /** What a verdict, or the end of the caller's input, calls for. */
  datatype Due = Nothing | MustEnter(phase: Phase) | MustLogOff(reason: LogoffReason)

  /**
    Where a session stands: its phase, what is due, what was last output, how many names were
    unknown, whether the terminal has failed and whether the session is finalised. Whether a timeout
    counts as a logoff is a policy.
   */
  datatype Mode = Mode(
    phase: Phase, due: Due, output: Output, misses: nat, failed: bool, finalised: bool, timeoutIsLogoff: bool)

  function Start(timeoutIsLogoff: bool): Mode {
    Mode(Connecting, MustEnter(Identifying), Quiet, 0, false, false, timeoutIsLogoff)
  }

  function IdleReason(m: Mode): LogoffReason {
    if m.timeoutIsLogoff then InputTimeout else CarrierLoss
  }

  /** The phase in which each verdict is given. */
  function PhaseOf(v: Verdict): Phase {
    match v
    case LookupFailed => Identifying
    case KnownName => Identifying
    case UnknownName => Identifying
    case NewUserWelcome => Identifying
    case NewUserRefused => Identifying
    case LoginNotSaved => Authenticating
    case PasswordRight => Authenticating
    case RightButLocked => Authenticating
    case RightButTooLow => Authenticating
    case PasswordWrong => Authenticating
    case WrongAndLocked => Authenticating
    case WrongTooOften => Authenticating
    case ConferenceFound => Onboarded
    case NoConference => Onboarded
    case MenuAdmitted => Onboarded
    case MenuNotSaved => Onboarded
    case ResetRequired => Onboarded
    case ResetDone => Onboarded
    case ResetRefused => Onboarded
    case ResetNotSaved => Onboarded
    case ResetsExhausted => Onboarded
    case CallerSaidGoodbye => InMenu
    case CarrierGone => InMenu
    case CallerIdle => InMenu
    case CallOverTime => InMenu
    case _ => Registering
  }

  /** What each verdict calls for, given the names missed before. */
  function Calls(m: Mode, v: Verdict): Due {
    match v
    case LookupFailed => MustEnter(Gone)
    case KnownName => MustEnter(Authenticating)
    case UnknownName => if m.misses + 1 >= MAX_NAME_RETRIES then MustEnter(Ended) else Nothing
    case NewUserWelcome => MustEnter(Registering)
    case NewUserRefused => MustLogOff(NewUserRejected)
    case LoginNotSaved => MustEnter(Gone)
    case PasswordRight => MustEnter(Onboarded)
    case RightButLocked => MustLogOff(LockedAccount)
    case RightButTooLow => MustLogOff(NewUserRejected)
    case WrongAndLocked => MustLogOff(LockedAccount)
    case WrongTooOften => MustLogOff(ExcessivePasswordFails)
    case GateWrongTooOften => MustLogOff(NewUserRejected)
    case HandleCheckFailed => MustLogOff(CarrierLoss)
    case HandlesExhausted => MustLogOff(CarrierLoss)
    case UserCreated => MustEnter(Onboarded)
    case CreatedButLocked => MustLogOff(LockedAccount)
    case CreatedButTooLow => MustLogOff(NewUserRejected)
    case CreateFailed => MustLogOff(CarrierLoss)
    case NoConference => MustLogOff(NoConferenceAccess)
    case MenuAdmitted => MustEnter(InMenu)
    case MenuNotSaved => MustEnter(Gone)
    case ResetNotSaved => MustEnter(Gone)
    case ResetsExhausted => MustLogOff(CarrierLoss)
    case CallerSaidGoodbye => MustLogOff(NormalLogoff)
    case CarrierGone => MustLogOff(CarrierLoss)
    case CallerIdle => MustLogOff(IdleReason(m))
    case CallOverTime => MustLogOff(OutOfTime)
    case _ => Nothing
  }

  /** What the end of a read calls for; the menu settles its own. */
  function AfterRead(m: Mode, answer: ReadAnswer): Due {
    if m.phase == InMenu then Nothing
    else
      match answer
      case GotEof => MustLogOff(CarrierLoss)
      case GotTimeout => MustLogOff(IdleReason(m))
      case _ => Nothing
  }

  /**
    The one event after another: `None` if it is out of order. What is due comes before any further
    read or verdict, and nothing is entered or left that is not due. Outside the menu, whose own
    prompts are not modelled, a read directly follows a prompt that was written and flushed.
   */
  function Next(m: Mode, e: Event): Option<Mode> {
    if m.finalised then None
    else if m.failed then
      match e
      case LogsOff(reason) =>
        if reason == CarrierLoss && (m.phase == Connecting || IsActive(m.phase)) then
          Some(m.(phase := LoggingOff(CarrierLoss), due := Nothing))
        else None
      case Finalises(reason) => if m.phase == LoggingOff(reason) then Some(m.(finalised := true)) else None
      case _ => None
    else
      match e
      case Writes(ok) =>
        if m.phase == Gone then None else Some(m.(output := Written, failed := !ok))
      case Flushes(ok) =>
        if m.phase == Gone then None
        else Some(m.(output := if m.output == Written then Flushed else Quiet, failed := !ok))
      case Reads(answer) =>
        if m.due == Nothing && IsActive(m.phase) && (m.phase == InMenu || m.output == Flushed) then
          Some(m.(output := Quiet, due := AfterRead(m, answer), failed := answer == ReadFailed))
        else None
      case Decides(v) =>
        if m.due == Nothing && m.phase == PhaseOf(v) then
          Some(m.(due := Calls(m, v), output := Quiet, misses := if v == UnknownName then m.misses + 1 else m.misses))
        else None
      case Enters(to) =>
        if m.due == MustEnter(to) then Some(m.(phase := to, due := Nothing, output := Quiet)) else None
      case LogsOff(reason) =>
        if m.due != MustLogOff(reason) then None
        else Some(m.(phase := LoggingOff(reason), due := Nothing, output := Quiet))
      case Finalises(reason) =>
        // A caller who did not just vanish is told why, after the reason was chosen.
        if m.phase != LoggingOff(reason) || (reason != CarrierLoss && m.output != Flushed) then None
        else Some(m.(finalised := true))
  }

  function Track(t: seq<Event>, policy: bool): Option<Mode> {
    if t == [] then Some(Start(policy))
    else
      match Track(t[..|t| - 1], policy)
      case None => None
      case Some(m) => Next(m, t[|t| - 1])
  }

  lemma TrackSnoc(t: seq<Event>, policy: bool, e: Event)
    ensures Track(t + [e], policy) == match Track(t, policy) case None => None case Some(m) => Next(m, e)
  {
    assert (t + [e])[..|t|] == t;
  }

  predicate IsFinalise(e: Event) { e.Finalises? }
  predicate IsLogOff(e: Event) { e.LogsOff? }
  predicate IsRead(e: Event) { e.Reads? }
  predicate IsOutput(e: Event) { e.Writes? || e.Flushes? || e.Reads? }
  predicate IsFailure(e: Event) { e == Writes(false) || e == Flushes(false) || e == Reads(ReadFailed) }
  predicate IsMenuEntry(e: Event) { e == Enters(InMenu) }

  // ---- What every session keeps ----

  /** It is finalised at most once, as its last event, and for the one reason ever chosen. */
  lemma {:induction false} FinalisedForTheChosenReason(t: seq<Event>, policy: bool)
    requires Track(t, policy).Some?
    ensures
      var m := Track(t, policy).value;
      && Count(t, IsFinalise) == (if m.finalised then 1 else 0)
      && Count(t, IsLogOff) == (if m.phase.LoggingOff? then 1 else 0)
      && (m.phase.LoggingOff? ==> LogsOff(m.phase.reason) in t)
      && (m.finalised ==> m.phase.LoggingOff? && t != [] && t[|t| - 1] == Finalises(m.phase.reason))
      && (m.due.MustEnter? ==> !m.due.phase.LoggingOff? && !m.phase.LoggingOff?)
      && (m.due.MustLogOff? ==> !m.phase.LoggingOff?)
  {
    if t != [] {
      FinalisedForTheChosenReason(t[..|t| - 1], policy);
      assert t == t[..|t| - 1] + [t[|t| - 1]];
    }
  }

  lemma {:induction false} PrefixTracks(t: seq<Event>, policy: bool, k: nat)
    requires Track(t, policy).Some? && k <= |t|
    ensures Track(t[..k], policy).Some?
  {
    if k < |t| {
      PrefixTracks(t[..|t| - 1], policy, k);
      assert t[..|t| - 1][..k] == t[..k];
    } else {
      assert t[..k] == t;
    }
  }

  /** What a session that failed in phase `p` can still become. */
  predicate AfterFailure(p: Phase, m: Mode) {
    && m.failed
    && if p == Connecting || IsActive(p) then m.phase == p || m.phase == LoggingOff(CarrierLoss) else m.phase == p
  }

  lemma NextAfterFailure(p: Phase, m: Mode, e: Event)
    requires AfterFailure(p, m) && Next(m, e).Some?
    ensures !IsOutput(e) && AfterFailure(p, Next(m, e).value)
  {
  }

  lemma FailureFails(m: Mode, e: Event)
    requires Next(m, e).Some? && IsFailure(e)
    ensures AfterFailure(m.phase, Next(m, e).value)
  {
  }

  /**
    After a terminal failure nothing more is written or read. A session still under way can only log
    off for carrier loss; one that was logging off keeps its reason; one that had ended stays ended.
   */
  lemma {:induction false} FailureIsTheLastOutput(t: seq<Event>, policy: bool, k: nat)
    requires Track(t, policy).Some? && k < |t| && IsFailure(t[k])
    ensures forall j | k < j < |t| :: !IsOutput(t[j])
    ensures Track(t[..k], policy).Some? && AfterFailure(Track(t[..k], policy).value.phase, Track(t, policy).value)
  {
    hide Next, AfterFailure, IsOutput, IsFailure;
    var last := |t| - 1;
    PrefixTracks(t, policy, k);
    PrefixTracks(t, policy, last);
    if k == last {
      FailureFails(Track(t[..k], policy).value, t[k]);
    } else {
      FailureIsTheLastOutput(t[..last], policy, k);
      assert t[..last][..k] == t[..k];
      NextAfterFailure(Track(t[..k], policy).value.phase, Track(t[..last], policy).value, t[last]);
      forall j | k < j < |t|
        ensures !IsOutput(t[j])
      {
        if j < last { assert t[..last][j] == t[j]; }
      }
    }
  }

  /** The menu is entered at most once; time runs out and the caller says goodbye only after that. */
  lemma {:induction false} MenuIsEnteredOnce(t: seq<Event>, policy: bool)
    requires Track(t, policy).Some?
    ensures
      var m := Track(t, policy).value;
      && Count(t, IsMenuEntry) <= 1
      && (m.phase == InMenu ==> Count(t, IsMenuEntry) == 1)
      && (m.phase in {Connecting, Identifying, Authenticating, Registering, Onboarded} ==> Count(t, IsMenuEntry) == 0)
      && (m.phase in {LoggingOff(NormalLogoff), LoggingOff(OutOfTime)} ==> Count(t, IsMenuEntry) == 1)
      && (m.phase == LoggingOff(NoConferenceAccess) ==> Count(t, IsMenuEntry) == 0)
      && (m.due in {MustLogOff(NormalLogoff), MustLogOff(OutOfTime)} ==> m.phase == InMenu)
      && (m.due in {MustLogOff(NoConferenceAccess), MustEnter(InMenu)} ==> m.phase == Onboarded)
      && (m.due.MustEnter? && m.due.phase != InMenu ==>
            m.phase in {Connecting, Identifying, Authenticating, Registering, Onboarded}
            && !m.due.phase.InMenu? && !m.due.phase.LoggingOff?)
  {
    hide Calls, PhaseOf;
    if t != [] {
      var before := t[..|t| - 1];
      MenuIsEnteredOnce(before, policy);
      if t[|t| - 1].Decides? {
        VerdictFits(Track(before, policy).value, t[|t| - 1].verdict);
      }
    }
  }

  /** What a verdict calls for belongs to the phase in which it is given. */
  lemma VerdictFits(m: Mode, v: Verdict)
    ensures
      var due := Calls(m, v);
      && (due in {MustLogOff(NormalLogoff), MustLogOff(OutOfTime)} ==> PhaseOf(v) == InMenu)
      && (due in {MustLogOff(NoConferenceAccess), MustEnter(InMenu)} ==> PhaseOf(v) == Onboarded)
      && (due.MustEnter? ==>
        PhaseOf(v) in {Identifying, Authenticating, Registering, Onboarded} && !due.phase.LoggingOff?)
  {
  }

  /** The verdict or the input that last made something due. */
  ghost predicate Caused(t: seq<Event>, policy: bool, k: nat, due: Due) {
    && k < |t| && Track(t[..k], policy).Some?
    && var m := Track(t[..k], policy).value;
       match t[k]
       case Decides(v) => due == Calls(m, v)
       case Reads(answer) => due == AfterRead(m, answer)
       case _ => false
  }

  /** Whatever is due was caused, by an event since which nothing was read, decided, entered or left. */
  lemma {:induction false} DueIsCaused(t: seq<Event>, policy: bool) returns (k: nat)
    requires Track(t, policy).Some? && Track(t, policy).value.due != Nothing
    requires Track(t, policy).value.phase != Connecting
    ensures Caused(t, policy, k, Track(t, policy).value.due)
    ensures forall j | k < j < |t| :: t[j].Writes? || t[j].Flushes?
  {
    hide Calls, AfterRead, PhaseOf;
    var last := |t| - 1;
    var before := t[..last];
    FinalisedForTheChosenReason(before, policy);
    ConnectingIsDue(before, policy);
    if t[last].Decides? || t[last].Reads? {
      k := last;
    } else {
      k := DueIsCaused(before, policy);
      assert before[..k] == t[..k] && before[k] == t[k];
      forall j | k < j < |t|
        ensures t[j].Writes? || t[j].Flushes?
      {
        if j < last { assert before[j] == t[j]; }
      }
    }
  }

  /**
    Every logoff over a working terminal has its cause, and its reason is the one that cause calls
    for: a verdict, or the end of the caller's input.
   */
  lemma ReasonHasItsCause(t: seq<Event>, policy: bool, i: nat) returns (k: nat)
    requires Track(t, policy).Some? && i < |t| && t[i].LogsOff?
    requires Track(t[..i], policy).Some? && !Track(t[..i], policy).value.failed
    ensures k < i && Caused(t, policy, k, MustLogOff(t[i].reason))
    ensures forall j | k < j < i :: t[j].Writes? || t[j].Flushes?
  {
    hide Calls, AfterRead, PhaseOf;
    PrefixTracks(t, policy, i + 1);
    assert t[..i + 1][..i] == t[..i];
    ConnectingIsDue(t[..i], policy);
    k := DueIsCaused(t[..i], policy);
    assert t[..i][..k] == t[..k];
  }

  /** The menu is entered only directly after its admission, which is saved first. */
  lemma MenuNeedsAdmission(t: seq<Event>, policy: bool, i: nat) returns (k: nat)
    requires Track(t, policy).Some? && i < |t| && t[i] == Enters(InMenu)
    ensures k < i && t[k] == Decides(MenuAdmitted)
    ensures forall j | k < j < i :: t[j].Writes? || t[j].Flushes?
  {
    PrefixTracks(t, policy, i);
    PrefixTracks(t, policy, i + 1);
    assert t[..i + 1][..i] == t[..i];
    ConnectingIsDue(t[..i], policy);
    k := DueIsCaused(t[..i], policy);
    assert t[..i][k] == t[k];
  }

  lemma {:induction false} PolicyIsKept(t: seq<Event>, policy: bool)
    requires Track(t, policy).Some?
    ensures Track(t, policy).value.timeoutIsLogoff == policy
    ensures Track(t, policy).value.misses == Count(t, e => e == Decides(UnknownName))
  {
    if t != [] { PolicyIsKept(t[..|t| - 1], policy); }
  }

  /** The reason of every logoff over a working terminal, by what brought it about. */
  lemma ReasonIsTheCauses(t: seq<Event>, policy: bool, i: nat) returns (k: nat)
    requires Track(t, policy).Some? && i < |t| && t[i].LogsOff?
    requires Track(t[..i], policy).Some? && !Track(t[..i], policy).value.failed
    ensures k < i && forall j | k < j < i :: t[j].Writes? || t[j].Flushes?
    ensures t[i].reason ==
      match t[k]
      case Reads(GotEof) => CarrierLoss
      case Reads(_) => if policy then InputTimeout else CarrierLoss
      case Decides(RightButLocked) => LockedAccount
      case Decides(WrongAndLocked) => LockedAccount
      case Decides(CreatedButLocked) => LockedAccount
      case Decides(NewUserRefused) => NewUserRejected
      case Decides(GateWrongTooOften) => NewUserRejected
      case Decides(RightButTooLow) => NewUserRejected
      case Decides(CreatedButTooLow) => NewUserRejected
      case Decides(WrongTooOften) => ExcessivePasswordFails
      case Decides(NoConference) => NoConferenceAccess
      case Decides(CallerSaidGoodbye) => NormalLogoff
      case Decides(CallOverTime) => OutOfTime
      case Decides(CallerIdle) => if policy then InputTimeout else CarrierLoss
      case _ => CarrierLoss
    ensures t[k] in {
      Reads(GotEof), Reads(GotTimeout), Decides(RightButLocked), Decides(WrongAndLocked), Decides(CreatedButLocked),
      Decides(NewUserRefused), Decides(GateWrongTooOften), Decides(RightButTooLow), Decides(CreatedButTooLow),
      Decides(WrongTooOften), Decides(NoConference), Decides(CallerSaidGoodbye), Decides(CallOverTime),
      Decides(CallerIdle), Decides(CarrierGone), Decides(HandleCheckFailed), Decides(HandlesExhausted),
      Decides(CreateFailed), Decides(ResetsExhausted)}
  {
    k := ReasonHasItsCause(t, policy, i);
    PolicyIsKept(t[..k], policy);
  }

  /** The phase in which each thing is decided or read. */
  lemma DecidedInItsPhase(t: seq<Event>, policy: bool, k: nat)
    requires Track(t, policy).Some? && k < |t| && t[k].Decides?
    ensures Track(t[..k], policy).Some?
    ensures Track(t[..k], policy).value.phase ==
      match t[k].verdict
      case LookupFailed => Identifying
      case KnownName => Identifying
      case UnknownName => Identifying
      case NewUserWelcome => Identifying
      case NewUserRefused => Identifying
      case LoginNotSaved => Authenticating
      case PasswordRight => Authenticating
      case RightButLocked => Authenticating
      case RightButTooLow => Authenticating
      case PasswordWrong => Authenticating
      case WrongAndLocked => Authenticating
      case WrongTooOften => Authenticating
      case GateRight => Registering
      case GateWrong => Registering
      case GateWrongTooOften => Registering
      case HandleFree => Registering
      case HandleTaken => Registering
      case HandleCheckFailed => Registering
      case HandlesExhausted => Registering
      case UserCreated => Registering
      case CreatedButLocked => Registering
      case CreatedButTooLow => Registering
      case CreateFailed => Registering
      case CallerSaidGoodbye => InMenu
      case CarrierGone => InMenu
      case CallerIdle => InMenu
      case CallOverTime => InMenu
      case _ => Onboarded
  {
    hide Calls;
    PrefixTracks(t, policy, k);
    PrefixTracks(t, policy, k + 1);
    assert t[..k + 1][..k] == t[..k];
  }

  /** Every phase but the first is entered for its own cause; the session ends at the fifth unknown name. */
  lemma EntryHasItsCause(t: seq<Event>, policy: bool, i: nat) returns (k: nat)
    requires Track(t, policy).Some? && i < |t| && t[i].Enters? && t[i].phase != Identifying
    ensures k < i && forall j | k < j < i :: t[j].Writes? || t[j].Flushes?
    ensures t[k].Decides?
    ensures
      var v := t[k].verdict;
      match t[i].phase
      case Authenticating => v == KnownName
      case Registering => v == NewUserWelcome
      case Onboarded => v == PasswordRight || v == UserCreated
      case InMenu => v == MenuAdmitted
      case Ended => v == UnknownName && Count(t[..k], e => e == Decides(UnknownName)) >= 4
      case Gone => v in {LookupFailed, LoginNotSaved, MenuNotSaved, ResetNotSaved}
      case _ => false
  {
    PrefixTracks(t, policy, i);
    PrefixTracks(t, policy, i + 1);
    assert t[..i + 1][..i] == t[..i];
    ConnectingIsDue(t[..i], policy);
    k := DueIsCaused(t[..i], policy);
    assert t[..i][..k] == t[..k] && t[..i][k] == t[k];
    PolicyIsKept(t[..k], policy);
  }

  /** A session goes on only while fewer than five names were unknown. */
  lemma {:induction false} FiveNamesAtMost(t: seq<Event>, policy: bool)
    requires Track(t, policy).Some?
    ensures
      var m, unknown := Track(t, policy).value, Count(t, e => e == Decides(UnknownName));
      && unknown <= 5 && (m.phase == Ended ==> m.due == Nothing)
      && (unknown == 5 ==> m.due == MustEnter(Ended) || m.phase == Ended || m.failed)
  {
    if t != [] {
      FiveNamesAtMost(t[..|t| - 1], policy);
      PolicyIsKept(t[..|t| - 1], policy);
      PolicyIsKept(t, policy);
    }
  }

  lemma {:induction false} ConnectingIsDue(t: seq<Event>, policy: bool)
    requires Track(t, policy).Some?
    ensures Track(t, policy).value.phase == Connecting ==> Track(t, policy).value.due == MustEnter(Identifying)
    ensures Track(t, policy).value.due == MustEnter(Identifying) ==> Track(t, policy).value.phase == Connecting
    ensures Track(t, policy).value.due != MustEnter(Connecting)
  {
    if t != [] { ConnectingIsDue(t[..|t| - 1], policy); }
  }

  // ---- What the caller is shown ----

  lemma WrittenIsLast(t: seq<Event>, policy: bool)
    requires Track(t, policy).Some?
    requires var m := Track(t, policy).value; !m.failed && !m.finalised && m.output == Written
    ensures t != [] && t[|t| - 1] == Writes(true)
  {
  }

  lemma FlushedIsLast(t: seq<Event>, policy: bool)
    requires Track(t, policy).Some?
    requires var m := Track(t, policy).value; !m.failed && !m.finalised && m.output == Flushed
    ensures |t| >= 2 && t[|t| - 1] == Flushes(true) && t[|t| - 2] == Writes(true)
  {
    WrittenIsLast(t[..|t| - 1], policy);
  }

  /** Outside the menu every line read was prompted for: a write and a flush come directly before it. */
  lemma EveryReadIsPrompted(t: seq<Event>, policy: bool, k: nat)
    requires Track(t, policy).Some? && k < |t| && t[k].Reads?
    requires Track(t[..k], policy).Some? && Track(t[..k], policy).value.phase != InMenu
    ensures k >= 2 && t[k - 1] == Flushes(true) && t[k - 2] == Writes(true)
  {
    PrefixTracks(t, policy, k + 1);
    assert t[..k + 1][..k] == t[..k];
    FlushedIsLast(t[..k], policy);
  }

  /**
    A session finalised for anything but carrier loss over a working terminal was told: its last
    events before that are a notice written and flushed after the reason was chosen.
   */
  lemma LogoffIsAnnounced(t: seq<Event>, policy: bool)
    requires Track(t, policy).Some?
    requires var m := Track(t, policy).value; m.finalised && !m.failed && m.phase != LoggingOff(CarrierLoss)
    ensures |t| >= 3 && t[|t| - 2] == Flushes(true) && t[|t| - 3] == Writes(true)
  {
    FlushedIsLast(t[..|t| - 1], policy);
  }
}
