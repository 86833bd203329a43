/**
  The session driver and its three flows over a terminal that may fail at any operation. What the
  domain and the stores decide is left open (`*`) and entered in the trace as a verdict.
 */
module SessionDriver {
  import opened Basics
  import opened SessionTrace

  const MAX_PASSWORD_RESET_ATTEMPTS := 3

  datatype TerminalRead = Line(text: string) | Eof | IdleTimedOut

  /** How the terminal answers one operation; a write or a flush takes no notice of `read`. */
  datatype Answer = Fails | Works(read: TerminalRead)

  /** A flow's outcome, or the phase that owned the terminal operation that failed. */
  datatype Flow<+T> = Done(value: T) | TerminalFailed(phase: Phase)

  datatype SignIn =
    | SignedIn | SignInLoggedOff(reason: LogoffReason) | SignInEnded | SignInAborted | WantsRegistration(gated: bool)
  datatype NameResult = NameKnown | NameMissed | NameSettled(outcome: SignIn)
  datatype Field = Got(text: string) | Interrupted(reason: LogoffReason)
  datatype ResetOutcome = Changed | ResetLoggedOff(reason: LogoffReason) | ResetAborted
  datatype MenuEntry = AtMenu | EntryLoggedOff(reason: LogoffReason) | EntryAborted
  datatype MenuExit = UserRequestedLogoff | CarrierLost | IdleOut | TimeExpired
  datatype Completion = CompletedLoggingOff(reason: LogoffReason) | CompletedEnded | CompletedAborted

  function ReadCount(t: seq<Event>): nat {
    Count(t, IsRead)
  }

  /** The verdict that no further try is allowed, for a handle or for a new password. */
  predicate IsExhaustion(e: Event) {
    e == Decides(HandlesExhausted) || e == Decides(ResetsExhausted)
  }

  function AnswerOf(a: Answer): ReadAnswer {
    match a
    case Fails => ReadFailed
    case Works(Line(text)) => GotLine(text)
    case Works(Eof) => GotEof
    case Works(IdleTimedOut) => GotTimeout
  }

  /** The events of a prompt and the line typed at it. */
  function Exchange(text: string): seq<Event> {
    [Writes(true), Flushes(true), Reads(GotLine(text))]
  }

  ghost predicate EndsWith(t: seq<Event>, end: seq<Event>) {
    |end| <= |t| && t[|t| - |end|..] == end
  }

  lemma EndsWithTwo(t: seq<Event>, a: string, b: string, more: seq<Event>)
    ensures EndsWith(t + Exchange(a) + Exchange(b) + more, Exchange(a) + Exchange(b) + more)
  {
    assert t + Exchange(a) + Exchange(b) + more == t + (Exchange(a) + Exchange(b) + more);
  }

  /** The Unicode property White_Space, which trimming a line goes by. */
  predicate IsWhiteSpace(c: char) {
    var n := c as int;
    || 0x09 <= n <= 0x0D || n == 0x20 || n == 0x85 || n == 0xA0 || n == 0x1680
    || 0x2000 <= n <= 0x200A || n == 0x2028 || n == 0x2029 || n == 0x202F || n == 0x205F || n == 0x3000
  }

  /** The twenty-five characters of that property. */
  lemma WhiteSpaceIs(c: char)
    ensures IsWhiteSpace(c) <==>
      c as int in {
        0x09, 0x0A, 0x0B, 0x0C, 0x0D, 0x20, 0x85, 0xA0, 0x1680,
        0x2000, 0x2001, 0x2002, 0x2003, 0x2004, 0x2005, 0x2006, 0x2007, 0x2008, 0x2009, 0x200A,
        0x2028, 0x2029, 0x202F, 0x205F, 0x3000}
  {
  }

  /** A line of which trimming leaves nothing. */
  predicate IsBlank(s: string) {
    forall i | 0 <= i < |s| :: IsWhiteSpace(s[i])
  }

  class SessionDriver {
    const treatTimeoutAsLogoff: bool
    const maxHandleAttempts: nat

    /** The terminal's answers to come; when they run out it fails. */
    var answers: seq<Answer>
    /** The unknown names so far, which the session itself counts. */
    var nameRetries: nat
    ghost var trace: seq<Event>

    constructor (treatTimeoutAsLogoff: bool, maxHandleAttempts: nat, answers: seq<Answer>)
      ensures this.answers == answers && trace == [] && nameRetries == 0
      ensures this.treatTimeoutAsLogoff == treatTimeoutAsLogoff && this.maxHandleAttempts == maxHandleAttempts
    {
      this.treatTimeoutAsLogoff, this.maxHandleAttempts := treatTimeoutAsLogoff, maxHandleAttempts;
      this.answers := answers;
      nameRetries, trace := 0, [];
    }

    ghost function Now(): Option<Mode>
      reads this
    {
      Track(trace, treatTimeoutAsLogoff)
    }

    /** The session is in `phase`, something may be due, and the terminal works. */
    ghost predicate Owing(phase: Phase, due: Due)
      reads this
    {
      Now().Some? && var m := Now().value;
      m.phase == phase && m.due == due && !m.failed && !m.finalised && m.timeoutIsLogoff == treatTimeoutAsLogoff
    }

    /** The session is in `phase` with nothing due and the terminal works. */
    ghost predicate At(phase: Phase)
      reads this
    {
      Owing(phase, Nothing)
    }

    ghost predicate Shown()
      reads this
    {
      Now().Some? && Now().value.output == Flushed
    }

    /** The session is logging off for `reason` and the caller, unless gone, was told. */
    ghost predicate LoggedOffAt(reason: LogoffReason)
      reads this
    {
      At(LoggingOff(reason)) && (reason == CarrierLoss || Shown())
    }

    /** The terminal failed in `phase`. */
    ghost predicate FailedAt(phase: Phase)
      reads this
    {
      Now().Some? && var m := Now().value; m.phase == phase && m.failed && !m.finalised
    }

    ghost function Misses(): nat
      reads this
    {
      if Now().Some? then Now().value.misses else 0
    }

    ghost function Exhaustions(): nat
      reads this
    {
      Count(trace, IsExhaustion)
    }

    function IdleReason(): LogoffReason {
      if treatTimeoutAsLogoff then InputTimeout else CarrierLoss
    }

    // ---- Events ----

    ghost method Emit(e: Event)
      modifies this`trace
      ensures trace == old(trace) + [e]
      ensures old(Now()).Some? ==> Now() == Next(old(Now()).value, e)
      ensures ReadCount(trace) == old(ReadCount(trace)) + if IsRead(e) then 1 else 0
      ensures Exhaustions() == old(Exhaustions()) + if IsExhaustion(e) then 1 else 0
    {
      TrackSnoc(trace, treatTimeoutAsLogoff, e);
      assert (trace + [e])[..|trace|] == trace;
      trace := trace + [e];
    }

    /** The terminal's next answer. */
    method NextAnswer() returns (answer: Answer)
      modifies this`answers
      ensures answer.Works? ==> |answers| < |old(answers)|
      ensures |answers| <= |old(answers)|
    {
      if answers == [] {
        answer := Fails;
      } else {
        answer := answers[0];
        answers := answers[1..];
      }
    }

    method Write(ghost phase: Phase, ghost due: Due) returns (ok: bool)
      requires Owing(phase, due) && phase != Gone
      modifies this`answers, this`trace
      ensures ok ==> Owing(phase, due) && |answers| < |old(answers)| && Now().value.output == Written
      ensures ok ==> trace == old(trace) + [Writes(true)]
      ensures !ok ==> FailedAt(phase)
      ensures |answers| <= |old(answers)| && ReadCount(trace) == old(ReadCount(trace)) && Misses() == old(Misses())
      ensures Exhaustions() == old(Exhaustions())
    {
      var answer := NextAnswer();
      ok := answer.Works?;
      Emit(Writes(ok));
    }

    method Flush(ghost phase: Phase, ghost due: Due) returns (ok: bool)
      requires Owing(phase, due) && phase != Gone
      modifies this`answers, this`trace
      ensures ok ==> Owing(phase, due) && |answers| < |old(answers)| && (old(Now()).value.output == Written ==> Shown())
      ensures ok ==> trace == old(trace) + [Flushes(true)]
      ensures !ok ==> FailedAt(phase)
      ensures |answers| <= |old(answers)| && ReadCount(trace) == old(ReadCount(trace)) && Misses() == old(Misses())
      ensures Exhaustions() == old(Exhaustions())
    {
      var answer := NextAnswer();
      ok := answer.Works?;
      Emit(Flushes(ok));
    }

    method WriteAndFlush(ghost phase: Phase, ghost due: Due) returns (ok: bool)
      requires Owing(phase, due) && phase != Gone
      modifies this`answers, this`trace
      ensures ok ==> Owing(phase, due) && |answers| < |old(answers)| && Shown()
      ensures ok ==> trace == old(trace) + [Writes(true), Flushes(true)]
      ensures !ok ==> FailedAt(phase)
      ensures |answers| <= |old(answers)| && ReadCount(trace) == old(ReadCount(trace)) && Misses() == old(Misses())
      ensures Exhaustions() == old(Exhaustions())
    {
      ok := Write(phase, due);
      if ok {
        ok := Flush(phase, due);
      }
    }

    /** What is due once a prompt has been answered. */
    ghost function DueAfter(answer: Answer): Due {
      match answer
      case Works(Eof) => MustLogOff(CarrierLoss)
      case Works(IdleTimedOut) => MustLogOff(IdleReason())
      case _ => Nothing
    }

    /** Writes the prompt, flushes and reads a line. */
    method ReadPrompted(ghost phase: Phase) returns (answer: Answer)
      requires At(phase) && IsActive(phase) && phase != InMenu
      modifies this`answers, this`trace
      ensures answer.Works? ==> Owing(phase, DueAfter(answer)) && |answers| < |old(answers)|
      ensures answer.Works? && answer.read.Line? ==> trace == old(trace) + Exchange(answer.read.text)
      ensures answer.Fails? ==> FailedAt(phase)
      ensures |answers| <= |old(answers)| && Misses() == old(Misses()) && Exhaustions() == old(Exhaustions())
      ensures old(ReadCount(trace)) <= ReadCount(trace) <= old(ReadCount(trace)) + 1
      ensures answer.Works? ==> ReadCount(trace) == old(ReadCount(trace)) + 1
    {
      var shown := WriteAndFlush(phase, Nothing);
      if !shown {
        return Fails;
      }
      answer := NextAnswer();
      Emit(Reads(AnswerOf(answer)));
      assert old(trace) + [Writes(true), Flushes(true)] + [Reads(AnswerOf(answer))]
          == old(trace) + [Writes(true), Flushes(true), Reads(AnswerOf(answer))];
    }

    /** A verdict of the domain or the stores. */
    ghost method Decide(v: Verdict)
      requires At(PhaseOf(v))
      modifies this`trace
      ensures Owing(PhaseOf(v), Calls(old(Now()).value, v))
      ensures ReadCount(trace) == old(ReadCount(trace)) && trace == old(trace) + [Decides(v)]
      ensures Exhaustions() == old(Exhaustions()) + if v == HandlesExhausted || v == ResetsExhausted then 1 else 0
      ensures Misses() == old(Misses()) + if v == UnknownName then 1 else 0
    {
      Emit(Decides(v));
    }

    /** The end of an interrupted prompt: carrier loss, or an idle logoff with its notice. */
    method HandleInterrupt(read: TerminalRead, phase: Phase) returns (r: Flow<LogoffReason>)
      requires !read.Line? && Owing(phase, DueAfter(Works(read)))
      modifies this`answers, this`trace
      ensures match r
              case Done(reason) => reason == (if read.Eof? then CarrierLoss else IdleReason()) && LoggedOffAt(reason)
              case TerminalFailed(p) => p == LoggingOff(IdleReason()) && FailedAt(p)
      ensures r.Done? ==>
        r.value == if read.Eof? || !treatTimeoutAsLogoff then CarrierLoss else InputTimeout
      ensures |answers| <= |old(answers)| && ReadCount(trace) == old(ReadCount(trace))
      ensures Exhaustions() == old(Exhaustions())
    {
      if read.Eof? {
        Emit(LogsOff(CarrierLoss));
        return Done(CarrierLoss);
      }
      r := LogOffWithNotice(IdleReason(), phase);
    }

    /** A notice to a session that is then dropped for carrier loss. */
    method GiveUp(phase: Phase) returns (r: Flow<LogoffReason>)
      requires Owing(phase, MustLogOff(CarrierLoss)) && phase != Gone
      modifies this`answers, this`trace
      ensures match r
              case Done(reason) => reason == CarrierLoss && LoggedOffAt(reason)
              case TerminalFailed(p) => p == phase && FailedAt(p)
      ensures |answers| <= |old(answers)| && ReadCount(trace) == old(ReadCount(trace))
      ensures Exhaustions() == old(Exhaustions())
    {
      var ok := WriteAndFlush(phase, MustLogOff(CarrierLoss));
      if !ok {
        return TerminalFailed(phase);
      }
      Emit(LogsOff(CarrierLoss));
      r := Done(CarrierLoss);
    }

    /** Leaves the phase for the reason that is due, then says so. */
    method LogOffWithNotice(reason: LogoffReason, ghost phase: Phase) returns (r: Flow<LogoffReason>)
      requires Owing(phase, MustLogOff(reason))
      modifies this`answers, this`trace
      ensures match r
              case Done(chosen) => chosen == reason && LoggedOffAt(reason)
              case TerminalFailed(p) => p == LoggingOff(reason) && FailedAt(p)
      ensures |answers| <= |old(answers)| && ReadCount(trace) == old(ReadCount(trace))
      ensures Exhaustions() == old(Exhaustions())
    {
      Emit(LogsOff(reason));
      var ok := WriteAndFlush(LoggingOff(reason), Nothing);
      r := if ok then Done(reason) else TerminalFailed(LoggingOff(reason));
    }

    // ---- Login ----

    ghost predicate SignInState(r: Flow<SignIn>)
      reads this
    {
      match r
      case Done(SignedIn) => At(Onboarded)
      case Done(SignInLoggedOff(reason)) => LoggedOffAt(reason)
      case Done(SignInEnded) => At(Ended) && Shown()
      case Done(SignInAborted) => At(Gone)
      case Done(WantsRegistration(_)) => At(Registering)
      case TerminalFailed(p) => p != Gone && FailedAt(p)
    }

    static function LoggedOff(r: Flow<LogoffReason>): Flow<SignIn> {
      match r
      case Done(reason) => Done(SignInLoggedOff(reason))
      case TerminalFailed(p) => TerminalFailed(p)
    }

    /** The graphics question, asked once; `None` when the session goes on. */
    method AskGraphicsPreference() returns (r: Option<Flow<SignIn>>)
      requires At(Identifying)
      modifies this`answers, this`trace
      ensures |answers| <= |old(answers)| && (r.None? ==> Misses() == old(Misses()))
      ensures r.None? ==> At(Identifying) && ReadCount(trace) == old(ReadCount(trace)) + 1
      ensures r.Some? ==> SignInState(r.value) && r.value != Done(SignInEnded)
    {
      hide Track, Count;
      var graphics := ReadPrompted(Identifying);
      if graphics.Fails? {
        return Some(TerminalFailed(Identifying));
      }
      if !graphics.read.Line? {
        var ended := HandleInterrupt(graphics.read, Identifying);
        return Some(LoggedOff(ended));
      }
      r := None;
    }

    /** The graphics question, the banner, then names until one is known or five are not. */
    method Identify() returns (r: Flow<SignIn>)
      requires At(Identifying) && Misses() == nameRetries == 0
      modifies this
      ensures SignInState(r) && |answers| <= |old(answers)|
      ensures r == Done(SignInEnded) ==> ReadCount(trace) == old(ReadCount(trace)) + 1 + MAX_NAME_RETRIES
      ensures r == Done(SignInEnded) ==> ReadCount(trace) == old(ReadCount(trace)) + 6
    {
      hide Track, Count;
      var stopped := AskGraphicsPreference();
      if stopped.Some? {
        return stopped.value;
      }
      var banner := Write(Identifying, Nothing);
      if !banner {
        return TerminalFailed(Identifying);
      }
      while true
        invariant At(Identifying) && |answers| <= |old(answers)|
        invariant Misses() == nameRetries < MAX_NAME_RETRIES && ReadCount(trace) == old(ReadCount(trace)) + 1 + Misses()
        decreases |answers|
      {
        var name := ReadPrompted(Identifying);
        if name.Fails? {
          return TerminalFailed(Identifying);
        }
        if !name.read.Line? {
          var ended := HandleInterrupt(name.read, Identifying);
          return LoggedOff(ended);
        }
        var next := NameTyped();
        match next {
          case Done(NameKnown) =>
            r := Authenticate();
            return;
          case Done(NameMissed) =>
            var unknown := Write(Identifying, Nothing);
            if !unknown {
              return TerminalFailed(Identifying);
            }
          case Done(NameSettled(outcome)) => return Done(outcome);
          case TerminalFailed(p) => return TerminalFailed(p);
        }
      }
    }

    /** What a typed name leads to, and what the caller is told about it. */
    method NameTyped() returns (r: Flow<NameResult>)
      requires At(Identifying) && Misses() == nameRetries < MAX_NAME_RETRIES
      modifies this
      ensures match r
              case Done(NameKnown) => At(Authenticating)
              case Done(NameMissed) =>
                At(Identifying) && nameRetries == Misses() == old(Misses()) + 1 < MAX_NAME_RETRIES
              case Done(NameSettled(outcome)) => SignInState(Done(outcome)) && !outcome.SignedIn?
              case TerminalFailed(p) => p != Gone && FailedAt(p)
      ensures r == Done(NameSettled(SignInEnded)) ==> old(Misses()) + 1 == MAX_NAME_RETRIES
      ensures |answers| <= |old(answers)| && ReadCount(trace) == old(ReadCount(trace))
    {
      hide Track, Count;
      var lookupFails, asksToRegister, allowed, gated, known: bool := *, *, *, *, *;
      if lookupFails {
        Decide(LookupFailed);
        Emit(Enters(Gone));
        return Done(NameSettled(SignInAborted));
      }
      if asksToRegister && allowed {
        Decide(NewUserWelcome);
        Emit(Enters(Registering));
        return Done(NameSettled(WantsRegistration(gated)));
      }
      if asksToRegister {
        Decide(NewUserRefused);
        var ended := LogOffWithNotice(NewUserRejected, Identifying);
        return match ended
               case Done(reason) => Done(NameSettled(SignInLoggedOff(reason)))
               case TerminalFailed(p) => TerminalFailed(p);
      }
      if known {
        Decide(KnownName);
        Emit(Enters(Authenticating));
        return Done(NameKnown);
      }
      Decide(UnknownName);
      nameRetries := nameRetries + 1;
      if nameRetries < MAX_NAME_RETRIES {
        return Done(NameMissed);
      }
      Emit(Enters(Ended));
      var ok := WriteAndFlush(Ended, Nothing);
      r := if ok then Done(NameSettled(SignInEnded)) else TerminalFailed(Ended);
    }

    method Authenticate() returns (r: Flow<SignIn>)
      requires At(Authenticating)
      modifies this
      ensures SignInState(r) && |answers| <= |old(answers)|
      ensures r != Done(SignInEnded)
    {
      hide Track, Count;
      while true
        invariant At(Authenticating) && |answers| <= |old(answers)|
        decreases |answers|
      {
        var password := ReadPrompted(Authenticating);
        if password.Fails? {
          return TerminalFailed(Authenticating);
        }
        if !password.read.Line? {
          var ended := HandleInterrupt(password.read, Authenticating);
          return LoggedOff(ended);
        }
        var verdict := VerifyPassword();
        if verdict == LoginNotSaved {
          Emit(Enters(Gone));
          return Done(SignInAborted);
        }
        if verdict == PasswordRight {
          Emit(Enters(Onboarded));
          var ok := WriteAndFlush(Onboarded, Nothing);
          return if ok then Done(SignedIn) else TerminalFailed(Onboarded);
        }
        if verdict != PasswordWrong {
          var reason := if verdict == RightButTooLow then NewUserRejected
                        else if verdict == WrongTooOften then ExcessivePasswordFails
                        else LockedAccount;
          var ended := LogOffWithNotice(reason, Authenticating);
          return LoggedOff(ended);
        }
        var ok := WriteAndFlush(Authenticating, Nothing);
        if !ok {
          return TerminalFailed(Authenticating);
        }
      }
    }

    /** Whether the password matches, and what that means for the account. */
    method VerifyPassword() returns (v: Verdict)
      requires At(Authenticating)
      modifies this`trace
      ensures v in {LoginNotSaved, PasswordRight, RightButLocked, RightButTooLow,
                    PasswordWrong, WrongAndLocked, WrongTooOften}
      ensures Owing(Authenticating, Calls(old(Now()).value, v)) && ReadCount(trace) == old(ReadCount(trace))
    {
      var saveFails, matches, accountLocked, accessTooLow, tooManyFailures: bool := *, *, *, *, *;
      v := if saveFails then LoginNotSaved
           else if matches then
             if accountLocked then RightButLocked else if accessTooLow then RightButTooLow else PasswordRight
           else if accountLocked then WrongAndLocked
           else if tooManyFailures then WrongTooOften
           else PasswordWrong;
      Decide(v);
    }

    // ---- Registration ----

    ghost predicate FieldState(r: Flow<Field>)
      reads this
    {
      match r
      case Done(Got(_)) => At(Registering)
      case Done(Interrupted(reason)) => LoggedOffAt(reason)
      case TerminalFailed(p) => p != Gone && FailedAt(p)
    }

    static function AsField(r: Flow<LogoffReason>): Flow<Field> {
      match r
      case Done(reason) => Done(Interrupted(reason))
      case TerminalFailed(p) => TerminalFailed(p)
    }

    /** The gate password, until it is right or the gate has had enough. */
    method RunPasswordGate() returns (r: Flow<Field>)
      requires At(Registering)
      modifies this
      ensures FieldState(r) && |answers| <= |old(answers)|
    {
      hide Track, Count;
      while true
        invariant At(Registering) && |answers| <= |old(answers)|
        decreases |answers|
      {
        r := ReadOnce();
        if r.TerminalFailed? || r.value.Interrupted? {
          return;
        }
        var verified, tooMany: bool := *, *;
        if !verified && tooMany {
          Decide(GateWrongTooOften);
          var ended := LogOffWithNotice(NewUserRejected, Registering);
          return AsField(ended);
        }
        Decide(if verified then GateRight else GateWrong);
        var ok := WriteAndFlush(Registering, Nothing);
        if !ok {
          return TerminalFailed(Registering);
        }
        if verified {
          return;
        }
      }
    }

    /** Asks for a free handle, `maxHandleAttempts` times at most. */
    method ReadHandle() returns (r: Flow<Field>)
      requires At(Registering)
      modifies this
      ensures FieldState(r) && |answers| <= |old(answers)|
      ensures ReadCount(trace) <= old(ReadCount(trace)) + maxHandleAttempts
      ensures maxHandleAttempts == 0 ==> !(r.Done? && r.value.Got?)
      ensures Exhaustions() > old(Exhaustions()) ==> ReadCount(trace) == old(ReadCount(trace)) + maxHandleAttempts
    {
      hide Track, Count;
      var attempts := 0;
      while true
        invariant At(Registering) && |answers| <= |old(answers)|
        invariant 0 <= attempts <= maxHandleAttempts && ReadCount(trace) == old(ReadCount(trace)) + attempts
        invariant Exhaustions() == old(Exhaustions())
        decreases |answers|, maxHandleAttempts - attempts
      {
        if attempts >= maxHandleAttempts {
          Decide(HandlesExhausted);
          var ended := GiveUp(Registering);
          return AsField(ended);
        }
        r := ReadOnce();
        if r.TerminalFailed? || r.value.Interrupted? {
          return;
        }
        var checkFails, available: bool := *, *;
        if checkFails {
          Decide(HandleCheckFailed);
          var ended := GiveUp(Registering);
          return AsField(ended);
        }
        if available {
          Decide(HandleFree);
          return;
        }
        Decide(HandleTaken);
        var told := Write(Registering, Nothing);
        if !told {
          return TerminalFailed(Registering);
        }
        attempts := attempts + 1;
      }
    }

    /** A field asked for once: the optional ones, and the graphics question. */
    method ReadOnce() returns (r: Flow<Field>)
      requires At(Registering)
      modifies this
      ensures FieldState(r) && |answers| <= |old(answers)|
      ensures r.Done? && r.value.Got? ==> |answers| < |old(answers)| && ReadCount(trace) == old(ReadCount(trace)) + 1
      ensures r.Done? && r.value.Got? ==> trace == old(trace) + Exchange(r.value.text)
      ensures Exhaustions() == old(Exhaustions())
      ensures ReadCount(trace) <= old(ReadCount(trace)) + 1
    {
      hide Track, Count;
      var typed := ReadPrompted(Registering);
      if typed.Fails? {
        return TerminalFailed(Registering);
      }
      if !typed.read.Line? {
        var ended := HandleInterrupt(typed.read, Registering);
        return AsField(ended);
      }
      r := Done(Got(typed.read.text));
    }

    /** A password that is not blank, typed twice alike. */
    method ReadNewPassword() returns (r: Flow<Field>)
      requires At(Registering)
      modifies this
      ensures FieldState(r) && |answers| <= |old(answers)|
      ensures r.Done? && r.value.Got? ==>
        !IsBlank(r.value.text) && EndsWith(trace, Exchange(r.value.text) + Exchange(r.value.text))
    {
      hide Track, Count;
      while true
        invariant At(Registering) && |answers| <= |old(answers)|
        decreases |answers|
      {
        ghost var before := trace;
        var password := ReadOnce();
        if password.TerminalFailed? || password.value.Interrupted? {
          return password;
        }
        if IsBlank(password.value.text) {
          continue;
        }
        var confirmed := ReadOnce();
        if confirmed.TerminalFailed? || confirmed.value.Interrupted? {
          return confirmed;
        }
        if password.value.text == confirmed.value.text {
          EndsWithTwo(before, password.value.text, confirmed.value.text, []);
          return password;
        }
        var told := Write(Registering, Nothing);
        if !told {
          return TerminalFailed(Registering);
        }
      }
    }

    method ReadLineLength() returns (r: Flow<Field>)
      requires At(Registering)
      modifies this
      ensures FieldState(r) && |answers| <= |old(answers)|
    {
      hide Track, Count;
      while true
        invariant At(Registering) && |answers| <= |old(answers)|
        decreases |answers|
      {
        r := ReadOnce();
        var acceptable: bool := *;
        if r.TerminalFailed? || r.value.Interrupted? || IsBlank(r.value.text) || acceptable {
          return;
        }
        var told := Write(Registering, Nothing);
        if !told {
          return TerminalFailed(Registering);
        }
      }
    }

    static function AsSignIn(r: Flow<Field>): Flow<SignIn>
      requires r.Done? ==> r.value.Interrupted?
    {
      match r
      case Done(field) => Done(SignInLoggedOff(field.reason))
      case TerminalFailed(p) => TerminalFailed(p)
    }

    method Register(gated: bool) returns (r: Flow<SignIn>)
      requires At(Registering)
      modifies this
      ensures SignInState(r) && |answers| <= |old(answers)|
      ensures r.Done? ==> r.value.SignedIn? || r.value.SignInLoggedOff?
    {
      hide Track, Count;
      var screen := Write(Registering, Nothing);
      if !screen {
        return TerminalFailed(Registering);
      }
      if gated {
        var gate := RunPasswordGate();
        if gate.TerminalFailed? || gate.value.Interrupted? {
          return AsSignIn(gate);
        }
      }
      var handle := ReadHandle();
      if handle.TerminalFailed? || handle.value.Interrupted? {
        return AsSignIn(handle);
      }
      // Location, phone number and e-mail address.
      var i := 0;
      while i < 3
        invariant At(Registering) && |answers| <= |old(answers)|
      {
        var field := ReadOnce();
        if field.TerminalFailed? || field.value.Interrupted? {
          return AsSignIn(field);
        }
        i := i + 1;
      }
      var password := ReadNewPassword();
      if password.TerminalFailed? || password.value.Interrupted? {
        return AsSignIn(password);
      }
      var lineLength := ReadLineLength();
      if lineLength.TerminalFailed? || lineLength.value.Interrupted? {
        return AsSignIn(lineLength);
      }
      var graphics := ReadOnce();
      if graphics.TerminalFailed? || graphics.value.Interrupted? {
        return AsSignIn(graphics);
      }
      r := CompleteRegistration();
    }

    method CompleteRegistration() returns (r: Flow<SignIn>)
      requires At(Registering)
      modifies this
      ensures SignInState(r) && |answers| <= |old(answers)|
      ensures r.Done? ==> r.value.SignedIn? || r.value.SignInLoggedOff?
    {
      hide Track, Count;
      var createFails, accountLocked, accessTooLow: bool := *, *, *;
      if createFails {
        Decide(CreateFailed);
        var ended := GiveUp(Registering);
        return LoggedOff(ended);
      }
      if accountLocked || accessTooLow {
        Decide(if accountLocked then CreatedButLocked else CreatedButTooLow);
        var ended := LogOffWithNotice(if accountLocked then LockedAccount else NewUserRejected, Registering);
        return LoggedOff(ended);
      }
      Decide(UserCreated);
      Emit(Enters(Onboarded));
      var ok := WriteAndFlush(Onboarded, Nothing);
      r := if ok then Done(SignedIn) else TerminalFailed(Onboarded);
    }

    // ---- Forced password reset ----

    /** A blank entry counts as empty. */
    static function Entry(typed: string): string {
      if IsBlank(typed) then "" else typed
    }

    static lemma EntryIsTyped(typed: string)
      ensures Entry(typed) ==
        if forall i | 0 <= i < |typed| :: IsWhiteSpace(typed[i]) then "" else typed
    {
    }

    /** One entry of the reset. */
    method ReadResetPassword() returns (r: Flow<Field>)
      requires At(Onboarded)
      modifies this
      ensures match r
              case Done(Got(text)) =>
                && At(Onboarded) && |answers| < |old(answers)|
                && exists typed :: trace == old(trace) + Exchange(typed) && text == Entry(typed)
              case Done(Interrupted(reason)) => LoggedOffAt(reason)
              case TerminalFailed(p) => p != Gone && FailedAt(p)
      ensures |answers| <= |old(answers)|
      ensures Exhaustions() == old(Exhaustions())
      ensures ReadCount(trace) <= old(ReadCount(trace)) + 1
      ensures r.Done? ==> ReadCount(trace) == old(ReadCount(trace)) + 1
    {
      hide Track, Count;
      var typed := ReadPrompted(Onboarded);
      if typed.Fails? {
        return TerminalFailed(Onboarded);
      }
      if !typed.read.Line? {
        var ended := HandleInterrupt(typed.read, Onboarded);
        return AsField(ended);
      }
      r := Done(Got(Entry(typed.read.text)));
    }

    ghost predicate ResetState(r: Flow<ResetOutcome>)
      reads this
    {
      match r
      case Done(Changed) => At(Onboarded)
      case Done(ResetLoggedOff(reason)) => LoggedOffAt(reason)
      case Done(ResetAborted) => At(Gone)
      case TerminalFailed(p) => p != Gone && FailedAt(p)
    }

    /** One try: two entries that must agree and then be acceptable; `None` for a failed one, which is told. */
    method TryReset() returns (r: Option<Flow<ResetOutcome>>)
      requires At(Onboarded)
      modifies this
      ensures r.None? ==>
        At(Onboarded) && Shown() && |answers| < |old(answers)| && ReadCount(trace) == old(ReadCount(trace)) + 2
      ensures r == Some(Done(Changed)) ==>
        exists a, b :: EndsWith(trace, Exchange(a) + Exchange(b) + [Decides(ResetDone)]) && Entry(a) == Entry(b)
      ensures r.Some? ==> ResetState(r.value) && ReadCount(trace) <= old(ReadCount(trace)) + 2
      ensures Exhaustions() == old(Exhaustions())
      ensures r == Some(Done(Changed)) ==> |answers| < |old(answers)|
      ensures |answers| <= |old(answers)|
    {
      hide Track, Count, Calls, PhaseOf, Exchange, EndsWith, Entry;
      ghost var t0 := trace;
      var candidate := ReadResetPassword();
      if candidate.TerminalFailed? {
        return Some(TerminalFailed(candidate.phase));
      }
      if candidate.value.Interrupted? {
        return Some(Done(ResetLoggedOff(candidate.value.reason)));
      }
      ghost var a :| trace == t0 + Exchange(a) && candidate.value.text == Entry(a);
      ghost var t1 := trace;
      var confirm := ReadResetPassword();
      if confirm.TerminalFailed? {
        return Some(TerminalFailed(confirm.phase));
      }
      if confirm.value.Interrupted? {
        return Some(Done(ResetLoggedOff(confirm.value.reason)));
      }
      ghost var b :| trace == t1 + Exchange(b) && confirm.value.text == Entry(b);
      if candidate.value.text == confirm.value.text {
        var outcome := CompleteReset();
        EndsWithTwo(t0, a, b, [Decides(ResetDone)]);
        if outcome.Some? {
          return Some(Done(outcome.value));
        }
      }
      var ok := WriteAndFlush(Onboarded, Nothing);
      r := if ok then None else Some(TerminalFailed(Onboarded));
    }

    /** Whether the new password is accepted and stored; `None` when it is refused. */
    method CompleteReset() returns (r: Option<ResetOutcome>)
      requires At(Onboarded)
      modifies this`trace
      ensures r == None ==> At(Onboarded)
      ensures r.Some? ==> r.value in {Changed, ResetAborted} && ResetState(Done(r.value))
      ensures r == Some(Changed) ==> trace == old(trace) + [Decides(ResetDone)]
      ensures Exhaustions() == old(Exhaustions())
      ensures ReadCount(trace) == old(ReadCount(trace))
    {
      hide Track, Count;
      var storeFails, accepted: bool := *, *;
      if storeFails {
        Decide(ResetNotSaved);
        Emit(Enters(Gone));
        return Some(ResetAborted);
      }
      Decide(if accepted then ResetDone else ResetRefused);
      r := if accepted then Some(Changed) else None;
    }

    /** Three tries; after the third failure the caller is disconnected. */
    method ResetPassword() returns (r: Flow<ResetOutcome>)
      requires At(Onboarded)
      modifies this
      ensures ResetState(r) && |answers| <= |old(answers)|
      ensures r == Done(Changed) ==> |answers| < |old(answers)|
      ensures ReadCount(trace) <= old(ReadCount(trace)) + 2 * MAX_PASSWORD_RESET_ATTEMPTS
      ensures Exhaustions() > old(Exhaustions()) ==> ReadCount(trace) == old(ReadCount(trace)) + 6
      ensures ReadCount(trace) <= old(ReadCount(trace)) + 6
    {
      hide Track, Count;
      var told := WriteAndFlush(Onboarded, Nothing);
      if !told {
        return TerminalFailed(Onboarded);
      }
      var attempts := 0;
      while attempts < MAX_PASSWORD_RESET_ATTEMPTS
        invariant At(Onboarded) && |answers| < |old(answers)|
        invariant 0 <= attempts <= MAX_PASSWORD_RESET_ATTEMPTS
          && ReadCount(trace) == old(ReadCount(trace)) + 2 * attempts
        invariant Exhaustions() == old(Exhaustions())
      {
        var tried := TryReset();
        if tried.Some? {
          return tried.value;
        }
        attempts := attempts + 1;
      }
      Decide(ResetsExhausted);
      var ended := GiveUp(Onboarded);
      r := match ended
           case Done(reason) => Done(ResetLoggedOff(reason))
           case TerminalFailed(p) => TerminalFailed(p);
    }

    // ---- The menu ----

    /** Enters the menu as soon as no password change is due. */
    method EnterMenuAfterPasswordReset() returns (r: Flow<MenuEntry>)
      requires At(Onboarded)
      modifies this
      ensures match r
              case Done(AtMenu) => At(InMenu)
              case Done(EntryLoggedOff(reason)) => LoggedOffAt(reason)
              case Done(EntryAborted) => At(Gone)
              case TerminalFailed(p) => p != Gone && FailedAt(p)
      ensures |answers| <= |old(answers)|
    {
      hide Track, Count;
      while true
        invariant At(Onboarded) && |answers| <= |old(answers)|
        decreases |answers|
      {
        var saveFails, resetRequired: bool := *, *;
        if saveFails {
          Decide(MenuNotSaved);
          Emit(Enters(Gone));
          return Done(EntryAborted);
        }
        if !resetRequired {
          Decide(MenuAdmitted);
          Emit(Enters(InMenu));
          return Done(AtMenu);
        }
        Decide(ResetRequired);
        var reset := ResetPassword();
        match reset {
          case Done(Changed) =>
          case Done(ResetLoggedOff(reason)) => return Done(EntryLoggedOff(reason));
          case Done(ResetAborted) => return Done(EntryAborted);
          case TerminalFailed(p) => return TerminalFailed(p);
        }
      }
    }

    /**
      The logon scan, the announcements, the statistics and the command loop: terminal operations of
      any kind and number, until one fails or the caller leaves.
     */
    method UseMenu() returns (r: Flow<MenuExit>)
      requires At(InMenu)
      modifies this
      ensures match r
              case Done(_) => At(InMenu)
              case TerminalFailed(p) => p == InMenu && FailedAt(p)
      ensures |answers| <= |old(answers)|
    {
      hide Track, Count;
      while true
        invariant At(InMenu) && |answers| <= |old(answers)|
        decreases |answers|
      {
        var leaves, writes, flushes: bool := *, *, *;
        if leaves {
          var exit: MenuExit := *;
          return Done(exit);
        }
        var answer := NextAnswer();
        Emit(if writes then Writes(answer.Works?) else if flushes then Flushes(answer.Works?)
          else Reads(AnswerOf(answer)));
        if answer.Fails? {
          return TerminalFailed(InMenu);
        }
      }
    }

    static function ExitVerdict(exit: MenuExit): Verdict {
      match exit
      case UserRequestedLogoff => CallerSaidGoodbye
      case CarrierLost => CarrierGone
      case IdleOut => CallerIdle
      case TimeExpired => CallOverTime
    }

    method CompleteMenuExit(exit: MenuExit) returns (r: Flow<LogoffReason>)
      requires At(InMenu)
      modifies this
      ensures
        var due := Calls(old(Now()).value, ExitVerdict(exit));
        match r
        case Done(reason) => LoggedOffAt(reason) && due == MustLogOff(reason)
        case TerminalFailed(p) => p.LoggingOff? && FailedAt(p) && due == MustLogOff(p.reason)
      ensures
        var reason := match exit
                      case UserRequestedLogoff => NormalLogoff
                      case CarrierLost => CarrierLoss
                      case IdleOut => if treatTimeoutAsLogoff then InputTimeout else CarrierLoss
                      case TimeExpired => OutOfTime;
        r == Done(reason) || r == TerminalFailed(LoggingOff(reason))
    {
      hide Track, Count;
      Decide(ExitVerdict(exit));
      match exit {
        case UserRequestedLogoff =>
          Emit(LogsOff(NormalLogoff));
          var hasScreen: bool := *;
          if hasScreen {
            var screen := Write(LoggingOff(NormalLogoff), Nothing);
            if !screen {
              return TerminalFailed(LoggingOff(NormalLogoff));
            }
          }
          var ok := WriteAndFlush(LoggingOff(NormalLogoff), Nothing);
          r := if ok then Done(NormalLogoff) else TerminalFailed(LoggingOff(NormalLogoff));
        case CarrierLost =>
          Emit(LogsOff(CarrierLoss));
          r := Done(CarrierLoss);
        case IdleOut =>
          r := LogOffWithNotice(IdleReason(), InMenu);
        case TimeExpired =>
          r := LogOffWithNotice(OutOfTime, InMenu);
      }
    }

    // ---- The whole session ----

    method Drive() returns (r: Flow<Completion>)
      requires Owing(Connecting, MustEnter(Identifying)) && Misses() == nameRetries == 0
      modifies this
      ensures match r
              case Done(CompletedLoggingOff(reason)) => LoggedOffAt(reason)
              case Done(CompletedEnded) => At(Ended)
              case Done(CompletedAborted) => At(Gone)
              case TerminalFailed(p) => p != Gone && FailedAt(p)
    {
      hide Track, Count;
      var copyright := Write(Connecting, MustEnter(Identifying));
      if !copyright {
        return TerminalFailed(Connecting);
      }
      Emit(Enters(Identifying));
      var signIn := Identify();
      if signIn.Done? && signIn.value.WantsRegistration? {
        signIn := Register(signIn.value.gated);
      }
      match signIn {
        case TerminalFailed(p) => return TerminalFailed(p);
        case Done(SignInLoggedOff(reason)) => return Done(CompletedLoggingOff(reason));
        case Done(SignInEnded) => return Done(CompletedEnded);
        case Done(SignInAborted) => return Done(CompletedAborted);
        case Done(_) =>
      }
      r := UseBoard();
    }

    /** The part of the session that needs a signed-in user. */
    method UseBoard() returns (r: Flow<Completion>)
      requires At(Onboarded)
      modifies this
      ensures match r
              case Done(CompletedLoggingOff(reason)) => LoggedOffAt(reason)
              case Done(CompletedEnded) => false
              case Done(CompletedAborted) => At(Gone)
              case TerminalFailed(p) => p != Gone && FailedAt(p)
    {
      hide Track, Count;
      var hasConference: bool := *;
      if !hasConference {
        Decide(NoConference);
        var ended := LogOffWithNotice(NoConferenceAccess, Onboarded);
        return Completed(ended);
      }
      Decide(ConferenceFound);
      var entry := EnterMenuAfterPasswordReset();
      match entry {
        case TerminalFailed(p) => return TerminalFailed(p);
        case Done(EntryLoggedOff(reason)) => return Done(CompletedLoggingOff(reason));
        case Done(EntryAborted) => return Done(CompletedAborted);
        case Done(AtMenu) =>
      }
      var used := UseMenu();
      if used.TerminalFailed? {
        return TerminalFailed(used.phase);
      }
      var ended := CompleteMenuExit(used.value);
      r := Completed(ended);
    }

    static function Completed(r: Flow<LogoffReason>): Flow<Completion> {
      match r
      case Done(reason) => Done(CompletedLoggingOff(reason))
      case TerminalFailed(p) => TerminalFailed(p)
    }

    ghost method Finalise(reason: LogoffReason)
      requires LoggedOffAt(reason) || FailedAt(LoggingOff(reason))
      modifies this`trace
      ensures Now() == Some(old(Now()).value.(finalised := true))
    {
      Emit(Finalises(reason));
    }

    /**
      Drives the session and finalises it: once, unless it ended or was dropped by itself. `ok` is
      false when the terminal failed.
     */
    method Run() returns (ok: bool)
      requires trace == [] && nameRetries == 0
      modifies this
      ensures Now().Some?
      ensures
        var m := Now().value;
        && m.failed == !ok
        && (m.phase.LoggingOff? || m.phase == Ended || m.phase == Gone)
        && (m.finalised <==> m.phase.LoggingOff?)
        && (m.phase == Gone ==> ok)
        && Count(trace, IsFinalise) == (if m.phase == Ended || m.phase == Gone then 0 else 1)
        && (m.phase.LoggingOff? ==>
              && Count(trace, IsLogOff) == 1 && LogsOff(m.phase.reason) in trace
              && trace != [] && trace[|trace| - 1] == Finalises(m.phase.reason))
    {
      var r := Drive();
      match r {
        case Done(CompletedLoggingOff(reason)) =>
          Finalise(reason);
          ok := true;
        case Done(_) =>
          ok := true;
        case TerminalFailed(phase) =>
          ok := false;
          if phase.LoggingOff? {
            Finalise(phase.reason);
          } else if phase != Ended {
            Emit(LogsOff(CarrierLoss));
            Finalise(CarrierLoss);
          }
      }
      FinalisedForTheChosenReason(trace, treatTimeoutAsLogoff);
    }
  }
}
