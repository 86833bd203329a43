/** How times, durations and flag sets are written to integer columns and read back. */
module StorageCodecs {
  import opened Basics

  const NANOS := 1_000_000_000
  const I64_MAX := 0x7FFF_FFFF_FFFF_FFFF

  /** A time as nanoseconds from the epoch, before it if negative. */
  type SystemTime = int

  /** Whole seconds, counted towards the epoch on both sides of it, and clamped to 64 bits. */
  function SystemTimeToSecs(t: SystemTime): int {
    if t >= 0 then Min(t / NANOS, I64_MAX) else -Min(-t / NANOS, I64_MAX)
  }

  function SecsToSystemTime(secs: int): SystemTime {
    secs * NANOS
  }

  function Min(a: int, b: int): int {
    if a <= b then a else b
  }

  lemma QuotientGrows(a: nat, b: nat)
    requires a <= b
    ensures 0 <= a / NANOS <= b / NANOS
  {
  }

  /** A time comes back unchanged exactly when it is a whole number of seconds in range. */
  lemma TimeRoundTripIff(t: SystemTime)
    ensures SecsToSystemTime(SystemTimeToSecs(t)) == t <==> t % NANOS == 0 && -I64_MAX * NANOS <= t <= I64_MAX * NANOS
  {
    var whole := if t >= 0 then t / NANOS else -t / NANOS;
    assert (if t >= 0 then t else -t) == whole * NANOS + (if t >= 0 then t else -t) % NANOS;
  }

  /**
    What is stored, to the number: the seconds that are full by the time, on either side of the
    epoch, as far as 64 bits go; and what a stored number stands for.
   */
  lemma StoredSeconds(t: SystemTime, secs: int)
    ensures 0 <= t < 9223372036854775808_000000000 ==>
      SystemTimeToSecs(t) * 1000000000 <= t < (SystemTimeToSecs(t) + 1) * 1000000000
    ensures -9223372036854775808_000000000 < t < 0 ==>
      (SystemTimeToSecs(t) - 1) * 1000000000 < t <= SystemTimeToSecs(t) * 1000000000
    ensures t >= 9223372036854775808_000000000 ==> SystemTimeToSecs(t) == 9223372036854775807
    ensures t <= -9223372036854775808_000000000 ==> SystemTimeToSecs(t) == -9223372036854775807
    ensures SecsToSystemTime(secs) == secs * 1000000000
  {
    var far := if t >= 0 then t else -t;
    assert far == far / NANOS * NANOS + far % NANOS;
  }

  /** Storing keeps the order of times, so the later of two stored times is the later time, stored. */
  lemma LaterIsStoredLater(s: SystemTime, t: SystemTime)
    ensures s <= t ==> SystemTimeToSecs(s) <= SystemTimeToSecs(t)
    ensures Max(SystemTimeToSecs(s), SystemTimeToSecs(t)) == SystemTimeToSecs(Max(s, t))
  {
    if s <= t { TimeGrows(s, t); } else { TimeGrows(t, s); }
  }

  lemma TimeGrows(s: SystemTime, t: SystemTime)
    requires s <= t
    ensures SystemTimeToSecs(s) <= SystemTimeToSecs(t)
  {
    if s >= 0 { QuotientGrows(s, t); } else if t < 0 { QuotientGrows(-t, -s); }
  }

  // ---- Flags ----

  datatype UserFlag =
    | ShowNewUserMessage | AutoJoinFirstConf | ShowOneTimeMessages | ScreenClearAfterMessage
    | IsDonor | EditorFullScreen | EditorPrompts | BackgroundFileCheck

  const ALL_USER_FLAGS: seq<UserFlag> := [
    ShowNewUserMessage, AutoJoinFirstConf, ShowOneTimeMessages, ScreenClearAfterMessage,
    IsDonor, EditorFullScreen, EditorPrompts, BackgroundFileCheck]

  function FlagBit(f: UserFlag): bv32 {
    match f
    case ShowNewUserMessage => 1
    case AutoJoinFirstConf => 2
    case ShowOneTimeMessages => 4
    case ScreenClearAfterMessage => 8
    case IsDonor => 16
    case EditorFullScreen => 32
    case EditorPrompts => 64
    case BackgroundFileCheck => 128
  }

  predicate Overlap(a: bv32, b: bv32) {
    a & b != 0
  }

  predicate HasFlag(bits: bv32, f: UserFlag) {
    Overlap(bits, FlagBit(f))
  }

  /** The flags in the order the set lists them, or-ed together. */
  function FlagsToBitmask(flags: seq<UserFlag>): bv32 {
    if flags == [] then 0 else FlagsToBitmask(flags[..|flags| - 1]) | FlagBit(flags[|flags| - 1])
  }

  function BitmaskToFlags(bits: bv32): set<UserFlag> {
    set f | f in ALL_USER_FLAGS && HasFlag(bits, f)
  }

  lemma OrAnd(a: bv32, b: bv32, c: bv32)
    ensures (a | b) & c != 0 <==> a & c != 0 || b & c != 0
  {
  }

  lemma OrOverlaps(a: bv32, b: bv32, c: bv32)
    ensures Overlap(a | b, c) <==> Overlap(a, c) || Overlap(b, c)
  {
    OrAnd(a, b, c);
  }

  lemma BitsAreDistinct(f: UserFlag, g: UserFlag)
    ensures Overlap(FlagBit(f), FlagBit(g)) <==> f == g
  {
  }

  lemma AddFlag(bits: bv32, f: UserFlag, g: UserFlag)
    ensures HasFlag(bits | FlagBit(f), g) <==> HasFlag(bits, g) || f == g
  {
    hide FlagBit, Overlap;
    OrOverlaps(bits, FlagBit(f), FlagBit(g));
    BitsAreDistinct(f, g);
  }

  lemma NoBits(g: UserFlag)
    ensures !HasFlag(0, g)
  {
    hide FlagBit;
  }

  lemma {:induction false} BitmaskHolds(flags: seq<UserFlag>, g: UserFlag)
    ensures HasFlag(FlagsToBitmask(flags), g) <==> g in flags
  {
    if flags == [] {
      NoBits(g);
    } else {
      hide FlagBit, Overlap, HasFlag;
      var rest := flags[..|flags| - 1];
      BitmaskHolds(rest, g);
      AddFlag(FlagsToBitmask(rest), flags[|flags| - 1], g);
      assert flags == rest + [flags[|flags| - 1]];
    }
  }

  /** A flag set is read back whole, in whatever order it was written. */
  lemma FlagsRoundTrip(flags: seq<UserFlag>)
    ensures BitmaskToFlags(FlagsToBitmask(flags)) == set f | f in flags
  {
    forall g: UserFlag
      ensures g in BitmaskToFlags(FlagsToBitmask(flags)) <==> g in flags
    {
      BitmaskHolds(flags, g);
      EveryFlagIsListed(g);
    }
  }

  /** The bit that stands for each flag. */
  lemma FlagsAreBits(flags: seq<UserFlag>, f: UserFlag)
    ensures FlagsToBitmask([]) == 0
    ensures FlagsToBitmask(flags + [f])
         == FlagsToBitmask(flags)
            | match f {
                case ShowNewUserMessage => 0x1
                case AutoJoinFirstConf => 0x2
                case ShowOneTimeMessages => 0x4
                case ScreenClearAfterMessage => 0x8
                case IsDonor => 0x10
                case EditorFullScreen => 0x20
                case EditorPrompts => 0x40
                case BackgroundFileCheck => 0x80
              }
  {
    assert (flags + [f])[..|flags|] == flags;
  }

  lemma EveryFlagIsListed(f: UserFlag)
    ensures f in ALL_USER_FLAGS
  {
    var i := match f
             case ShowNewUserMessage => 0
             case AutoJoinFirstConf => 1
             case ShowOneTimeMessages => 2
             case ScreenClearAfterMessage => 3
             case IsDonor => 4
             case EditorFullScreen => 5
             case EditorPrompts => 6
             case BackgroundFileCheck => 7;
    assert ALL_USER_FLAGS[i] == f;
  }
}
