/** The file-backed mail store of one message base: one file a message, and a high-water mark in memory. */
module MailStore {
  import opened Basics

  const MAX_MAIL_SUBJECT_BYTES := 256
  const MAX_MAIL_BODY_BYTES := 65536
  const MAX_PERSISTED_MAIL_BYTES := 73728
  const FILENAME_WIDTH := 7
  const DOT_JSON := ".json"

  // ---- File names ----

  function PathFor(number: u32): string {
    Padded(number, FILENAME_WIDTH) + DOT_JSON
  }

  /** The value of a string of digits. */
  function Value(s: string): nat
    requires AllDigits(s)
  {
    if s == "" then 0 else 10 * Value(s[..|s| - 1]) + (s[|s| - 1] - '0') as nat
  }

  function ParseMessageFilename(name: string): Option<u32> {
    var stem := |name| - |DOT_JSON|;
    if stem < 0 || name[stem..] != DOT_JSON then None
    else if !AllDigits(name[..stem]) then None
    else if stem == 0 || Value(name[..stem]) > U32_MAX then None
    else Some(Value(name[..stem]))
  }

  lemma {:induction false} DecimalValue(n: nat)
    ensures Value(Decimal(n)) == n
  {
    if n >= 10 {
      DecimalValue(n / 10);
      assert Decimal(n)[..|Decimal(n)| - 1] == Decimal(n / 10);
    }
  }

  lemma {:induction false} PaddedValue(zeros: nat, digits: string)
    requires AllDigits(digits)
    ensures Value(Zeros(zeros) + digits) == Value(digits)
    decreases zeros + |digits|
  {
    var all := Zeros(zeros) + digits;
    if digits != "" {
      assert all[..|all| - 1] == Zeros(zeros) + digits[..|digits| - 1];
      PaddedValue(zeros, digits[..|digits| - 1]);
    } else if zeros > 0 {
      assert all[..|all| - 1] == Zeros(zeros - 1) + "";
      PaddedValue(zeros - 1, "");
    }
  }

  /** Reading a message's own file name gives its number back, beyond seven digits too. */
  lemma PathRoundTrip(number: u32)
    ensures ParseMessageFilename(PathFor(number)) == Some(number)
  {
    var digits := Decimal(number);
    var zeros := if |digits| < FILENAME_WIDTH then FILENAME_WIDTH - |digits| else 0;
    DecimalValue(number);
    PaddedValue(zeros, digits);
    var name := PathFor(number);
    assert name[..|name| - |DOT_JSON|] == Zeros(zeros) + digits;
    assert name[|name| - |DOT_JSON|..] == DOT_JSON;
  }

  lemma {:induction false} DecimalLength(n: nat, width: nat, bound: nat)
    requires width >= 1 && bound == Ten(width)
    ensures n < bound <==> |Decimal(n)| <= width
    decreases width
  {
    if width == 1 {
    } else if n >= 10 {
      DecimalLength(n / 10, width - 1, Ten(width - 1));
    }
  }

  /** Ten to the power of `width`. */
  function Ten(width: nat): (n: nat)
    ensures n >= 1
  {
    if width == 0 then 1 else 10 * Ten(width - 1)
  }

  lemma {:induction false} DecimalHasNoZero(n: nat)
    ensures n > 0 ==> Decimal(n)[0] != '0'
  {
    if n >= 10 { DecimalHasNoZero(n / 10); }
  }

  /** A message's file name: its number in at least seven digits, and `.json`. */
  lemma PathIsPadded(number: u32)
    ensures
      var name := PathFor(number);
      && |name| >= 12 && name[|name| - 5..] == ".json"
      && (number < 10_000_000 <==> |name| == 12)
      && (number >= 10_000_000 ==> name[0] != '0')
      && (forall i | 0 <= i < |name| - 5 :: '0' <= name[i] <= '9')
  {
    assert Ten(7) == 10_000_000 by { assert Ten(4) == 10_000; }
    DecimalLength(number, 7, 10_000_000);
    DecimalHasNoZero(number);
    hide Decimal;
    var name, digits := PathFor(number), Padded(number, 7);
    assert name == digits + ".json" && name[..|digits|] == digits;
  }

  /** A name is read as the number its digits before `.json` write, if they write a `u32`. */
  lemma NameIsRead(digits: string, c: char)
    ensures
      var read := ParseMessageFilename(digits + ".json");
      if digits == "" || exists i :: 0 <= i < |digits| && !('0' <= digits[i] <= '9') then read == None
      else read == if Value(digits) <= 4294967295 then Some(Value(digits)) else None
    ensures Value("") == 0
    ensures '0' <= c <= '9' && (forall i | 0 <= i < |digits| :: '0' <= digits[i] <= '9') ==>
      Value(digits + [c]) == 10 * Value(digits) + (c as int - 48)
  {
    NameIsSplit(digits);
    ValueGrows(digits, c);
    hide Value;
  }

  lemma NameIsSplit(digits: string)
    ensures
      var read := ParseMessageFilename(digits + ".json");
      if digits == "" || !AllDigits(digits) then read == None
      else read == if Value(digits) <= U32_MAX then Some(Value(digits)) else None
  {
    hide Value;
    var name := digits + ".json";
    assert name[..|digits|] == digits && name[|digits|..] == ".json";
  }

  lemma ValueGrows(digits: string, c: char)
    ensures Value("") == 0
    ensures IsDigit(c) && AllDigits(digits) ==> Value(digits + [c]) == 10 * Value(digits) + (c as int - 48)
  {
    assert (digits + [c])[..|digits|] == digits;
  }

  lemma OtherNamesAreSkipped(name: string)
    requires |name| < 5 || name[|name| - 5..] != ".json"
    ensures ParseMessageFilename(name) == None
  {
  }

  // ---- Mail ----

  datatype Visibility = Public | Private | PrivateToSysop | Deleted

  /** `rest` stands for the names, times and attachments, which pass through unread. */
  datatype Mail = Mail(
    base: MessageBaseRef, number: u32, visibility: Visibility, received: Option<int>,
    subject: seq<byte>, body: seq<byte>, rest: string)

  datatype MailDraft = MailDraft(visibility: Visibility, subject: seq<byte>, body: seq<byte>, rest: string)

  function FromDraft(base: MessageBaseRef, number: u32, d: MailDraft): Mail {
    Mail(base, number, d.visibility, None, d.subject, d.body, d.rest)
  }

  /** What the mail type keeps of itself: deleted mail is not marked received. */
  predicate NoActiveReceived(mail: Mail) {
    mail.visibility == Deleted ==> mail.received == None
  }

  /** A directory entry: a file with the mail its text decodes to, if it does, or something else. */
  datatype Entry = File(length: nat, payload: Option<Mail>) | NotAFile

  datatype StoreError = Backend | MsgbaseMismatch | MessageMissing
  datatype Result<+T> = Ok(value: T) | Err(error: StoreError)

  predicate SizesFit(mail: Mail) {
    |mail.subject| <= MAX_MAIL_SUBJECT_BYTES && |mail.body| <= MAX_MAIL_BODY_BYTES
  }

  /** The scan's verdict on an entry named after message `number`. */
  predicate Acceptable(e: Entry, base: MessageBaseRef, number: u32) {
    e.File? ==>
      && e.length <= MAX_PERSISTED_MAIL_BYTES && e.payload.Some?
      && e.payload.value.number == number && e.payload.value.base == base && SizesFit(e.payload.value)
  }

  predicate IsMessage(files: map<string, Entry>, name: string) {
    name in files && files[name].File? && ParseMessageFilename(name).Some?
  }

  ghost predicate HoldsAt(files: map<string, Entry>, mails: seq<Mail>, jsonLength: Mail -> nat, i: nat)
    requires i < |mails| <= U32_MAX
  {
    PathFor(i + 1) in files && files[PathFor(i + 1)] == File(jsonLength(mails[i]), Some(mails[i]))
  }

  /** The message files are those of `mails`, one each, under their own names; other files may lie beside them. */
  ghost predicate Stores(files: map<string, Entry>, mails: seq<Mail>, jsonLength: Mail -> nat) {
    && |mails| <= U32_MAX
    && (forall i | 0 <= i < |mails| :: HoldsAt(files, mails, jsonLength, i))
    && (forall name | name in files && ParseMessageFilename(name).Some? ::
          var n := ParseMessageFilename(name).value; 1 <= n <= |mails| && name == PathFor(n))
  }

  lemma StoresAppended(files: map<string, Entry>, mails: seq<Mail>, mail: Mail, jsonLength: Mail -> nat)
    requires Stores(files, mails, jsonLength) && mail.number == |mails| + 1
    ensures Stores(files[PathFor(mail.number) := File(jsonLength(mail), Some(mail))], mails + [mail], jsonLength)
  {
    hide PathFor, ParseMessageFilename;
    var after, all := files[PathFor(mail.number) := File(jsonLength(mail), Some(mail))], mails + [mail];
    PathRoundTrip(mail.number);
    forall i | 0 <= i < |all|
      ensures HoldsAt(after, all, jsonLength, i)
    {
      PathRoundTrip(i + 1);
      assert i < |mails| ==> HoldsAt(files, mails, jsonLength, i);
    }
  }

  lemma StoresReplaced(files: map<string, Entry>, mails: seq<Mail>, mail: Mail, jsonLength: Mail -> nat)
    requires Stores(files, mails, jsonLength) && 1 <= mail.number <= |mails|
    ensures Stores(files[PathFor(mail.number) := File(jsonLength(mail), Some(mail))],
                   mails[mail.number - 1 := mail], jsonLength)
  {
    hide PathFor, ParseMessageFilename;
    var after, all := files[PathFor(mail.number) := File(jsonLength(mail), Some(mail))], mails[mail.number - 1 := mail];
    PathRoundTrip(mail.number);
    forall i | 0 <= i < |all|
      ensures HoldsAt(after, all, jsonLength, i)
    {
      PathRoundTrip(i + 1);
      assert HoldsAt(files, mails, jsonLength, i);
    }
  }

  ghost predicate ListedAt(files: map<string, Entry>, mails: seq<Mail>, i: nat)
    requires i < |mails| <= U32_MAX
  {
    IsMessage(files, PathFor(i + 1)) && ParseMessageFilename(PathFor(i + 1)) == Some(i + 1)
  }

  /** In such a directory the message files are numbered from one to the last without gaps. */
  lemma MessagesAreMails(files: map<string, Entry>, mails: seq<Mail>, jsonLength: Mail -> nat)
    requires Stores(files, mails, jsonLength)
    ensures forall i | 0 <= i < |mails| :: ListedAt(files, mails, i)
    ensures forall name | IsMessage(files, name) ::
      var n := ParseMessageFilename(name).value;
      1 <= n <= |mails| && files[name] == File(jsonLength(mails[n - 1]), Some(mails[n - 1]))
  {
    hide PathFor, ParseMessageFilename;
    forall i | 0 <= i < |mails|
      ensures ListedAt(files, mails, i)
    {
      PathRoundTrip(i + 1);
      assert HoldsAt(files, mails, jsonLength, i);
    }
    forall name | IsMessage(files, name)
      ensures
        var n := ParseMessageFilename(name).value;
        1 <= n <= |mails| && files[name] == File(jsonLength(mails[n - 1]), Some(mails[n - 1]))
    {
      var n := ParseMessageFilename(name).value;
      assert HoldsAt(files, mails, jsonLength, n - 1);
    }
  }

  /** The directory, which outlives any store opened on it. */
  class Directory {
    var files: map<string, Entry>

    constructor ()
      ensures files == map[]
    {
      files := map[];
    }
  }

  /** Checks every message file, in whatever order the directory lists them. */
  method ScanDirForHighest(dir: Directory, base: MessageBaseRef) returns (r: Result<u32>)
    ensures r.Ok? <==> forall name | IsMessage(dir.files, name) ::
      Acceptable(dir.files[name], base, ParseMessageFilename(name).value)
    ensures r.Ok? ==>
      && (forall name | IsMessage(dir.files, name) :: ParseMessageFilename(name).value <= r.value)
      && (r.value > 0 ==> exists name :: IsMessage(dir.files, name) && ParseMessageFilename(name).value == r.value)
    ensures r.Err? ==> r.error == Backend
  {
    var highest: u32 := 0;
    var left := dir.files.Keys;
    while left != {}
      invariant left <= dir.files.Keys
      invariant forall name | IsMessage(dir.files, name) && name !in left ::
        Acceptable(dir.files[name], base, ParseMessageFilename(name).value)
          && ParseMessageFilename(name).value <= highest
      invariant highest > 0 ==> exists name :: IsMessage(dir.files, name) && ParseMessageFilename(name).value == highest
      decreases |left|
    {
      var name :| name in left;
      left := left - {name};
      var entry := dir.files[name];
      if entry.NotAFile? {
        continue;
      }
      var number := ParseMessageFilename(name);
      if number.None? {
        continue;
      }
      assert IsMessage(dir.files, name);
      if entry.length > MAX_PERSISTED_MAIL_BYTES || entry.payload.None? {
        return Err(Backend);
      }
      var mail := entry.payload.value;
      if mail.number != number.value || mail.base != base || !SizesFit(mail) {
        return Err(Backend);
      }
      highest := Max(highest, number.value);
    }
    r := Ok(highest);
  }

  /** A mail that can be read back, `jsonLength` giving the length of a mail's JSON text. */
  predicate InLimits(jsonLength: Mail -> nat, mail: Mail) {
    jsonLength(mail) <= MAX_PERSISTED_MAIL_BYTES && SizesFit(mail)
  }

  /** What loading a number comes to, whatever the directory holds. */
  function Loaded(files: map<string, Entry>, base: MessageBaseRef, number: u32): Result<Option<Mail>> {
    var path := PathFor(number);
    if path !in files then Ok(None)
    else
      var e := files[path];
      if e.NotAFile? || !Acceptable(e, base, number) || !NoActiveReceived(e.payload.value) then Err(Backend)
      else Ok(e.payload)
  }

  /** Why saving is refused, if it is. */
  function SaveRefused(files: map<string, Entry>, base: MessageBaseRef, highest: u32, mail: Mail): Option<StoreError> {
    if mail.base != base then Some(MsgbaseMismatch)
    else if !(1 <= mail.number <= highest) then Some(MessageMissing)
    else
      match Loaded(files, base, mail.number)
      case Err(e) => Some(e)
      case Ok(None) => Some(MessageMissing)
      case Ok(Some(_)) => None
  }

  class FileMailStore {
    const dir: Directory
    const base: MessageBaseRef
    const jsonLength: Mail -> nat
    var highestMessage: u32

    /** Message `n` is at index `n - 1`, in a directory without gaps. */
    ghost var mails: seq<Mail>

    /** The directory holds exactly the messages of `mails`, numbered from one without gaps. */
    ghost predicate Valid()
      reads this, dir
    {
      && |mails| == highestMessage
      && (forall i | 0 <= i < |mails| ::
            mails[i].base == base && mails[i].number == i + 1 && NoActiveReceived(mails[i]))
      && Stores(dir.files, mails, jsonLength)
    }

    /** No message is numbered above the mark; this holds of any directory that could be opened. */
    ghost predicate Marked()
      reads this, dir
    {
      forall name | IsMessage(dir.files, name) :: ParseMessageFilename(name).value <= highestMessage
    }

    constructor (dir: Directory, base: MessageBaseRef, jsonLength: Mail -> nat, highest: u32, ghost mails: seq<Mail>)
      ensures this.dir == dir && this.base == base && this.jsonLength == jsonLength
      ensures highestMessage == highest && this.mails == mails
    {
      this.dir, this.base, this.jsonLength, highestMessage, this.mails := dir, base, jsonLength, highest, mails;
    }

    /** Opens any directory: each message file is checked, and the highest number becomes the mark. */
    static method Open(dir: Directory, base: MessageBaseRef, jsonLength: Mail -> nat, ghost mails: seq<Mail>)
      returns (r: Result<FileMailStore>)
      ensures r.Ok? <==> forall name | IsMessage(dir.files, name) ::
        Acceptable(dir.files[name], base, ParseMessageFilename(name).value)
      ensures r.Ok? <==>
        forall name | name in dir.files && dir.files[name].File? && ParseMessageFilename(name).Some? ::
          && dir.files[name].length <= 73728 && dir.files[name].payload.Some?
          && var mail := dir.files[name].payload.value;
             && mail.number == ParseMessageFilename(name).value && mail.base == base
             && |mail.subject| <= 256 && |mail.body| <= 65536
      ensures r.Err? ==> r.error == Backend
      ensures r.Ok? ==>
        && fresh(r.value) && r.value.dir == dir && r.value.base == base && r.value.jsonLength == jsonLength
        && r.value.mails == mails && r.value.Marked()
        && (r.value.highestMessage > 0 ==>
              exists name :: IsMessage(dir.files, name) && ParseMessageFilename(name).value == r.value.highestMessage)
    {
      var scanned := ScanDirForHighest(dir, base);
      if scanned.Err? {
        return Err(scanned.error);
      }
      var store := new FileMailStore(dir, base, jsonLength, scanned.value, mails);
      r := Ok(store);
    }

    /**
      Neither the draft nor its JSON is measured, and the next number is taken unchecked. Whatever
      the directory held when it was opened, no message is overwritten.
     */
    method Insert(draft: MailDraft) returns (mail: Mail)
      requires highestMessage < U32_MAX
      modifies this, dir
      ensures mail == FromDraft(base, old(highestMessage) + 1, draft) && highestMessage == old(highestMessage) + 1
      ensures mail.base == base && mail.number == old(highestMessage) + 1 && mail.received == None
      ensures mail.subject == draft.subject && mail.body == draft.body
      ensures mail.visibility == draft.visibility && mail.rest == draft.rest
      ensures dir.files == old(dir.files)[PathFor(mail.number) := File(jsonLength(mail), Some(mail))]
      ensures old(Marked()) ==> Marked() && !IsMessage(old(dir.files), PathFor(mail.number))
      ensures mails == old(mails) + [mail]
      ensures old(Valid()) ==> Valid()
    {
      hide PathFor, ParseMessageFilename;
      var number := highestMessage + 1;
      mail := FromDraft(base, number, draft);
      PathRoundTrip(number);
      Write(mail);
      highestMessage := number;
      mails := mails + [mail];
      if old(Valid()) { StoresAppended(old(dir.files), old(mails), mail, jsonLength); }
    }

    method Write(mail: Mail)
      modifies dir
      ensures dir.files == old(dir.files)[PathFor(mail.number) := File(jsonLength(mail), Some(mail))]
    {
      dir.files := dir.files[PathFor(mail.number) := File(jsonLength(mail), Some(mail))];
    }

    method Load(number: u32) returns (r: Result<Option<Mail>>)
      ensures r == Loaded(dir.files, base, number)
      ensures r == Ok(None) <==> PathFor(number) !in dir.files
      ensures r.Ok? && r.value.Some? <==>
        && PathFor(number) in dir.files && dir.files[PathFor(number)].File?
        && dir.files[PathFor(number)].length <= 73728 && dir.files[PathFor(number)].payload.Some?
        && var mail := dir.files[PathFor(number)].payload.value;
           && mail.number == number && mail.base == base && |mail.subject| <= 256 && |mail.body| <= 65536
           && !(mail.visibility == Deleted && mail.received.Some?)
      ensures r.Ok? && r.value.Some? ==> dir.files[PathFor(number)].payload == r.value
      ensures r.Err? ==> r.error == Backend
      ensures Valid() ==>
        r == if !(1 <= number <= |mails|) then Ok(None)
             else if InLimits(jsonLength, mails[number - 1]) then Ok(Some(mails[number - 1]))
             else Err(Backend)
    {
      hide PathFor, ParseMessageFilename;
      PathRoundTrip(number);
      var path := PathFor(number);
      assert Valid() && 1 <= number <= |mails| ==> HoldsAt(dir.files, mails, jsonLength, number - 1);
      if path !in dir.files {
        return Ok(None);
      }
      var entry := dir.files[path];
      if entry.NotAFile? || entry.length > MAX_PERSISTED_MAIL_BYTES || entry.payload.None? {
        return Err(Backend);
      }
      var mail := entry.payload.value;
      if mail.number != number || mail.base != base || !SizesFit(mail) {
        return Err(Backend);
      }
      if mail.visibility == Deleted && mail.received.Some? {
        return Err(Backend);
      }
      r := Ok(Some(mail));
    }

    /** Overwrites a message that is there and still loads; anything else is refused and changes nothing. */
    method Save(mail: Mail) returns (error: Option<StoreError>)
      requires NoActiveReceived(mail)
      modifies this, dir
      ensures highestMessage == old(highestMessage)
      ensures error == SaveRefused(old(dir.files), base, highestMessage, mail)
      ensures error == Some(MsgbaseMismatch) <==> mail.base != base
      ensures error == Some(MessageMissing) <==>
        mail.base == base && !(1 <= mail.number <= highestMessage && PathFor(mail.number) in old(dir.files))
      ensures error == None <==>
        && mail.base == base && 1 <= mail.number <= highestMessage
        && PathFor(mail.number) in old(dir.files) && old(dir.files)[PathFor(mail.number)].File?
        && old(dir.files)[PathFor(mail.number)].length <= 73728
        && old(dir.files)[PathFor(mail.number)].payload.Some?
        && var was := old(dir.files)[PathFor(mail.number)].payload.value;
           && was.number == mail.number && was.base == base && |was.subject| <= 256 && |was.body| <= 65536
           && !(was.visibility == Deleted && was.received.Some?)
      ensures error == None ==> dir.files == old(dir.files)[PathFor(mail.number) := File(jsonLength(mail), Some(mail))]
      ensures error.Some? ==> mails == old(mails) && dir.files == old(dir.files)
      ensures old(Marked()) ==> Marked()
      ensures old(Valid()) ==>
        && Valid()
        && error == (if mail.base != base then Some(MsgbaseMismatch)
                     else if !(1 <= mail.number <= |old(mails)|) then Some(MessageMissing)
                     else if !InLimits(jsonLength, old(mails)[mail.number - 1]) then Some(Backend)
                     else None)
        && (error == None ==> 1 <= mail.number <= |old(mails)| && mails == old(mails)[mail.number - 1 := mail])
    {
      hide PathFor, ParseMessageFilename;
      if mail.base != base {
        return Some(MsgbaseMismatch);
      }
      if mail.number == 0 || mail.number > highestMessage {
        return Some(MessageMissing);
      }
      var loaded := Load(mail.number);
      if loaded.Err? {
        return Some(loaded.error);
      }
      if loaded.value.None? {
        return Some(MessageMissing);
      }
      PathRoundTrip(mail.number);
      Write(mail);
      if old(Valid()) {
        mails := mails[mail.number - 1 := mail];
        StoresReplaced(old(dir.files), old(mails), mail, jsonLength);
      }
      error := None;
    }

    /** Opening the directory again finds the same mark, unless some stored mail is over a limit. */
    method Reopen() returns (r: Result<FileMailStore>)
      requires Valid()
      ensures r.Ok? <==> forall i | 0 <= i < |mails| :: InLimits(jsonLength, mails[i])
      ensures r.Ok? ==>
        && fresh(r.value) && r.value.Valid() && r.value.dir == dir && r.value.base == base
        && r.value.jsonLength == jsonLength && r.value.highestMessage == highestMessage && r.value.mails == mails
    {
      MessagesAreMails(dir.files, mails, jsonLength);
      forall i | 0 <= i < |mails|
        ensures ListedAt(dir.files, mails, i)
        ensures InLimits(jsonLength, mails[i]) <==> Acceptable(dir.files[PathFor(i + 1)], base, i + 1)
      {
        assert HoldsAt(dir.files, mails, jsonLength, i) && ListedAt(dir.files, mails, i);
      }
      assert mails != [] ==> ListedAt(dir.files, mails, |mails| - 1);
      r := Open(dir, base, jsonLength, mails);
    }
  }

  // ---- Runs of operations, with reopening anywhere ----

  datatype Op = InsertOp(draft: MailDraft) | SaveOp(mail: Mail) | LoadOp(number: u32) | ReopenOp

  /** What the caller of an operation is told. */
  datatype Answer =
    | Inserted(mail: Mail)
    | Saved(error: Option<StoreError>)
    | LoadedAs(found: Result<Option<Mail>>)
    | Reopened(ok: bool)

  /** The answer of a store that holds `mails`. */
  ghost function AnswerOf(base: MessageBaseRef, jsonLength: Mail -> nat, mails: seq<Mail>, op: Op): Answer
    requires |mails| < U32_MAX
  {
    match op
    case InsertOp(draft) => Inserted(FromDraft(base, |mails| + 1, draft))
    case SaveOp(mail) =>
      Saved(if mail.base != base then Some(MsgbaseMismatch)
            else if !(1 <= mail.number <= |mails|) then Some(MessageMissing)
            else if !InLimits(jsonLength, mails[mail.number - 1]) then Some(Backend)
            else None)
    case LoadOp(number) =>
      LoadedAs(if !(1 <= number <= |mails|) then Ok(None)
               else if InLimits(jsonLength, mails[number - 1]) then Ok(Some(mails[number - 1]))
               else Err(Backend))
    case ReopenOp => Reopened(forall i | 0 <= i < |mails| :: InLimits(jsonLength, mails[i]))
  }

  /** The mail an operation writes on a store that holds `mails`, if it writes any. */
  function Written(base: MessageBaseRef, jsonLength: Mail -> nat, mails: seq<Mail>, op: Op): Option<Mail>
    requires |mails| < U32_MAX
  {
    match op
    case InsertOp(draft) => Some(FromDraft(base, |mails| + 1, draft))
    case SaveOp(mail) =>
      var accepted := mail.base == base && 1 <= mail.number <= |mails| && InLimits(jsonLength, mails[mail.number - 1]);
      if accepted then Some(mail) else None
    case LoadOp(_) => None
    case ReopenOp => None
  }

  /** What is stored after an operation. */
  function After(base: MessageBaseRef, jsonLength: Mail -> nat, mails: seq<Mail>, op: Op): (after: seq<Mail>)
    requires |mails| < U32_MAX
    ensures |mails| <= |after| <= |mails| + 1
  {
    match Written(base, jsonLength, mails, op)
    case None => mails
    case Some(mail) => if 1 <= mail.number <= |mails| then mails[mail.number - 1 := mail] else mails + [mail]
  }

  /** What is stored after the operations, from an empty directory on. */
  function Run(base: MessageBaseRef, jsonLength: Mail -> nat, ops: seq<Op>): (mails: seq<Mail>)
    requires |ops| <= U32_MAX
    ensures |mails| <= |ops|
  {
    if ops == [] then []
    else After(base, jsonLength, Run(base, jsonLength, ops[..|ops| - 1]), ops[|ops| - 1])
  }

  lemma RunSnoc(base: MessageBaseRef, jsonLength: Mail -> nat, ops: seq<Op>, k: nat)
    requires k < |ops| <= U32_MAX
    ensures Run(base, jsonLength, ops[..k + 1]) == After(base, jsonLength, Run(base, jsonLength, ops[..k]), ops[k])
  {
    assert ops[..k + 1][..k] == ops[..k];
  }

  /** The mail type never holds a deleted mail marked received. */
  ghost predicate Sendable(op: Op) {
    op.SaveOp? ==> NoActiveReceived(op.mail)
  }

  /** One operation; a store that cannot be opened again is kept as it is. */
  method Perform(store: FileMailStore, op: Op) returns (after: FileMailStore, answer: Answer)
    requires store.Valid() && store.highestMessage < U32_MAX && Sendable(op)
    modifies store, store.dir
    ensures after.Valid() && (after == store || fresh(after))
    ensures after.dir == store.dir && after.base == store.base && after.jsonLength == store.jsonLength
    ensures answer == AnswerOf(store.base, store.jsonLength, old(store.mails), op)
    ensures after.mails == After(store.base, store.jsonLength, old(store.mails), op)
  {
    after := store;
    match op {
      case InsertOp(draft) =>
        var mail := store.Insert(draft);
        answer := Inserted(mail);
      case SaveOp(mail) =>
        var error := store.Save(mail);
        answer := Saved(error);
      case LoadOp(number) =>
        var found := store.Load(number);
        answer := LoadedAs(found);
      case ReopenOp =>
        var reopened := store.Reopen();
        if reopened.Ok? { after := reopened.value; }
        answer := Reopened(reopened.Ok?);
    }
  }

  /** Operation `k` of a run is answered as a store that holds what was stored before answers it. */
  ghost predicate Answered(base: MessageBaseRef, jsonLength: Mail -> nat, ops: seq<Op>, k: nat, answer: Answer)
    requires k < |ops| <= U32_MAX
  {
    answer == AnswerOf(base, jsonLength, Run(base, jsonLength, ops[..k]), ops[k])
  }

  /** Any operations on a store opened on an empty directory leave, and answer, what `Run` says. */
  method PerformAll(store: FileMailStore, ops: seq<Op>) returns (after: FileMailStore, answers: seq<Answer>)
    requires store.Valid() && store.mails == [] && |ops| <= U32_MAX
    requires forall k | 0 <= k < |ops| :: Sendable(ops[k])
    modifies store, store.dir
    ensures after.Valid() && after.dir == store.dir && after.base == store.base
    ensures after.mails == Run(store.base, store.jsonLength, ops)
    ensures |answers| == |ops|
    ensures forall k | 0 <= k < |ops| :: Answered(store.base, store.jsonLength, ops, k, answers[k])
    ensures forall j, k | 0 <= j < k < |ops| && ops[j].InsertOp? && answers[j].Inserted? ::
      ops[k] == LoadOp(answers[j].mail.number)
      && (forall i | j < i < k && ops[i].SaveOp? :: ops[i].mail.number != answers[j].mail.number) ==>
        var mail, draft := answers[j].mail, ops[j].draft;
        && mail.subject == draft.subject && mail.body == draft.body && mail.received == None
        && mail.visibility == draft.visibility && mail.rest == draft.rest
        && answers[k] == LoadedAs(
             if store.jsonLength(mail) <= 73728 && |mail.subject| <= 256 && |mail.body| <= 65536
             then Ok(Some(mail)) else Err(Backend))
  {
    hide After, AnswerOf, Run, Sendable, Stores;
    after, answers := store, [];
    var i := 0;
    NothingRun(store.base, store.jsonLength, ops);
    while i < |ops|
      invariant 0 <= i <= |ops| && |answers| == i
      invariant after.Valid() && (after == store || fresh(after))
      invariant after.dir == store.dir && after.base == store.base && after.jsonLength == store.jsonLength
      invariant after.mails == Run(store.base, store.jsonLength, ops[..i])
      invariant forall k | 0 <= k < i :: Answered(store.base, store.jsonLength, ops, k, answers[k])
    {
      var answer;
      RunSnoc(store.base, store.jsonLength, ops, i);
      after, answer := Perform(after, ops[i]);
      assert Answered(store.base, store.jsonLength, ops, i, answer);
      hide Answered;
      answers := answers + [answer];
      i := i + 1;
    }
    assert ops[..|ops|] == ops;
    forall j, k | 0 <= j < k < |ops| && ops[j].InsertOp? && answers[j].Inserted?
      && ops[k] == LoadOp(answers[j].mail.number)
      && (forall i | j < i < k && ops[i].SaveOp? :: ops[i].mail.number != answers[j].mail.number)
      ensures
        var mail, draft := answers[j].mail, ops[j].draft;
        && mail.subject == draft.subject && mail.body == draft.body && mail.received == None
        && mail.visibility == draft.visibility && mail.rest == draft.rest
        && answers[k] == LoadedAs(
             if store.jsonLength(mail) <= 73728 && |mail.subject| <= 256 && |mail.body| <= 65536
             then Ok(Some(mail)) else Err(Backend))
    {
      PostedIsAnswered(store.base, store.jsonLength, ops, j, k, answers[j], answers[k]);
    }
  }

  lemma NothingRun(base: MessageBaseRef, jsonLength: Mail -> nat, ops: seq<Op>)
    requires |ops| <= U32_MAX
    ensures Run(base, jsonLength, ops[..0]) == []
  {
  }

  ghost predicate WritesNumber(base: MessageBaseRef, jsonLength: Mail -> nat, ops: seq<Op>, k: nat, number: nat)
    requires k < |ops| <= U32_MAX
  {
    var w := Written(base, jsonLength, Run(base, jsonLength, ops[..k]), ops[k]);
    w.Some? && w.value.number == number
  }

  /** The stored numbers are one to the last. */
  lemma {:induction false} NumbersAreDense(base: MessageBaseRef, jsonLength: Mail -> nat, ops: seq<Op>)
    requires |ops| <= U32_MAX
    ensures forall i | 0 <= i < |Run(base, jsonLength, ops)| ::
      Run(base, jsonLength, ops)[i].number == i + 1 && Run(base, jsonLength, ops)[i].base == base
  {
    if ops != [] {
      NumbersAreDense(base, jsonLength, ops[..|ops| - 1]);
    }
  }

  /** What is stored under a number is what the last operation that wrote it wrote. */
  lemma {:induction false} LastWriteIsStored(
      base: MessageBaseRef, jsonLength: Mail -> nat, ops: seq<Op>, number: nat)
    returns (k: nat)
    requires |ops| <= U32_MAX && 1 <= number <= |Run(base, jsonLength, ops)|
    ensures k < |ops| && WritesNumber(base, jsonLength, ops, k, number)
    ensures Written(base, jsonLength, Run(base, jsonLength, ops[..k]), ops[k])
         == Some(Run(base, jsonLength, ops)[number - 1])
    ensures forall j | k < j < |ops| :: !WritesNumber(base, jsonLength, ops, j, number)
    decreases |ops|
  {
    var last := |ops| - 1;
    NumbersAreDense(base, jsonLength, ops[..last]);
    if WritesNumber(base, jsonLength, ops, last, number) {
      k := last;
    } else {
      k := LastWriteIsStored(base, jsonLength, ops[..last], number);
      assert ops[..last][..k] == ops[..k];
      forall j | k < j < |ops|
        ensures !WritesNumber(base, jsonLength, ops, j, number)
      {
        if j < last {
          assert ops[..last][..j] == ops[..j];
          assert !WritesNumber(base, jsonLength, ops[..last], j, number);
        }
      }
    }
  }

  /** `mail` is what the last operation before the `k`-th that wrote its number wrote. */
  ghost predicate WrittenLast(base: MessageBaseRef, jsonLength: Mail -> nat, ops: seq<Op>, k: nat, j: nat, mail: Mail)
    requires j < k <= |ops| <= U32_MAX
  {
    && Written(base, jsonLength, Run(base, jsonLength, ops[..j]), ops[j]) == Some(mail)
    && forall i | j < i < k :: !WritesNumber(base, jsonLength, ops, i, mail.number)
  }

  lemma {:induction false} WriteIsStored(base: MessageBaseRef, jsonLength: Mail -> nat, ops: seq<Op>, j: nat)
    requires j < |ops| <= U32_MAX && Written(base, jsonLength, Run(base, jsonLength, ops[..j]), ops[j]).Some?
    ensures 1 <= Written(base, jsonLength, Run(base, jsonLength, ops[..j]), ops[j]).value.number
              <= |Run(base, jsonLength, ops)|
    decreases |ops|
  {
    if j == |ops| - 1 {
      assert ops[..j] == ops[..|ops| - 1];
    } else {
      assert ops[..|ops| - 1][..j] == ops[..j];
      WriteIsStored(base, jsonLength, ops[..|ops| - 1], j);
    }
  }

  /**
    In any run a load finds the mail last written under its number if that is within limits and
    fails if it is not; and it finds nothing exactly if nothing was written under it before.
   */
  lemma LoadFindsLastWrite(base: MessageBaseRef, jsonLength: Mail -> nat, ops: seq<Op>, k: nat, number: u32)
    requires k < |ops| <= U32_MAX && ops[k] == LoadOp(number)
    ensures
      var answer := AnswerOf(base, jsonLength, Run(base, jsonLength, ops[..k]), ops[k]);
      if exists j | 0 <= j < k :: WritesNumber(base, jsonLength, ops, j, number) then
        exists j, mail | 0 <= j < k && WrittenLast(base, jsonLength, ops, k, j, mail) ::
          mail.number == number
          && answer == LoadedAs(if InLimits(jsonLength, mail) then Ok(Some(mail)) else Err(Backend))
      else answer == LoadedAs(Ok(None))
  {
    hide Run, Written, InLimits;
    var before := ops[..k];
    var mails := Run(base, jsonLength, before);
    NumbersAreDense(base, jsonLength, before);
    forall j | 0 <= j < k
      ensures WritesNumber(base, jsonLength, before, j, number) <==> WritesNumber(base, jsonLength, ops, j, number)
    {
      assert before[..j] == ops[..j];
    }
    if 1 <= number <= |mails| {
      var j := LastWriteIsStored(base, jsonLength, before, number);
      assert before[..j] == ops[..j];
      hide WritesNumber;
      forall i | j < i < k
        ensures !WritesNumber(base, jsonLength, ops, i, number)
      {
        assert !WritesNumber(base, jsonLength, before, i, number);
      }
      assert WritesNumber(base, jsonLength, ops, j, number);
      assert WrittenLast(base, jsonLength, ops, k, j, mails[number - 1]);
    } else {
      forall j | 0 <= j < k
        ensures !WritesNumber(base, jsonLength, ops, j, number)
      {
        if WritesNumber(base, jsonLength, before, j, number) { WriteIsStored(base, jsonLength, before, j); }
      }
    }
  }

  lemma {:induction false} MarkNeverFalls(base: MessageBaseRef, jsonLength: Mail -> nat, ops: seq<Op>, k: nat)
    requires k <= |ops| <= U32_MAX
    ensures |Run(base, jsonLength, ops[..k])| <= |Run(base, jsonLength, ops)|
    decreases |ops|
  {
    if k < |ops| {
      assert ops[..|ops| - 1][..k] == ops[..k];
      MarkNeverFalls(base, jsonLength, ops[..|ops| - 1], k);
    } else {
      assert ops[..k] == ops;
    }
  }

  /** No two inserts take the same number, whatever comes between them. */
  lemma NumbersAreNotReused(base: MessageBaseRef, jsonLength: Mail -> nat, ops: seq<Op>, j: nat, k: nat, m: nat, n: nat)
    requires j < k < |ops| <= U32_MAX && ops[j].InsertOp? && ops[k].InsertOp?
    requires WritesNumber(base, jsonLength, ops, j, m) && WritesNumber(base, jsonLength, ops, k, n)
    ensures m < n
  {
    assert ops[..j + 1][..j] == ops[..j];
    assert ops[..k][..j + 1] == ops[..j + 1];
    MarkNeverFalls(base, jsonLength, ops[..k], j + 1);
  }

  // ---- What is posted is what is read ----

  /** Each insert takes the next number, and nothing else takes one. */
  lemma {:induction false} InsertsAreCounted(base: MessageBaseRef, jsonLength: Mail -> nat, ops: seq<Op>)
    requires |ops| <= U32_MAX
    ensures |Run(base, jsonLength, ops)| == |set i: nat | i < |ops| && ops[i].InsertOp?|
    decreases |ops|
  {
    var inserts := set i: nat | i < |ops| && ops[i].InsertOp?;
    if ops == [] {
      assert inserts == {};
    } else {
      var last := |ops| - 1;
      var before := ops[..last];
      InsertsAreCounted(base, jsonLength, before);
      assert inserts == (set i: nat | i < |before| && before[i].InsertOp?)
                      + if ops[last].InsertOp? then {last} else {};
    }
  }

  /** What is stored under a number stays until a save of that number. */
  lemma {:induction false} KeptUntilSaved(
      base: MessageBaseRef, jsonLength: Mail -> nat, ops: seq<Op>, j: nat, k: nat, number: nat)
    requires j <= k <= |ops| <= U32_MAX && 1 <= number <= |Run(base, jsonLength, ops[..j])|
    requires forall i | j <= i < k && ops[i].SaveOp? :: ops[i].mail.number != number
    ensures number <= |Run(base, jsonLength, ops[..k])|
    ensures Run(base, jsonLength, ops[..k])[number - 1] == Run(base, jsonLength, ops[..j])[number - 1]
  {
    if j < k {
      KeptUntilSaved(base, jsonLength, ops, j, k - 1, number);
      RunSnoc(base, jsonLength, ops, k - 1);
    }
  }

  /**
    A posted mail is loaded again as it was drafted, whatever comes between that does not save it,
    exactly if it is within the limits.
   */
  lemma PostedIsLoaded(base: MessageBaseRef, jsonLength: Mail -> nat, ops: seq<Op>, j: nat, k: nat, draft: MailDraft)
    requires j < k < |ops| <= U32_MAX && ops[j] == InsertOp(draft)
    requires ops[k] == LoadOp(|Run(base, jsonLength, ops[..j])| + 1)
    requires forall i | j < i < k && ops[i].SaveOp? :: ops[i].mail.number != |Run(base, jsonLength, ops[..j])| + 1
    ensures
      var mail := Mail(
        base := base, number := |Run(base, jsonLength, ops[..j])| + 1, received := None,
        subject := draft.subject, body := draft.body, visibility := draft.visibility, rest := draft.rest);
      && AnswerOf(base, jsonLength, Run(base, jsonLength, ops[..j]), ops[j]) == Inserted(mail)
      && AnswerOf(base, jsonLength, Run(base, jsonLength, ops[..k]), ops[k])
         == LoadedAs(if jsonLength(mail) <= 73728 && |draft.subject| <= 256 && |draft.body| <= 65536
                     then Ok(Some(mail)) else Err(Backend))
  {
    var number := |Run(base, jsonLength, ops[..j])| + 1;
    RunSnoc(base, jsonLength, ops, j);
    hide Run;
    KeptUntilSaved(base, jsonLength, ops, j + 1, k, number);
  }

  lemma PostedIsAnswered(
      base: MessageBaseRef, jsonLength: Mail -> nat, ops: seq<Op>, j: nat, k: nat, posted: Answer, found: Answer)
    requires j < k < |ops| <= U32_MAX && ops[j].InsertOp? && posted.Inserted? && ops[k] == LoadOp(posted.mail.number)
    requires Answered(base, jsonLength, ops, j, posted) && Answered(base, jsonLength, ops, k, found)
    requires forall i | j < i < k && ops[i].SaveOp? :: ops[i].mail.number != posted.mail.number
    ensures
      var mail, draft := posted.mail, ops[j].draft;
      && mail.subject == draft.subject && mail.body == draft.body && mail.received == None
      && mail.visibility == draft.visibility && mail.rest == draft.rest
      && found == LoadedAs(if jsonLength(mail) <= 73728 && |mail.subject| <= 256 && |mail.body| <= 65536
                           then Ok(Some(mail)) else Err(Backend))
  {
    hide Run;
    assert posted.mail.number == |Run(base, jsonLength, ops[..j])| + 1;
    PostedIsLoaded(base, jsonLength, ops, j, k, ops[j].draft);
  }

  /** An accepted save is what later loads find, until another one. */
  lemma SavedIsLoaded(base: MessageBaseRef, jsonLength: Mail -> nat, ops: seq<Op>, j: nat, k: nat, mail: Mail)
    requires j < k < |ops| <= U32_MAX && ops[j] == SaveOp(mail) && ops[k] == LoadOp(mail.number)
    requires AnswerOf(base, jsonLength, Run(base, jsonLength, ops[..j]), ops[j]) == Saved(None)
    requires forall i | j < i < k && ops[i].SaveOp? :: ops[i].mail.number != mail.number
    ensures AnswerOf(base, jsonLength, Run(base, jsonLength, ops[..k]), ops[k])
         == LoadedAs(if jsonLength(mail) <= 73728 && |mail.subject| <= 256 && |mail.body| <= 65536
                     then Ok(Some(mail)) else Err(Backend))
  {
    RunSnoc(base, jsonLength, ops, j);
    hide Run;
    KeptUntilSaved(base, jsonLength, ops, j + 1, k, mail.number);
  }
}
