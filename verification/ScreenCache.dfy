/**
  Screen files and their caches: which file a menu lookup finds, and what callers see when they race
  to fill a cache while the files change.
 */
module ScreenCache {
  import opened Basics
  import opened ScreenText

  type Files = map<string, seq<byte>>

  const MIN_SECURITY_LEVEL: u8 := 5

  function Ascii(s: string): seq<byte>
    requires forall i | 0 <= i < |s| :: s[i] < 128 as char
  {
    seq(|s|, i requires 0 <= i < |s| => s[i] as int)
  }

  const FALLBACK_MENU := Ascii("[ Default menu - type G to log off ]\r\n")

  const DEFAULT_DIR := "Conf02/"

  function ConfDir(conference: u32): string {
    "Conf" + Padded(conference, 2) + "/"
  }

  function MenuPath(dir: string, level: u8): string {
    dir + "Menu" + Decimal(level) + ".txt"
  }

  // ---- Resolving one lookup ----

  /** The menus of the levels `level`, `level - 5`, ... down to the lowest, a multiple of five each. */
  function LevelPaths(dir: string, level: u8): seq<string>
    requires level % 5 == 0
  {
    if level < MIN_SECURITY_LEVEL then [] else [MenuPath(dir, level)] + LevelPaths(dir, level - 5)
  }

  /** What reading the paths in order comes to: the first that can be read. */
  function FirstFile(files: Files, paths: seq<string>): Option<seq<byte>> {
    if paths == [] then None
    else if paths[0] in files then Some(Normalise(files[paths[0]]))
    else FirstFile(files, paths[1..])
  }

  function DefaultPaths(level: u8): seq<string> {
    LevelPaths(DEFAULT_DIR, (level / 5) * 5) + [DEFAULT_DIR + "Menu.txt"]
  }

  function ConferencePaths(conference: u32, level: u8): seq<string> {
    LevelPaths(ConfDir(conference), (level / 5) * 5)
      + [ConfDir(conference) + "menu.txt", ConfDir(conference) + "Menu.txt"]
  }

  function JoinMsgbasePaths(conference: u32): seq<string> {
    [ConfDir(conference) + "JoinMsgBase.txt", "Screens/JoinMsgBase.txt"]
  }

  function ResolvedMenu(files: Files, level: u8): seq<byte> {
    match FirstFile(files, DefaultPaths(level))
    case Some(bytes) => bytes
    case None => FALLBACK_MENU
  }

  method ResolveDefaultMenu(files: Files, accessLevel: u8) returns (bytes: seq<byte>)
    ensures bytes == ResolvedMenu(files, accessLevel)
    ensures
      var dir := "Conf02/";
      || (exists n: u8 | n % 5 == 0 && 5 <= n <= accessLevel && dir + "Menu" + Decimal(n) + ".txt" in files ::
            && bytes == Normalise(files[dir + "Menu" + Decimal(n) + ".txt"])
            && forall m: u8 | m % 5 == 0 && n < m <= accessLevel :: dir + "Menu" + Decimal(m) + ".txt" !in files)
      || (&& (forall m: u8 | m % 5 == 0 && 5 <= m <= accessLevel :: dir + "Menu" + Decimal(m) + ".txt" !in files)
          && bytes == if dir + "Menu.txt" in files then Normalise(files[dir + "Menu.txt"])
            else Ascii("[ Default menu - type G to log off ]\r\n"))
  {
    DefaultMenuIsHighest(files, accessLevel);
    hide Normalise, MenuPath;
    var plain := DEFAULT_DIR + "Menu.txt";
    var secLevel: u8 := (accessLevel / 5) * 5;
    while secLevel >= MIN_SECURITY_LEVEL
      invariant secLevel % 5 == 0
      invariant FirstFile(files, LevelPaths(DEFAULT_DIR, secLevel) + [plain])
        == FirstFile(files, DefaultPaths(accessLevel))
    {
      var path := MenuPath(DEFAULT_DIR, secLevel);
      LevelStep(files, DEFAULT_DIR, secLevel, [plain]);
      if path in files {
        bytes := NormaliseToCrlf(files[path]);
        return;
      }
      secLevel := secLevel - 5;
    }
    assert LevelPaths(DEFAULT_DIR, secLevel) + [plain] == [plain] + [];
    FirstFileStep(files, plain, []);
    if plain in files {
      bytes := NormaliseToCrlf(files[plain]);
      return;
    }
    bytes := FALLBACK_MENU;
  }

  method ResolveConferenceMenu(files: Files, conference: u32, accessLevel: u8) returns (found: Option<seq<byte>>)
    ensures found == FirstFile(files, ConferencePaths(conference, accessLevel))
    ensures
      var dir := "Conf" + Padded(conference, 2) + "/";
      || (exists n: u8 | n % 5 == 0 && 5 <= n <= accessLevel && dir + "Menu" + Decimal(n) + ".txt" in files ::
            && found == Some(Normalise(files[dir + "Menu" + Decimal(n) + ".txt"]))
            && forall m: u8 | m % 5 == 0 && n < m <= accessLevel :: dir + "Menu" + Decimal(m) + ".txt" !in files)
      || (&& (forall m: u8 | m % 5 == 0 && 5 <= m <= accessLevel :: dir + "Menu" + Decimal(m) + ".txt" !in files)
          && found == if dir + "menu.txt" in files then Some(Normalise(files[dir + "menu.txt"]))
            else if dir + "Menu.txt" in files then Some(Normalise(files[dir + "Menu.txt"]))
            else None)
  {
    hide Normalise, MenuPath, ConfDir;
    found := WalkConferenceMenu(files, conference, accessLevel);
    ConferenceMenuIsHighest(files, conference, accessLevel);
  }

  /** The walk down the levels, and the two plain names after it. */
  method WalkConferenceMenu(files: Files, conference: u32, accessLevel: u8) returns (found: Option<seq<byte>>)
    ensures found == FirstFile(files, ConferencePaths(conference, accessLevel))
  {
    hide Normalise, MenuPath, ConfDir;
    var dir := ConfDir(conference);
    var plain := [dir + "menu.txt", dir + "Menu.txt"];
    var secLevel: u8 := (accessLevel / 5) * 5;
    while secLevel >= MIN_SECURITY_LEVEL
      invariant secLevel % 5 == 0
      invariant FirstFile(files, LevelPaths(dir, secLevel) + plain)
        == FirstFile(files, ConferencePaths(conference, accessLevel))
    {
      var path := MenuPath(dir, secLevel);
      LevelStep(files, dir, secLevel, plain);
      if path in files {
        var bytes := NormaliseToCrlf(files[path]);
        return Some(bytes);
      }
      secLevel := secLevel - 5;
    }
    var i := 0;
    assert LevelPaths(dir, secLevel) + plain == plain[0..];
    while i < |plain|
      invariant 0 <= i <= |plain|
      invariant FirstFile(files, plain[i..]) == FirstFile(files, ConferencePaths(conference, accessLevel))
    {
      if plain[i] in files {
        var bytes := NormaliseToCrlf(files[plain[i]]);
        return Some(bytes);
      }
      i := i + 1;
    }
    found := None;
  }

  lemma FirstFileStep(files: Files, path: string, rest: seq<string>)
    ensures FirstFile(files, [path] + rest)
      == if path in files then Some(Normalise(files[path])) else FirstFile(files, rest)
  {
    assert ([path] + rest)[1..] == rest;
  }

  lemma LevelStep(files: Files, dir: string, level: u8, rest: seq<string>)
    requires level % 5 == 0 && level >= MIN_SECURITY_LEVEL
    ensures FirstFile(files, LevelPaths(dir, level) + rest)
         == if MenuPath(dir, level) in files then Some(Normalise(files[MenuPath(dir, level)]))
            else FirstFile(files, LevelPaths(dir, level - 5) + rest)
  {
    hide Normalise, MenuPath, FirstFile;
    FirstFileStep(files, MenuPath(dir, level), LevelPaths(dir, level - 5) + rest);
    assert LevelPaths(dir, level) + rest == [MenuPath(dir, level)] + (LevelPaths(dir, level - 5) + rest);
  }

  /** A level whose menu a caller of `level` may see. */
  predicate Eligible(files: Files, dir: string, level: u8, n: u8) {
    n % 5 == 0 && MIN_SECURITY_LEVEL <= n <= level && MenuPath(dir, n) in files
  }

  ghost predicate HighestEligible(files: Files, dir: string, level: u8, n: u8) {
    Eligible(files, dir, level, n) && forall m: u8 | Eligible(files, dir, level, m) :: m <= n
  }

  /** The walk finds the menu of the highest eligible level, and nothing if there is none. */
  lemma {:induction false} WalkFindsHighest(files: Files, dir: string, level: u8, rest: seq<string>)
    requires level % 5 == 0
    ensures
      var found := FirstFile(files, LevelPaths(dir, level) + rest);
      && (forall n: u8 | HighestEligible(files, dir, level, n) :: found == Some(Normalise(files[MenuPath(dir, n)])))
      && ((forall n: u8 :: !Eligible(files, dir, level, n)) ==> found == FirstFile(files, rest))
  {
    hide Normalise, MenuPath, FirstFile;
    if level < MIN_SECURITY_LEVEL {
      assert LevelPaths(dir, level) + rest == rest;
    } else {
      LevelStep(files, dir, level, rest);
      WalkFindsHighest(files, dir, level - 5, rest);
      var below: u8 := level - 5;
      assert forall n: u8 ::
        Eligible(files, dir, level, n) <==> Eligible(files, dir, below, n) || (n == level && MenuPath(dir, n) in files);
      assert MenuPath(dir, level) !in files ==>
        forall n: u8 | HighestEligible(files, dir, level, n) :: HighestEligible(files, dir, below, n);
    }
  }

  /** The menu a caller gets: the highest eligible level's, else the plain menu, else the built-in one. */
  lemma MenuIsHighestAllowed(files: Files, level: u8)
    ensures forall n: u8 | HighestEligible(files, DEFAULT_DIR, level, n) ::
      ResolvedMenu(files, level) == Normalise(files[MenuPath(DEFAULT_DIR, n)])
    ensures (forall n: u8 :: !Eligible(files, DEFAULT_DIR, level, n)) ==>
      var plain := DEFAULT_DIR + "Menu.txt";
      ResolvedMenu(files, level) == if plain in files then Normalise(files[plain]) else FALLBACK_MENU
  {
    hide Normalise, MenuPath;
    var top: u8 := (level / 5) * 5;
    var plain := DEFAULT_DIR + "Menu.txt";
    assert forall n: u8 :: Eligible(files, DEFAULT_DIR, level, n) <==> Eligible(files, DEFAULT_DIR, top, n);
    assert forall n: u8 ::
      HighestEligible(files, DEFAULT_DIR, level, n) <==> HighestEligible(files, DEFAULT_DIR, top, n);
    WalkFindsHighest(files, DEFAULT_DIR, top, [plain]);
    assert [plain] + [] == [plain];
    FirstFileStep(files, plain, []);
  }

  /**
    The menu of a walk in numbers: of the levels 5, 10, 15, ... up to the caller's, the highest that
    has one; and what comes after the walk if none has.
   */
  lemma WalkIsHighest(files: Files, dir: string, level: u8, rest: seq<string>)
    ensures
      var found := FirstFile(files, LevelPaths(dir, (level / 5) * 5) + rest);
      || (exists n: u8 | n % 5 == 0 && 5 <= n <= level && dir + "Menu" + Decimal(n) + ".txt" in files ::
            && found == Some(Normalise(files[dir + "Menu" + Decimal(n) + ".txt"]))
            && forall m: u8 | m % 5 == 0 && n < m <= level :: dir + "Menu" + Decimal(m) + ".txt" !in files)
      || (&& (forall m: u8 | m % 5 == 0 && 5 <= m <= level :: dir + "Menu" + Decimal(m) + ".txt" !in files)
          && found == FirstFile(files, rest))
  {
    var top: u8 := (level / 5) * 5;
    WalkFindsHighest(files, dir, top, rest);
    hide Normalise, FirstFile, LevelPaths, Decimal;
    var n := HighestExists(files, dir, level);
    if n > 0 {
      assert HighestEligible(files, dir, top, n) by { SameLevels(files, dir, level); }
      forall m: u8 | m % 5 == 0 && n < m <= level
        ensures dir + "Menu" + Decimal(m) + ".txt" !in files
      {
        assert !Eligible(files, dir, level, m);
      }
      assert dir + "Menu" + Decimal(n) + ".txt" == MenuPath(dir, n);
    } else {
      forall m: u8 | m % 5 == 0 && 5 <= m <= level
        ensures dir + "Menu" + Decimal(m) + ".txt" !in files
      {
        assert !Eligible(files, dir, level, m);
      }
      SameLevels(files, dir, level);
    }
  }

  lemma SameLevels(files: Files, dir: string, level: u8)
    ensures
      var top: u8 := (level / 5) * 5;
      && (forall n: u8 :: Eligible(files, dir, level, n) <==> Eligible(files, dir, top, n))
      && (forall n: u8 :: HighestEligible(files, dir, level, n) <==> HighestEligible(files, dir, top, n))
  {
    hide MenuPath;
    var top: u8 := (level / 5) * 5;
    assert forall n: u8 :: Eligible(files, dir, level, n) <==> Eligible(files, dir, top, n);
  }

  lemma {:induction false} HighestExists(files: Files, dir: string, level: u8) returns (n: u8)
    ensures n > 0 ==> HighestEligible(files, dir, level, n)
    ensures n == 0 ==> forall m: u8 :: !Eligible(files, dir, level, m)
    decreases level
  {
    hide MenuPath;
    if Eligible(files, dir, level, level) {
      n := level;
    } else if level == 0 {
      n := 0;
    } else {
      n := HighestExists(files, dir, level - 1);
      var below: u8 := level - 1;
      assert forall m: u8 :: Eligible(files, dir, level, m) <==> Eligible(files, dir, below, m);
    }
  }

  lemma TwoFiles(files: Files, path: string, other: string)
    ensures FirstFile(files, [path]) == if path in files then Some(Normalise(files[path])) else None
    ensures FirstFile(files, [path, other])
      == if path in files then Some(Normalise(files[path])) else FirstFile(files, [other])
  {
    hide Normalise;
    FirstFileStep(files, path, [other]);
    assert [path] + [other] == [path, other] && [path][1..] == [];
  }

  /** A conference's own menu for each caller's level, whatever files there are. */
  lemma ConferenceMenuIsHighest(files: Files, conference: u32, level: u8)
    ensures
      var found := FirstFile(files, ConferencePaths(conference, level));
      var dir := "Conf" + Padded(conference, 2) + "/";
      || (exists n: u8 | n % 5 == 0 && 5 <= n <= level && dir + "Menu" + Decimal(n) + ".txt" in files ::
            && found == Some(Normalise(files[dir + "Menu" + Decimal(n) + ".txt"]))
            && forall m: u8 | m % 5 == 0 && n < m <= level :: dir + "Menu" + Decimal(m) + ".txt" !in files)
      || (&& (forall m: u8 | m % 5 == 0 && 5 <= m <= level :: dir + "Menu" + Decimal(m) + ".txt" !in files)
          && found == if dir + "menu.txt" in files then Some(Normalise(files[dir + "menu.txt"]))
            else if dir + "Menu.txt" in files then Some(Normalise(files[dir + "Menu.txt"]))
            else None)
  {
    hide Normalise, FirstFile, LevelPaths, Decimal, Padded;
    var dir := ConfDir(conference);
    assert dir == "Conf" + Padded(conference, 2) + "/";
    WalkIsHighest(files, dir, level, [dir + "menu.txt", dir + "Menu.txt"]);
    TwoFiles(files, dir + "menu.txt", dir + "Menu.txt");
    TwoFiles(files, dir + "Menu.txt", "");
  }

  /** The default menu for each caller's level, whatever files there are. */
  lemma DefaultMenuIsHighest(files: Files, level: u8)
    ensures
      var bytes := ResolvedMenu(files, level);
      var dir := "Conf02/";
      || (exists n: u8 | n % 5 == 0 && 5 <= n <= level && dir + "Menu" + Decimal(n) + ".txt" in files ::
            && bytes == Normalise(files[dir + "Menu" + Decimal(n) + ".txt"])
            && forall m: u8 | m % 5 == 0 && n < m <= level :: dir + "Menu" + Decimal(m) + ".txt" !in files)
      || (&& (forall m: u8 | m % 5 == 0 && 5 <= m <= level :: dir + "Menu" + Decimal(m) + ".txt" !in files)
          && bytes == if dir + "Menu.txt" in files then Normalise(files[dir + "Menu.txt"])
            else Ascii("[ Default menu - type G to log off ]\r\n"))
  {
    hide Normalise, FirstFile, LevelPaths, Decimal;
    WalkIsHighest(files, "Conf02/", level, ["Conf02/" + "Menu.txt"]);
    TwoFiles(files, "Conf02/" + "Menu.txt", "");
  }

  // ---- Help topics ----

  predicate IsTopicChar(c: char) {
    'a' <= c <= 'z' || 'A' <= c <= 'Z' || '0' <= c <= '9' || c == '_' || c == '-'
  }

  predicate IsSafeTopicHelpName(topic: string) {
    topic != "" && forall i | 0 <= i < |topic| :: IsTopicChar(topic[i])
  }

  function HelpPath(topic: string): string {
    "help/" + topic + ".txt"
  }

  /** The screen of the longest prefix that has one; nothing for a name that is not safe. */
  method TopicHelpBytes(files: Files, topic: string) returns (bytes: seq<byte>)
    ensures !IsSafeTopicHelpName(topic) ==> bytes == []
    ensures IsSafeTopicHelpName(topic) ==>
      || (exists n | 1 <= n <= |topic| && HelpPath(topic[..n]) in files ::
            && bytes == Normalise(files[HelpPath(topic[..n])])
            && forall m | n < m <= |topic| :: HelpPath(topic[..m]) !in files)
      || (bytes == [] && forall m | 1 <= m <= |topic| :: HelpPath(topic[..m]) !in files)
    ensures
      if topic == "" || exists i | 0 <= i < |topic| ::
        var c := topic[i];
        !('a' <= c <= 'z' || 'A' <= c <= 'Z' || '0' <= c <= '9' || c == '_' || c == '-') then bytes == []
      else
        || (exists n | 1 <= n <= |topic| && "help/" + topic[..n] + ".txt" in files ::
              && bytes == Normalise(files["help/" + topic[..n] + ".txt"])
              && forall m | n < m <= |topic| :: "help/" + topic[..m] + ".txt" !in files)
        || (bytes == [] && forall m | 1 <= m <= |topic| :: "help/" + topic[..m] + ".txt" !in files)
  {
    if !IsSafeTopicHelpName(topic) {
      return [];
    }
    var len := |topic|;
    while len >= 1
      invariant 0 <= len <= |topic|
      invariant forall m | len < m <= |topic| :: HelpPath(topic[..m]) !in files
    {
      if HelpPath(topic[..len]) in files {
        bytes := NormaliseToCrlf(files[HelpPath(topic[..len])]);
        return;
      }
      len := len - 1;
    }
    bytes := [];
  }

  // ---- Racing callers ----

  /** One cached screen; a screen with a fixed path is its own cache. */
  datatype Key =
    | Screen(path: string, builtIn: seq<byte>)
    | JoinMsgbase(conference: u32)
    | DefaultMenu(level: u8)
    | ConferenceMenu(conference: u32, level: u8)

  function Paths(k: Key): seq<string> {
    match k
    case Screen(path, _) => [path]
    case JoinMsgbase(conference) => JoinMsgbasePaths(conference)
    case DefaultMenu(level) => DefaultPaths(level)
    case ConferenceMenu(conference, level) => ConferencePaths(conference, level)
  }

  /**
    Where a call stands. Between steps other calls run and files change. A conference menu that finds
    no file calls the default menu, keeping its own key as `outer`.
   */
  datatype Call =
    | Looking(key: Key, outer: Option<Key>)
    | Reading(key: Key, outer: Option<Key>, rest: seq<string>)
    | Filling(key: Key, outer: Option<Key>, loaded: seq<byte>)
    | Returned(key: Key, bytes: seq<byte>)

  type Cache = map<Key, seq<byte>>

  function Finish(key: Key, outer: Option<Key>, bytes: seq<byte>): Call {
    match outer
    case None => Returned(key, bytes)
    case Some(k) => Filling(k, None, bytes)
  }

  /** What follows when no path of a screen could be read. */
  function NotFound(k: Key, outer: Option<Key>): Call {
    match k
    case ConferenceMenu(_, level) => Looking(DefaultMenu(level), Some(k))
    case DefaultMenu(_) => Filling(k, outer, FALLBACK_MENU)
    case JoinMsgbase(_) => Filling(k, outer, [])
    case Screen(_, builtIn) => Filling(k, outer, builtIn)
  }

  /** One step of a call, and the cache after it. Only filling takes the lock and writes. */
  function Advance(files: Files, cache: Cache, c: Call): (Cache, Call)
    requires !c.Returned?
  {
    match c
    case Looking(k, outer) =>
      (cache, if k in cache then Finish(k, outer, cache[k]) else Reading(k, outer, Paths(k)))
    case Reading(k, outer, rest) =>
      (cache,
       if rest == [] then NotFound(k, outer)
       else if rest[0] in files then Filling(k, outer, Normalise(files[rest[0]]))
       else Reading(k, outer, rest[1..]))
    case Filling(k, outer, loaded) =>
      if k in cache then (cache, Finish(k, outer, cache[k])) else (cache[k := loaded], Finish(k, outer, loaded))
  }

  datatype World = World(files: Files, cache: Cache, calls: seq<Call>)

  ghost predicate Step(w: World, w': World) {
    || (w'.cache == w.cache && w'.calls == w.calls)  // files are rewritten
    || (exists k :: w' == w.(calls := w.calls + [Looking(k, None)]))
    || (exists i: nat :: CallStep(w, i, w'))
  }

  ghost predicate CallStep(w: World, i: nat, w': World) {
    && i < |w.calls| && !w.calls[i].Returned?
    && var (cache, call) := Advance(w.files, w.cache, w.calls[i]);
       w' == w.(cache := cache, calls := w.calls[i := call])
  }

  ghost predicate StepAt(worlds: seq<World>, k: nat)
    requires 0 < k < |worlds|
  {
    Step(worlds[k - 1], worlds[k])
  }

  ghost predicate Run(worlds: seq<World>) {
    && worlds != [] && worlds[0].cache == map[] && worlds[0].calls == []
    && forall k | 0 < k < |worlds| :: StepAt(worlds, k)
  }

  /** A nested call is a default menu's, on behalf of a conference menu of the same level. */
  predicate NestedRight(key: Key, outer: Option<Key>) {
    outer.Some? ==> outer.value.ConferenceMenu? && key == DefaultMenu(outer.value.level)
  }

  ghost predicate CallOk(cache: Cache, c: Call) {
    match c
    case Looking(k, outer) => NestedRight(k, outer)
    case Reading(k, outer, _) => NestedRight(k, outer)
    case Filling(k, outer, _) => NestedRight(k, outer)
    case Returned(k, bytes) => k in cache && cache[k] == bytes
  }

  ghost predicate Inv(w: World) {
    forall i | 0 <= i < |w.calls| :: CallOk(w.cache, w.calls[i])
  }

  lemma StepKeepsInv(w: World, w': World)
    requires Inv(w) && Step(w, w')
    ensures Inv(w')
    ensures forall k | k in w.cache :: k in w'.cache && w'.cache[k] == w.cache[k]
  {
  }

  /** What is cached stays cached, unchanged, whatever happens to the files. */
  lemma {:induction false} CacheIsForever(worlds: seq<World>, i: nat, j: nat)
    requires Run(worlds) && i <= j < |worlds|
    ensures Inv(worlds[i]) && Inv(worlds[j])
    ensures forall k | k in worlds[i].cache :: k in worlds[j].cache && worlds[j].cache[k] == worlds[i].cache[k]
    decreases j
  {
    if j > 0 {
      hide Step, Inv;
      assert StepAt(worlds, j);
      if i < j {
        CacheIsForever(worlds, i, j - 1);
      } else {
        CacheIsForever(worlds, i - 1, j - 1);
      }
      StepKeepsInv(worlds[j - 1], worlds[j]);
    }
  }

  /** All calls for one screen return the same bytes over the whole run. */
  lemma CallersAgree(worlds: seq<World>, i: nat, j: nat, a: nat, b: nat)
    requires Run(worlds) && i < |worlds| && j < |worlds| && a < |worlds[i].calls| && b < |worlds[j].calls|
    requires worlds[i].calls[a].Returned? && worlds[j].calls[b].Returned?
      && worlds[i].calls[a].key == worlds[j].calls[b].key
    ensures worlds[i].calls[a].bytes == worlds[j].calls[b].bytes
  {
    var first, last := if i <= j then i else j, if i <= j then j else i;
    CacheIsForever(worlds, first, last);
    assert CallOk(worlds[i].cache, worlds[i].calls[a]) && CallOk(worlds[j].cache, worlds[j].calls[b]);
  }

  // ---- Where cached screens come from ----

  /** Call `i` starts to look for the files of `k` in world `a`, having found nothing cached. */
  ghost predicate Begins(worlds: seq<World>, a: nat, i: nat, k: Key) {
    && 0 < a < |worlds| && i < |worlds[a - 1].calls| && i < |worlds[a].calls|
    && worlds[a - 1].calls[i].Looking? && worlds[a - 1].calls[i].key == k && k !in worlds[a - 1].cache
    && worlds[a].calls[i] == Reading(k, worlds[a - 1].calls[i].outer, Paths(k))
  }

  /** `path` could not be read at some time from `a` until before `j`. */
  ghost predicate Missed(worlds: seq<World>, a: nat, j: nat, path: string)
    requires j <= |worlds|
  {
    exists t :: a <= t < j && path !in worlds[t].files
  }

  /** The first `n` paths of `k` were missed, each at its own time. */
  ghost predicate Tried(worlds: seq<World>, a: nat, j: nat, k: Key, n: nat)
    requires j <= |worlds|
  {
    n <= |Paths(k)| && forall m | 0 <= m < n :: Missed(worlds, a, j, Paths(k)[m])
  }

  /** At time `t` path `n` held `bytes`, and all better ones had been missed since `a`. */
  ghost predicate ReadAt(worlds: seq<World>, a: nat, k: Key, n: nat, t: nat, bytes: seq<byte>)
    requires t < |worlds|
  {
    && a <= t && n < |Paths(k)| && Tried(worlds, a, t, k, n)
    && Paths(k)[n] in worlds[t].files && bytes == Normalise(worlds[t].files[Paths(k)[n]])
  }

  /** What stands in for a screen without files; for a conference menu, the cached default menu. */
  function StandIn(k: Key, cache: Cache): Option<seq<byte>> {
    match k
    case ConferenceMenu(_, level) => if DefaultMenu(level) in cache then Some(cache[DefaultMenu(level)]) else None
    case DefaultMenu(_) => Some(FALLBACK_MENU)
    case JoinMsgbase(_) => Some([])
    case Screen(_, builtIn) => Some(builtIn)
  }

  /** A lookup of `k` from `a` until before `j` comes to `bytes`, the files changing as they may. */
  ghost predicate LookedUp(worlds: seq<World>, a: nat, j: nat, k: Key, bytes: seq<byte>)
    requires j < |worlds|
  {
    || (exists n, t: nat :: t < j && ReadAt(worlds, a, k, n, t, bytes))
    || (Tried(worlds, a, j, k, |Paths(k)|) && StandIn(k, worlds[j].cache) == Some(bytes))
  }

  /** A call in the middle of looking up `k`, itself or through the default menu. */
  predicate Concerned(c: Call, k: Key) {
    || ((c.Reading? || c.Filling?) && c.key == k)
    || (!c.Returned? && c.outer == Some(k))
  }

  /** How far a call concerned with `k` since `a` has come by `j`. */
  ghost predicate Progress(worlds: seq<World>, a: nat, j: nat, k: Key, c: Call)
    requires j < |worlds|
  {
    match c
    case Looking(_, _) => Tried(worlds, a, j, k, |Paths(k)|)
    case Reading(key, _, rest) =>
      if key == k then
        && |rest| <= |Paths(k)| && rest == Paths(k)[|Paths(k)| - |rest|..]
        && Tried(worlds, a, j, k, |Paths(k)| - |rest|)
      else Tried(worlds, a, j, k, |Paths(k)|)
    case Filling(key, _, loaded) =>
      if key == k then LookedUp(worlds, a, j, k, loaded) else Tried(worlds, a, j, k, |Paths(k)|)
    case Returned(_, _) => false
  }

  lemma TriedLasts(worlds: seq<World>, a: nat, j: nat, k: Key, n: nat)
    requires j < |worlds| && Tried(worlds, a, j, k, n)
    ensures Tried(worlds, a, j + 1, k, n)
  {
    hide Paths;
    forall m | 0 <= m < n
      ensures Missed(worlds, a, j + 1, Paths(k)[m])
    {
      assert Missed(worlds, a, j, Paths(k)[m]);
    }
  }

  lemma LookedUpLasts(worlds: seq<World>, a: nat, j: nat, k: Key, bytes: seq<byte>)
    requires j + 1 < |worlds| && LookedUp(worlds, a, j, k, bytes)
    requires forall d | d in worlds[j].cache :: d in worlds[j + 1].cache && worlds[j + 1].cache[d] == worlds[j].cache[d]
    ensures LookedUp(worlds, a, j + 1, k, bytes)
  {
    hide Paths, ReadAt, Tried;
    if n, t: nat :| t < j && ReadAt(worlds, a, k, n, t, bytes) {
    } else {
      TriedLasts(worlds, a, j, k, |Paths(k)|);
    }
  }

  /** A step of the call itself. */
  lemma OwnStep(worlds: seq<World>, a: nat, j: nat, k: Key, c: Call, c': Call)
    requires a <= j && j + 1 < |worlds| && !c.Returned? && CallOk(worlds[j].cache, c)
    requires Advance(worlds[j].files, worlds[j].cache, c) == (worlds[j + 1].cache, c')
    requires Concerned(c, k) && Concerned(c', k) && Progress(worlds, a, j, k, c)
    ensures Progress(worlds, a, j + 1, k, c')
  {
    hide Paths, Normalise, Tried, LookedUp, FALLBACK_MENU;
    match c
    case Reading(key, _, rest) =>
      if key == k {
        ReadingStep(worlds, a, j, k, rest);
      } else {
        TriedLasts(worlds, a, j, k, |Paths(k)|);
      }
      if c'.Filling? && c'.key == k { LookedUpFrom(worlds, a, j, k, rest, c'.loaded); }
    case Looking(_, _) =>
      TriedLasts(worlds, a, j, k, |Paths(k)|);
      if c'.Filling? && c'.key == k { StandsIn(worlds, a, j, k, c'.loaded); }
    case Filling(key, _, _) =>
      if key != k {
        TriedLasts(worlds, a, j, k, |Paths(k)|);
        if c'.Filling? && c'.key == k { StandsIn(worlds, a, j, k, c'.loaded); }
      }
  }

  lemma StandsIn(worlds: seq<World>, a: nat, j: nat, k: Key, bytes: seq<byte>)
    requires j + 1 < |worlds| && Tried(worlds, a, j, k, |Paths(k)|)
    requires StandIn(k, worlds[j + 1].cache) == Some(bytes)
    ensures LookedUp(worlds, a, j + 1, k, bytes)
  {
    hide Paths, Tried;
    TriedLasts(worlds, a, j, k, |Paths(k)|);
  }

  lemma TailStep(ps: seq<string>, rest: seq<string>)
    requires |rest| <= |ps| && rest == ps[|ps| - |rest|..] && rest != []
    ensures rest[0] == ps[|ps| - |rest|] && rest[1..] == ps[|ps| - |rest[1..]|..]
  {
  }

  /** One more path is missed, if the next one is. */
  lemma ReadingStep(worlds: seq<World>, a: nat, j: nat, k: Key, rest: seq<string>)
    requires a <= j < |worlds| && |rest| <= |Paths(k)| && rest == Paths(k)[|Paths(k)| - |rest|..]
    requires Tried(worlds, a, j, k, |Paths(k)| - |rest|)
    ensures Tried(worlds, a, j + 1, k, |Paths(k)| - |rest|)
    ensures rest != [] ==> rest[1..] == Paths(k)[|Paths(k)| - |rest[1..]|..]
    ensures rest != [] && rest[0] !in worlds[j].files ==> Tried(worlds, a, j + 1, k, |Paths(k)| - |rest[1..]|)
  {
    hide Paths, Tried;
    TriedLasts(worlds, a, j, k, |Paths(k)| - |rest|);
    if rest != [] {
      TailStep(Paths(k), rest);
      if rest[0] !in worlds[j].files {
        MissedNow(worlds, a, j, rest[0]);
        TriedOneMore(worlds, a, j + 1, k, |Paths(k)| - |rest|);
      }
    }
  }

  lemma TriedOneMore(worlds: seq<World>, a: nat, j: nat, k: Key, n: nat)
    requires j <= |worlds| && n < |Paths(k)| && Tried(worlds, a, j, k, n) && Missed(worlds, a, j, Paths(k)[n])
    ensures Tried(worlds, a, j, k, n + 1)
  {
    hide Paths, Missed;
  }

  lemma MissedNow(worlds: seq<World>, a: nat, j: nat, path: string)
    requires a <= j < |worlds| && path !in worlds[j].files
    ensures Missed(worlds, a, j + 1, path)
  {
  }

  lemma LookedUpFrom(worlds: seq<World>, a: nat, j: nat, k: Key, rest: seq<string>, bytes: seq<byte>)
    requires a <= j && j + 1 < |worlds| && |rest| <= |Paths(k)| && rest == Paths(k)[|Paths(k)| - |rest|..]
    requires Tried(worlds, a, j, k, |Paths(k)| - |rest|)
    requires if rest == [] then StandIn(k, worlds[j + 1].cache) == Some(bytes)
             else rest[0] in worlds[j].files && bytes == Normalise(worlds[j].files[rest[0]])
    ensures LookedUp(worlds, a, j + 1, k, bytes)
  {
    hide Paths, Normalise, Tried;
    if rest == [] {
      TriedLasts(worlds, a, j, k, |Paths(k)|);
    } else {
      assert ReadAt(worlds, a, k, |Paths(k)| - |rest|, j, bytes);
    }
  }

  /** Whatever step the world takes, a call goes on from where it had come. */
  lemma ProgressLasts(worlds: seq<World>, a: nat, j: nat, i: nat, k: Key)
    requires Run(worlds) && a <= j && j + 1 < |worlds| && i < |worlds[j].calls|
    requires Concerned(worlds[j].calls[i], k) && Progress(worlds, a, j, k, worlds[j].calls[i])
    ensures i < |worlds[j + 1].calls|
    ensures Concerned(worlds[j + 1].calls[i], k) ==> Progress(worlds, a, j + 1, k, worlds[j + 1].calls[i])
  {
    hide Paths, Tried, LookedUp, Progress, Advance;
    assert StepAt(worlds, j + 1);
    CacheIsForever(worlds, j, j + 1);
    var c := worlds[j].calls[i];
    if CallStep(worlds[j], i, worlds[j + 1]) {
      if Concerned(worlds[j + 1].calls[i], k) {
        assert CallOk(worlds[j].cache, c);
        OwnStep(worlds, a, j, k, c, worlds[j + 1].calls[i]);
      }
    } else {
      assert worlds[j + 1].calls[i] == c;
      IdleStep(worlds, a, j, k, c);
    }
  }

  lemma IdleStep(worlds: seq<World>, a: nat, j: nat, k: Key, c: Call)
    requires j + 1 < |worlds| && Progress(worlds, a, j, k, c)
    requires forall d | d in worlds[j].cache :: d in worlds[j + 1].cache && worlds[j + 1].cache[d] == worlds[j].cache[d]
    ensures Progress(worlds, a, j + 1, k, c)
  {
    hide Paths, Tried, LookedUp;
    if c.Filling? && c.key == k {
      LookedUpLasts(worlds, a, j, k, c.loaded);
    } else if c.Reading? && c.key == k {
      TriedLasts(worlds, a, j, k, |Paths(k)| - |c.rest|);
    } else {
      TriedLasts(worlds, a, j, k, |Paths(k)|);
    }
  }

  /** A call concerned with a screen once began to look for it, and has been at it since. */
  lemma {:induction false} LookupBegan(worlds: seq<World>, b: nat, i: nat, k: Key) returns (a: nat)
    requires Run(worlds) && b < |worlds| && i < |worlds[b].calls| && Concerned(worlds[b].calls[i], k)
    ensures a <= b && Begins(worlds, a, i, k) && Progress(worlds, a, b, k, worlds[b].calls[i])
    decreases b
  {
    hide Paths, Progress, Advance;
    assert b > 0 && StepAt(worlds, b);
    CacheIsForever(worlds, b - 1, b);
    if i < |worlds[b - 1].calls| && Concerned(worlds[b - 1].calls[i], k) {
      a := LookupBegan(worlds, b - 1, i, k);
      ProgressLasts(worlds, a, b - 1, i, k);
    } else {
      a := b;
      assert i < |worlds[b - 1].calls| && CallOk(worlds[b - 1].cache, worlds[b - 1].calls[i]);
      assert CallStep(worlds[b - 1], i, worlds[b]);
      FreshlyConcerned(worlds[b - 1].files, worlds[b - 1].cache, worlds[b - 1].calls[i], k);
      NothingTried(worlds, a, k, worlds[b].calls[i]);
    }
  }

  lemma FreshlyConcerned(files: Files, cache: Cache, c: Call, k: Key)
    requires !c.Returned? && CallOk(cache, c) && !Concerned(c, k) && Concerned(Advance(files, cache, c).1, k)
    ensures c.Looking? && c.key == k && k !in cache && Advance(files, cache, c).1 == Reading(k, c.outer, Paths(k))
  {
    hide Paths, Normalise, FALLBACK_MENU;
  }

  lemma NothingTried(worlds: seq<World>, a: nat, k: Key, c: Call)
    requires a < |worlds| && c.Reading? && c.key == k && c.rest == Paths(k)
    ensures Progress(worlds, a, a, k, c)
  {
    hide Paths;
  }

  /**
    What is cached first for a screen was looked up: it held the first of the screen's files that
    could be read when its turn came, or what stands in for them if none could.
   */
  lemma FirstCachedWasLookedUp(worlds: seq<World>, b: nat, k: Key) returns (a: nat, i: nat)
    requires Run(worlds) && b + 1 < |worlds| && k !in worlds[b].cache && k in worlds[b + 1].cache
    ensures a <= b && Begins(worlds, a, i, k) && LookedUp(worlds, a, b, k, worlds[b + 1].cache[k])
  {
    hide Paths, LookedUp;
    assert StepAt(worlds, b + 1);
    i :| CallStep(worlds[b], i, worlds[b + 1]);
    a := LookupBegan(worlds, b, i, k);
  }

  lemma {:induction false} CachedOnce(worlds: seq<World>, j: nat, k: Key) returns (b: nat)
    requires Run(worlds) && j < |worlds| && k in worlds[j].cache
    ensures b < j && k !in worlds[b].cache && k in worlds[b + 1].cache && worlds[b + 1].cache[k] == worlds[j].cache[k]
    decreases j
  {
    assert j > 0;
    if k in worlds[j - 1].cache {
      b := CachedOnce(worlds, j - 1, k);
      CacheIsForever(worlds, j - 1, j);
    } else {
      b := j - 1;
    }
  }

  /** Every caller is given what one lookup, by it or by another, came to before. */
  lemma AnswersWereLookedUp(worlds: seq<World>, j: nat, c: nat) returns (a: nat, b: nat, i: nat)
    requires Run(worlds) && j < |worlds| && c < |worlds[j].calls| && worlds[j].calls[c].Returned?
    ensures a <= b < j && Begins(worlds, a, i, worlds[j].calls[c].key)
    ensures LookedUp(worlds, a, b, worlds[j].calls[c].key, worlds[j].calls[c].bytes)
  {
    hide Paths, LookedUp, Begins;
    CacheIsForever(worlds, j, j);
    var k := worlds[j].calls[c].key;
    assert CallOk(worlds[j].cache, worlds[j].calls[c]);
    b := CachedOnce(worlds, j, k);
    a, i := FirstCachedWasLookedUp(worlds, b, k);
  }

  // ---- While the files stay as they are ----

  /** A screen's bytes by the files alone, but for a conference menu that falls back on the cached default. */
  function Settled(files: Files, cache: Cache, k: Key): Option<seq<byte>> {
    var found := FirstFile(files, Paths(k));
    if found.Some? then found else StandIn(k, cache)
  }

  lemma {:induction false} FirstOf(files: Files, paths: seq<string>, n: nat)
    requires n <= |paths| && forall m | 0 <= m < n :: paths[m] !in files
    ensures n == |paths| ==> FirstFile(files, paths) == None
    ensures n < |paths| && paths[n] in files ==> FirstFile(files, paths) == Some(Normalise(files[paths[n]]))
    decreases |paths|
  {
    hide Normalise;
    if n > 0 { FirstOf(files, paths[1..], n - 1); }
  }

  ghost predicate Unchanged(worlds: seq<World>, a: nat, b: nat)
    requires b < |worlds|
  {
    forall t | a <= t <= b :: worlds[t].files == worlds[b].files
  }

  /**
    If no file changes while a screen is looked for, whatever else other callers do, what is found
    is the first file of its paths, or what stands in for it.
   */
  lemma UndisturbedLoad(worlds: seq<World>, a: nat, b: nat, k: Key, bytes: seq<byte>)
    requires b < |worlds| && LookedUp(worlds, a, b, k, bytes) && Unchanged(worlds, a, b)
    ensures Settled(worlds[b].files, worlds[b].cache, k) == Some(bytes)
  {
    hide Paths, Normalise, FirstFile, StandIn;
    var files := worlds[b].files;
    if n, t: nat :| t < b && ReadAt(worlds, a, k, n, t, bytes) {
      AllMissed(worlds, a, t, b, k, n);
      assert worlds[t].files == files;
      FirstOf(files, Paths(k), n);
    } else {
      AllMissed(worlds, a, b, b, k, |Paths(k)|);
      FirstOf(files, Paths(k), |Paths(k)|);
    }
  }

  lemma AllMissed(worlds: seq<World>, a: nat, j: nat, b: nat, k: Key, n: nat)
    requires j <= b < |worlds| && Tried(worlds, a, j, k, n) && Unchanged(worlds, a, b)
    ensures forall m | 0 <= m < n :: Paths(k)[m] !in worlds[b].files
  {
    hide Paths;
    forall m | 0 <= m < n
      ensures Paths(k)[m] !in worlds[b].files
    {
      assert Missed(worlds, a, j, Paths(k)[m]);
    }
  }

  /** Which files a screen has, and what stands in for them. */
  lemma SettledScreens(files: Files, cache: Cache, path: string, builtIn: seq<byte>, conference: u32, level: u8)
    ensures Settled(files, cache, Screen(path, builtIn))
         == Some(if path in files then Normalise(files[path]) else builtIn)
    ensures
      var own, shared := "Conf" + Padded(conference, 2) + "/" + "JoinMsgBase.txt", "Screens/JoinMsgBase.txt";
      Settled(files, cache, JoinMsgbase(conference))
      == Some(if own in files then Normalise(files[own])
              else if shared in files then Normalise(files[shared])
              else [])
    ensures Settled(files, cache, DefaultMenu(level)) == Some(ResolvedMenu(files, level))
    ensures Settled(files, cache, ConferenceMenu(conference, level))
         == match FirstFile(files, ConferencePaths(conference, level))
            case Some(bytes) => Some(bytes)
            case None => if DefaultMenu(level) in cache then Some(cache[DefaultMenu(level)]) else None
  {
    hide Normalise, DefaultPaths, ConferencePaths, Padded, FirstFile, FALLBACK_MENU;
    TwoFiles(files, path, "");
    TwoFiles(files, "Conf" + Padded(conference, 2) + "/" + "JoinMsgBase.txt", "Screens/JoinMsgBase.txt");
    TwoFiles(files, "Screens/JoinMsgBase.txt", "");
  }

  /** The default menu first cached is the highest allowed one, as long as the files stood still. */
  lemma MenuCachedIsResolved(worlds: seq<World>, b: nat, level: u8) returns (a: nat, i: nat)
    requires Run(worlds) && b + 1 < |worlds|
    requires DefaultMenu(level) !in worlds[b].cache && DefaultMenu(level) in worlds[b + 1].cache
    ensures a <= b && Begins(worlds, a, i, DefaultMenu(level))
    ensures Unchanged(worlds, a, b) ==> worlds[b + 1].cache[DefaultMenu(level)] == ResolvedMenu(worlds[b].files, level)
  {
    hide LookedUp, Begins, Unchanged, DefaultPaths, FirstFile;
    a, i := FirstCachedWasLookedUp(worlds, b, DefaultMenu(level));
    if Unchanged(worlds, a, b) {
      UndisturbedLoad(worlds, a, b, DefaultMenu(level), worlds[b + 1].cache[DefaultMenu(level)]);
    }
  }

  lemma OwnMenuOrDefault(files: Files, cache: Cache, conference: u32, level: u8, bytes: seq<byte>)
    requires Settled(files, cache, ConferenceMenu(conference, level)) == Some(bytes)
    ensures
      var dir := "Conf" + Padded(conference, 2) + "/";
      || (exists n: u8 | n % 5 == 0 && 5 <= n <= level && dir + "Menu" + Decimal(n) + ".txt" in files ::
            && bytes == Normalise(files[dir + "Menu" + Decimal(n) + ".txt"])
            && forall m: u8 | m % 5 == 0 && n < m <= level :: dir + "Menu" + Decimal(m) + ".txt" !in files)
      || (&& (forall m: u8 | m % 5 == 0 && 5 <= m <= level :: dir + "Menu" + Decimal(m) + ".txt" !in files)
          && if dir + "menu.txt" in files then bytes == Normalise(files[dir + "menu.txt"])
             else if dir + "Menu.txt" in files then bytes == Normalise(files[dir + "Menu.txt"])
             else DefaultMenu(level) in cache && bytes == cache[DefaultMenu(level)])
  {
    hide Normalise, FirstFile, ConferencePaths, Padded, Decimal;
    ConferenceMenuIsHighest(files, conference, level);
  }

  /** A conference's menu first cached is its own, or the very bytes of the default menu all others get. */
  lemma ConferenceMenuCached(worlds: seq<World>, b: nat, conference: u32, level: u8) returns (a: nat, i: nat)
    requires Run(worlds) && b + 1 < |worlds|
    requires var k := ConferenceMenu(conference, level); k !in worlds[b].cache && k in worlds[b + 1].cache
    ensures var k := ConferenceMenu(conference, level);
      && a <= b && Begins(worlds, a, i, k)
      && (Unchanged(worlds, a, b) ==>
            match FirstFile(worlds[b].files, ConferencePaths(conference, level))
            case Some(bytes) => worlds[b + 1].cache[k] == bytes
            case None =>
              DefaultMenu(level) in worlds[b].cache && worlds[b + 1].cache[k] == worlds[b].cache[DefaultMenu(level)])
    ensures Unchanged(worlds, a, b) ==>
      var files, bytes := worlds[b].files, worlds[b + 1].cache[ConferenceMenu(conference, level)];
      var dir := "Conf" + Padded(conference, 2) + "/";
      || (exists n: u8 | n % 5 == 0 && 5 <= n <= level && dir + "Menu" + Decimal(n) + ".txt" in files ::
            && bytes == Normalise(files[dir + "Menu" + Decimal(n) + ".txt"])
            && forall m: u8 | m % 5 == 0 && n < m <= level :: dir + "Menu" + Decimal(m) + ".txt" !in files)
      || (&& (forall m: u8 | m % 5 == 0 && 5 <= m <= level :: dir + "Menu" + Decimal(m) + ".txt" !in files)
          && if dir + "menu.txt" in files then bytes == Normalise(files[dir + "menu.txt"])
             else if dir + "Menu.txt" in files then bytes == Normalise(files[dir + "Menu.txt"])
             else DefaultMenu(level) in worlds[b].cache && bytes == worlds[b].cache[DefaultMenu(level)])
  {
    hide LookedUp, Begins, Unchanged, ConferencePaths, FirstFile;
    var k := ConferenceMenu(conference, level);
    a, i := FirstCachedWasLookedUp(worlds, b, k);
    if Unchanged(worlds, a, b) {
      UndisturbedLoad(worlds, a, b, k, worlds[b + 1].cache[k]);
      OwnMenuOrDefault(worlds[b].files, worlds[b].cache, conference, level, worlds[b + 1].cache[k]);
    }
  }

  /** How many more steps a call can take at most. */
  function StepsLeft(c: Call): nat {
    match c
    case Looking(k, _) => |Paths(k)| + 4 + (if k.ConferenceMenu? then |DefaultPaths(k.level)| + 4 else 0)
    case Reading(k, _, rest) => |rest| + 3 + (if k.ConferenceMenu? then |DefaultPaths(k.level)| + 4 else 0)
    case Filling(_, outer, _) => if outer.Some? then 2 else 1
    case Returned(_, _) => 0
  }

  /** Every step brings a call nearer to its return, however the others race and the files change. */
  lemma EveryCallReturns(worlds: seq<World>, k: nat, i: nat, files: Files)
    requires Run(worlds) && k < |worlds| && i < |worlds[k].calls| && !worlds[k].calls[i].Returned?
    ensures StepsLeft(Advance(files, worlds[k].cache, worlds[k].calls[i]).1) < StepsLeft(worlds[k].calls[i])
  {
    CacheIsForever(worlds, k, k);
    assert CallOk(worlds[k].cache, worlds[k].calls[i]);
    hide DefaultPaths, ConferencePaths, Normalise, Run;
  }
}
