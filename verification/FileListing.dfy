/** The in-memory file catalogue: every listing is a filter followed by a stable sort. */
module FileListing {
  import opened Basics

  datatype FileStatus = Available | Lcfiles | HeldForReview
  datatype File = File(name: string, status: FileStatus, description: string, uploadedAt: int)
  datatype FileArea = FileArea(conference: u32, number: u32, name: string)
  datatype Placement = Placement(conference: u32, area: u32, file: File)

  predicate IsListingVisible(status: FileStatus) {
    status == Available || status == Lcfiles
  }

  // ---- Filtering and stable sorting ----

  function Filter<T>(xs: seq<T>, p: T -> bool): seq<T> {
    if xs == [] then [] else (if p(xs[0]) then [xs[0]] else []) + Filter(xs[1..], p)
  }

  lemma FilterCons<T>(x: T, xs: seq<T>, p: T -> bool)
    ensures Filter([x] + xs, p) == (if p(x) then [x] else []) + Filter(xs, p)
  {
    assert ([x] + xs)[1..] == xs;
  }

  lemma {:induction false} FilterMembers<T>(xs: seq<T>, p: T -> bool)
    ensures forall i | 0 <= i < |Filter(xs, p)| :: Filter(xs, p)[i] in xs && p(Filter(xs, p)[i])
  {
    if xs != [] {
      FilterMembers(xs[1..], p);
      assert xs == [xs[0]] + xs[1..];
    }
  }

  ghost predicate Sorted<T>(xs: seq<T>, key: T -> int) {
    forall i, j :: 0 <= i < j < |xs| ==> key(xs[i]) <= key(xs[j])
  }

  /** The elements with key `k`, in order. */
  function Group<T>(xs: seq<T>, key: T -> int, k: int): seq<T> {
    if xs == [] then [] else (if key(xs[0]) == k then [xs[0]] else []) + Group(xs[1..], key, k)
  }

  lemma GroupCons<T>(x: T, xs: seq<T>, key: T -> int, k: int)
    ensures Group([x] + xs, key, k) == (if key(x) == k then [x] else []) + Group(xs, key, k)
  {
    assert ([x] + xs)[1..] == xs;
  }

  /**
    What it means to be a stable sort, whatever the algorithm: ascending, and the elements of each
    key are the same ones in the same order.
   */
  ghost predicate StablySorts<T>(ys: seq<T>, xs: seq<T>, key: T -> int) {
    Sorted(ys, key) && forall k :: Group(ys, key, k) == Group(xs, key, k)
  }

  /** `x` goes before every element of its own key: it came before them. */
  function Insert<T>(x: T, ys: seq<T>, key: T -> int): seq<T> {
    if ys == [] || key(x) <= key(ys[0]) then [x] + ys else [ys[0]] + Insert(x, ys[1..], key)
  }

  function SortBy<T>(xs: seq<T>, key: T -> int): seq<T> {
    if xs == [] then [] else Insert(xs[0], SortBy(xs[1..], key), key)
  }

  lemma {:induction false} InsertKeepsOrder<T>(x: T, ys: seq<T>, key: T -> int)
    requires Sorted(ys, key)
    ensures Sorted(Insert(x, ys, key), key)
    ensures forall z | z in Insert(x, ys, key) :: z == x || z in ys
  {
    if ys != [] && key(x) > key(ys[0]) {
      var rest := Insert(x, ys[1..], key);
      InsertKeepsOrder(x, ys[1..], key);
      forall j | 0 <= j < |rest|
        ensures key(ys[0]) <= key(rest[j])
      {
        assert rest[j] == x || rest[j] in ys[1..];
      }
    }
  }

  lemma {:induction false} InsertIsStable<T>(x: T, ys: seq<T>, key: T -> int, k: int)
    ensures Group(Insert(x, ys, key), key, k) == (if key(x) == k then [x] else []) + Group(ys, key, k)
  {
    if ys == [] || key(x) <= key(ys[0]) {
      GroupCons(x, ys, key, k);
    } else {
      var y, rest := ys[0], ys[1..];
      InsertIsStable(x, rest, key, k);
      assert ys == [y] + rest && Insert(x, ys, key) == [y] + Insert(x, rest, key);
      hide Group, Insert;
      GroupCons(y, rest, key, k);
      GroupCons(y, Insert(x, rest, key), key, k);
    }
  }

  lemma {:induction false} SortByIsStable<T>(xs: seq<T>, key: T -> int)
    ensures StablySorts(SortBy(xs, key), xs, key)
  {
    if xs != [] {
      var rest := SortBy(xs[1..], key);
      SortByIsStable(xs[1..], key);
      InsertKeepsOrder(xs[0], rest, key);
      forall k
        ensures Group(SortBy(xs, key), key, k) == Group(xs, key, k)
      {
        InsertIsStable(xs[0], rest, key, k);
      }
    }
  }

  lemma {:induction false} GroupMembers<T>(xs: seq<T>, key: T -> int, k: int)
    ensures forall z :: z in Group(xs, key, k) <==> z in xs && key(z) == k
  {
    if xs != [] {
      GroupMembers(xs[1..], key, k);
      assert xs == [xs[0]] + xs[1..];
    }
  }

  /** There is only one stable sort: ascending sequences that agree key by key are the same. */
  lemma {:induction false} StableSortUnique<T>(xs: seq<T>, ys: seq<T>, key: T -> int)
    requires Sorted(xs, key) && StablySorts(ys, xs, key)
    ensures xs == ys
  {
    if xs != [] || ys != [] {
      var z := if xs != [] then xs[0] else ys[0];
      GroupMembers(xs, key, key(z));
      GroupMembers(ys, key, key(z));
      assert z in xs && z in ys;
      var k0 := key(xs[0]);
      GroupMembers(xs, key, key(ys[0]));
      GroupMembers(ys, key, key(ys[0]));
      assert ys[0] in xs;
      assert Group(xs, key, k0)[0] == xs[0] && Group(ys, key, k0)[0] == ys[0];
      forall k
        ensures Group(ys[1..], key, k) == Group(xs[1..], key, k)
      {
        var first := if key(xs[0]) == k then [xs[0]] else [];
        assert Group(ys[1..], key, k) == Group(ys, key, k)[|first|..];
        assert Group(xs[1..], key, k) == Group(xs, key, k)[|first|..];
      }
      StableSortUnique(xs[1..], ys[1..], key);
    }
  }

  lemma {:induction false} FilterGroup<T>(xs: seq<T>, p: T -> bool, key: T -> int, k: int)
    ensures Group(Filter(xs, p), key, k) == Filter(Group(xs, key, k), p)
  {
    if xs != [] {
      FilterGroup(xs[1..], p, key, k);
      var x, rest := xs[0], xs[1..];
      GroupCons(x, Filter(rest, p), key, k);
      FilterCons(x, Group(rest, key, k), p);
      assert p(x) ==> Filter(xs, p) == [x] + Filter(rest, p);
      assert !p(x) ==> Filter(xs, p) == Filter(rest, p);
      assert key(x) == k ==> Group(xs, key, k) == [x] + Group(rest, key, k);
      assert key(x) != k ==> Group(xs, key, k) == Group(rest, key, k);
    }
  }

  lemma {:induction false} FilterIsSorted<T>(xs: seq<T>, p: T -> bool, key: T -> int)
    requires Sorted(xs, key)
    ensures Sorted(Filter(xs, p), key)
  {
    if xs != [] {
      FilterIsSorted(xs[1..], p, key);
      var rest := Filter(xs[1..], p);
      FilterMembers(xs[1..], p);
    }
  }

  /** The stable sort of a filter is the filter of the stable sort. */
  lemma SortCommutesWithFilter<T>(xs: seq<T>, p: T -> bool, key: T -> int)
    ensures SortBy(Filter(xs, p), key) == Filter(SortBy(xs, key), p)
  {
    var one, two := SortBy(Filter(xs, p), key), Filter(SortBy(xs, key), p);
    SortByIsStable(Filter(xs, p), key);
    SortByIsStable(xs, key);
    FilterIsSorted(SortBy(xs, key), p, key);
    forall k
      ensures Group(two, key, k) == Group(one, key, k)
    {
      FilterGroup(xs, p, key, k);
      FilterGroup(SortBy(xs, key), p, key, k);
    }
    StableSortUnique(one, two, key);
  }

  // ---- The repository ----

  function ByUploadTime(): File -> int {
    (f: File) => f.uploadedAt
  }

  function ByNumber(): FileArea -> int {
    (a: FileArea) => a.number
  }

  function AreaIn(conference: u32): FileArea -> bool {
    (a: FileArea) => a.conference == conference
  }

  function HeldIn(conference: u32): Placement -> bool {
    (p: Placement) => p.conference == conference && p.file.status == HeldForReview
  }

  function VisibleIn(conference: u32, area: u32): Placement -> bool {
    (p: Placement) => p.conference == conference && p.area == area && IsListingVisible(p.file.status)
  }

  function VisibleSince(conference: u32, area: u32, since: int): Placement -> bool {
    (p: Placement) => VisibleIn(conference, area)(p) && p.file.uploadedAt >= since
  }

  function FilesOf(ps: seq<Placement>): seq<File> {
    if ps == [] then [] else [ps[0].file] + FilesOf(ps[1..])
  }

  datatype FileRepository = FileRepository(areas: seq<FileArea>, files: seq<Placement>) {

    function Select(keep: Placement -> bool): seq<File> {
      SortBy(FilesOf(Filter(files, keep)), ByUploadTime())
    }

    function AreasInConference(conference: u32): seq<FileArea> {
      SortBy(Filter(areas, AreaIn(conference)), ByNumber())
    }

    function FindInArea(conference: u32, area: u32): seq<File> {
      Select(VisibleIn(conference, area))
    }

    function ListHeld(conference: u32): seq<File> {
      Select(HeldIn(conference))
    }

    function ListNewSince(conference: u32, area: u32, since: int): seq<File> {
      Select(VisibleSince(conference, area, since))
    }
  }

  lemma FilesOfCons(p: Placement, ps: seq<Placement>)
    ensures FilesOf([p] + ps) == [p.file] + FilesOf(ps)
  {
    assert ([p] + ps)[1..] == ps;
  }

  /** Filtering placements by their file is filtering the files. */
  lemma {:induction false} FilesOfFilter(
      ps: seq<Placement>, p: Placement -> bool, q: File -> bool, both: Placement -> bool)
    requires forall x :: both(x) <==> p(x) && q(x.file)
    ensures FilesOf(Filter(ps, both)) == Filter(FilesOf(Filter(ps, p)), q)
  {
    if ps != [] {
      var x, rest := ps[0], ps[1..];
      FilesOfFilter(rest, p, q, both);
      assert both(x) <==> p(x) && q(x.file);
      FilterCons(x.file, FilesOf(Filter(rest, p)), q);
      assert p(x) ==> Filter(ps, p) == [x] + Filter(rest, p);
      assert both(x) ==> Filter(ps, both) == [x] + Filter(rest, both);
      FilesOfCons(x, Filter(rest, p));
      FilesOfCons(x, Filter(rest, both));
      assert !both(x) ==> Filter(ps, both) == Filter(rest, both);
      assert !p(x) ==> Filter(ps, p) == Filter(rest, p);
    }
  }

  /** Of all sequences, exactly one is the stable sort. */
  lemma OnlyStableSort<T>(xs: seq<T>, key: T -> int, ys: seq<T>)
    ensures ys == SortBy(xs, key) <==> StablySorts(ys, xs, key)
  {
    SortByIsStable(xs, key);
    if StablySorts(ys, xs, key) {
      var sorted := SortBy(xs, key);
      forall k
        ensures Group(ys, key, k) == Group(sorted, key, k)
      {
        assert Group(ys, key, k) == Group(xs, key, k);
        assert Group(sorted, key, k) == Group(xs, key, k);
      }
      StableSortUnique(sorted, ys, key);
    }
  }

  /**
    An area lists its visible files, each upload time's files in catalogue order, times ascending;
    and no other sequence does.
   */
  lemma FindInAreaIsStableSort(repo: FileRepository, conference: u32, area: u32, listing: seq<File>)
    ensures listing == repo.FindInArea(conference, area)
       <==> StablySorts(listing, FilesOf(Filter(repo.files, VisibleIn(conference, area))), ByUploadTime())
  {
    OnlyStableSort(FilesOf(Filter(repo.files, VisibleIn(conference, area))), ByUploadTime(), listing);
  }

  /** The same for a conference's files held for review, which no area lists. */
  lemma ListHeldIsStableSort(repo: FileRepository, conference: u32, listing: seq<File>)
    ensures listing == repo.ListHeld(conference)
       <==> StablySorts(listing, FilesOf(Filter(repo.files, HeldIn(conference))), ByUploadTime())
    ensures forall p, area :: !(HeldIn(conference)(p) && VisibleIn(conference, area)(p))
  {
    OnlyStableSort(FilesOf(Filter(repo.files, HeldIn(conference))), ByUploadTime(), listing);
  }

  /** A conference's areas come by number. */
  lemma AreasAreStableSort(repo: FileRepository, conference: u32, listing: seq<FileArea>)
    ensures listing == repo.AreasInConference(conference)
       <==> StablySorts(listing, Filter(repo.areas, AreaIn(conference)), ByNumber())
  {
    OnlyStableSort(Filter(repo.areas, AreaIn(conference)), ByNumber(), listing);
  }

  /** What is new since a date is exactly the tail of the full listing from that date on. */
  lemma NewFilesAreASuffix(repo: FileRepository, conference: u32, area: u32, since: int)
    ensures
      var full, recent := repo.FindInArea(conference, area), repo.ListNewSince(conference, area, since);
      && |recent| <= |full|
      && full[|full| - |recent|..] == recent
      && (forall f | f in recent :: f.uploadedAt >= since)
      && (forall f | f in full[..|full| - |recent|] :: f.uploadedAt < since)
  {
    var p, q := VisibleIn(conference, area), (f: File) => f.uploadedAt >= since;
    var full, recent := repo.FindInArea(conference, area), repo.ListNewSince(conference, area, since);
    var visible := FilesOf(Filter(repo.files, p));
    FilesOfFilter(repo.files, p, q, VisibleSince(conference, area, since));
    SortCommutesWithFilter(visible, q, ByUploadTime());
    FilterMembers(full, q);
    SortByIsStable(visible, ByUploadTime());
    SortedFilterIsSuffix(full, ByUploadTime(), since, q);
  }

  lemma {:induction false} FilterAll<T>(xs: seq<T>, p: T -> bool)
    requires forall i | 0 <= i < |xs| :: p(xs[i])
    ensures Filter(xs, p) == xs
  {
    if xs != [] { FilterAll(xs[1..], p); }
  }

  lemma {:induction false} SortedFilterIsSuffix<T>(xs: seq<T>, key: T -> int, since: int, recent: T -> bool)
    requires Sorted(xs, key)
    requires forall i | 0 <= i < |xs| :: recent(xs[i]) <==> key(xs[i]) >= since
    ensures
      var ys := Filter(xs, recent);
      && |ys| <= |xs| && xs[|xs| - |ys|..] == ys
      && forall i | 0 <= i < |xs| - |ys| :: key(xs[i]) < since
  {
    if xs != [] {
      var rest := xs[1..];
      SortedFilterIsSuffix(rest, key, since, recent);
      var ys := Filter(rest, recent);
      if recent(xs[0]) {
        FilterAll(rest, recent);
        assert [xs[0]] + ys == xs;
      } else {
        assert xs[|xs| - |ys|..] == rest[|rest| - |ys|..];
      }
    }
  }

  // ---- What each listing holds, entry by entry ----

  lemma FilterSnoc<T>(xs: seq<T>, x: T, keep: T -> bool)
    ensures Filter(xs + [x], keep) == Filter(xs, keep) + if keep(x) then [x] else []
  {
    if xs == [] {
      assert xs + [x] == [x];
    } else {
      assert (xs + [x])[1..] == xs[1..] + [x];
      FilterSnoc(xs[1..], x, keep);
    }
  }

  /** The kept elements stand at ascending positions. */
  ghost predicate FilteredFrom<T>(ys: seq<T>, xs: seq<T>, at: seq<nat>, keep: T -> bool) {
    && |at| == |ys|
    && (forall i | 0 <= i < |at| :: at[i] < |xs| && keep(xs[at[i]]) && ys[i] == xs[at[i]])
    && (forall i, j | 0 <= i < j < |at| :: at[i] < at[j])
  }

  lemma {:induction false} FilterPlaces<T>(xs: seq<T>, keep: T -> bool) returns (at: seq<nat>)
    ensures FilteredFrom(Filter(xs, keep), xs, at, keep)
    decreases |xs|
  {
    at := [];
    if xs != [] {
      var n := |xs| - 1;
      at := FilterPlaces(xs[..n], keep);
      FilterSnoc(xs[..n], xs[n], keep);
      assert xs == xs[..n] + [xs[n]];
      hide Filter;
      if keep(xs[n]) { at := at + [n]; }
    }
  }

  lemma {:induction false} InsertSplits<T>(x: T, ys: seq<T>, key: T -> int) returns (front: seq<T>, back: seq<T>)
    ensures ys == front + back && Insert(x, ys, key) == front + ([x] + back)
    ensures forall i | 0 <= i < |front| :: key(front[i]) < key(x)
    ensures back != [] ==> key(x) <= key(back[0])
  {
    if ys == [] || key(x) <= key(ys[0]) {
      front, back := [], ys;
    } else {
      var y, rest := ys[0], ys[1..];
      var after, last := InsertSplits(x, rest, key);
      front, back := [y] + after, last;
      assert [y] + (after + last) == front + back;
      assert [y] + (after + ([x] + last)) == front + ([x] + back);
    }
  }

  /** Entries come by key, and those of one key in the order of the positions they stand at. */
  ghost predicate SortedFrom<T>(ys: seq<T>, xs: seq<T>, at: seq<nat>, key: T -> int) {
    && |at| == |ys|
    && (forall i | 0 <= i < |at| :: at[i] < |xs| && ys[i] == xs[at[i]])
    && (forall i, j | 0 <= i < j < |at| :: key(ys[i]) < key(ys[j]) || (key(ys[i]) == key(ys[j]) && at[i] < at[j]))
  }

  /** Positions counted from one element earlier. */
  function Later(at: seq<nat>): (later: seq<nat>)
    ensures |later| == |at| && forall i | 0 <= i < |at| :: later[i] == at[i] + 1
  {
    seq(|at|, i requires 0 <= i < |at| => at[i] + 1)
  }

  lemma {:induction false} SortPlaces<T>(xs: seq<T>, key: T -> int) returns (at: seq<nat>)
    ensures SortedFrom(SortBy(xs, key), xs, at, key)
  {
    at := [];
    if xs != [] {
      var ys := SortBy(xs[1..], key);
      var after := SortPlaces(xs[1..], key);
      SortByIsStable(xs[1..], key);
      var front, back := InsertSplits(xs[0], ys, key);
      var j := |front|;
      at := Later(after)[..j] + ([0] + Later(after)[j..]);
      assert front == ys[..j] && back == ys[j..];
      InsertKeepsPlaces(xs, ys, after, key, j);
    }
  }

  lemma InsertKeepsPlaces<T>(xs: seq<T>, ys: seq<T>, after: seq<nat>, key: T -> int, j: nat)
    requires xs != [] && SortedFrom(ys, xs[1..], after, key) && Sorted(ys, key) && j <= |ys|
    requires forall i | 0 <= i < j :: key(ys[i]) < key(xs[0])
    requires j < |ys| ==> key(xs[0]) <= key(ys[j])
    ensures SortedFrom(ys[..j] + ([xs[0]] + ys[j..]), xs, Later(after)[..j] + ([0] + Later(after)[j..]), key)
  {
    var x, at, zs := xs[0], Later(after)[..j] + ([0] + Later(after)[j..]), ys[..j] + ([xs[0]] + ys[j..]);
    forall i | 0 <= i < |at|
      ensures i < j ==> at[i] == after[i] + 1 && zs[i] == ys[i]
      ensures i == j ==> at[i] == 0 && zs[i] == x
      ensures i > j ==> at[i] == after[i - 1] + 1 && zs[i] == ys[i - 1]
      ensures at[i] < |xs| && zs[i] == xs[at[i]]
    {
    }
    forall i, i' | 0 <= i < i' < |at|
      ensures key(zs[i]) < key(zs[i']) || (key(zs[i]) == key(zs[i']) && at[i] < at[i'])
    {
      InsertedInOrder(ys, after, key, x, j, i, i');
      hide SortedFrom, Sorted;
      var was, was' := if i < j then i else i - 1, if i' < j then i' else i' - 1;
      if i != j { assert zs[i] == ys[was] && at[i] == after[was] + 1; }
      if i' != j { assert zs[i'] == ys[was'] && at[i'] == after[was'] + 1; }
    }
  }

  lemma InsertedInOrder<T>(ys: seq<T>, after: seq<nat>, key: T -> int, x: T, j: nat, i: nat, i': nat)
    requires |after| == |ys| && Sorted(ys, key) && j <= |ys| && i < i' <= |ys|
    requires forall i, i' | 0 <= i < i' < |ys| ::
      key(ys[i]) < key(ys[i']) || (key(ys[i]) == key(ys[i']) && after[i] < after[i'])
    requires forall i | 0 <= i < j :: key(ys[i]) < key(x)
    requires j < |ys| ==> key(x) <= key(ys[j])
    ensures
      var was, was' := if i < j then i else i - 1, if i' < j then i' else i' - 1;
      if i == j then key(x) <= key(ys[was'])
      else if i' == j then key(ys[was]) < key(x)
      else key(ys[was]) < key(ys[was']) || (key(ys[was]) == key(ys[was']) && after[was] < after[was'])
  {
    if i == j { assert key(ys[j]) <= key(ys[i' - 1]); }
  }

  lemma {:induction false} InsertAddsOne<T>(x: T, ys: seq<T>, key: T -> int)
    ensures multiset(Insert(x, ys, key)) == multiset(ys) + multiset{x}
  {
    if ys != [] && key(x) > key(ys[0]) {
      InsertAddsOne(x, ys[1..], key);
      assert ys == [ys[0]] + ys[1..];
    }
  }

  lemma {:induction false} SortByKeepsCounts<T>(xs: seq<T>, key: T -> int)
    ensures multiset(SortBy(xs, key)) == multiset(xs)
  {
    if xs != [] {
      SortByKeepsCounts(xs[1..], key);
      InsertAddsOne(xs[0], SortBy(xs[1..], key), key);
      assert xs == [xs[0]] + xs[1..];
    }
  }

  /** Where the elements that satisfy `p` stand. */
  function Spots<T>(xs: seq<T>, p: T -> bool): set<nat> {
    set k: nat | k < |xs| && p(xs[k])
  }

  lemma SpotsSnoc<T>(xs: seq<T>, x: T, p: T -> bool)
    ensures |Spots(xs + [x], p)| == |Spots(xs, p)| + if p(x) then 1 else 0
  {
    assert Spots(xs + [x], p) == Spots(xs, p) + if p(x) then {|xs|} else {};
  }

  lemma {:induction false} FilterCounts<T>(xs: seq<T>, keep: T -> bool, y: T, p: T -> bool)
    requires forall x :: p(x) <==> keep(x) && x == y
    ensures multiset(Filter(xs, keep))[y] == |Spots(xs, p)|
    decreases |xs|
  {
    if xs == [] {
      assert Spots(xs, p) == {};
    } else {
      var n := |xs| - 1;
      FilterCounts(xs[..n], keep, y, p);
      FilterSnoc(xs[..n], xs[n], keep);
      SpotsSnoc(xs[..n], xs[n], p);
      assert xs == xs[..n] + [xs[n]];
    }
  }

  lemma {:induction false} FilesOfAt(ps: seq<Placement>)
    ensures |FilesOf(ps)| == |ps| && forall i | 0 <= i < |ps| :: FilesOf(ps)[i] == ps[i].file
  {
    if ps != [] { FilesOfAt(ps[1..]); }
  }

  lemma {:induction false} FilesOfSnoc(ps: seq<Placement>, p: Placement)
    ensures FilesOf(ps + [p]) == FilesOf(ps) + [p.file]
  {
    if ps == [] {
      assert ps + [p] == [p];
    } else {
      assert (ps + [p])[1..] == ps[1..] + [p];
      FilesOfSnoc(ps[1..], p);
    }
  }

  lemma {:induction false} FilesCount(ps: seq<Placement>, keep: Placement -> bool, f: File, p: Placement -> bool)
    requires forall x :: p(x) <==> keep(x) && x.file == f
    ensures multiset(FilesOf(Filter(ps, keep)))[f] == |Spots(ps, p)|
    decreases |ps|
  {
    if ps == [] {
      assert Spots(ps, p) == {};
    } else {
      var n := |ps| - 1;
      var rest := ps[..n];
      FilesCount(rest, keep, f, p);
      FilterSnoc(rest, ps[n], keep);
      FilesOfSnoc(Filter(rest, keep), ps[n]);
      SpotsSnoc(rest, ps[n], p);
      assert ps == rest + [ps[n]] && Filter(rest, keep) + [] == Filter(rest, keep);
    }
  }

  lemma SelectCounts(repo: FileRepository, keep: Placement -> bool, f: File, p: Placement -> bool)
    requires forall x :: p(x) <==> keep(x) && x.file == f
    ensures multiset(repo.Select(keep))[f] == |Spots(repo.files, p)|
  {
    FilesCount(repo.files, keep, f, p);
    SortByKeepsCounts(FilesOf(Filter(repo.files, keep)), ByUploadTime());
  }

  ghost predicate SelectedFrom(listed: seq<File>, files: seq<Placement>, at: seq<nat>, keep: Placement -> bool) {
    && |at| == |listed|
    && (forall i | 0 <= i < |at| :: at[i] < |files| && keep(files[at[i]]) && listed[i] == files[at[i]].file)
    && (forall i, j | 0 <= i < j < |at| ::
          || listed[i].uploadedAt < listed[j].uploadedAt
          || (listed[i].uploadedAt == listed[j].uploadedAt && at[i] < at[j]))
  }

  lemma FilterSortPlaces<T>(xs: seq<T>, keep: T -> bool, key: T -> int) returns (at: seq<nat>)
    ensures SortedFrom(SortBy(Filter(xs, keep), key), xs, at, key)
    ensures forall i | 0 <= i < |at| :: keep(xs[at[i]])
  {
    var kept := Filter(xs, keep);
    var inner := FilterPlaces(xs, keep);
    var outer := SortPlaces(kept, key);
    at := seq(|outer|, i requires 0 <= i < |outer| => inner[outer[i]]);
  }

  lemma SelectPlaces(repo: FileRepository, keep: Placement -> bool) returns (at: seq<nat>)
    ensures SelectedFrom(repo.Select(keep), repo.files, at, keep)
  {
    var kept := Filter(repo.files, keep);
    FilesOfAt(kept);
    var inner := FilterPlaces(repo.files, keep);
    var outer := SortPlaces(FilesOf(kept), ByUploadTime());
    at := seq(|outer|, i requires 0 <= i < |outer| => inner[outer[i]]);
  }

  /**
    An area lists each file as often as the catalogue places it in that conference and area with a
    status callers may see; oldest first, files of one time in catalogue order.
   */
  lemma AreaListsItsFiles(repo: FileRepository, conference: u32, area: u32)
    ensures forall f ::
      multiset(repo.FindInArea(conference, area))[f]
      == |set k: nat |
            && k < |repo.files|
            && repo.files[k].conference == conference && repo.files[k].area == area
            && (repo.files[k].file.status == Available || repo.files[k].file.status == Lcfiles)
            && repo.files[k].file == f|
    ensures exists at: seq<nat> | |at| == |repo.FindInArea(conference, area)| ::
      var listed := repo.FindInArea(conference, area);
      && (forall i | 0 <= i < |at| ::
            && at[i] < |repo.files| && listed[i] == repo.files[at[i]].file
            && repo.files[at[i]].conference == conference && repo.files[at[i]].area == area
            && (repo.files[at[i]].file.status == Available || repo.files[at[i]].file.status == Lcfiles))
      && (forall i, j | 0 <= i < j < |at| ::
            || listed[i].uploadedAt < listed[j].uploadedAt
            || (listed[i].uploadedAt == listed[j].uploadedAt && at[i] < at[j]))
  {
    var keep := VisibleIn(conference, area);
    var at := SelectPlaces(repo, keep);
    hide FileRepository.Select, SelectedFrom;
    forall f
      ensures multiset(repo.FindInArea(conference, area))[f]
           == |set k: nat |
                 && k < |repo.files|
                 && repo.files[k].conference == conference && repo.files[k].area == area
                 && (repo.files[k].file.status == Available || repo.files[k].file.status == Lcfiles)
                 && repo.files[k].file == f|
    {
      var p := (p: Placement) =>
        p.conference == conference && p.area == area
        && (p.file.status == Available || p.file.status == Lcfiles) && p.file == f;
      SelectCounts(repo, keep, f, p);
      assert Spots(repo.files, p)
          == (set k: nat |
                && k < |repo.files|
                && repo.files[k].conference == conference && repo.files[k].area == area
                && (repo.files[k].file.status == Available || repo.files[k].file.status == Lcfiles)
                && repo.files[k].file == f);
    }
    assert SelectedFrom(repo.FindInArea(conference, area), repo.files, at, keep);
  }

  lemma NewMeans(conference: u32, area: u32, since: int)
    ensures forall p: Placement ::
      VisibleSince(conference, area, since)(p)
      <==> && p.conference == conference && p.area == area
           && (p.file.status == Available || p.file.status == Lcfiles) && p.file.uploadedAt >= since
  {
    forall p: Placement
      ensures VisibleSince(conference, area, since)(p)
         <==> && p.conference == conference && p.area == area
              && (p.file.status == Available || p.file.status == Lcfiles) && p.file.uploadedAt >= since
    {
      assert VisibleSince(conference, area, since)(p)
        <==> VisibleIn(conference, area)(p) && p.file.uploadedAt >= since;
    }
  }

  /**
    The same for the files new since a date.
   */
  lemma NewFilesAreListed(repo: FileRepository, conference: u32, area: u32, since: int)
    ensures forall f ::
      multiset(repo.ListNewSince(conference, area, since))[f]
      == |set k: nat |
            && k < |repo.files|
            && repo.files[k].conference == conference && repo.files[k].area == area
            && (repo.files[k].file.status == Available || repo.files[k].file.status == Lcfiles)
            && repo.files[k].file.uploadedAt >= since
            && repo.files[k].file == f|
    ensures exists at: seq<nat> | |at| == |repo.ListNewSince(conference, area, since)| ::
      var listed := repo.ListNewSince(conference, area, since);
      && (forall i | 0 <= i < |at| ::
            && at[i] < |repo.files| && listed[i] == repo.files[at[i]].file
            && repo.files[at[i]].conference == conference && repo.files[at[i]].area == area
            && (repo.files[at[i]].file.status == Available || repo.files[at[i]].file.status == Lcfiles)
            && repo.files[at[i]].file.uploadedAt >= since)
      && (forall i, j | 0 <= i < j < |at| ::
            || listed[i].uploadedAt < listed[j].uploadedAt
            || (listed[i].uploadedAt == listed[j].uploadedAt && at[i] < at[j]))
  {
    var keep := VisibleSince(conference, area, since);
    NewMeans(conference, area, since);
    hide VisibleSince, VisibleIn, Filter, SortBy;
    var at := SelectPlaces(repo, keep);
    hide FileRepository.Select, SelectedFrom;
    forall f
      ensures multiset(repo.ListNewSince(conference, area, since))[f]
           == |set k: nat |
                 && k < |repo.files|
                 && repo.files[k].conference == conference && repo.files[k].area == area
                 && (repo.files[k].file.status == Available || repo.files[k].file.status == Lcfiles)
                 && repo.files[k].file.uploadedAt >= since
                 && repo.files[k].file == f|
    {
      var p := (p: Placement) =>
        p.conference == conference && p.area == area
        && (p.file.status == Available || p.file.status == Lcfiles) && p.file.uploadedAt >= since && p.file == f;
      SelectCounts(repo, keep, f, p);
      assert Spots(repo.files, p)
          == (set k: nat |
                && k < |repo.files|
                && repo.files[k].conference == conference && repo.files[k].area == area
                && (repo.files[k].file.status == Available || repo.files[k].file.status == Lcfiles)
                && repo.files[k].file.uploadedAt >= since
                && repo.files[k].file == f);
    }
    assert SelectedFrom(repo.ListNewSince(conference, area, since), repo.files, at, keep);
  }

  /**
    The same for the files of a conference held for review, whatever their area.
   */
  lemma HeldFilesAreListed(repo: FileRepository, conference: u32)
    ensures forall f ::
      multiset(repo.ListHeld(conference))[f]
      == |set k: nat |
            && k < |repo.files|
            && repo.files[k].conference == conference && repo.files[k].file.status == HeldForReview
            && repo.files[k].file == f|
    ensures exists at: seq<nat> | |at| == |repo.ListHeld(conference)| ::
      var listed := repo.ListHeld(conference);
      && (forall i | 0 <= i < |at| ::
            && at[i] < |repo.files| && listed[i] == repo.files[at[i]].file
            && repo.files[at[i]].conference == conference && repo.files[at[i]].file.status == HeldForReview)
      && (forall i, j | 0 <= i < j < |at| ::
            || listed[i].uploadedAt < listed[j].uploadedAt
            || (listed[i].uploadedAt == listed[j].uploadedAt && at[i] < at[j]))
  {
    var keep := HeldIn(conference);
    var at := SelectPlaces(repo, keep);
    hide FileRepository.Select, SelectedFrom;
    forall f
      ensures multiset(repo.ListHeld(conference))[f]
           == |set k: nat |
                 && k < |repo.files|
                 && repo.files[k].conference == conference && repo.files[k].file.status == HeldForReview
                 && repo.files[k].file == f|
    {
      var p := (p: Placement) =>
        p.conference == conference && p.file.status == HeldForReview && p.file == f;
      SelectCounts(repo, keep, f, p);
      assert Spots(repo.files, p)
          == (set k: nat |
                && k < |repo.files|
                && repo.files[k].conference == conference && repo.files[k].file.status == HeldForReview
                && repo.files[k].file == f);
    }
    assert SelectedFrom(repo.ListHeld(conference), repo.files, at, keep);
  }

  lemma AreasCount(repo: FileRepository, conference: u32, a: FileArea)
    ensures multiset(repo.AreasInConference(conference))[a]
         == |set k: nat | k < |repo.areas| && repo.areas[k].conference == conference && repo.areas[k] == a|
  {
    var p := (x: FileArea) => x.conference == conference && x == a;
    FilterCounts(repo.areas, AreaIn(conference), a, p);
    SortByKeepsCounts(Filter(repo.areas, AreaIn(conference)), ByNumber());
    hide SortBy, Filter;
    assert Spots(repo.areas, p)
        == (set k: nat | k < |repo.areas| && repo.areas[k].conference == conference && repo.areas[k] == a);
  }

  /** The areas of a conference: each as often as it is in the catalogue, by number, in catalogue order. */
  lemma ConferenceListsItsAreas(repo: FileRepository, conference: u32)
    ensures forall a ::
      multiset(repo.AreasInConference(conference))[a]
      == |set k: nat | k < |repo.areas| && repo.areas[k].conference == conference && repo.areas[k] == a|
    ensures exists at: seq<nat> | |at| == |repo.AreasInConference(conference)| ::
      var listed := repo.AreasInConference(conference);
      && (forall i | 0 <= i < |at| ::
            at[i] < |repo.areas| && listed[i] == repo.areas[at[i]] && repo.areas[at[i]].conference == conference)
      && (forall i, j | 0 <= i < j < |at| ::
            || listed[i].number < listed[j].number
            || (listed[i].number == listed[j].number && at[i] < at[j]))
  {
    var keep := AreaIn(conference);
    var at := FilterSortPlaces(repo.areas, keep, ByNumber());
    forall a
      ensures multiset(repo.AreasInConference(conference))[a]
           == |set k: nat | k < |repo.areas| && repo.areas[k].conference == conference && repo.areas[k] == a|
    {
      AreasCount(repo, conference, a);
    }
    hide SortBy, Filter;
    assert forall i | 0 <= i < |at| :: keep(repo.areas[at[i]]);
    assert |at| == |repo.AreasInConference(conference)|;
  }
}
