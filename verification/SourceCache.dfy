/** The fingerprint check of the reference-data cache: a hit exactly when re-reading the source
    files would find nothing changed (internal/platform/refdata/cache.go). */
module SourceCache {
  import opened Sets
  import opened Wrappers

  /** One path at one moment. hash is the FNV sum of the content, None if it cannot be read. */
  datatype FileState =
    | Missing
    | Unstatable
    | File(mtime: int, size: int, hash: Option<nat>)

  type FileSystem = map<string, FileState>

  function Stat(fs: FileSystem, path: string): FileState {
    if path in fs then fs[path] else Missing
  }

  datatype SourceHash = SourceHash(path: string, hash: nat, mtime: int, size: int)

  datatype CacheError = StatFailed(path: string) | HashFailed(path: string)

  // ---------- hashSources ----------

  function Fingerprint(fs: FileSystem, path: string): SourceHash
    requires Stat(fs, path).File? && Stat(fs, path).hash.Some?
  {
    var f := Stat(fs, path);
    SourceHash(path, f.hash.value, f.mtime, f.size)
  }

  /** The loop of hashSources, before sorting: missing files are skipped. */
  function Collect(paths: seq<string>, fs: FileSystem): Result<seq<SourceHash>, CacheError> {
    if paths == [] then Success([]) else
      var k := |paths| - 1;
      var init :- Collect(paths[..k], fs);
      match Stat(fs, paths[k])
      case Missing => Success(init)
      case Unstatable => Failure(StatFailed(paths[k]))
      case File(_, _, None) => Failure(HashFailed(paths[k]))
      case File(_, _, Some(_)) => Success(init + [Fingerprint(fs, paths[k])])
  }

  /** Byte order of strings. */
  predicate AtMost(a: string, b: string) {
    a == [] || (b != [] && (a[0] < b[0] || (a[0] == b[0] && AtMost(a[1..], b[1..]))))
  }

  function Insert(e: SourceHash, sorted: seq<SourceHash>): seq<SourceHash> {
    if sorted == [] then [e]
    else if AtMost(e.path, sorted[0].path) then [e] + sorted
    else [sorted[0]] + Insert(e, sorted[1..])
  }

  /** sort.Slice by path. */
  function SortByPath(entries: seq<SourceHash>): seq<SourceHash> {
    if entries == [] then [] else Insert(entries[0], SortByPath(entries[1..]))
  }

  function HashSources(paths: seq<string>, fs: FileSystem): Result<seq<SourceHash>, CacheError> {
    var entries :- Collect(paths, fs);
    Success(SortByPath(entries))
  }

  lemma {:induction false} InsertKeeps(e: SourceHash, sorted: seq<SourceHash>)
    ensures multiset(Insert(e, sorted)) == multiset(sorted) + multiset{e}
  {
    if sorted != [] && !AtMost(e.path, sorted[0].path) {
      InsertKeeps(e, sorted[1..]);
      assert sorted == [sorted[0]] + sorted[1..];
    }
  }

  lemma {:induction false} SortKeeps(entries: seq<SourceHash>)
    ensures multiset(SortByPath(entries)) == multiset(entries)
    ensures |SortByPath(entries)| == |entries|
  {
    if entries != [] {
      SortKeeps(entries[1..]);
      InsertKeeps(entries[0], SortByPath(entries[1..]));
      assert entries == [entries[0]] + entries[1..];
    }
    assert |multiset(SortByPath(entries))| == |multiset(entries)|;
  }

  /** That is: one is the beginning of the other, or smaller at the first place where they differ. */
  lemma {:induction false} AtMostExactly(a: string, b: string)
    ensures AtMost(a, b) <==> a <= b || exists k :: 0 <= k < |a| && k < |b| && a[..k] == b[..k] && a[k] < b[k]
  {
    if a != [] && b != [] {
      AtMostExactly(a[1..], b[1..]);
      if a[0] == b[0] {
        SameFirst(a, b);
      } else if a[0] < b[0] {
        assert a[..0] == b[..0];
      } else {
        assert forall k :: 0 < k < |a| && k < |b| ==> a[..k][0] != b[..k][0];
      }
    }
  }

  lemma SameFirst(a: string, b: string)
    requires a != [] && b != [] && a[0] == b[0]
    ensures a[1..] <= b[1..] <==> a <= b
    ensures (exists k :: 0 <= k < |a[1..]| && k < |b[1..]| && a[1..][..k] == b[1..][..k] && a[1..][k] < b[1..][k]) <==>
            exists k :: 0 <= k < |a| && k < |b| && a[..k] == b[..k] && a[k] < b[k]
  {
    assert a == [a[0]] + a[1..] && b == [b[0]] + b[1..];
    if k :| 0 <= k < |a[1..]| && k < |b[1..]| && a[1..][..k] == b[1..][..k] && a[1..][k] < b[1..][k] {
      assert a[..k + 1] == [a[0]] + a[1..][..k] && b[..k + 1] == [b[0]] + b[1..][..k];
      assert a[k + 1] < b[k + 1];
    }
    if k :| 0 <= k < |a| && k < |b| && a[..k] == b[..k] && a[k] < b[k] {
      assert a[1..][..k - 1] == a[..k][1..] && b[1..][..k - 1] == b[..k][1..];
      assert a[1..][k - 1] < b[1..][k - 1];
    }
  }

  ghost predicate Sorted(entries: seq<SourceHash>) {
    forall i :: 0 <= i < |entries| - 1 ==> AtMost(entries[i].path, entries[i + 1].path)
  }

  lemma {:induction false} AtMostTotal(a: string, b: string)
    ensures AtMost(a, b) || AtMost(b, a)
  {
    if a != [] && b != [] && a[0] == b[0] {
      AtMostTotal(a[1..], b[1..]);
    }
  }

  lemma {:induction false} InsertSorted(e: SourceHash, sorted: seq<SourceHash>)
    requires Sorted(sorted)
    ensures Sorted(Insert(e, sorted))
    ensures sorted != [] && !AtMost(e.path, sorted[0].path) ==> Insert(e, sorted)[0] == sorted[0]
  {
    if sorted != [] && !AtMost(e.path, sorted[0].path) {
      InsertSorted(e, sorted[1..]);
      AtMostTotal(e.path, sorted[0].path);
      var r := Insert(e, sorted[1..]);
      assert r[0] == e || r[0] == sorted[1];
      assert forall i :: 1 <= i < |Insert(e, sorted)| ==> Insert(e, sorted)[i] == r[i - 1];
    }
  }

  lemma {:induction false} SortSorts(entries: seq<SourceHash>)
    ensures Sorted(SortByPath(entries))
  {
    if entries != [] {
      SortSorts(entries[1..]);
      InsertSorted(entries[0], SortByPath(entries[1..]));
    }
  }

  // ---------- verifySources ----------

  /** The entry byPath holds: the last one of that path. */
  function LastEntry(cached: seq<SourceHash>, path: string): (r: Option<SourceHash>)
    ensures r.Some? ==> r.value in cached && r.value.path == path
    ensures r.None? ==> forall e <- cached :: e.path != path
  {
    if cached == [] then None else
      var k := |cached| - 1;
      assert cached == cached[..k] + [cached[k]];
      if cached[k].path == path then Some(cached[k]) else LastEntry(cached[..k], path)
  }

  /** Same mtime and size, or else same hash. */
  predicate Agrees(e: SourceHash, f: FileState)
    requires f.File?
  {
    (e.mtime == f.mtime && e.size == f.size) || f.hash == Some(e.hash)
  }

  /** The check of one path passes; a missing file is skipped. */
  predicate PathPasses(cached: seq<SourceHash>, fs: FileSystem, path: string) {
    match Stat(fs, path)
    case Missing => true
    case Unstatable => false
    case File(_, _, _) =>
      var e := LastEntry(cached, path);
      e.Some? && Agrees(e.value, Stat(fs, path))
  }

  /** How many of the paths exist, repetitions counted. */
  function Existing(paths: seq<string>, fs: FileSystem): nat {
    if paths == [] then 0 else
      var k := |paths| - 1;
      Existing(paths[..k], fs) + (if Stat(fs, paths[k]).File? then 1 else 0)
  }

  ghost predicate Accepts(cached: seq<SourceHash>, paths: seq<string>, fs: FileSystem) {
    (forall p <- paths :: PathPasses(cached, fs, p)) && Existing(paths, fs) == |cached|
  }

  method VerifySources(cached: seq<SourceHash>, paths: seq<string>, fs: FileSystem) returns (r: bool)
    ensures r == Accepts(cached, paths, fs)
  {
    var byPath: map<string, SourceHash> := map[];
    for i := 0 to |cached|
      invariant forall p :: p in byPath <==> LastEntry(cached[..i], p).Some?
      invariant forall p <- byPath :: LastEntry(cached[..i], p) == Some(byPath[p])
    {
      assert cached[..i + 1][..i] == cached[..i];
      byPath := byPath[cached[i].path := cached[i]];
    }
    assert cached[..|cached|] == cached;
    var matched := 0;
    for i := 0 to |paths|
      invariant matched == Existing(paths[..i], fs)
      invariant forall j :: 0 <= j < i ==> PathPasses(cached, fs, paths[j])
    {
      assert paths[..i + 1][..i] == paths[..i];
      var path := paths[i];
      assert path in paths;
      var info := Stat(fs, path);
      if !info.Missing? {
        if info.Unstatable? || path !in byPath {
          assert !PathPasses(cached, fs, path);
          return false;
        }
        var prev := byPath[path];
        if prev.mtime != info.mtime || prev.size != info.size {
          if info.hash.None? || info.hash.value != prev.hash {
            assert !PathPasses(cached, fs, path);
            return false;
          }
        }
        matched := matched + 1;
      }
    }
    assert paths[..|paths|] == paths;
    return matched == |cached|;
  }

  method ComputeHashSources(paths: seq<string>, fs: FileSystem) returns (r: Result<seq<SourceHash>, CacheError>)
    ensures r == HashSources(paths, fs)
  {
    var entries := [];
    for i := 0 to |paths|
      invariant Collect(paths[..i], fs) == Success(entries)
    {
      assert paths[..i + 1][..i] == paths[..i];
      var info := Stat(fs, paths[i]);
      if info.Unstatable? {
        CollectFailsEarly(paths, i + 1, fs);
        return Failure(StatFailed(paths[i]));
      }
      if info.File? {
        if info.hash.None? {
          CollectFailsEarly(paths, i + 1, fs);
          return Failure(HashFailed(paths[i]));
        }
        entries := entries + [SourceHash(paths[i], info.hash.value, info.mtime, info.size)];
      }
    }
    assert paths[..|paths|] == paths;
    return Success(SortByPath(entries));
  }

  lemma {:induction false} CollectFailsEarly(paths: seq<string>, i: nat, fs: FileSystem)
    requires i <= |paths| && Collect(paths[..i], fs).Failure?
    ensures Collect(paths, fs) == Collect(paths[..i], fs)
    decreases |paths| - i
  {
    if i < |paths| {
      assert paths[..i + 1][..i] == paths[..i];
      CollectFailsEarly(paths, i + 1, fs);
    } else {
      assert paths[..i] == paths;
    }
  }

  // ---------- exactness for lists without repeated paths ----------

  ghost predicate NoRepeats(paths: seq<string>) {
    forall i, j :: 0 <= i < j < |paths| ==> paths[i] != paths[j]
  }

  ghost predicate OneEntryPerPath(cached: seq<SourceHash>) {
    forall i, j :: 0 <= i < j < |cached| ==> cached[i].path != cached[j].path
  }

  ghost function ExistingPaths(paths: seq<string>, fs: FileSystem): set<string> {
    set p <- paths | Stat(fs, p).File?
  }

  ghost function CachedPaths(cached: seq<SourceHash>): set<string> {
    set e <- cached :: e.path
  }

  lemma {:induction false} ExistingCount(paths: seq<string>, fs: FileSystem)
    ensures |ExistingPaths(paths, fs)| <= Existing(paths, fs)
    ensures NoRepeats(paths) ==> |ExistingPaths(paths, fs)| == Existing(paths, fs)
  {
    if paths != [] {
      var k := |paths| - 1;
      ExistingCount(paths[..k], fs);
      assert paths == paths[..k] + [paths[k]];
      if Stat(fs, paths[k]).File? {
        assert ExistingPaths(paths, fs) == ExistingPaths(paths[..k], fs) + {paths[k]};
      } else {
        assert ExistingPaths(paths, fs) == ExistingPaths(paths[..k], fs);
      }
    }
  }

  lemma CachedPathsSplit(cached: seq<SourceHash>)
    requires cached != []
    ensures var k := |cached| - 1; CachedPaths(cached) == CachedPaths(cached[..k]) + {cached[k].path}
  {
    assert cached == cached[..|cached| - 1] + [cached[|cached| - 1]];
  }

  lemma {:induction false} CachedCount(cached: seq<SourceHash>)
    ensures |CachedPaths(cached)| <= |cached|
    ensures OneEntryPerPath(cached) ==> |CachedPaths(cached)| == |cached|
  {
    if cached != [] {
      var k := |cached| - 1;
      CachedCount(cached[..k]);
      CachedPathsSplit(cached);
      assert OneEntryPerPath(cached) ==> cached[k].path !in CachedPaths(cached[..k]);
    }
  }

  lemma {:induction false} FullCountMeansOneEach(cached: seq<SourceHash>)
    requires |CachedPaths(cached)| == |cached|
    ensures OneEntryPerPath(cached)
  {
    if cached != [] {
      var k := |cached| - 1;
      CachedPathsSplit(cached);
      CachedCount(cached[..k]);
      FullCountMeansOneEach(cached[..k]);
      assert forall i :: 0 <= i < k ==> cached[..k][i] in cached[..k];
    }
  }

  /** What the check is for: the existing paths are the cached ones, each cached once, and every
      file agrees. */
  ghost predicate UpToDate(cached: seq<SourceHash>, paths: seq<string>, fs: FileSystem) {
    && OneEntryPerPath(cached)
    && ExistingPaths(paths, fs) == CachedPaths(cached)
    && (forall p <- paths :: !Stat(fs, p).Unstatable?)
    && forall e <- cached | Stat(fs, e.path).File? ::
         var f := Stat(fs, e.path); (e.mtime == f.mtime && e.size == f.size) || f.hash == Some(e.hash)
  }

  lemma PassedExactly(cached: seq<SourceHash>, paths: seq<string>, fs: FileSystem)
    requires OneEntryPerPath(cached) && ExistingPaths(paths, fs) == CachedPaths(cached)
    ensures (forall p <- paths :: PathPasses(cached, fs, p)) <==> UpToDate(cached, paths, fs)
  {
    if forall p <- paths :: PathPasses(cached, fs, p) {
      forall e <- cached
        ensures Stat(fs, e.path).File? && LastEntry(cached, e.path) == Some(e) && Agrees(e, Stat(fs, e.path))
      {
        assert e.path in CachedPaths(cached);
        assert PathPasses(cached, fs, e.path);
        OnlyEntry(cached, e);
      }
    }
    if UpToDate(cached, paths, fs) {
      forall p <- paths
        ensures PathPasses(cached, fs, p)
      {
        if Stat(fs, p).File? {
          assert p in CachedPaths(cached);
          var e :| e in cached && e.path == p;
          OnlyEntry(cached, e);
        }
      }
    }
  }

  lemma OnlyEntry(cached: seq<SourceHash>, e: SourceHash)
    requires OneEntryPerPath(cached) && e in cached
    ensures LastEntry(cached, e.path) == Some(e)
  {
    var i :| 0 <= i < |cached| && cached[i] == e;
    var j :| 0 <= j < |cached| && cached[j] == LastEntry(cached, e.path).value;
  }

  /** For paths without repetition the count at the end makes the check exact. */
  lemma AcceptsExactly(cached: seq<SourceHash>, paths: seq<string>, fs: FileSystem)
    requires NoRepeats(paths)
    ensures Accepts(cached, paths, fs) <==> UpToDate(cached, paths, fs)
  {
    ExistingCount(paths, fs);
    CachedCount(cached);
    if |CachedPaths(cached)| == |cached| {
      FullCountMeansOneEach(cached);
    }
    if OneEntryPerPath(cached) && ExistingPaths(paths, fs) == CachedPaths(cached) {
      PassedExactly(cached, paths, fs);
    }
    if Accepts(cached, paths, fs) {
      forall p <- ExistingPaths(paths, fs)
        ensures p in CachedPaths(cached)
      {
        assert PathPasses(cached, fs, p);
      }
      SubsetSize(ExistingPaths(paths, fs), CachedPaths(cached));
      SubsetOfSameSize(ExistingPaths(paths, fs), CachedPaths(cached));
      PassedExactly(cached, paths, fs);
    }
  }

  lemma {:induction false} ExistingOne(paths: seq<string>, fs: FileSystem, i: nat)
    requires i < |paths| && Stat(fs, paths[i]).File?
    ensures Existing(paths, fs) >= 1
  {
    var k := |paths| - 1;
    if i < k {
      ExistingOne(paths[..k], fs, i);
    }
  }

  lemma {:induction false} ExistingTwo(paths: seq<string>, fs: FileSystem, i: nat, j: nat)
    requires i < j < |paths| && Stat(fs, paths[i]).File? && Stat(fs, paths[j]).File?
    ensures Existing(paths, fs) >= 2
  {
    var k := |paths| - 1;
    if j < k {
      ExistingTwo(paths[..k], fs, i, j);
    } else {
      ExistingOne(paths[..k], fs, i);
    }
  }

  ghost predicate Exact(cached: seq<SourceHash>, paths: seq<string>, fs: FileSystem) {
    Accepts(cached, paths, fs) <==> UpToDate(cached, paths, fs)
  }

  /** The check is exact for a list of paths, whatever is cached and whatever the files, exactly if
      no path is listed twice. */
  lemma ExactIffNoRepeats(paths: seq<string>)
    ensures (forall cached, fs :: Exact(cached, paths, fs)) <==> NoRepeats(paths)
  {
    if NoRepeats(paths) {
      forall cached, fs
        ensures Exact(cached, paths, fs)
      {
        AcceptsExactly(cached, paths, fs);
      }
    } else {
      var i, j :| 0 <= i < j < |paths| && paths[i] == paths[j];
      var path := paths[i];
      var fs: FileSystem := map[path := File(1, 1, Some(7))];
      var cached := [SourceHash(path, 7, 1, 1)];
      ExistingTwo(paths, fs, i, j);
      assert LastEntry(cached, path) == Some(cached[0]);
      assert UpToDate(cached, paths, fs) && !Exact(cached, paths, fs);
    }
  }

  lemma {:induction false} FirstOfMany(e: SourceHash, rest: seq<SourceHash>)
    requires forall r <- rest :: r.path != e.path
    ensures LastEntry([e] + rest, e.path) == Some(e)
    decreases |rest|
  {
    if rest != [] {
      var k := |rest| - 1;
      assert ([e] + rest)[..k + 1] == [e] + rest[..k];
      FirstOfMany(e, rest[..k]);
    }
  }

  ghost predicate MissesDeletion(cached: seq<SourceHash>, paths: seq<string>, fs: FileSystem) {
    Accepts(cached, paths, fs) && exists e <- cached :: Stat(fs, e.path).Missing?
  }

  /** The check can accept although a cached file is gone exactly if some path is listed twice. */
  lemma RepeatedPathHidesDeletion(paths: seq<string>)
    ensures (exists cached, fs :: MissesDeletion(cached, paths, fs)) <==> !NoRepeats(paths)
  {
    if NoRepeats(paths) {
      forall cached: seq<SourceHash>, fs: FileSystem
        ensures !MissesDeletion(cached, paths, fs)
      {
        AcceptsExactly(cached, paths, fs);
        if Accepts(cached, paths, fs) {
          forall e <- cached
            ensures Stat(fs, e.path).File?
          {
            assert e.path in ExistingPaths(paths, fs);
          }
        }
      }
    } else {
      var i, j :| 0 <= i < j < |paths| && paths[i] == paths[j];
      var path, gone := paths[i], paths[i] + "'";
      assert |gone| != |path|;
      var fs: FileSystem := map[path := File(1, 1, Some(7))];
      ExistingTwo(paths, fs, i, j);
      var first, other := SourceHash(path, 7, 1, 1), SourceHash(gone, 8, 1, 1);
      var rest := seq(Existing(paths, fs) - 1, _ => other);
      FirstOfMany(first, rest);
      assert rest[0] in [first] + rest;
      assert MissesDeletion([first] + rest, paths, fs);
    }
  }

  // ---------- saved against one state of the files, checked against another ----------

  /** From the cache's point of view the path has not changed. */
  ghost predicate Unchanged(before: FileSystem, after: FileSystem, path: string) {
    match Stat(after, path)
    case Missing => Stat(before, path).Missing?
    case Unstatable => false
    case File(mtime, size, hash) =>
      var was := Stat(before, path);
      was.File? && ((was.mtime == mtime && was.size == size) || (hash.Some? && hash == was.hash))
  }

  lemma {:induction false} CollectedAll(paths: seq<string>, fs: FileSystem)
    requires Collect(paths, fs).Success?
    ensures |Collect(paths, fs).value| == Existing(paths, fs)
    ensures forall p <- paths | Stat(fs, p).File? :: Stat(fs, p).hash.Some? && Fingerprint(fs, p) in Collect(paths, fs).value
  {
    if paths != [] {
      CollectedAll(paths[..|paths| - 1], fs);
      LastPath(paths);
    }
  }

  lemma {:induction false} CollectedOnly(paths: seq<string>, fs: FileSystem)
    requires Collect(paths, fs).Success?
    ensures forall e <- Collect(paths, fs).value ::
              e.path in paths && Stat(fs, e.path).File? && Stat(fs, e.path).hash.Some? && e == Fingerprint(fs, e.path)
  {
    if paths != [] {
      var k := |paths| - 1;
      CollectedOnly(paths[..k], fs);
      assert paths == paths[..k] + [paths[k]];
    }
  }

  // ---------- when hashSources succeeds ----------

  ghost predicate Readable(fs: FileSystem, path: string) {
    Stat(fs, path).Missing? || (Stat(fs, path).File? && Stat(fs, path).hash.Some?)
  }

  lemma {:induction false} CollectsUntil(paths: seq<string>, fs: FileSystem)
    ensures Collect(paths, fs).Success? <==> forall p <- paths :: Readable(fs, p)
  {
    if paths != [] {
      var k := |paths| - 1;
      CollectsUntil(paths[..k], fs);
      LastPath(paths);
      NextCollected(paths, fs);
    }
  }

  lemma NextCollected(paths: seq<string>, fs: FileSystem)
    requires paths != []
    ensures var k := |paths| - 1;
            Collect(paths, fs).Success? <==> Collect(paths[..k], fs).Success? && Readable(fs, paths[k])
  {
  }

  lemma LastPath(paths: seq<string>)
    requires paths != []
    ensures forall p :: p in paths <==> p in paths[..|paths| - 1] || p == paths[|paths| - 1]
  {
    assert paths == paths[..|paths| - 1] + [paths[|paths| - 1]];
  }

  /** It succeeds exactly if every path is missing or a file that can be read; a missing file is no error. */
  lemma SucceedsExactly<T>(value: T, paths: seq<string>, fs: FileSystem)
    ensures HashSources(paths, fs).Success? <==>
            forall p <- paths :: Stat(fs, p).Missing? || (Stat(fs, p).File? && Stat(fs, p).hash.Some?)
    ensures Save(value, paths, fs).Success? <==>
            forall p <- paths :: Stat(fs, p).Missing? || (Stat(fs, p).File? && Stat(fs, p).hash.Some?)
  {
    CollectsUntil(paths, fs);
  }

  /** Otherwise the first path that is neither is named, with what failed on it. */
  lemma FirstFailureNamed<T>(value: T, paths: seq<string>, fs: FileSystem, k: nat)
    requires k < |paths| && !Stat(fs, paths[k]).Missing? && !(Stat(fs, paths[k]).File? && Stat(fs, paths[k]).hash.Some?)
    requires forall j :: 0 <= j < k ==>
               Stat(fs, paths[j]).Missing? || (Stat(fs, paths[j]).File? && Stat(fs, paths[j]).hash.Some?)
    ensures var error := if Stat(fs, paths[k]).Unstatable? then StatFailed(paths[k]) else HashFailed(paths[k]);
            HashSources(paths, fs) == Failure(error) && Save(value, paths, fs) == Failure(error)
  {
    CollectsUntil(paths[..k], fs);
    assert forall p <- paths[..k] :: Readable(fs, p);
    assert paths[..k + 1][..k] == paths[..k];
    CollectFailsEarly(paths, k + 1, fs);
  }

  /** What hashSources returns: one fingerprint for each path that exists, sorted by path. */
  lemma HashSourcesExact(paths: seq<string>, fs: FileSystem)
    requires HashSources(paths, fs).Success?
    ensures var cached := HashSources(paths, fs).value;
            && Sorted(cached) && |cached| == Existing(paths, fs)
            && (forall p <- paths :: !Stat(fs, p).Unstatable?)
            && (forall p <- paths | Stat(fs, p).File? ::
                  var f := Stat(fs, p);
                  f.hash.Some? && LastEntry(cached, p) == Some(SourceHash(p, f.hash.value, f.mtime, f.size)))
            && (forall p <- paths | !Stat(fs, p).File? :: LastEntry(cached, p).None?)
            && forall e <- cached :: e.path in paths && Stat(fs, e.path) == File(e.mtime, e.size, Some(e.hash))
  {
    var entries := Collect(paths, fs).value;
    var cached := SortByPath(entries);
    CollectsUntil(paths, fs);
    CollectedAll(paths, fs);
    CollectedOnly(paths, fs);
    assert forall p <- paths :: Readable(fs, p);
    SortKeeps(entries);
    SortSorts(entries);
    forall e
      ensures e in cached <==> e in entries
    {
      assert e in multiset(cached) <==> e in multiset(entries);
    }
    forall p <- paths
      ensures Stat(fs, p).File? ==> LastEntry(cached, p) == Some(Fingerprint(fs, p))
      ensures !Stat(fs, p).File? ==> LastEntry(cached, p).None?
    {
      if Stat(fs, p).File? {
        assert Fingerprint(fs, p) in cached;
      }
    }
  }

  lemma {:induction false} ExistingCompared(paths: seq<string>, before: FileSystem, after: FileSystem)
    requires forall p <- paths | Stat(after, p).File? :: Stat(before, p).File?
    ensures Existing(paths, after) <= Existing(paths, before)
    ensures Existing(paths, after) == Existing(paths, before) <==>
            forall p <- paths | Stat(before, p).File? :: Stat(after, p).File?
  {
    if paths != [] {
      var k := |paths| - 1;
      assert paths == paths[..k] + [paths[k]];
      ExistingCompared(paths[..k], before, after);
    }
  }

  /** Fingerprints taken from one state of the files are accepted in another exactly if every
      path is unchanged, for any list of paths, in any order and with any repetitions. */
  lemma AcceptedIffUnchanged(paths: seq<string>, before: FileSystem, after: FileSystem)
    requires HashSources(paths, before).Success?
    ensures Accepts(HashSources(paths, before).value, paths, after) <==>
            forall p <- paths :: Unchanged(before, after, p)
  {
    var cached := HashSources(paths, before).value;
    HashSourcesExact(paths, before);
    if (forall p <- paths :: PathPasses(cached, after, p)) || (forall p <- paths :: Unchanged(before, after, p)) {
      forall p <- paths | Stat(after, p).File?
        ensures Stat(before, p).File?
      {
        assert PathPasses(cached, after, p) || Unchanged(before, after, p);
      }
      ExistingCompared(paths, before, after);
      forall p <- paths
        ensures PathPasses(cached, after, p) && (Stat(before, p).File? ==> Stat(after, p).File?) <==>
                Unchanged(before, after, p)
      {
      }
    }
  }

  // ---------- Save and Load ----------

  datatype CacheFile<T> =
    | Absent
    | Unreadable
    | Undecodable
    | Blob(sources: seq<SourceHash>, value: T)

  function Save<T>(value: T, paths: seq<string>, fs: FileSystem): Result<CacheFile<T>, CacheError> {
    var hashes :- HashSources(paths, fs);
    Success(Blob(hashes, value))
  }

  method Load<T>(file: CacheFile<T>, paths: seq<string>, fs: FileSystem) returns (r: Option<T>)
    ensures r == if file.Blob? && Accepts(file.sources, paths, fs) then Some(file.value) else None
  {
    if !file.Blob? {
      return None;
    }
    var ok := VerifySources(file.sources, paths, fs);
    if !ok {
      return None;
    }
    return Some(file.value);
  }

  /** Saved and loaded with the files as they were, the value always comes back. */
  lemma SaveThenLoad<T>(value: T, paths: seq<string>, fs: FileSystem)
    requires Save(value, paths, fs).Success?
    ensures Save(value, paths, fs).value.value == value
    ensures Accepts(Save(value, paths, fs).value.sources, paths, fs)
  {
    AcceptedIffUnchanged(paths, fs, fs);
    HashSourcesExact(paths, fs);
  }
}
