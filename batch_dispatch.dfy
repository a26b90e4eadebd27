/** Batch discovery and dispatch sizing of the SIMA motion-correction wrapper.

    One batch run either takes a hand-written list of per-file parameter
    records (when no root directory is given) or walks a directory tree and
    builds one record for every raw imaging file found there. An empty list
    is a fatal error; otherwise every record is handed to a worker pool whose
    size is the smaller of the number of cores and the number of files.
 */
module BatchDispatch {

  datatype Option<T> = None | Some(value: T)

  /** `max_disp`: the largest per-line displacement allowed along y and along x. */
  datatype MaxDisp = MaxDisp(y: int, x: int)

  /** The default arguments of a batch run. */
  const DefaultMaxDisp := MaxDisp(30, 50)
  const DefaultSaveDisplacement := false

  /** The step flags that only the hand-written list supplies. */
  datatype Steps = Steps(motionCorrect: bool, signalExtract: bool, npilCorrect: bool)

  /** One per-file parameter record. A discovered record has no step flags. */
  datatype FileParams = FileParams(
    fname: string,
    fdir: string,
    maxDisp: MaxDisp,
    saveDisplacement: bool,
    steps: Option<Steps>)

  /** One `(path, subdirs, files)` triple of a directory walk. */
  datatype WalkEntry = WalkEntry(path: string, subdirs: seq<string>, files: seq<string>)

  /** The file-name patterns of raw imaging files. */
  const Types: seq<string> := ["*.tif", "*.tiff", "*.h5"]

  /** Name fragments that mark files derived by earlier runs. */
  const ExcludeStrs: seq<string> := ["spatialweights", "_sima_mc", "_trim_dims", "_offset_vals"]

  // ---------------------------------------------------------------------------
  // File-name matching

  predicate HasPrefix(s: string, prefix: string) {
    |prefix| <= |s| && s[..|prefix|] == prefix
  }

  predicate HasSuffix(s: string, suffix: string) {
    |suffix| <= |s| && s[|s| - |suffix|..] == suffix
  }

  /** Python's `sub in s`: `sub` occurs in `s` at one position or another. */
  predicate Contains(s: string, sub: string)
    decreases |s|
  {
    HasPrefix(s, sub) || (|s| > 0 && Contains(s[1..], sub))
  }

  /** `sub` occurs in `s` starting at offset `k`. */
  predicate OccursAt(s: string, sub: string, k: int) {
    0 <= k && k + |sub| <= |s| && s[k..k + |sub|] == sub
  }

  /** `Contains` finds exactly the occurrences at some offset. */
  lemma {:induction false} ContainsIff(s: string, sub: string)
    ensures Contains(s, sub) <==> exists k :: OccursAt(s, sub, k)
    decreases |s|
  {
    if Contains(s, sub) {
      if HasPrefix(s, sub) {
        assert OccursAt(s, sub, 0);
      } else {
        ContainsIff(s[1..], sub);
        var k :| OccursAt(s[1..], sub, k);
        assert OccursAt(s, sub, k + 1);
      }
    }
    if exists k :: OccursAt(s, sub, k) {
      var k :| OccursAt(s, sub, k);
      if k == 0 {
        assert HasPrefix(s, sub);
      } else {
        assert OccursAt(s[1..], sub, k - 1);
        ContainsIff(s[1..], sub);
      }
    }
  }

  /** A name never contains a fragment longer than itself. */
  lemma NotContainsLonger(s: string, sub: string)
    requires |s| < |sub|
    ensures !Contains(s, sub)
  {
    ContainsIff(s, sub);
  }

  /** A pattern `*` followed by literal characters. */
  predicate IsStarPattern(pattern: string) {
    |pattern| >= 1 && pattern[0] == '*' &&
    forall k | 1 <= k < |pattern| :: pattern[k] != '*' && pattern[k] != '?' && pattern[k] != '['
  }

  /** `fnmatch(name, pattern)` for a pattern `*` + literal: the name ends with
      the literal. The match is case-sensitive. */
  predicate StarMatch(name: string, pattern: string)
    requires IsStarPattern(pattern)
  {
    HasSuffix(name, pattern[1..])
  }

  /** `any([fnmatch(name, ext) for ext in patterns])`. */
  predicate AnyMatch(name: string, patterns: seq<string>)
    requires forall k | 0 <= k < |patterns| :: IsStarPattern(patterns[k])
  {
    |patterns| > 0 && (StarMatch(name, patterns[0]) || AnyMatch(name, patterns[1..]))
  }

  /** `any([s in name for s in fragments])`. */
  predicate AnyContains(name: string, fragments: seq<string>) {
    |fragments| > 0 && (Contains(name, fragments[0]) || AnyContains(name, fragments[1..]))
  }

  /** The discovery filter: an image file name that is not a derived artifact. */
  predicate Accepted(name: string) {
    AnyMatch(name, Types) && !AnyContains(name, ExcludeStrs)
  }

  /** A name is accepted exactly when it ends in `.tif`, `.tiff` or `.h5` and
      contains none of the four fragments of derived artifacts. */
  lemma AcceptedIff(name: string)
    ensures Accepted(name) <==>
      (HasSuffix(name, ".tif") || HasSuffix(name, ".tiff") || HasSuffix(name, ".h5")) &&
      !Contains(name, "spatialweights") && !Contains(name, "_sima_mc") &&
      !Contains(name, "_trim_dims") && !Contains(name, "_offset_vals")
  {
    var t1, t2 := Types[1..], Types[2..];
    assert Types[0][1..] == ".tif" && t1[0][1..] == ".tiff" && t2[0][1..] == ".h5";
    assert t1[0] == "*.tiff" && t1[1..] == t2 && t2[0] == "*.h5" && t2[1..] == [];
    assert AnyMatch(name, t2) <==> HasSuffix(name, ".h5");
    assert AnyMatch(name, t1) <==> HasSuffix(name, ".tiff") || HasSuffix(name, ".h5");
    assert AnyMatch(name, Types) <==>
      HasSuffix(name, ".tif") || HasSuffix(name, ".tiff") || HasSuffix(name, ".h5");
    var e1, e2, e3 := ExcludeStrs[1..], ExcludeStrs[2..], ExcludeStrs[3..];
    assert e1[0] == "_sima_mc" && e1[1..] == e2 && e2[0] == "_trim_dims" && e2[1..] == e3;
    assert e3[0] == "_offset_vals" && e3[1..] == [];
    assert AnyContains(name, e3) <==> Contains(name, "_offset_vals");
    assert AnyContains(name, e2) <==> Contains(name, "_trim_dims") || Contains(name, "_offset_vals");
    assert AnyContains(name, e1) <==>
      Contains(name, "_sima_mc") || Contains(name, "_trim_dims") || Contains(name, "_offset_vals");
    assert ExcludeStrs[0] == "spatialweights";
  }

  // ---------------------------------------------------------------------------
  // Discovery

  /** The record built for an accepted file `name` in directory `path`. */
  function Record(path: string, name: string, maxDisp: MaxDisp, saveDisplacement: bool): FileParams {
    FileParams(name, path, maxDisp, saveDisplacement, None)
  }

  /** The records appended while scanning `names` of one directory, in order. */
  function DirRecords(path: string, names: seq<string>, maxDisp: MaxDisp, saveDisplacement: bool): seq<FileParams>
    decreases |names|
  {
    if names == [] then []
    else
      var name := names[|names| - 1];
      DirRecords(path, names[..|names| - 1], maxDisp, saveDisplacement) +
      (if Accepted(name) then [Record(path, name, maxDisp, saveDisplacement)] else [])
  }

  /** The records appended while scanning the whole walk, in order. */
  function Discover(walk: seq<WalkEntry>, maxDisp: MaxDisp, saveDisplacement: bool): seq<FileParams>
    decreases |walk|
  {
    if walk == [] then []
    else
      var entry := walk[|walk| - 1];
      Discover(walk[..|walk| - 1], maxDisp, saveDisplacement) +
      DirRecords(entry.path, entry.files, maxDisp, saveDisplacement)
  }

  /** The discovery loops of a batch run over the walk result. */
  method DiscoverFiles(walk: seq<WalkEntry>, maxDisp: MaxDisp, saveDisplacement: bool) returns (fparams: seq<FileParams>)
    ensures fparams == Discover(walk, maxDisp, saveDisplacement)
  {
    fparams := [];
    var d := 0;
    while d < |walk|
      invariant 0 <= d <= |walk|
      invariant fparams == Discover(walk[..d], maxDisp, saveDisplacement)
    {
      var entry := walk[d];
      var n := 0;
      while n < |entry.files|
        invariant 0 <= n <= |entry.files|
        invariant fparams == Discover(walk[..d], maxDisp, saveDisplacement) +
                             DirRecords(entry.path, entry.files[..n], maxDisp, saveDisplacement)
      {
        var name := entry.files[n];
        assert entry.files[..n + 1][..n] == entry.files[..n];
        if Accepted(name) {
          fparams := fparams + [FileParams(name, entry.path, maxDisp, saveDisplacement, None)];
        }
        n := n + 1;
      }
      assert entry.files[..n] == entry.files;
      assert walk[..d + 1][..d] == walk[..d];
      d := d + 1;
    }
    assert walk[..d] == walk;
  }

  // ---------------------------------------------------------------------------
  // An independent description of discovery: filter the flattened walk

  /** Every `(directory, name)` pair of one directory, in order. */
  function DirFiles(path: string, names: seq<string>): (pairs: seq<(string, string)>)
    ensures |pairs| == |names|
    ensures forall k | 0 <= k < |names| :: pairs[k] == (path, names[k])
  {
    seq(|names|, k requires 0 <= k < |names| => (path, names[k]))
  }

  /** Every `(directory, name)` pair of the walk: directories in walk order,
      names in listing order. */
  function WalkFiles(walk: seq<WalkEntry>): seq<(string, string)>
    decreases |walk|
  {
    if walk == [] then [] else DirFiles(walk[0].path, walk[0].files) + WalkFiles(walk[1..])
  }

  /** The pairs whose name passes the discovery filter, order kept. */
  function FilterAccepted(pairs: seq<(string, string)>): seq<(string, string)>
    decreases |pairs|
  {
    if pairs == [] then []
    else (if Accepted(pairs[0].1) then [pairs[0]] else []) + FilterAccepted(pairs[1..])
  }

  /** One record per pair. */
  function ToRecords(pairs: seq<(string, string)>, maxDisp: MaxDisp, saveDisplacement: bool): (records: seq<FileParams>)
    ensures |records| == |pairs|
    ensures forall k | 0 <= k < |pairs| :: records[k] == Record(pairs[k].0, pairs[k].1, maxDisp, saveDisplacement)
  {
    seq(|pairs|, k requires 0 <= k < |pairs| => Record(pairs[k].0, pairs[k].1, maxDisp, saveDisplacement))
  }

  lemma {:induction false} FilterAppend(a: seq<(string, string)>, b: seq<(string, string)>)
    ensures FilterAccepted(a + b) == FilterAccepted(a) + FilterAccepted(b)
    decreases |a|
  {
    if a != [] {
      assert (a + b)[1..] == a[1..] + b;
      FilterAppend(a[1..], b);
    } else {
      assert a + b == b;
    }
  }

  lemma ToRecordsAppend(a: seq<(string, string)>, b: seq<(string, string)>, maxDisp: MaxDisp, saveDisplacement: bool)
    ensures ToRecords(a + b, maxDisp, saveDisplacement) == ToRecords(a, maxDisp, saveDisplacement) + ToRecords(b, maxDisp, saveDisplacement)
  {
  }

  lemma {:induction false} WalkFilesSnoc(walk: seq<WalkEntry>, entry: WalkEntry)
    ensures WalkFiles(walk + [entry]) == WalkFiles(walk) + DirFiles(entry.path, entry.files)
    decreases |walk|
  {
    if walk == [] {
      assert [entry][1..] == [];
      assert WalkFiles(walk + [entry]) == DirFiles(entry.path, entry.files) + WalkFiles([]);
    } else {
      assert (walk + [entry])[1..] == walk[1..] + [entry];
      WalkFilesSnoc(walk[1..], entry);
    }
  }

  lemma {:induction false} DirRecordsAsFilter(path: string, names: seq<string>, maxDisp: MaxDisp, saveDisplacement: bool)
    ensures DirRecords(path, names, maxDisp, saveDisplacement) ==
            ToRecords(FilterAccepted(DirFiles(path, names)), maxDisp, saveDisplacement)
    decreases |names|
  {
    if names != [] {
      var init, name := names[..|names| - 1], names[|names| - 1];
      DirRecordsAsFilter(path, init, maxDisp, saveDisplacement);
      assert DirFiles(path, names) == DirFiles(path, init) + [(path, name)];
      FilterAppend(DirFiles(path, init), [(path, name)]);
      assert FilterAccepted([(path, name)]) == if Accepted(name) then [(path, name)] else [];
      ToRecordsAppend(FilterAccepted(DirFiles(path, init)), FilterAccepted([(path, name)]), maxDisp, saveDisplacement);
    }
  }

  /** Discovery yields exactly one record per accepted file, in walk order
      (directories in order, names in order), and none for a rejected file. */
  lemma {:induction false} DiscoverIsFilteredWalk(walk: seq<WalkEntry>, maxDisp: MaxDisp, saveDisplacement: bool)
    ensures Discover(walk, maxDisp, saveDisplacement) ==
            ToRecords(FilterAccepted(WalkFiles(walk)), maxDisp, saveDisplacement)
    decreases |walk|
  {
    if walk != [] {
      var init, entry := walk[..|walk| - 1], walk[|walk| - 1];
      DiscoverIsFilteredWalk(init, maxDisp, saveDisplacement);
      DirRecordsAsFilter(entry.path, entry.files, maxDisp, saveDisplacement);
      assert walk == init + [entry];
      WalkFilesSnoc(init, entry);
      FilterAppend(WalkFiles(init), DirFiles(entry.path, entry.files));
      ToRecordsAppend(FilterAccepted(WalkFiles(init)), FilterAccepted(DirFiles(entry.path, entry.files)), maxDisp, saveDisplacement);
    }
  }

  lemma {:induction false} FilterAcceptedMembers(pairs: seq<(string, string)>, p: (string, string))
    ensures p in FilterAccepted(pairs) <==> p in pairs && Accepted(p.1)
    decreases |pairs|
  {
    if pairs != [] {
      FilterAcceptedMembers(pairs[1..], p);
      assert pairs == [pairs[0]] + pairs[1..];
    }
  }

  lemma {:induction false} WalkFilesMembers(walk: seq<WalkEntry>, p: (string, string))
    ensures p in WalkFiles(walk) <==> exists d | 0 <= d < |walk| :: p.0 == walk[d].path && p.1 in walk[d].files
    decreases |walk|
  {
    if walk != [] {
      WalkFilesMembers(walk[1..], p);
      var here := DirFiles(walk[0].path, walk[0].files);
      assert p in here <==> p.0 == walk[0].path && p.1 in walk[0].files by {
        if p in here {
          var k :| 0 <= k < |here| && here[k] == p;
        }
        if p.0 == walk[0].path && p.1 in walk[0].files {
          var k :| 0 <= k < |walk[0].files| && walk[0].files[k] == p.1;
          assert here[k] == p;
        }
      }
      if exists d | 0 <= d < |walk| :: p.0 == walk[d].path && p.1 in walk[d].files {
        var d :| 0 <= d < |walk| && p.0 == walk[d].path && p.1 in walk[d].files;
        if d > 0 {
          assert walk[1..][d - 1] == walk[d];
        }
      }
    }
  }

  /** Every discovered record names an accepted file of a walked directory and
      carries the call's displacement arguments and no step flags; and every
      accepted file of a walked directory has its record. */
  lemma DiscoveredRecords(walk: seq<WalkEntry>, maxDisp: MaxDisp, saveDisplacement: bool, r: FileParams)
    ensures r in Discover(walk, maxDisp, saveDisplacement) <==>
      Accepted(r.fname) &&
      (exists d | 0 <= d < |walk| :: r.fdir == walk[d].path && r.fname in walk[d].files) &&
      r.maxDisp == maxDisp && r.saveDisplacement == saveDisplacement && r.steps == None
  {
    DiscoverIsFilteredWalk(walk, maxDisp, saveDisplacement);
    var pairs := FilterAccepted(WalkFiles(walk));
    var records := ToRecords(pairs, maxDisp, saveDisplacement);
    var p := (r.fdir, r.fname);
    FilterAcceptedMembers(WalkFiles(walk), p);
    WalkFilesMembers(walk, p);
    if r in records {
      var k :| 0 <= k < |records| && records[k] == r;
      assert pairs[k] == p;
    }
    if p in pairs && r.maxDisp == maxDisp && r.saveDisplacement == saveDisplacement && r.steps == None {
      var k :| 0 <= k < |pairs| && pairs[k] == p;
      assert records[k] == r;
    }
  }

  /** A name shorter than every excluded fragment is accepted exactly when it
      has an image extension. */
  lemma ShortNameAccepted(name: string)
    requires |name| < 8
    ensures Accepted(name) <==> HasSuffix(name, ".tif") || HasSuffix(name, ".tiff") || HasSuffix(name, ".h5")
  {
    NotContainsLonger(name, "spatialweights");
    NotContainsLonger(name, "_sima_mc");
    NotContainsLonger(name, "_trim_dims");
    NotContainsLonger(name, "_offset_vals");
    AcceptedIff(name);
  }

  /** One occurrence of an excluded fragment rejects a name, whatever its extension. */
  lemma FragmentRejects(name: string, fragment: string, k: int)
    requires fragment in ExcludeStrs && OccursAt(name, fragment, k)
    ensures !Accepted(name)
  {
    ContainsIff(name, fragment);
    AcceptedIff(name);
  }

  /** The example names the filter takes. */
  lemma ExampleNamesAccepted()
    ensures Accepted("a.tif") && Accepted("b.h5")
  {
    assert Accepted("a.tif") by {
      assert HasSuffix("a.tif", ".tif");
      ShortNameAccepted("a.tif");
    }
    assert Accepted("b.h5") by {
      assert HasSuffix("b.h5", ".h5");
      ShortNameAccepted("b.h5");
    }
  }

  /** The example names the filter rejects. */
  lemma ExampleNamesRejected()
    ensures !Accepted("a_sima_mc.h5") && !Accepted("a_trim_dims.h5") && !Accepted("readme.txt")
  {
    assert !Accepted("a_sima_mc.h5") by {
      assert OccursAt("a_sima_mc.h5", "_sima_mc", 1);
      FragmentRejects("a_sima_mc.h5", "_sima_mc", 1);
    }
    assert !Accepted("a_trim_dims.h5") by {
      assert OccursAt("a_trim_dims.h5", "_trim_dims", 1);
      FragmentRejects("a_trim_dims.h5", "_trim_dims", 1);
    }
    assert !Accepted("readme.txt") by {
      assert !HasSuffix("readme.txt", ".tif") && !HasSuffix("readme.txt", ".tiff") && !HasSuffix("readme.txt", ".h5");
      AcceptedIff("readme.txt");
    }
  }

  /** An example listing: of "a.tif", "a_sima_mc.h5",
      "a_trim_dims.h5", "b.h5" and "readme.txt", exactly "a.tif" and "b.h5"
      are taken, in that order. */
  lemma DiscoverExample(path: string, listing: seq<string>)
    requires listing == ["a.tif", "a_sima_mc.h5", "a_trim_dims.h5", "b.h5", "readme.txt"]
    ensures Discover([WalkEntry(path, [], listing)], DefaultMaxDisp, DefaultSaveDisplacement) ==
            [Record(path, "a.tif", DefaultMaxDisp, false), Record(path, "b.h5", DefaultMaxDisp, false)]
  {
    ExampleNamesAccepted();
    ExampleNamesRejected();
    ListingOfFive(path, listing);
  }

  /** Scanning five names of which the first and the fourth are accepted. */
  lemma ListingOfFive(path: string, names: seq<string>)
    requires |names| == 5
    requires Accepted(names[0]) && !Accepted(names[1]) && !Accepted(names[2]) && Accepted(names[3]) && !Accepted(names[4])
    ensures Discover([WalkEntry(path, [], names)], DefaultMaxDisp, DefaultSaveDisplacement) ==
            [Record(path, names[0], DefaultMaxDisp, false), Record(path, names[3], DefaultMaxDisp, false)]
  {
    var md, sd := DefaultMaxDisp, DefaultSaveDisplacement;
    var a := Record(path, names[0], md, sd);
    var b := Record(path, names[3], md, sd);
    var n1, n2, n3, n4 := names[..1], names[..2], names[..3], names[..4];
    assert n1[..0] == [] && n2[..1] == n1 && n3[..2] == n2 && n4[..3] == n3 && names[..4] == n4;
    assert DirRecords(path, n1, md, sd) == [a];
    assert DirRecords(path, n2, md, sd) == [a];
    assert DirRecords(path, n3, md, sd) == [a];
    assert DirRecords(path, n4, md, sd) == [a, b];
    assert DirRecords(path, names, md, sd) == [a, b];
    assert [WalkEntry(path, [], names)][..0] == [];
  }

  // ---------------------------------------------------------------------------
  // A batch run

  /** Where a run takes its records from: the hand-written list, or a walk
      rooted at the given path. */
  datatype Source = ManualList | Walk(root: string)

  /** An empty root directory selects the hand-written list; otherwise the
      walk starts at the root directory with a backslash appended. */
  function SourceOf(rootDir: string): (src: Source)
    ensures src == ManualList <==> rootDir == ""
    ensures src.Walk? ==> src.root == rootDir + "\\" && |src.root| == |rootDir| + 1
  {
    if rootDir == "" then ManualList else Walk(rootDir + "\\")
  }

  /** `min(cpu_count, num_files)`: never more workers than cores or files, and
      at least one worker when there are both. */
  function PoolSize(cpuCount: nat, numFiles: nat): (n: nat)
    ensures n <= cpuCount && n <= numFiles
    ensures n == cpuCount || n == numFiles
    ensures 1 <= cpuCount && 1 <= numFiles ==> 1 <= n
  {
    if cpuCount <= numFiles then cpuCount else numFiles
  }

  datatype BatchError = NoFilesToAnalyze

  /** What is handed to the pool: the work items, in order, and the pool size. */
  datatype Dispatch = Dispatch(workItems: seq<FileParams>, numProcesses: nat)

  datatype Outcome = Dispatched(plan: Dispatch) | Failed(error: BatchError)

  /** A batch run up to the hand-off to the worker pool. The directory walk is
      the function `walkOf`, applied to the walk root; the hand-written list is
      `definedParams`; the number of cores is `cpuCount`. */
  method BatchProcess(rootDir: string, walkOf: string -> seq<WalkEntry>, definedParams: seq<FileParams>,
                      cpuCount: nat, maxDisp: MaxDisp, saveDisplacement: bool)
    returns (outcome: Outcome)
    ensures rootDir == "" ==>
      (outcome.Failed? <==> definedParams == []) &&
      (outcome.Dispatched? ==> outcome.plan.workItems == definedParams)
    ensures rootDir != "" ==>
      var found := Discover(walkOf(rootDir + "\\"), maxDisp, saveDisplacement);
      (outcome.Failed? <==> found == []) &&
      (outcome.Dispatched? ==> outcome.plan.workItems == found)
    ensures outcome.Failed? ==> outcome.error == NoFilesToAnalyze
    ensures outcome.Dispatched? ==>
      outcome.plan.numProcesses == PoolSize(cpuCount, |outcome.plan.workItems|)
    ensures outcome.Dispatched? && 1 <= cpuCount ==>
      1 <= outcome.plan.numProcesses <= |outcome.plan.workItems|
  {
    var fparams: seq<FileParams>;
    match SourceOf(rootDir) {
      case ManualList =>
        fparams := definedParams;
      case Walk(root) =>
        fparams := DiscoverFiles(walkOf(root), maxDisp, saveDisplacement);
    }
    var numFiles := |fparams|;
    if numFiles == 0 {
      return Failed(NoFilesToAnalyze);
    }
    var numProcesses := PoolSize(cpuCount, numFiles);
    outcome := Dispatched(Dispatch(fparams, numProcesses));
  }

  /** `batch_process(fdir)`, the script's call: a batch run with the default
      arguments. Every discovered record asks for a displacement bound of
      (30, 50) and no saved displacements. */
  method BatchProcessWithDefaults(rootDir: string, walkOf: string -> seq<WalkEntry>, definedParams: seq<FileParams>, cpuCount: nat)
    returns (outcome: Outcome)
    ensures rootDir == "" ==>
      (outcome.Failed? <==> definedParams == []) &&
      (outcome.Dispatched? ==> outcome.plan.workItems == definedParams)
    ensures rootDir != "" ==>
      var found := Discover(walkOf(rootDir + "\\"), DefaultMaxDisp, DefaultSaveDisplacement);
      (outcome.Failed? <==> found == []) &&
      (outcome.Dispatched? ==> outcome.plan.workItems == found)
    ensures rootDir != "" && outcome.Dispatched? ==>
      forall r | r in outcome.plan.workItems ::
        r.maxDisp == MaxDisp(30, 50) && !r.saveDisplacement && r.steps == None
    ensures outcome.Failed? ==> outcome.error == NoFilesToAnalyze
    ensures outcome.Dispatched? ==>
      outcome.plan.numProcesses == PoolSize(cpuCount, |outcome.plan.workItems|)
    ensures outcome.Dispatched? && 1 <= cpuCount ==>
      1 <= outcome.plan.numProcesses <= |outcome.plan.workItems|
  {
    outcome := BatchProcess(rootDir, walkOf, definedParams, cpuCount, DefaultMaxDisp, DefaultSaveDisplacement);
    if rootDir != "" && outcome.Dispatched? {
      forall r | r in outcome.plan.workItems
        ensures r.maxDisp == MaxDisp(30, 50) && !r.saveDisplacement && r.steps == None
      {
        DiscoveredRecords(walkOf(rootDir + "\\"), DefaultMaxDisp, DefaultSaveDisplacement, r);
      }
    }
  }
}
