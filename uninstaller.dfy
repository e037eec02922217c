/**
 * The deletion engine: measuring directories, planning which paths belong to
 * a game, and removing them one game at a time.
 *
 * The filesystem is the field of a `Disk`, which the removals change in place.
 * Exceptions are injected: `statFaults` names the entries whose stat() raises
 * and `removeFaults` the planned paths whose unlink() or rmtree() raises, each
 * with the class of the exception and its message.
 */
module Uninstaller {
  import opened Wrappers
  import opened Paths
  import opened Steam

  /** The class of an exception; PermissionError is an OSError that is caught first. */
  datatype FaultKind = Permission | OsFailure | Unexpected

  datatype Fault = Fault(kind: FaultKind, message: string)

  /**
   * The entries whose stat() raises, with what it raises: Path.stat() raises
   * an OSError (PermissionError included), never another exception.
   */
  type StatFaults = m: map<Path, Fault> | forall p :: p in m ==> m[p].kind != Unexpected witness map[]

  /** The error text of a failed uninstall, as each except clause formats it. */
  function ErrorText(f: Fault): string {
    match f.kind
    case Permission => "Permission denied: " + f.message
    case OsFailure => "OS error: " + f.message
    case Unexpected => f.message
  }

  /** The result of uninstalling one game. */
  datatype UninstallResult = UninstallResult(game: SteamGame, success: bool, error: Option<string>, bytesFreed: int)

  /** The summary of a batch of uninstalls. */
  datatype UninstallSummary = UninstallSummary(
    totalGames: int,
    successful: int,
    failed: int,
    totalBytesFreed: int,
    results: seq<UninstallResult>)
  {
    predicate AllSuccessful() {
      failed == 0
    }
  }

  // ---------------------------------------------------------------------------
  // get_dir_size
  // ---------------------------------------------------------------------------

  /** What get_dir_size adds for one entry: a file's size, or 0 for a directory or a file whose stat() raises. */
  function FileSize(fs: Fs, statFaults: StatFaults, q: Path): nat {
    if q in fs && fs[q].File? && q !in statFaults then fs[q].size else 0
  }

  /** The sizes of the entries `qs`, added up in any order. */
  ghost function SizeOver(fs: Fs, statFaults: StatFaults, qs: set<Path>): nat
    decreases qs
  {
    if qs == {} then 0
    else
      var q :| q in qs;
      FileSize(fs, statFaults, q) + SizeOver(fs, statFaults, qs - {q})
  }

  /** The order of addition does not matter: any entry can be taken first. */
  lemma {:induction false} SizeOverRemove(fs: Fs, statFaults: StatFaults, qs: set<Path>, q: Path)
    requires q in qs
    ensures SizeOver(fs, statFaults, qs) == FileSize(fs, statFaults, q) + SizeOver(fs, statFaults, qs - {q})
    decreases qs
  {
    var q' :| q' in qs && SizeOver(fs, statFaults, qs) == FileSize(fs, statFaults, q') + SizeOver(fs, statFaults, qs - {q'});
    if q' != q {
      SizeOverRemove(fs, statFaults, qs - {q'}, q);
      SizeOverRemove(fs, statFaults, qs - {q}, q');
      assert qs - {q'} - {q} == qs - {q} - {q'};
    }
  }

  /** The sizes of two disjoint sets of entries add up. */
  lemma {:induction false} SizeOverUnion(fs: Fs, statFaults: StatFaults, a: set<Path>, b: set<Path>)
    requires a !! b
    ensures SizeOver(fs, statFaults, a + b) == SizeOver(fs, statFaults, a) + SizeOver(fs, statFaults, b)
    decreases a
  {
    if a != {} {
      var q :| q in a;
      SizeOverRemove(fs, statFaults, a, q);
      SizeOverRemove(fs, statFaults, a + b, q);
      assert a + b - {q} == (a - {q}) + b;
      SizeOverUnion(fs, statFaults, a - {q}, b);
    } else {
      assert a + b == b;
    }
  }

  /** Entries that add nothing add up to nothing. */
  lemma {:induction false} SizeOverZero(fs: Fs, statFaults: StatFaults, qs: set<Path>)
    requires forall q :: q in qs ==> FileSize(fs, statFaults, q) == 0
    ensures SizeOver(fs, statFaults, qs) == 0
    decreases qs
  {
    if qs != {} {
      var q :| q in qs;
      SizeOverRemove(fs, statFaults, qs, q);
      SizeOverZero(fs, statFaults, qs - {q});
    }
  }

  /** Two filesystems that agree on every entry's size agree on the total. */
  lemma {:induction false} SizeOverFrame(fs: Fs, fs': Fs, statFaults: StatFaults, qs: set<Path>)
    requires forall q :: q in qs ==> FileSize(fs, statFaults, q) == FileSize(fs', statFaults, q)
    ensures SizeOver(fs, statFaults, qs) == SizeOver(fs', statFaults, qs)
    decreases qs
  {
    if qs != {} {
      var q :| q in qs;
      SizeOverRemove(fs, statFaults, qs, q);
      SizeOverRemove(fs', statFaults, qs, q);
      SizeOverFrame(fs, fs', statFaults, qs - {q});
    }
  }

  /** get_dir_size: 0 for a missing path, else the sizes of everything beneath it. */
  ghost function DirSize(fs: Fs, statFaults: StatFaults, path: Path): nat {
    if path !in fs then 0 else SizeOver(fs, statFaults, Descendants(fs, path))
  }

  /** The files beneath `path` whose stat() succeeds. */
  ghost function ReadableFiles(fs: Fs, statFaults: StatFaults, path: Path): set<Path> {
    set q | q in Descendants(fs, path) && fs[q].File? && q !in statFaults
  }

  /**
   * The size of an existing directory is the sum of the sizes of the files
   * beneath it that can be read; the others are skipped.
   */
  lemma DirSizeReadable(fs: Fs, statFaults: StatFaults, path: Path)
    requires path in fs
    ensures DirSize(fs, statFaults, path) == SizeOver(fs, statFaults, ReadableFiles(fs, statFaults, path))
  {
    var all := Descendants(fs, path);
    var readable := ReadableFiles(fs, statFaults, path);
    SizeOverZero(fs, statFaults, all - readable);
    SizeOverUnion(fs, statFaults, readable, all - readable);
    assert readable + (all - readable) == all;
  }

  // ---------------------------------------------------------------------------
  // get_game_paths
  // ---------------------------------------------------------------------------

  /** A path to delete and what it is. */
  datatype Planned = Planned(path: Path, description: string)

  /** Rank of each description in the plan's fixed order. */
  function Rank(description: string): nat {
    if description == "manifest" then 0
    else if description == "game files" then 1
    else if description == "Proton data" then 2
    else 3
  }

  /** get_game_paths: the paths of a game, in a fixed order. */
  function GamePaths(fs: Fs, game: SteamGame): (r: seq<Planned>)
    ensures 1 <= |r| <= 4 && r[0] == Planned(game.ManifestPath(), "manifest")
  {
    [Planned(game.ManifestPath(), "manifest")]
    + (if game.GamePath() in fs then [Planned(game.GamePath(), "game files")] else [])
    + (if game.hasCompatdata && game.CompatdataPath() in fs then [Planned(game.CompatdataPath(), "Proton data")] else [])
    + (if game.hasShadercache && game.ShadercachePath() in fs then [Planned(game.ShadercachePath(), "shader cache")] else [])
  }

  /**
   * Every path after the manifest exists, and the entries come in the fixed
   * order manifest, game files, Proton data, shader cache.
   */
  lemma GamePathsOrder(fs: Fs, game: SteamGame)
    ensures var r := GamePaths(fs, game);
      && (forall i :: 1 <= i < |r| ==> r[i].path in fs)
      && (forall i, j :: 0 <= i < j < |r| ==> Rank(r[i].description) < Rank(r[j].description))
  {
    var m := [Planned(game.ManifestPath(), "manifest")];
    var a := if game.GamePath() in fs then [Planned(game.GamePath(), "game files")] else [];
    var b := if game.hasCompatdata && game.CompatdataPath() in fs then [Planned(game.CompatdataPath(), "Proton data")] else [];
    var c := if game.hasShadercache && game.ShadercachePath() in fs then [Planned(game.ShadercachePath(), "shader cache")] else [];
    var r := GamePaths(fs, game);
    assert r == m + a + b + c;
    forall i | 1 <= i < |r| ensures r[i].path in fs {
      RankAt(fs, m, a, b, c, i);
    }
    forall i, j | 0 <= i < j < |r| ensures Rank(r[i].description) < Rank(r[j].description) {
      RankAt(fs, m, a, b, c, i);
      RankAt(fs, m, a, b, c, j);
    }
  }

  /**
   * The game folder is planned exactly when it exists; the Proton data and
   * the shader cache exactly when the game has them and they exist.
   */
  lemma GamePathsIncludes(fs: Fs, game: SteamGame)
    ensures var r := GamePaths(fs, game);
      && (Planned(game.GamePath(), "game files") in r <==> game.GamePath() in fs)
      && (Planned(game.CompatdataPath(), "Proton data") in r <==> game.hasCompatdata && game.CompatdataPath() in fs)
      && (Planned(game.ShadercachePath(), "shader cache") in r <==> game.hasShadercache && game.ShadercachePath() in fs)
  {
    var m := [Planned(game.ManifestPath(), "manifest")];
    var a := if game.GamePath() in fs then [Planned(game.GamePath(), "game files")] else [];
    var b := if game.hasCompatdata && game.CompatdataPath() in fs then [Planned(game.CompatdataPath(), "Proton data")] else [];
    var c := if game.hasShadercache && game.ShadercachePath() in fs then [Planned(game.ShadercachePath(), "shader cache")] else [];
    var r := GamePaths(fs, game);
    assert r == m + a + b + c;
    assert forall x :: x in r <==> x in m || x in a || x in b || x in c;
  }

  /** The rank of an entry of the plan is that of the part it comes from, and the parts come in rank order. */
  lemma RankAt(fs: Fs, m: seq<Planned>, a: seq<Planned>, b: seq<Planned>, c: seq<Planned>, i: int)
    requires |m| == 1 && m[0].description == "manifest"
    requires forall x :: x in a + b + c ==> x.path in fs
    requires |a| <= 1 && (|a| == 1 ==> a[0].description == "game files")
    requires |b| <= 1 && (|b| == 1 ==> b[0].description == "Proton data")
    requires |c| <= 1 && (|c| == 1 ==> c[0].description == "shader cache")
    requires 0 <= i < |m + a + b + c|
    ensures var r := m + a + b + c;
      && Rank(r[i].description) == (if i == 0 then 0 else if i < 1 + |a| then 1 else if i < 1 + |a| + |b| then 2 else 3)
      && (i > 0 ==> r[i].path in fs)
  {
    if i > 0 {
      assert (m + a + b + c)[i] == (a + b + c)[i - 1];
    }
  }

  function PathsOf(plan: seq<Planned>): (r: seq<Path>)
    ensures |r| == |plan| && forall i :: 0 <= i < |plan| ==> r[i] == plan[i].path
  {
    seq(|plan|, i requires 0 <= i < |plan| => plan[i].path)
  }

  /** No path of the plan lies inside another, or is another. */
  predicate Separate(paths: seq<Path>) {
    forall i, j :: 0 <= i < |paths| && 0 <= j < |paths| && i != j ==> !(paths[i] <= paths[j])
  }

  /**
   * When neither the install directory nor the app id is absolute, the
   * planned paths lie in different areas of steamapps, so none contains
   * another.
   */
  lemma PlanSeparate(fs: Fs, game: SteamGame)
    requires !IsAbsolute(game.installDir) && !IsAbsolute(game.appid)
    ensures Separate(PathsOf(GamePaths(fs, game)))
  {
    var sa := game.SteamApps();
    var plan := GamePaths(fs, game);
    var paths := PathsOf(plan);
    GamePathsOrder(fs, game);
    forall i, j | 0 <= i < |paths| && 0 <= j < |paths| && i != j
      ensures !(paths[i] <= paths[j])
    {
      PlannedArea(fs, game, i);
      PlannedArea(fs, game, j);
      var hi, hj := paths[i][|sa|], paths[j][|sa|];
      if Rank(plan[i].description) == 0 || Rank(plan[j].description) == 0 {
        assert !Text.StartsWith("common", "appmanifest_");
        assert !Text.StartsWith("compatdata", "appmanifest_");
        assert !Text.StartsWith("shadercache", "appmanifest_");
      }
      assert hi != hj;
    }
  }

  /** The component after steamapps names the area of each planned path. */
  lemma PlannedArea(fs: Fs, game: SteamGame, i: int)
    requires !IsAbsolute(game.installDir) && !IsAbsolute(game.appid)
    requires 0 <= i < |GamePaths(fs, game)|
    ensures var sa := game.SteamApps();
      var e := GamePaths(fs, game)[i];
      && sa < e.path
      && (Rank(e.description) == 0 ==> Text.StartsWith(e.path[|sa|], "appmanifest_"))
      && (Rank(e.description) == 1 ==> e.path[|sa|] == "common")
      && (Rank(e.description) == 2 ==> e.path[|sa|] == "compatdata")
      && (Rank(e.description) == 3 ==> e.path[|sa|] == "shadercache")
  {
    var plan := GamePaths(fs, game);
    assert plan[i] in plan;
  }

  // ---------------------------------------------------------------------------
  // calculate_total_size
  // ---------------------------------------------------------------------------

  /** What one game adds: the size its manifest reports plus its measured Proton data and shader cache. */
  ghost function GameSize(fs: Fs, statFaults: StatFaults, game: SteamGame): int {
    game.sizeOnDisk
    + (if game.hasCompatdata then DirSize(fs, statFaults, game.CompatdataPath()) else 0)
    + (if game.hasShadercache then DirSize(fs, statFaults, game.ShadercachePath()) else 0)
  }

  ghost function TotalSize(fs: Fs, statFaults: StatFaults, games: seq<SteamGame>): int {
    if games == [] then 0 else GameSize(fs, statFaults, games[0]) + TotalSize(fs, statFaults, games[1..])
  }

  /** The total of two lists of games is the sum of their totals. */
  lemma {:induction false} TotalSizeAppend(fs: Fs, statFaults: StatFaults, a: seq<SteamGame>, b: seq<SteamGame>)
    ensures TotalSize(fs, statFaults, a + b) == TotalSize(fs, statFaults, a) + TotalSize(fs, statFaults, b)
  {
    if a != [] {
      assert (a + b)[1..] == a[1..] + b;
      TotalSizeAppend(fs, statFaults, a[1..], b);
    } else {
      assert a + b == b;
    }
  }

  /** The total never falls below what the manifests report. */
  lemma {:induction false} TotalSizeReported(fs: Fs, statFaults: StatFaults, games: seq<SteamGame>)
    ensures TotalSize(fs, statFaults, games) >= ReportedSize(games)
  {
    if games != [] {
      TotalSizeReported(fs, statFaults, games[1..]);
    }
  }

  function ReportedSize(games: seq<SteamGame>): int {
    if games == [] then 0 else games[0].sizeOnDisk + ReportedSize(games[1..])
  }

  // ---------------------------------------------------------------------------
  // uninstall_game
  // ---------------------------------------------------------------------------

  /** unlink() of a file, rmtree() of a directory. */
  function Removed(fs: Fs, p: Path): (r: Fs)
    requires p in fs
    ensures forall q :: q in r <==> q in fs && q != p && !(fs[p].Dir? && p < q)
    ensures forall q :: q in r ==> r[q] == fs[q]
  {
    if fs[p].File? then fs - {p} else fs - ({p} + Descendants(fs, p))
  }

  /** The size counted for an existing planned path: stat() of a file, get_dir_size of a directory. */
  ghost function Measure(fs: Fs, statFaults: StatFaults, p: Path): int {
    if p !in fs then 0
    else if fs[p].File? then fs[p].size
    else DirSize(fs, statFaults, p)
  }

  /** How far processing a plan went: the filesystem, the bytes counted and the exception that ended it. */
  datatype Run = Run(fs: Fs, bytesFreed: int, fault: Option<Fault>)

  /**
   * The loop of uninstall_game over the planned paths: a missing path is
   * skipped; an existing one is measured, removed unless this is a dry run,
   * and counted; the first exception ends the loop.
   */
  ghost function Process(fs: Fs, statFaults: StatFaults, removeFaults: map<Path, Fault>, plan: seq<Path>, dryRun: bool): Run
    decreases |plan|
  {
    if plan == [] then Run(fs, 0, None)
    else
      var p := plan[0];
      if p !in fs then Process(fs, statFaults, removeFaults, plan[1..], dryRun)
      else if fs[p].File? && p in statFaults then Run(fs, 0, Some(statFaults[p]))
      else if !dryRun && p in removeFaults then Run(fs, 0, Some(removeFaults[p]))
      else
        var rest := Process(if dryRun then fs else Removed(fs, p), statFaults, removeFaults, plan[1..], dryRun);
        Run(rest.fs, Measure(fs, statFaults, p) + rest.bytesFreed, rest.fault)
  }

  /** The same run with `bytes` more counted before it. */
  function Credit(bytes: int, run: Run): Run {
    Run(run.fs, bytes + run.bytesFreed, run.fault)
  }

  /** The result uninstall_game returns for a run. */
  function ResultOf(game: SteamGame, run: Run): (r: UninstallResult)
    ensures r.game == game && r.bytesFreed == run.bytesFreed
    ensures r.success <==> run.fault.None?
    ensures r.error.None? <==> run.fault.None?
  {
    match run.fault
    case None => UninstallResult(game, true, None, run.bytesFreed)
    case Some(f) => UninstallResult(game, false, Some(ErrorText(f)), run.bytesFreed)
  }

  /** A failed uninstall reports the class of its exception in the prefix of its message. */
  lemma ResultOfFault(game: SteamGame, run: Run)
    requires run.fault.Some?
    ensures var r := ResultOf(game, run);
      && !r.success && r.error.Some?
      && (run.fault.value.kind == Permission ==> Text.StartsWith(r.error.value, "Permission denied: "))
      && (run.fault.value.kind == OsFailure ==> Text.StartsWith(r.error.value, "OS error: "))
      && (run.fault.value.kind == Unexpected ==> r.error.value == run.fault.value.message)
  {
  }

  /** Processing the existing path `p` raises: stat() of a file, or its removal in a live run. */
  ghost predicate Faulty(fs: Fs, statFaults: StatFaults, removeFaults: map<Path, Fault>, p: Path, dryRun: bool) {
    p in fs && ((fs[p].File? && p in statFaults) || (!dryRun && p in removeFaults))
  }

  /** The exception raised at a faulty path; stat() comes before the removal. */
  ghost function FaultAt(fs: Fs, statFaults: StatFaults, removeFaults: map<Path, Fault>, p: Path, dryRun: bool): Fault
    requires Faulty(fs, statFaults, removeFaults, p, dryRun)
  {
    if fs[p].File? && p in statFaults then statFaults[p] else removeFaults[p]
  }

  /** The index of the first faulty path of the plan, or its length when there is none. */
  ghost function FirstFault(fs: Fs, statFaults: StatFaults, removeFaults: map<Path, Fault>, plan: seq<Path>, dryRun: bool): (k: nat)
    ensures k <= |plan|
    ensures k < |plan| ==> Faulty(fs, statFaults, removeFaults, plan[k], dryRun)
  {
    if plan == [] then 0
    else if Faulty(fs, statFaults, removeFaults, plan[0], dryRun) then 0
    else 1 + FirstFault(fs, statFaults, removeFaults, plan[1..], dryRun)
  }

  /** FirstFault is the first faulty index: every path before it is processed without an exception. */
  lemma {:induction false} FirstFaultIsFirst(fs: Fs, statFaults: StatFaults, removeFaults: map<Path, Fault>, plan: seq<Path>, dryRun: bool)
    ensures var k := FirstFault(fs, statFaults, removeFaults, plan, dryRun);
      forall j :: 0 <= j < k ==> !Faulty(fs, statFaults, removeFaults, plan[j], dryRun)
  {
    if plan != [] && !Faulty(fs, statFaults, removeFaults, plan[0], dryRun) {
      FirstFaultIsFirst(fs, statFaults, removeFaults, plan[1..], dryRun);
      assert forall j :: 1 <= j < |plan| ==> plan[j] == plan[1..][j - 1];
    }
  }

  /** The sizes of the planned paths, each measured on the filesystem as given. */
  ghost function Measured(fs: Fs, statFaults: StatFaults, plan: seq<Path>): int {
    if plan == [] then 0 else Measure(fs, statFaults, plan[0]) + Measured(fs, statFaults, plan[1..])
  }

  /** `q` goes with one of the existing planned paths: it is that path, or lies beneath a planned directory. */
  ghost predicate Covered(fs: Fs, plan: seq<Path>, q: Path) {
    exists i :: 0 <= i < |plan| && plan[i] in fs && (plan[i] == q || (fs[plan[i]].Dir? && plan[i] < q))
  }

  /** The filesystem without the planned files and the planned directories' subtrees. */
  ghost function Cleared(fs: Fs, plan: seq<Path>): Fs {
    map q | q in fs && !Covered(fs, plan, q) :: fs[q]
  }

  /** Two paths that are both prefixes of a third are prefixes one of the other. */
  lemma PrefixesComparable(a: Path, b: Path, r: Path)
    requires a <= r && b <= r
    ensures a <= b || b <= a
  {
    if |a| <= |b| {
      assert a == r[..|a|] && b[..|a|] == r[..|a|];
    } else {
      assert b == r[..|b|] && a[..|b|] == r[..|b|];
    }
  }

  /** The entry `q` is the same on both filesystems. */
  ghost predicate SameEntry(fs: Fs, fs': Fs, q: Path) {
    (q in fs <==> q in fs') && (q in fs ==> fs[q] == fs'[q])
  }

  /** Removing `p` leaves a path that is neither above nor beneath it as it was, down to its measured size. */
  lemma RemovedFrame(fs: Fs, statFaults: StatFaults, p: Path, q: Path)
    requires p in fs && !(p <= q) && !(q <= p)
    ensures SameEntry(fs, Removed(fs, p), q)
    ensures Measure(Removed(fs, p), statFaults, q) == Measure(fs, statFaults, q)
  {
    var fs' := Removed(fs, p);
    if q in fs && fs[q].Dir? {
      forall r | r in Descendants(fs, q) ensures r in fs' {
        if fs[p].Dir? && p < r {
          PrefixesComparable(p, q, r);
        }
      }
      assert Descendants(fs', q) == Descendants(fs, q);
      SizeOverFrame(fs, fs', statFaults, Descendants(fs, q));
    }
  }

  /** Faults depend only on the planned entries. */
  lemma {:induction false} FirstFaultFrame(fs: Fs, fs': Fs, statFaults: StatFaults, removeFaults: map<Path, Fault>, plan: seq<Path>, dryRun: bool)
    requires forall i :: 0 <= i < |plan| ==> SameEntry(fs, fs', plan[i])
    ensures var k := FirstFault(fs, statFaults, removeFaults, plan, dryRun);
      && k == FirstFault(fs', statFaults, removeFaults, plan, dryRun)
      && (k < |plan| ==> FaultAt(fs, statFaults, removeFaults, plan[k], dryRun) == FaultAt(fs', statFaults, removeFaults, plan[k], dryRun))
  {
    if plan != [] {
      FaultyFrame(fs, fs', statFaults, removeFaults, plan[0], dryRun);
      if !Faulty(fs, statFaults, removeFaults, plan[0], dryRun) {
        var rest := plan[1..];
        forall i | 0 <= i < |rest| ensures SameEntry(fs, fs', rest[i]) {
          assert rest[i] == plan[i + 1];
        }
        FirstFaultFrame(fs, fs', statFaults, removeFaults, rest, dryRun);
        var k := FirstFault(fs, statFaults, removeFaults, rest, dryRun);
        if k < |rest| {
          assert rest[k] == plan[k + 1];
        }
      }
    }
  }

  /** Whether a path raises, and what, depends only on its own entry. */
  lemma FaultyFrame(fs: Fs, fs': Fs, statFaults: StatFaults, removeFaults: map<Path, Fault>, p: Path, dryRun: bool)
    requires SameEntry(fs, fs', p)
    ensures Faulty(fs, statFaults, removeFaults, p, dryRun) == Faulty(fs', statFaults, removeFaults, p, dryRun)
    ensures Faulty(fs, statFaults, removeFaults, p, dryRun) ==>
      FaultAt(fs, statFaults, removeFaults, p, dryRun) == FaultAt(fs', statFaults, removeFaults, p, dryRun)
  {
  }

  /** Sizes depend only on the planned entries' measures. */
  lemma {:induction false} MeasuredFrame(fs: Fs, fs': Fs, statFaults: StatFaults, plan: seq<Path>)
    requires forall i :: 0 <= i < |plan| ==> Measure(fs, statFaults, plan[i]) == Measure(fs', statFaults, plan[i])
    ensures Measured(fs, statFaults, plan) == Measured(fs', statFaults, plan)
  {
    if plan != [] {
      MeasuredFrame(fs, fs', statFaults, plan[1..]);
    }
  }

  /** Clearing `p` first and then the rest is clearing all of them. */
  lemma ClearedStep(fs: Fs, p: Path, rest: seq<Path>)
    requires p in fs
    requires forall i :: 0 <= i < |rest| ==> SameEntry(fs, Removed(fs, p), rest[i])
    ensures Cleared(Removed(fs, p), rest) == Cleared(fs, [p] + rest)
  {
    var fs' := Removed(fs, p);
    forall q | q in fs'
      ensures Covered(fs', rest, q) <==> Covered(fs, rest, q)
    {
      CoveredFrame(fs, fs', rest, q);
    }
    forall q | q in fs
      ensures Covered(fs, [p] + rest, q) <==> (q == p || (fs[p].Dir? && p < q)) || Covered(fs, rest, q)
    {
      CoveredCons(fs, p, rest, q);
    }
  }

  /** Whether a path is covered depends only on the planned entries. */
  lemma CoveredFrame(fs: Fs, fs': Fs, rest: seq<Path>, q: Path)
    requires forall i :: 0 <= i < |rest| ==> SameEntry(fs, fs', rest[i])
    ensures Covered(fs', rest, q) <==> Covered(fs, rest, q)
  {
    if Covered(fs', rest, q) {
      var i :| 0 <= i < |rest| && rest[i] in fs' && (rest[i] == q || (fs'[rest[i]].Dir? && rest[i] < q));
      assert SameEntry(fs, fs', rest[i]);
    }
    if Covered(fs, rest, q) {
      var i :| 0 <= i < |rest| && rest[i] in fs && (rest[i] == q || (fs[rest[i]].Dir? && rest[i] < q));
      assert SameEntry(fs, fs', rest[i]);
    }
  }

  /** A path is covered by a plan when the first planned path covers it or the rest of the plan does. */
  lemma CoveredCons(fs: Fs, p: Path, rest: seq<Path>, q: Path)
    requires p in fs
    ensures Covered(fs, [p] + rest, q) <==> (q == p || (fs[p].Dir? && p < q)) || Covered(fs, rest, q)
  {
    var plan := [p] + rest;
    if Covered(fs, plan, q) {
      var i :| 0 <= i < |plan| && plan[i] in fs && (plan[i] == q || (fs[plan[i]].Dir? && plan[i] < q));
      if i > 0 {
        assert plan[i] == rest[i - 1];
      }
    }
    if Covered(fs, rest, q) {
      var i :| 0 <= i < |rest| && rest[i] in fs && (rest[i] == q || (fs[rest[i]].Dir? && rest[i] < q));
      assert plan[i + 1] == rest[i];
    }
    if q == p || (fs[p].Dir? && p < q) {
      assert plan[0] == p;
    }
  }

  /** Clearing nothing changes nothing. */
  lemma ClearedNothing(fs: Fs)
    ensures Cleared(fs, []) == fs
  {
  }

  /** The filesystem after processing the existing path `p` without a fault. */
  function Next(fs: Fs, p: Path, dryRun: bool): Fs {
    if p in fs && !dryRun then Removed(fs, p) else fs
  }

  /** A path that does not raise is counted and then the rest of the plan is processed on what it leaves. */
  lemma ProcessStep(fs: Fs, statFaults: StatFaults, removeFaults: map<Path, Fault>, plan: seq<Path>, dryRun: bool)
    requires plan != [] && !Faulty(fs, statFaults, removeFaults, plan[0], dryRun)
    ensures Process(fs, statFaults, removeFaults, plan, dryRun)
            == Credit(Measure(fs, statFaults, plan[0]), Process(Next(fs, plan[0], dryRun), statFaults, removeFaults, plan[1..], dryRun))
  {
  }

  /** A missing path clears nothing. */
  lemma ClearedSkip(fs: Fs, p: Path, rest: seq<Path>)
    requires p !in fs
    ensures Cleared(fs, [p] + rest) == Cleared(fs, rest)
  {
    var plan := [p] + rest;
    forall q | q in fs ensures Covered(fs, plan, q) <==> Covered(fs, rest, q) {
      if Covered(fs, plan, q) {
        var i :| 0 <= i < |plan| && plan[i] in fs && (plan[i] == q || (fs[plan[i]].Dir? && plan[i] < q));
        assert i > 0 && plan[i] == rest[i - 1];
      }
      if Covered(fs, rest, q) {
        var i :| 0 <= i < |rest| && rest[i] in fs && (rest[i] == q || (fs[rest[i]].Dir? && rest[i] < q));
        assert plan[i + 1] == rest[i];
      }
    }
  }

  lemma TakeCons(plan: seq<Path>, k: nat)
    requires k < |plan|
    ensures plan[..k + 1] == [plan[0]] + plan[1..][..k]
  {
  }

  /** The tail of a plan whose paths are separate is separate. */
  lemma SeparateTail(plan: seq<Path>)
    requires plan != [] && Separate(plan)
    ensures Separate(plan[1..])
    ensures forall i :: 1 <= i < |plan| ==> !(plan[0] <= plan[i]) && !(plan[i] <= plan[0])
  {
    var rest := plan[1..];
    forall i, j | 0 <= i < |rest| && 0 <= j < |rest| && i != j ensures !(rest[i] <= rest[j]) {
      assert rest[i] == plan[i + 1] && rest[j] == plan[j + 1];
    }
  }

  /** The paths after `plan[0]` are as they were once it has been processed. */
  lemma NextFrame(fs: Fs, statFaults: StatFaults, plan: seq<Path>, dryRun: bool)
    requires plan != [] && Separate(plan)
    ensures var fs', rest := Next(fs, plan[0], dryRun), plan[1..];
      forall i :: 0 <= i < |rest| ==> SameEntry(fs, fs', rest[i]) && Measure(fs', statFaults, rest[i]) == Measure(fs, statFaults, rest[i])
  {
    SeparateTail(plan);
    var rest := plan[1..];
    forall i | 0 <= i < |rest|
      ensures SameEntry(fs, Next(fs, plan[0], dryRun), rest[i])
      ensures Measure(Next(fs, plan[0], dryRun), statFaults, rest[i]) == Measure(fs, statFaults, rest[i])
    {
      assert rest[i] == plan[i + 1];
      if plan[0] in fs && !dryRun {
        RemovedFrame(fs, statFaults, plan[0], rest[i]);
      }
    }
  }

  /**
   * The loop of uninstall_game over paths none of which lies inside another
   * stops at the first path that raises, with that exception.
   */
  lemma {:induction false} ProcessStops(fs: Fs, statFaults: StatFaults, removeFaults: map<Path, Fault>, plan: seq<Path>, dryRun: bool)
    requires Separate(plan)
    ensures var k := FirstFault(fs, statFaults, removeFaults, plan, dryRun);
      Process(fs, statFaults, removeFaults, plan, dryRun).fault
        == (if k < |plan| then Some(FaultAt(fs, statFaults, removeFaults, plan[k], dryRun)) else None)
    decreases |plan|
  {
    if plan != [] && !Faulty(fs, statFaults, removeFaults, plan[0], dryRun) {
      var rest := plan[1..];
      var fs' := Next(fs, plan[0], dryRun);
      ProcessStep(fs, statFaults, removeFaults, plan, dryRun);
      SeparateTail(plan);
      NextFrame(fs, statFaults, plan, dryRun);
      ProcessStops(fs', statFaults, removeFaults, rest, dryRun);
      FirstFaultFrame(fs, fs', statFaults, removeFaults, rest, dryRun);
      var k' := FirstFault(fs, statFaults, removeFaults, rest, dryRun);
      if k' < |rest| {
        assert plan[k' + 1] == rest[k'];
      }
    }
  }

  /**
   * The same loop counts the measured size of every existing path before the
   * first that raises.
   */
  lemma {:induction false} ProcessCounts(fs: Fs, statFaults: StatFaults, removeFaults: map<Path, Fault>, plan: seq<Path>, dryRun: bool)
    requires Separate(plan)
    ensures Process(fs, statFaults, removeFaults, plan, dryRun).bytesFreed
            == Measured(fs, statFaults, plan[..FirstFault(fs, statFaults, removeFaults, plan, dryRun)])
    decreases |plan|
  {
    if plan != [] && !Faulty(fs, statFaults, removeFaults, plan[0], dryRun) {
      var p, rest := plan[0], plan[1..];
      var fs' := Next(fs, p, dryRun);
      assert Process(fs, statFaults, removeFaults, plan, dryRun).bytesFreed
             == Measure(fs, statFaults, p) + Process(fs', statFaults, removeFaults, rest, dryRun).bytesFreed by {
        ProcessStep(fs, statFaults, removeFaults, plan, dryRun);
      }
      assert Separate(rest) by {
        SeparateTail(plan);
      }
      ProcessCounts(fs', statFaults, removeFaults, rest, dryRun);
      var k' := FirstFault(fs, statFaults, removeFaults, rest, dryRun);
      var done := rest[..k'];
      assert FirstFault(fs', statFaults, removeFaults, rest, dryRun) == k' by {
        NextFrame(fs, statFaults, plan, dryRun);
        FirstFaultFrame(fs, fs', statFaults, removeFaults, rest, dryRun);
      }
      assert Measured(fs', statFaults, done) == Measured(fs, statFaults, done) by {
        NextFrame(fs, statFaults, plan, dryRun);
        forall i | 0 <= i < |done| ensures Measure(fs, statFaults, done[i]) == Measure(fs', statFaults, done[i]) {
          assert done[i] == rest[i];
        }
        MeasuredFrame(fs, fs', statFaults, done);
      }
      assert Measured(fs, statFaults, plan[..k' + 1]) == Measure(fs, statFaults, p) + Measured(fs, statFaults, done) by {
        TakeCons(plan, k');
        assert ([p] + done)[1..] == done;
      }
    }
  }

  /**
   * A live run over paths none of which lies inside another has removed
   * exactly the existing paths before the first that raises, with the
   * subtrees of the directories among them, and changed nothing else.
   */
  lemma {:induction false} ProcessClears(fs: Fs, statFaults: StatFaults, removeFaults: map<Path, Fault>, plan: seq<Path>)
    requires Separate(plan)
    ensures Process(fs, statFaults, removeFaults, plan, false).fs
            == Cleared(fs, plan[..FirstFault(fs, statFaults, removeFaults, plan, false)])
    decreases |plan|
  {
    if plan != [] && !Faulty(fs, statFaults, removeFaults, plan[0], false) {
      var p, rest := plan[0], plan[1..];
      var fs' := Next(fs, p, false);
      assert Process(fs, statFaults, removeFaults, plan, false).fs == Process(fs', statFaults, removeFaults, rest, false).fs by {
        ProcessStep(fs, statFaults, removeFaults, plan, false);
      }
      assert Separate(rest) by {
        SeparateTail(plan);
      }
      ProcessClears(fs', statFaults, removeFaults, rest);
      var k' := FirstFault(fs, statFaults, removeFaults, rest, false);
      var done := rest[..k'];
      assert FirstFault(fs', statFaults, removeFaults, rest, false) == k' by {
        NextFrame(fs, statFaults, plan, false);
        FirstFaultFrame(fs, fs', statFaults, removeFaults, rest, false);
      }
      assert plan[..k' + 1] == [p] + done by {
        TakeCons(plan, k');
      }
      assert Cleared(fs', done) == Cleared(fs, [p] + done) by {
        if p in fs {
          NextFrame(fs, statFaults, plan, false);
          forall i | 0 <= i < |done| ensures SameEntry(fs, Removed(fs, p), done[i]) {
            assert done[i] == rest[i];
          }
          ClearedStep(fs, p, done);
        } else {
          ClearedSkip(fs, p, done);
        }
      }
    } else {
      ClearedNothing(fs);
    }
  }


  /** A dry run changes nothing on disk. */
  lemma {:induction false} ProcessDryRun(fs: Fs, statFaults: StatFaults, removeFaults: map<Path, Fault>, plan: seq<Path>)
    ensures Process(fs, statFaults, removeFaults, plan, true).fs == fs
    decreases |plan|
  {
    if plan != [] {
      ProcessDryRun(fs, statFaults, removeFaults, plan[1..]);
    }
  }

  /** When no planned removal raises, a dry run stops at the same path as a live one. */
  lemma {:induction false} FirstFaultDryLive(fs: Fs, statFaults: StatFaults, removeFaults: map<Path, Fault>, plan: seq<Path>)
    requires forall p :: p in plan ==> p !in removeFaults
    ensures var k := FirstFault(fs, statFaults, removeFaults, plan, true);
      && k == FirstFault(fs, statFaults, removeFaults, plan, false)
      && (k < |plan| ==> FaultAt(fs, statFaults, removeFaults, plan[k], true) == FaultAt(fs, statFaults, removeFaults, plan[k], false))
    decreases |plan|
  {
    if plan != [] {
      assert plan[0] in plan;
      FirstFaultDryLive(fs, statFaults, removeFaults, plan[1..]);
    }
  }

  /**
   * A dry run reports what the live run on the same filesystem reports: the
   * same bytes freed and the same exception, when no planned removal raises.
   */
  lemma DryLive(fs: Fs, statFaults: StatFaults, removeFaults: map<Path, Fault>, plan: seq<Path>)
    requires Separate(plan)
    requires forall p :: p in plan ==> p !in removeFaults
    ensures var dry, live := Process(fs, statFaults, removeFaults, plan, true), Process(fs, statFaults, removeFaults, plan, false);
      dry.bytesFreed == live.bytesFreed && dry.fault == live.fault
  {
    FirstFaultDryLive(fs, statFaults, removeFaults, plan);
    ProcessCounts(fs, statFaults, removeFaults, plan, true);
    ProcessCounts(fs, statFaults, removeFaults, plan, false);
    ProcessStops(fs, statFaults, removeFaults, plan, true);
    ProcessStops(fs, statFaults, removeFaults, plan, false);
  }

  /**
   * uninstall_game with dry_run returns the result the live call would: for a
   * game whose install directory and app id are relative, when no planned
   * removal raises.
   */
  lemma DryLiveGame(fs: Fs, statFaults: StatFaults, removeFaults: map<Path, Fault>, game: SteamGame)
    requires !IsAbsolute(game.installDir) && !IsAbsolute(game.appid)
    requires forall e :: e in GamePaths(fs, game) ==> e.path !in removeFaults
    ensures var plan := PathsOf(GamePaths(fs, game));
      ResultOf(game, Process(fs, statFaults, removeFaults, plan, true))
        == ResultOf(game, Process(fs, statFaults, removeFaults, plan, false))
  {
    var plan := PathsOf(GamePaths(fs, game));
    PlanSeparate(fs, game);
    assert forall p :: p in plan ==> p !in removeFaults by {
      forall p | p in plan ensures p !in removeFaults {
        var i :| 0 <= i < |plan| && plan[i] == p;
        assert GamePaths(fs, game)[i] in GamePaths(fs, game);
      }
    }
    DryLive(fs, statFaults, removeFaults, plan);
  }

  /** A path that no planned path is a prefix of survives the run unchanged. */
  lemma {:induction false} ProcessKeeps(fs: Fs, statFaults: StatFaults, removeFaults: map<Path, Fault>, plan: seq<Path>, dryRun: bool, q: Path)
    requires q in fs
    requires forall i :: 0 <= i < |plan| ==> !(plan[i] <= q)
    ensures var after := Process(fs, statFaults, removeFaults, plan, dryRun).fs;
      q in after && after[q] == fs[q]
    decreases |plan|
  {
    if plan != [] {
      var rest := plan[1..];
      forall i | 0 <= i < |rest| ensures !(rest[i] <= q) {
        assert rest[i] == plan[i + 1];
      }
      assert !(plan[0] <= q);
      if plan[0] in fs && !dryRun {
        ProcessKeeps(Removed(fs, plan[0]), statFaults, removeFaults, rest, dryRun, q);
      } else {
        ProcessKeeps(fs, statFaults, removeFaults, rest, dryRun, q);
      }
    }
  }

  /** Without injected exceptions no path of a plan raises. */
  lemma {:induction false} FirstFaultNone(fs: Fs, plan: seq<Path>, dryRun: bool)
    ensures FirstFault(fs, map[], map[], plan, dryRun) == |plan|
  {
    if plan != [] {
      FirstFaultNone(fs, plan[1..], dryRun);
    }
  }

  /**
   * With an empty install directory the game folder is steamapps/common
   * itself, and a live uninstall that raises nothing removes it together with
   * every other game installed beneath it.
   */
  lemma EmptyInstallDirRemovesCommon(fs: Fs, game: SteamGame)
    requires game.installDir == "" && !IsAbsolute(game.appid)
    requires game.SteamApps() + ["common"] in fs && fs[game.SteamApps() + ["common"]].Dir?
    ensures game.GamePath() == game.SteamApps() + ["common"]
    ensures var after := Process(fs, map[], map[], PathsOf(GamePaths(fs, game)), false).fs;
      forall q :: game.SteamApps() + ["common"] <= q ==> q !in after
  {
    var common := game.SteamApps() + ["common"];
    assert Split("") == [];
    assert game.GamePath() == common;
    var plan := GamePaths(fs, game);
    var paths := PathsOf(plan);
    PlanSeparate(fs, game);
    ProcessClears(fs, map[], map[], paths);
    FirstFaultNone(fs, paths, false);
    assert paths[..|paths|] == paths;
    GamePathsIncludes(fs, game);
    var i :| 0 <= i < |plan| && plan[i] == Planned(common, "game files");
    forall q | common <= q && q in fs ensures Covered(fs, paths, q) {
      assert paths[i] == common;
    }
  }

  /** Each planned path is one of the game's four paths. */
  lemma PlannedIsGamePath(fs: Fs, game: SteamGame, e: Planned)
    requires e in GamePaths(fs, game)
    ensures e.path in {game.ManifestPath(), game.GamePath(), game.CompatdataPath(), game.ShadercachePath()}
  {
  }

  /**
   * For a game whose install directory and app id stay inside the areas they
   * are joined to, an uninstall leaves the library's steamapps/common,
   * compatdata and shadercache directories in place, whatever is raised.
   */
  lemma ConfinedKeepsAreas(fs: Fs, statFaults: StatFaults, removeFaults: map<Path, Fault>, game: SteamGame, dryRun: bool, area: string)
    requires Confined(game.installDir) && Confined(game.appid)
    requires area == "common" || area == "compatdata" || area == "shadercache"
    requires game.SteamApps() + [area] in fs
    ensures var after := Process(fs, statFaults, removeFaults, PathsOf(GamePaths(fs, game)), dryRun).fs;
      var target := game.SteamApps() + [area];
      target in after && after[target] == fs[target]
  {
    var sa := game.SteamApps();
    var target := sa + [area];
    var plan := GamePaths(fs, game);
    var paths := PathsOf(plan);
    ConfinedPathsSeparate(game);
    forall i | 0 <= i < |paths| ensures !(paths[i] <= target) {
      assert plan[i] in plan;
      PlannedIsGamePath(fs, game, plan[i]);
    }
    ProcessKeeps(fs, statFaults, removeFaults, paths, dryRun, target);
  }

  // ---------------------------------------------------------------------------
  // uninstall_games
  // ---------------------------------------------------------------------------

  /** The outcome of a batch: the final filesystem and one result per game. */
  datatype BatchRun = BatchRun(fs: Fs, results: seq<UninstallResult>)

  /** The games uninstalled in turn, each on the filesystem the previous ones left. */
  ghost function Batch(fs: Fs, statFaults: StatFaults, removeFaults: map<Path, Fault>, games: seq<SteamGame>, dryRun: bool): BatchRun
    decreases |games|
  {
    if games == [] then BatchRun(fs, [])
    else
      var run := Process(fs, statFaults, removeFaults, PathsOf(GamePaths(fs, games[0])), dryRun);
      var rest := Batch(run.fs, statFaults, removeFaults, games[1..], dryRun);
      BatchRun(rest.fs, [ResultOf(games[0], run)] + rest.results)
  }

  /** The first game of a batch is uninstalled on the filesystem as it is, the rest on what it leaves. */
  lemma BatchStep(fs: Fs, statFaults: StatFaults, removeFaults: map<Path, Fault>, games: seq<SteamGame>, dryRun: bool)
    requires games != []
    ensures var run := Process(fs, statFaults, removeFaults, PathsOf(GamePaths(fs, games[0])), dryRun);
      var rest := Batch(run.fs, statFaults, removeFaults, games[1..], dryRun);
      Batch(fs, statFaults, removeFaults, games, dryRun) == BatchRun(rest.fs, [ResultOf(games[0], run)] + rest.results)
  {
  }

  /** Taking the first game's result out of the rest of a batch and adding it to those already gathered. */
  lemma BatchAdvance(fs: Fs, fs': Fs, statFaults: StatFaults, removeFaults: map<Path, Fault>, games: seq<SteamGame>, dryRun: bool,
                     done: seq<UninstallResult>, result: UninstallResult)
    requires games != []
    requires var run := Process(fs, statFaults, removeFaults, PathsOf(GamePaths(fs, games[0])), dryRun);
      fs' == run.fs && result == ResultOf(games[0], run)
    ensures var b, b' := Batch(fs, statFaults, removeFaults, games, dryRun), Batch(fs', statFaults, removeFaults, games[1..], dryRun);
      BatchRun(b.fs, done + b.results) == BatchRun(b'.fs, (done + [result]) + b'.results)
  {
    BatchStep(fs, statFaults, removeFaults, games, dryRun);
    var rest := Batch(fs', statFaults, removeFaults, games[1..], dryRun).results;
    assert done + ([result] + rest) == (done + [result]) + rest;
  }

  /** One result per game, in the order of the games. */
  lemma {:induction false} BatchResults(fs: Fs, statFaults: StatFaults, removeFaults: map<Path, Fault>, games: seq<SteamGame>, dryRun: bool)
    ensures var b := Batch(fs, statFaults, removeFaults, games, dryRun);
      |b.results| == |games| && forall i :: 0 <= i < |games| ==> b.results[i].game == games[i]
    decreases |games|
  {
    if games != [] {
      var run := Process(fs, statFaults, removeFaults, PathsOf(GamePaths(fs, games[0])), dryRun);
      BatchResults(run.fs, statFaults, removeFaults, games[1..], dryRun);
    }
  }

  /** A dry batch changes nothing on disk. */
  lemma {:induction false} BatchDryRun(fs: Fs, statFaults: StatFaults, removeFaults: map<Path, Fault>, games: seq<SteamGame>)
    ensures Batch(fs, statFaults, removeFaults, games, true).fs == fs
    decreases |games|
  {
    if games != [] {
      ProcessDryRun(fs, statFaults, removeFaults, PathsOf(GamePaths(fs, games[0])));
      BatchDryRun(fs, statFaults, removeFaults, games[1..]);
    }
  }

  /**
   * A game listed twice (library paths are not de-duplicated) is counted
   * twice by a dry batch but once by a live one: the live second pass finds
   * its manifest gone.
   */
  lemma BatchTwiceDryLive(g: SteamGame, n: nat)
    requires '/' !in g.appid && !IsAbsolute(g.installDir) && !g.hasCompatdata && !g.hasShadercache
    ensures var fs := map[g.ManifestPath() := File(n, None)];
      && BytesFreed(Batch(fs, map[], map[], [g, g], true).results) == 2 * n
      && BytesFreed(Batch(fs, map[], map[], [g, g], false).results) == n
  {
    var m := g.ManifestPath();
    var fs: Fs := map[m := File(n, None)];
    var empty: Fs := map[];
    var none: StatFaults := map[];
    ManifestOnlyPlan(g, fs);
    ManifestOnlyPlan(g, empty);
    var r := ResultOf(g, Run(fs, n, None));
    var r0 := ResultOf(g, Run(empty, 0, None));
    var r1 := ResultOf(g, Run(empty, n, None));
    assert Batch(fs, none, map[], [g, g], true) == BatchRun(fs, [r, r]) by {
      assert Process(fs, none, map[], [m], true) == Run(fs, n, None);
      BatchOne(fs, none, g, true);
      BatchStep(fs, none, map[], [g, g], true);
      assert [g, g][1..] == [g];
    }
    assert Batch(fs, none, map[], [g, g], false) == BatchRun(empty, [r1, r0]) by {
      assert Removed(fs, m) == empty;
      assert Process(fs, none, map[], [m], false) == Run(empty, n, None);
      assert Process(empty, none, map[], [m], false) == Run(empty, 0, None);
      BatchOne(empty, none, g, false);
      BatchStep(fs, none, map[], [g, g], false);
      assert [g, g][1..] == [g];
    }
    BytesFreedPair(r, r);
    BytesFreedPair(r1, r0);
  }

  /** On a disk with no game folder, the plan of a game without Proton data or shader cache is its manifest alone. */
  lemma ManifestOnlyPlan(g: SteamGame, fs: Fs)
    requires '/' !in g.appid && !IsAbsolute(g.installDir) && !g.hasCompatdata && !g.hasShadercache
    requires fs.Keys <= {g.ManifestPath()}
    ensures PathsOf(GamePaths(fs, g)) == [g.ManifestPath()]
  {
    var m := g.ManifestPath();
    ManifestPathOf(g);
    var lib := g.libraryPath;
    assert g.GamePath() != m by {
      assert g.GamePath()[|lib| + 1] == "common";
      assert m[|lib| + 1][0] == 'a';
    }
    assert GamePaths(fs, g) == [Planned(m, "manifest")];
  }

  /** A batch of one game is that game's run. */
  lemma BatchOne(fs: Fs, statFaults: StatFaults, g: SteamGame, dryRun: bool)
    ensures var run := Process(fs, statFaults, map[], PathsOf(GamePaths(fs, g)), dryRun);
      Batch(fs, statFaults, map[], [g], dryRun) == BatchRun(run.fs, [ResultOf(g, run)])
  {
    BatchStep(fs, statFaults, map[], [g], dryRun);
    assert [g][1..] == [];
  }

  /** The bytes freed by two results. */
  lemma BytesFreedPair(a: UninstallResult, b: UninstallResult)
    ensures BytesFreed([a, b]) == a.bytesFreed + b.bytesFreed
  {
    assert [a, b][1..] == [b] && [b][1..] == [];
    assert BytesFreed([b]) == b.bytesFreed + BytesFreed([]);
  }

  /** Whether each result is a success, in order. */
  function SuccessFlags(results: seq<UninstallResult>): (r: seq<bool>)
    ensures |r| == |results| && forall i :: 0 <= i < |results| ==> r[i] == results[i].success
  {
    seq(|results|, i requires 0 <= i < |results| => results[i].success)
  }

  /** `sum(1 for r in results if r.success)`: the number of results that are successes. */
  function CountSuccessful(results: seq<UninstallResult>): (n: nat)
    ensures n == multiset(SuccessFlags(results))[true]
    ensures n <= |results|
  {
    if results == [] then 0
    else
      var rest := CountSuccessful(results[1..]);
      SuccessFlagsCons(results);
      (if results[0].success then 1 else 0) + rest
  }

  lemma SuccessFlagsCons(results: seq<UninstallResult>)
    requires results != []
    ensures multiset(SuccessFlags(results))[true]
      == (if results[0].success then 1 else 0) + multiset(SuccessFlags(results[1..]))[true]
  {
    var flags, tail := SuccessFlags(results), SuccessFlags(results[1..]);
    assert flags == [results[0].success] + tail by {
      forall i | 0 < i < |flags| ensures flags[i] == tail[i - 1] {
        assert results[1..][i - 1] == results[i];
      }
    }
  }

  /** `sum(r.bytes_freed for r in results)`. */
  function BytesFreed(results: seq<UninstallResult>): int {
    if results == [] then 0 else results[0].bytesFreed + BytesFreed(results[1..])
  }

  /** The bytes freed by two runs of results add up. */
  lemma {:induction false} BytesFreedAppend(a: seq<UninstallResult>, b: seq<UninstallResult>)
    ensures BytesFreed(a + b) == BytesFreed(a) + BytesFreed(b)
  {
    if a != [] {
      assert (a + b)[1..] == a[1..] + b;
      BytesFreedAppend(a[1..], b);
    } else {
      assert a + b == b;
    }
  }

  /** The summary of uninstall_games over its results. */
  function Summarize(results: seq<UninstallResult>): (s: UninstallSummary)
    ensures s.totalGames == |results| == s.successful + s.failed
    ensures s.successful == multiset(SuccessFlags(results))[true]
    ensures s.failed == multiset(SuccessFlags(results))[false]
    ensures s.totalBytesFreed == BytesFreed(results)
    ensures s.results == results
  {
    var successful := CountSuccessful(results);
    var flags := SuccessFlags(results);
    assert |multiset(flags)| == |results|;
    assert multiset(flags) == multiset{}[true := multiset(flags)[true]][false := multiset(flags)[false]] by {
      forall b: bool ensures multiset(flags)[b] == multiset{}[true := multiset(flags)[true]][false := multiset(flags)[false]][b] {
      }
    }
    UninstallSummary(|results|, successful, |results| - successful, BytesFreed(results), results)
  }

  /** all_successful holds exactly when every result is a success. */
  lemma {:induction false} AllSuccessfulIff(results: seq<UninstallResult>)
    ensures Summarize(results).AllSuccessful() <==> forall i :: 0 <= i < |results| ==> results[i].success
  {
    if results != [] {
      AllSuccessfulIff(results[1..]);
      assert forall i :: 1 <= i < |results| ==> results[i] == results[1..][i - 1];
    }
  }

  /** A call of the progress callback: (index, total, game). */
  datatype Progress = Progress(index: nat, total: nat, game: SteamGame)

  /** The progress calls for the first `n` games of a batch. */
  function Announced(games: seq<SteamGame>, n: nat): (r: seq<Progress>)
    requires n <= |games|
    ensures |r| == n && forall k :: 0 <= k < n ==> r[k] == Progress(k, |games|, games[k])
  {
    seq(n, k requires 0 <= k < n => Progress(k, |games|, games[k]))
  }

  /** Announcing one more game appends its progress report. */
  lemma AnnouncedStep(games: seq<SteamGame>, n: nat)
    requires n < |games|
    ensures Announced(games, n + 1) == Announced(games, n) + [Progress(n, |games|, games[n])]
  {
  }

  // ---------------------------------------------------------------------------
  // The disk
  // ---------------------------------------------------------------------------

  class Disk {
    var fs: Fs
    const statFaults: StatFaults
    const removeFaults: map<Path, Fault>

    constructor (fs: Fs, statFaults: StatFaults, removeFaults: map<Path, Fault>)
      ensures this.fs == fs && this.statFaults == statFaults && this.removeFaults == removeFaults
    {
      this.fs := fs;
      this.statFaults := statFaults;
      this.removeFaults := removeFaults;
    }

    /** get_dir_size: walk everything beneath `path`, adding the size of each readable file. */
    method GetDirSize(path: Path) returns (total: nat)
      ensures total == DirSize(fs, statFaults, path)
    {
      if path !in fs {
        return 0;
      }
      total := 0;
      var entries := Descendants(fs, path);
      var remaining := entries;
      while remaining != {}
        invariant remaining <= entries
        invariant total == SizeOver(fs, statFaults, entries - remaining)
        decreases |remaining|
      {
        var entry :| entry in remaining;
        SizeOverRemove(fs, statFaults, entries - remaining + {entry}, entry);
        assert entries - remaining + {entry} - {entry} == entries - remaining;
        assert entries - (remaining - {entry}) == entries - remaining + {entry};
        if fs[entry].File? && entry !in statFaults {
          total := total + fs[entry].size;
        }
        remaining := remaining - {entry};
      }
      assert entries - remaining == entries;
    }

    /** get_game_paths: the paths to delete, checked for existence now. */
    method GetGamePaths(game: SteamGame) returns (paths: seq<Planned>)
      ensures paths == GamePaths(fs, game)
    {
      paths := [Planned(game.ManifestPath(), "manifest")];
      if game.GamePath() in fs {
        paths := paths + [Planned(game.GamePath(), "game files")];
      }
      if game.hasCompatdata && game.CompatdataPath() in fs {
        paths := paths + [Planned(game.CompatdataPath(), "Proton data")];
      }
      if game.hasShadercache && game.ShadercachePath() in fs {
        paths := paths + [Planned(game.ShadercachePath(), "shader cache")];
      }
    }

    /** calculate_total_size: reported sizes plus measured auxiliary folders. */
    method CalculateTotalSize(games: seq<SteamGame>) returns (total: int)
      ensures total == TotalSize(fs, statFaults, games)
    {
      total := 0;
      for i := 0 to |games|
        invariant total == TotalSize(fs, statFaults, games[..i])
      {
        var game := games[i];
        TotalSizeAppend(fs, statFaults, games[..i], [game]);
        assert games[..i + 1] == games[..i] + [game];
        assert TotalSize(fs, statFaults, [game]) == GameSize(fs, statFaults, game);
        total := total + game.sizeOnDisk;
        if game.hasCompatdata {
          var size := GetDirSize(game.CompatdataPath());
          total := total + size;
        }
        if game.hasShadercache {
          var size := GetDirSize(game.ShadercachePath());
          total := total + size;
        }
      }
      assert games[..|games|] == games;
    }

    /** uninstall_game: remove the planned paths in order, stopping at the first exception. */
    method UninstallGame(game: SteamGame, dryRun: bool) returns (result: UninstallResult)
      modifies this
      ensures var run := Process(old(fs), statFaults, removeFaults, PathsOf(GamePaths(old(fs), game)), dryRun);
        fs == run.fs && result == ResultOf(game, run)
    {
      var bytesFreed := 0;
      var pathsToDelete := GetGamePaths(game);
      ghost var plan := PathsOf(pathsToDelete);
      assert plan[0..] == plan;
      for i := 0 to |pathsToDelete|
        invariant Process(old(fs), statFaults, removeFaults, plan, dryRun)
                  == Credit(bytesFreed, Process(fs, statFaults, removeFaults, plan[i..], dryRun))
      {
        var path := pathsToDelete[i].path;
        assert plan[i..][0] == path && plan[i..][1..] == plan[i + 1..];
        if path !in fs {
          continue;
        }
        var size;
        if fs[path].File? {
          if path in statFaults {
            return ResultOf(game, Run(fs, bytesFreed, Some(statFaults[path])));
          }
          size := fs[path].size;
        } else {
          size := GetDirSize(path);
        }
        if !dryRun {
          if path in removeFaults {
            return ResultOf(game, Run(fs, bytesFreed, Some(removeFaults[path])));
          }
          if fs[path].File? {
            fs := fs - {path};
          } else {
            fs := fs - ({path} + Descendants(fs, path));
          }
        }
        bytesFreed := bytesFreed + size;
      }
      assert plan[|pathsToDelete|..] == [];
      return ResultOf(game, Run(fs, bytesFreed, None));
    }

    /**
     * uninstall_games: report progress, then uninstall, for each game in
     * turn; `progress` holds the callback's calls when there is a callback.
     */
    method UninstallGames(games: seq<SteamGame>, dryRun: bool, hasCallback: bool)
      returns (summary: UninstallSummary, progress: seq<Progress>)
      modifies this
      ensures var b := Batch(old(fs), statFaults, removeFaults, games, dryRun);
        fs == b.fs && summary == Summarize(b.results)
      ensures hasCallback ==> |progress| == |games| && forall i :: 0 <= i < |games| ==> progress[i] == Progress(i, |games|, games[i])
      ensures !hasCallback ==> progress == []
    {
      var results: seq<UninstallResult> := [];
      progress := [];
      var total := |games|;
      assert games[0..] == games;
      for i := 0 to |games|
        invariant var b := Batch(fs, statFaults, removeFaults, games[i..], dryRun);
          Batch(old(fs), statFaults, removeFaults, games, dryRun) == BatchRun(b.fs, results + b.results)
        invariant progress == if hasCallback then Announced(games, i) else []
      {
        if hasCallback {
          AnnouncedStep(games, i);
          progress := progress + [Progress(i, total, games[i])];
        }
        ghost var before := fs;
        assert games[i..][0] == games[i] && games[i..][1..] == games[i + 1..];
        var result := UninstallGame(games[i], dryRun);
        BatchAdvance(before, fs, statFaults, removeFaults, games[i..], dryRun, results, result);
        results := results + [result];
      }
      assert games[|games|..] == [];
      assert results + [] == results;
      return Summarize(results), progress;
    }
  }
}
