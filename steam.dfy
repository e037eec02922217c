/**
 * Steam library detection and the catalog of installed games.
 *
 * Everything here reads the filesystem and changes nothing.  The filesystem is
 * a parameter, as is the user's home directory.  The order in which a
 * directory lists its entries is not specified, so the methods that list a
 * directory pick its entries in any order and are specified by
 * order-independent functions over the set of entries.
 *
 * Python exceptions that the catalog catches become "skipped"; those that
 * escape to the caller become a `Failure` carrying a `CatalogError`.
 */
module Steam {
  import opened Wrappers
  import opened Paths
  import opened Text
  import Vdf

  // ---------------------------------------------------------------------------
  // Games and their paths
  // ---------------------------------------------------------------------------

  /** An installed game, as read from its manifest. */
  datatype SteamGame = SteamGame(
    appid: string,
    name: string,
    installDir: string,
    sizeOnDisk: int,
    libraryPath: Path,
    hasCompatdata: bool,
    hasShadercache: bool,
    playtimeMinutes: int)
  {
    function SteamApps(): Path {
      libraryPath + ["steamapps"]
    }

    /** The appmanifest file, steamapps/appmanifest_<appid>.acf; it always lies inside the library's steamapps directory. */
    function ManifestPath(): (r: Path)
      ensures r == SteamApps() + Split("appmanifest_" + appid + ".acf")
      ensures SteamApps() < r
      ensures StartsWith(r[|SteamApps()|], "appmanifest_")
    {
      var text := "appmanifest_" + appid + ".acf";
      ManifestSplit(text);
      Join(SteamApps(), text)
    }

    /** The installation folder, steamapps/common joined with the install directory. */
    function GamePath(): (r: Path)
      ensures IsAbsolute(installDir) ==> r == Split(installDir)
      ensures !IsAbsolute(installDir) ==> r == SteamApps() + ["common"] + Split(installDir)
    {
      Join(SteamApps() + ["common"], installDir)
    }

    /** The Proton prefix, steamapps/compatdata joined with the app id. */
    function CompatdataPath(): (r: Path)
      ensures IsAbsolute(appid) ==> r == Split(appid)
      ensures !IsAbsolute(appid) ==> r == SteamApps() + ["compatdata"] + Split(appid)
    {
      Join(SteamApps() + ["compatdata"], appid)
    }

    /** The shader cache, steamapps/shadercache joined with the app id. */
    function ShadercachePath(): (r: Path)
      ensures IsAbsolute(appid) ==> r == Split(appid)
      ensures !IsAbsolute(appid) ==> r == SteamApps() + ["shadercache"] + Split(appid)
    {
      Join(SteamApps() + ["shadercache"], appid)
    }
  }

  /** A text that starts with "appmanifest_" splits into a first component that starts with it too. */
  lemma ManifestSplit(text: string)
    requires StartsWith(text, "appmanifest_")
    ensures !IsAbsolute(text)
    ensures |Split(text)| > 0 && StartsWith(Split(text)[0], "appmanifest_")
  {
    var n := SegmentLength(text);
    assert forall i :: 0 <= i < 12 ==> text[i] == "appmanifest_"[i];
    assert n >= 12;
    assert text[..n][..12] == text[..12];
  }

  /**
   * A directory name that stays strictly inside the directory it is joined
   * to: relative, with at least one component and no "..".
   */
  predicate Confined(s: string) {
    !IsAbsolute(s) && Split(s) != [] && ".." !in Split(s)
  }

  /** `inner` lies strictly beneath `area` and does not climb out of it through "..". */
  predicate StrictlyInside(inner: Path, area: Path) {
    area < inner && ".." !in inner[|area|..]
  }

  /** A confined name joined to a directory lies strictly beneath it. */
  lemma JoinedInside(area: Path, s: string)
    requires Confined(s)
    ensures StrictlyInside(Join(area, s), area)
  {
    assert Join(area, s)[|area|..] == Split(s);
  }

  /**
   * For a game whose install directory and app id are confined, the four
   * paths are strictly inside four separate areas of steamapps, so none of
   * them contains another.
   */
  lemma ConfinedPathsSeparate(g: SteamGame)
    requires Confined(g.installDir) && Confined(g.appid)
    ensures StrictlyInside(g.GamePath(), g.SteamApps() + ["common"])
    ensures StrictlyInside(g.CompatdataPath(), g.SteamApps() + ["compatdata"])
    ensures StrictlyInside(g.ShadercachePath(), g.SteamApps() + ["shadercache"])
    ensures var ps := [g.ManifestPath(), g.GamePath(), g.CompatdataPath(), g.ShadercachePath()];
      forall i, j :: 0 <= i < 4 && 0 <= j < 4 && i != j ==> !(ps[i] <= ps[j])
  {
    var sa := g.SteamApps();
    var ps := [g.ManifestPath(), g.GamePath(), g.CompatdataPath(), g.ShadercachePath()];
    JoinedInside(sa + ["common"], g.installDir);
    JoinedInside(sa + ["compatdata"], g.appid);
    JoinedInside(sa + ["shadercache"], g.appid);
    var heads := [ps[0][|sa|], "common", "compatdata", "shadercache"];
    assert !StartsWith("common", "appmanifest_");
    assert !StartsWith("compatdata", "appmanifest_");
    assert !StartsWith("shadercache", "appmanifest_");
    assert forall i :: 0 <= i < 4 ==> |ps[i]| > |sa| && ps[i][|sa|] == heads[i];
    DistinctHeads(ps, |sa|, heads);
  }

  /** Paths that differ in the component at index `n` are not prefixes of one another. */
  lemma DistinctHeads(ps: seq<Path>, n: nat, heads: seq<string>)
    requires |ps| == |heads|
    requires forall i :: 0 <= i < |ps| ==> |ps[i]| > n && ps[i][n] == heads[i]
    requires forall i, j :: 0 <= i < |heads| && 0 <= j < |heads| && i != j ==> heads[i] != heads[j]
    ensures forall i, j :: 0 <= i < |ps| && 0 <= j < |ps| && i != j ==> !(ps[i] <= ps[j])
  {
    forall i, j | 0 <= i < |ps| && 0 <= j < |ps| && i != j
      ensures !(ps[i] <= ps[j])
    {
      assert ps[i][n] != ps[j][n];
    }
  }

  /** What the catalog does with one manifest, when an exception escapes it. */
  datatype CatalogError =
    | Unreadable(path: Path)             // read_text() of libraryfolders.vdf raised
    | NotAMapping(key: string)           // .items() on a string value
    | PathNotText                        // Path() of a mapping
    | NotADirectory(path: Path)          // iterdir() of a file
    | NameNotText(library: Path)         // the sort key .lower() of a name that is a mapping

  // ---------------------------------------------------------------------------
  // find_steam_root
  // ---------------------------------------------------------------------------

  /** The three usual install locations, in the order they are tried. */
  function Candidates(home: Path): seq<Path> {
    [home + [".local", "share", "Steam"], home + [".steam", "steam"], home + [".steam", "debian-installation"]]
  }

  predicate IsSteamRoot(fs: Fs, p: Path) {
    p in fs && p + ["steamapps"] in fs
  }

  /** The first candidate that exists and has a steamapps entry. */
  function FirstRoot(fs: Fs, cs: seq<Path>): (r: Option<Path>)
    ensures r.None? <==> forall i :: 0 <= i < |cs| ==> !IsSteamRoot(fs, cs[i])
    ensures r.Some? ==> exists i :: && 0 <= i < |cs| && cs[i] == r.value && IsSteamRoot(fs, cs[i])
                                    && forall j :: 0 <= j < i ==> !IsSteamRoot(fs, cs[j])
  {
    if cs == [] then None
    else if IsSteamRoot(fs, cs[0]) then
      assert cs[0] == cs[0];
      Some(cs[0])
    else
      var r := FirstRoot(fs, cs[1..]);
      assert forall i :: 1 <= i < |cs| ==> cs[i] == cs[1..][i - 1];
      if r.Some? then
        var i :| && 0 <= i < |cs| - 1 && cs[1..][i] == r.value && IsSteamRoot(fs, cs[1..][i])
                 && forall j :: 0 <= j < i ==> !IsSteamRoot(fs, cs[1..][j]);
        assert cs[i + 1] == r.value && forall j :: 0 <= j < i + 1 ==> !IsSteamRoot(fs, cs[j]);
        r
      else
        r
  }

  /** find_steam_root: try the candidates in order. */
  method FindSteamRoot(fs: Fs, home: Path) returns (root: Option<Path>)
    ensures root == FirstRoot(fs, Candidates(home))
  {
    var candidates := Candidates(home);
    for i := 0 to |candidates|
      invariant FirstRoot(fs, candidates[i..]) == FirstRoot(fs, candidates)
    {
      var path := candidates[i];
      assert candidates[i..][1..] == candidates[i + 1..];
      if path in fs && path + ["steamapps"] in fs {
        return Some(path);
      }
    }
    return None;
  }

  // ---------------------------------------------------------------------------
  // get_library_folders
  // ---------------------------------------------------------------------------

  function LibraryVdf(root: Path): Path {
    root + ["steamapps", "libraryfolders.vdf"]
  }

  /** The library one entry of "libraryfolders" names, when it is a mapping with a "path" that exists. */
  function ListedPath(fs: Fs, value: Vdf.VNode): Result<Option<Path>, CatalogError> {
    match value
    case Leaf(_) => Success(None)
    case Dict(m) =>
      match Vdf.Lookup(m, "path")
      case None => Success(None)
      case Some(Dict(_)) => Failure(PathNotText)
      case Some(Leaf(s)) => if PathOf(s) in fs then Success(Some(PathOf(s))) else Success(None)
  }

  /**
   * The libraries listed by the entries `es`, in order.  The first entry
   * whose "path" is a mapping makes the whole listing fail.
   */
  function ListedLibraries(fs: Fs, es: seq<Vdf.Entry>): Result<seq<Path>, CatalogError> {
    if es == [] then Success([])
    else ConsListed(ListedPath(fs, es[0].node), ListedLibraries(fs, es[1..]))
  }

  /** The first entry's library, if any, in front of the others; the first failure wins. */
  function ConsListed(head: Result<Option<Path>, CatalogError>, tail: Result<seq<Path>, CatalogError>): Result<seq<Path>, CatalogError> {
    match head
    case Failure(e) => Failure(e)
    case Success(o) =>
      match tail
      case Failure(e) => Failure(e)
      case Success(ps) => Success((if o.Some? then [o.value] else []) + ps)
  }

  /**
   * The listing fails exactly when some entry's "path" is a mapping, and
   * otherwise holds exactly the paths of the entries that name an existing one.
   */
  lemma {:induction false} ListedLibrariesContents(fs: Fs, es: seq<Vdf.Entry>)
    ensures ListedLibraries(fs, es).Failure? <==> exists i :: 0 <= i < |es| && ListedPath(fs, es[i].node).Failure?
    ensures ListedLibraries(fs, es).Success? ==> forall p :: p in ListedLibraries(fs, es).value <==>
      exists i :: 0 <= i < |es| && ListedPath(fs, es[i].node) == Success(Some(p))
  {
    if es != [] {
      ListedLibrariesContents(fs, es[1..]);
      assert forall i :: 1 <= i < |es| ==> es[i] == es[1..][i - 1];
      var rest := ListedLibraries(fs, es[1..]);
      match ListedPath(fs, es[0].node)
      case Failure(e) =>
      case Success(o) =>
        match rest
        case Failure(e) =>
          var i :| 0 <= i < |es| - 1 && ListedPath(fs, es[1..][i].node).Failure?;
          assert ListedPath(fs, es[i + 1].node).Failure?;
        case Success(ps) =>
          var r := (if o.Some? then [o.value] else []) + ps;
          forall p | p in r
            ensures exists i :: 0 <= i < |es| && ListedPath(fs, es[i].node) == Success(Some(p))
          {
            if o == Some(p) {
              assert ListedPath(fs, es[0].node) == Success(Some(p));
            } else {
              assert p in ps;
              var i :| 0 <= i < |es| - 1 && ListedPath(fs, es[1..][i].node) == Success(Some(p));
              assert ListedPath(fs, es[i + 1].node) == Success(Some(p));
            }
          }
    }
  }

  /** Wraps a result list behind the libraries already gathered. */
  function Prepend(pre: seq<Path>, r: Result<seq<Path>, CatalogError>): Result<seq<Path>, CatalogError> {
    match r
    case Success(ps) => Success(pre + ps)
    case Failure(e) => Failure(e)
  }

  /** One entry further: the entry's library, if any, joins those already gathered. */
  lemma PrependStep(fs: Fs, pre: seq<Path>, es: seq<Vdf.Entry>)
    requires es != []
    ensures match ListedPath(fs, es[0].node)
      case Failure(e) => Prepend(pre, ListedLibraries(fs, es)) == Failure(e)
      case Success(o) =>
        Prepend(pre, ListedLibraries(fs, es)) == Prepend(pre + (if o.Some? then [o.value] else []), ListedLibraries(fs, es[1..]))
  {
    PrependCons(pre, ListedPath(fs, es[0].node), ListedLibraries(fs, es[1..]));
  }

  lemma PrependCons(pre: seq<Path>, head: Result<Option<Path>, CatalogError>, tail: Result<seq<Path>, CatalogError>)
    ensures match head
      case Failure(e) => Prepend(pre, ConsListed(head, tail)) == Failure(e)
      case Success(o) => Prepend(pre, ConsListed(head, tail)) == Prepend(pre + (if o.Some? then [o.value] else []), tail)
  {
    if head.Success? && tail.Success? {
      var x := if head.value.Some? then [head.value.value] else [];
      assert pre + (x + tail.value) == (pre + x) + tail.value;
    }
  }

  /** get_library_folders, as a value. */
  function LibraryFolders(fs: Fs, root: Path): Result<seq<Path>, CatalogError> {
    var vdf := LibraryVdf(root);
    if vdf !in fs then Success([root])
    else
      match ReadText(fs, vdf)
      case None => Failure(Unreadable(vdf))
      case Some(content) =>
        match Vdf.Lookup(Vdf.Parse(content), "libraryfolders").GetOr(Vdf.Dict([]))
        case Leaf(_) => Failure(NotAMapping("libraryfolders"))
        case Dict(entries) =>
          match ListedLibraries(fs, entries)
          case Failure(e) => Failure(e)
          case Success(libs) => Success(if root in libs then libs else [root] + libs)
  }

  /** get_library_folders: walk the entries of "libraryfolders" and keep the listed paths that exist. */
  method GetLibraryFolders(fs: Fs, root: Path) returns (r: Result<seq<Path>, CatalogError>)
    ensures r == LibraryFolders(fs, root)
  {
    var vdfPath := root + ["steamapps", "libraryfolders.vdf"];
    if vdfPath !in fs {
      return Success([root]);
    }
    var content := ReadText(fs, vdfPath);
    if content.None? {
      return Failure(Unreadable(vdfPath));
    }
    var data := Vdf.ParseVdf(content.value);
    var libraryData := Vdf.Lookup(data, "libraryfolders").GetOr(Vdf.Dict([]));
    if libraryData.Leaf? {
      return Failure(NotAMapping("libraryfolders"));
    }
    var entries := libraryData.entries;
    var libraries: seq<Path> := [];
    assert entries[0..] == entries;
    assert Prepend([], ListedLibraries(fs, entries)) == ListedLibraries(fs, entries) by {
      if ListedLibraries(fs, entries).Success? {
        assert [] + ListedLibraries(fs, entries).value == ListedLibraries(fs, entries).value;
      }
    }
    for i := 0 to |entries|
      invariant Prepend(libraries, ListedLibraries(fs, entries[i..])) == ListedLibraries(fs, entries)
    {
      assert entries[i..][1..] == entries[i + 1..];
      PrependStep(fs, libraries, entries[i..]);
      assert libraries + [] == libraries;
      assert entries[i..][0] == entries[i];
      var value := entries[i].node;
      if value.Dict? && Vdf.Lookup(value.entries, "path").Some? {
        var pathValue := Vdf.Lookup(value.entries, "path").value;
        if pathValue.Dict? {
          return Failure(PathNotText);
        }
        var libPath := PathOf(pathValue.text);
        assert ListedPath(fs, value) == if libPath in fs then Success(Some(libPath)) else Success(None);
        if libPath in fs {
          libraries := libraries + [libPath];
        }
      } else {
        assert ListedPath(fs, value) == Success(None);
      }
    }
    assert entries[|entries|..] == [];
    assert libraries + [] == libraries;
    if root !in libraries {
      libraries := [root] + libraries;
    }
    return Success(libraries);
  }

  /**
   * The root is always a library, and comes first when the file does not list
   * it; every other library is a listed path that exists; every listed path
   * that exists is a library.
   */
  lemma LibraryFoldersContents(fs: Fs, root: Path)
    ensures LibraryVdf(root) !in fs ==> LibraryFolders(fs, root) == Success([root])
    ensures LibraryFolders(fs, root).Success? ==>
      var libs := LibraryFolders(fs, root).value;
      && root in libs
      && (forall p :: p in libs && p != root ==> p in fs)
      && (LibraryVdf(root) in fs ==>
            var entries := Vdf.Lookup(Vdf.Parse(ReadText(fs, LibraryVdf(root)).value), "libraryfolders")
                             .GetOr(Vdf.Dict([])).entries;
            && (root !in ListedLibraries(fs, entries).value ==> libs[0] == root)
            && forall p :: p != root ==>
                 (p in libs <==> exists i :: 0 <= i < |entries| && ListedPath(fs, entries[i].node) == Success(Some(p))))
  {
    var vdf := LibraryVdf(root);
    if vdf in fs && LibraryFolders(fs, root).Success? {
      var node := Vdf.Lookup(Vdf.Parse(ReadText(fs, vdf).value), "libraryfolders").GetOr(Vdf.Dict([]));
      var entries := node.entries;
      var libs := LibraryFolders(fs, root).value;
      assert ListedLibraries(fs, entries).Success?;
      var listed := ListedLibraries(fs, entries).value;
      assert libs == if root in listed then listed else [root] + listed;
      LibraryFoldersListed(fs, entries, root, libs);
    }
  }

  /** The listed libraries, with the root put in front when they leave it out. */
  lemma LibraryFoldersListed(fs: Fs, entries: seq<Vdf.Entry>, root: Path, libs: seq<Path>)
    requires ListedLibraries(fs, entries).Success?
    requires var listed := ListedLibraries(fs, entries).value;
      libs == if root in listed then listed else [root] + listed
    ensures root in libs
    ensures forall p :: p in libs && p != root ==> p in fs
    ensures root !in ListedLibraries(fs, entries).value ==> libs[0] == root
    ensures forall p :: p != root ==>
      (p in libs <==> exists i :: 0 <= i < |entries| && ListedPath(fs, entries[i].node) == Success(Some(p)))
  {
    ListedLibrariesContents(fs, entries);
    var listed := ListedLibraries(fs, entries).value;
    assert forall p :: p != root ==> (p in libs <==> p in listed);
    forall p | p in listed
      ensures p in fs
    {
      var i :| 0 <= i < |entries| && ListedPath(fs, entries[i].node) == Success(Some(p));
    }
  }

  // ---------------------------------------------------------------------------
  // get_playtime_data
  // ---------------------------------------------------------------------------

  /** The keys leading from a localconfig.vdf root to the per-app mapping. */
  const AppsKeys: seq<string> := ["UserLocalConfigStore", "Software", "Valve", "Steam", "apps"]

  /**
   * Chained `.get(k, {})`: a missing key yields an empty mapping, a string on
   * the way raises (None).
   */
  function Navigate(es: seq<Vdf.Entry>, keys: seq<string>): Option<seq<Vdf.Entry>>
    decreases keys
  {
    if keys == [] then Some(es)
    else
      match Vdf.Lookup(es, keys[0]).GetOr(Vdf.Dict([]))
      case Leaf(_) => None
      case Dict(c) => Navigate(c, keys[1..])
  }

  /** What one app's entry says about playtime. */
  datatype AppPlaytime = NoPlaytime | Minutes(n: int) | Broken

  /**
   * A mapping with an integer "Playtime" gives minutes; a "Playtime" that is
   * a mapping makes int() raise a TypeError, which ends that user's scan.
   */
  function PlaytimeOf(data: Vdf.VNode): AppPlaytime {
    match data
    case Leaf(_) => NoPlaytime
    case Dict(m) =>
      match Vdf.Lookup(m, "Playtime")
      case None => NoPlaytime
      case Some(Dict(_)) => Broken
      case Some(Leaf(s)) => match ParseInt(s) case None => NoPlaytime case Some(n) => Minutes(n)
  }

  function Max(a: int, b: int): int {
    if a < b then b else a
  }

  /** `playtime[appid] = minutes` when the app is new or the minutes are higher. */
  function KeepHighest(pt: map<string, int>, appid: string, minutes: int): map<string, int> {
    if appid !in pt || minutes > pt[appid] then pt[appid := minutes] else pt
  }

  /** The scan of one user's apps, starting from the playtimes gathered so far. */
  function ScanApps(pt: map<string, int>, apps: seq<Vdf.Entry>): map<string, int>
    decreases apps
  {
    if apps == [] then pt
    else
      match PlaytimeOf(apps[0].node)
      case NoPlaytime => ScanApps(pt, apps[1..])
      case Broken => pt
      case Minutes(n) => ScanApps(KeepHighest(pt, apps[0].key, n), apps[1..])
  }

  function UserConfig(user: Path): Path {
    user + ["config", "localconfig.vdf"]
  }

  /**
   * The playtimes one entry of userdata contributes on its own: nothing unless
   * it is a directory whose config file reads and leads to a mapping of apps.
   */
  function UserPlaytime(fs: Fs, user: Path): map<string, int> {
    if !(user in fs && fs[user].Dir?) then map[]
    else
      match ReadText(fs, UserConfig(user))
      case None => map[]
      case Some(content) =>
        match Navigate(Vdf.Parse(content), AppsKeys)
        case None => map[]
        case Some(apps) => ScanApps(map[], apps)
  }

  /** Two sets of playtimes combined, keeping the higher value per app. */
  function MergeMax(a: map<string, int>, b: map<string, int>): (r: map<string, int>)
    ensures r.Keys == a.Keys + b.Keys
    ensures forall k :: k in a ==> r[k] >= a[k]
    ensures forall k :: k in b ==> r[k] >= b[k]
    ensures forall k :: k in r ==> (k in a && r[k] == a[k]) || (k in b && r[k] == b[k])
  {
    map k | k in a.Keys + b.Keys :: if k in a && k in b then Max(a[k], b[k]) else if k in a then a[k] else b[k]
  }

  lemma MergeMaxCommutes(a: map<string, int>, b: map<string, int>)
    ensures MergeMax(a, b) == MergeMax(b, a)
  {
  }

  lemma MergeMaxAssociates(a: map<string, int>, b: map<string, int>, c: map<string, int>)
    ensures MergeMax(MergeMax(a, b), c) == MergeMax(a, MergeMax(b, c))
  {
  }

  lemma MergeMaxEmpty(a: map<string, int>)
    ensures MergeMax(a, map[]) == a && MergeMax(map[], a) == a
  {
  }

  /** Scanning from gathered playtimes is merging with what the scan finds alone. */
  lemma {:induction false} ScanAppsMerge(pt: map<string, int>, apps: seq<Vdf.Entry>)
    ensures ScanApps(pt, apps) == MergeMax(pt, ScanApps(map[], apps))
    decreases apps
  {
    if apps == [] {
      MergeMaxEmpty(pt);
    } else {
      match PlaytimeOf(apps[0].node)
      case NoPlaytime =>
        ScanAppsMerge(pt, apps[1..]);
      case Broken =>
        MergeMaxEmpty(pt);
      case Minutes(n) =>
        var one := map[apps[0].key := n];
        assert KeepHighest(pt, apps[0].key, n) == MergeMax(pt, one);
        assert KeepHighest(map[], apps[0].key, n) == one;
        ScanAppsMerge(MergeMax(pt, one), apps[1..]);
        ScanAppsMerge(one, apps[1..]);
        MergeMaxAssociates(pt, one, ScanApps(map[], apps[1..]));
    }
  }

  /** Every recorded playtime of a user comes from an app entry with integer minutes. */
  lemma {:induction false} ScanAppsSource(pt: map<string, int>, apps: seq<Vdf.Entry>, a: string)
    requires a in ScanApps(pt, apps)
    ensures || (a in pt && ScanApps(pt, apps)[a] == pt[a])
            || exists i :: 0 <= i < |apps| && apps[i].key == a && PlaytimeOf(apps[i].node) == Minutes(ScanApps(pt, apps)[a])
    decreases apps
  {
    if apps != [] {
      match PlaytimeOf(apps[0].node)
      case NoPlaytime =>
        ScanAppsSource(pt, apps[1..], a);
        assert forall i :: 1 <= i < |apps| ==> apps[i] == apps[1..][i - 1];
      case Broken =>
      case Minutes(n) =>
        var kept := KeepHighest(pt, apps[0].key, n);
        ScanAppsSource(kept, apps[1..], a);
        assert forall i :: 1 <= i < |apps| ==> apps[i] == apps[1..][i - 1];
    }
  }

  /** The scan never drops an app or lowers a playtime gathered before it. */
  lemma {:induction false} ScanAppsGrows(pt: map<string, int>, apps: seq<Vdf.Entry>, a: string)
    requires a in pt
    ensures a in ScanApps(pt, apps) && ScanApps(pt, apps)[a] >= pt[a]
    decreases apps
  {
    if apps != [] {
      match PlaytimeOf(apps[0].node)
      case NoPlaytime => ScanAppsGrows(pt, apps[1..], a);
      case Broken =>
      case Minutes(n) => ScanAppsGrows(KeepHighest(pt, apps[0].key, n), apps[1..], a);
    }
  }

  /**
   * An app with an integer "Playtime" that comes before any mapping-valued
   * "Playtime" is recorded, with at least that many minutes.
   */
  lemma {:induction false} ScanAppsKeeps(pt: map<string, int>, apps: seq<Vdf.Entry>, i: int, n: int)
    requires 0 <= i < |apps| && PlaytimeOf(apps[i].node) == Minutes(n)
    requires forall j :: 0 <= j < i ==> PlaytimeOf(apps[j].node) != Broken
    ensures apps[i].key in ScanApps(pt, apps) && ScanApps(pt, apps)[apps[i].key] >= n
    decreases apps
  {
    if i == 0 {
      ScanAppsGrows(KeepHighest(pt, apps[0].key, n), apps[1..], apps[0].key);
    } else {
      var rest := apps[1..];
      assert 0 <= i - 1 < |rest| && PlaytimeOf(rest[i - 1].node) == Minutes(n) by {
        assert rest[i - 1] == apps[i];
      }
      assert forall j :: 0 <= j < i - 1 ==> PlaytimeOf(rest[j].node) != Broken by {
        forall j | 0 <= j < i - 1 ensures PlaytimeOf(rest[j].node) != Broken {
          assert rest[j] == apps[j + 1];
        }
      }
      var first := PlaytimeOf(apps[0].node);
      var pt' := if first.Minutes? then KeepHighest(pt, apps[0].key, first.n) else pt;
      assert ScanApps(pt, apps) == ScanApps(pt', rest);
      ScanAppsKeeps(pt', rest, i - 1, n);
    }
  }

  /** The playtimes gathered from a set of user directories, visited in any order. */
  ghost function PlaytimeOver(fs: Fs, users: set<Path>): map<string, int>
    decreases users
  {
    if users == {} then map[]
    else
      var u :| u in users;
      MergeMax(PlaytimeOver(fs, users - {u}), UserPlaytime(fs, u))
  }

  /** The visiting order does not matter: any user can be taken last. */
  lemma {:induction false} PlaytimeOverRemove(fs: Fs, users: set<Path>, u: Path)
    requires u in users
    ensures PlaytimeOver(fs, users) == MergeMax(PlaytimeOver(fs, users - {u}), UserPlaytime(fs, u))
    decreases users
  {
    var v :| v in users && PlaytimeOver(fs, users) == MergeMax(PlaytimeOver(fs, users - {v}), UserPlaytime(fs, v));
    if v != u {
      var rest := users - {u} - {v};
      assert users - {v} - {u} == rest;
      PlaytimeOverRemove(fs, users - {v}, u);
      PlaytimeOverRemove(fs, users - {u}, v);
      var x := PlaytimeOver(fs, rest);
      MergeMaxAssociates(x, UserPlaytime(fs, u), UserPlaytime(fs, v));
      MergeMaxAssociates(x, UserPlaytime(fs, v), UserPlaytime(fs, u));
      MergeMaxCommutes(UserPlaytime(fs, u), UserPlaytime(fs, v));
    }
  }

  /** get_playtime_data, as a value. */
  ghost function Playtimes(fs: Fs, root: Path): Result<map<string, int>, CatalogError> {
    var userdata := root + ["userdata"];
    if userdata !in fs then Success(map[])
    else if fs[userdata].File? then Failure(NotADirectory(userdata))
    else Success(PlaytimeOver(fs, Children(fs, userdata)))
  }

  /**
   * An app has a playtime exactly when some user records one, and it is the
   * highest that any user records.
   */
  lemma {:induction false} PlaytimeOverHighest(fs: Fs, users: set<Path>)
    ensures var pt := PlaytimeOver(fs, users);
      && (forall a :: a in pt <==> exists u :: u in users && a in UserPlaytime(fs, u))
      && (forall u, a :: u in users && a in UserPlaytime(fs, u) ==> pt[a] >= UserPlaytime(fs, u)[a])
      && (forall a :: a in pt ==> exists u :: u in users && a in UserPlaytime(fs, u) && pt[a] == UserPlaytime(fs, u)[a])
    decreases users
  {
    if users != {} {
      var u :| u in users;
      PlaytimeOverRemove(fs, users, u);
      PlaytimeOverHighest(fs, users - {u});
      var pt, rest, mine := PlaytimeOver(fs, users), PlaytimeOver(fs, users - {u}), UserPlaytime(fs, u);
      assert pt == MergeMax(rest, mine);
      forall a | a in pt ensures exists v :: v in users && a in UserPlaytime(fs, v) && pt[a] == UserPlaytime(fs, v)[a] {
        if !(a in mine && pt[a] == mine[a]) {
          var v :| v in users - {u} && a in UserPlaytime(fs, v) && rest[a] == UserPlaytime(fs, v)[a];
        }
      }
      forall v, a | v in users && a in UserPlaytime(fs, v) ensures pt[a] >= UserPlaytime(fs, v)[a] {
        if v != u {
          assert a in rest && rest[a] >= UserPlaytime(fs, v)[a];
        }
      }
    }
  }

  /**
   * The loop body of get_playtime_data for one entry of userdata: read its
   * config, walk to the apps and fold each app's minutes into `playtime`.
   */
  method AddUserPlaytime(fs: Fs, userDir: Path, playtime: map<string, int>) returns (updated: map<string, int>)
    ensures updated == MergeMax(playtime, UserPlaytime(fs, userDir))
  {
    updated := playtime;
    MergeMaxEmpty(playtime);
    if !(userDir in fs && fs[userDir].Dir?) {
      return;
    }
    var content := ReadText(fs, UserConfig(userDir));
    if content.None? {
      return;
    }
    var data := Vdf.ParseVdf(content.value);
    var apps := Navigate(data, AppsKeys);
    if apps.None? {
      return;
    }
    var entries := apps.value;
    var j := 0;
    while j < |entries|
      invariant 0 <= j <= |entries|
      invariant ScanApps(updated, entries[j..]) == ScanApps(playtime, entries)
    {
      assert entries[j..][1..] == entries[j + 1..];
      var minutes := PlaytimeOf(entries[j].node);
      if minutes.Broken? {
        break;
      }
      if minutes.Minutes? {
        var appid := entries[j].key;
        if appid !in updated || minutes.n > updated[appid] {
          updated := updated[appid := minutes.n];
        }
      }
      j := j + 1;
    }
    assert updated == ScanApps(playtime, entries) by {
      if j == |entries| {
        assert entries[j..] == [];
      }
    }
    ScanAppsMerge(playtime, entries);
  }

  /** get_playtime_data: visit every user directory and fold its apps into one mapping. */
  method GetPlaytimeData(fs: Fs, root: Path) returns (r: Result<map<string, int>, CatalogError>)
    ensures r == Playtimes(fs, root)
  {
    var userdataPath := root + ["userdata"];
    if userdataPath !in fs {
      return Success(map[]);
    }
    if fs[userdataPath].File? {
      return Failure(NotADirectory(userdataPath));
    }
    var playtime: map<string, int> := map[];
    var userDirs := Children(fs, userdataPath);
    var users := userDirs;
    while users != {}
      invariant users <= userDirs
      invariant playtime == PlaytimeOver(fs, userDirs - users)
      decreases |users|
    {
      var userDir :| userDir in users;
      PlaytimeOverRemove(fs, userDirs - users + {userDir}, userDir);
      assert userDirs - users + {userDir} - {userDir} == userDirs - users;
      assert userDirs - (users - {userDir}) == userDirs - users + {userDir};
      playtime := AddUserPlaytime(fs, userDir, playtime);
      users := users - {userDir};
    }
    assert userDirs - users == userDirs;
    return Success(playtime);
  }

  // ---------------------------------------------------------------------------
  // get_installed_games
  // ---------------------------------------------------------------------------

  /** A name that the pattern "appmanifest_*.acf" matches. */
  predicate IsManifestName(n: string) {
    |n| >= 16 && StartsWith(n, "appmanifest_") && n[|n| - 4..] == ".acf"
  }

  /** steamapps.glob("appmanifest_*.acf"). */
  function Manifests(fs: Fs, lib: Path): (r: set<Path>)
    ensures forall m :: m in r ==> m in fs && |m| == |lib| + 2 && m == lib + ["steamapps", m[|lib| + 1]] && IsManifestName(m[|lib| + 1])
    ensures forall n :: IsManifestName(n) && lib + ["steamapps", n] in fs ==> lib + ["steamapps", n] in r
  {
    set m | m in Children(fs, lib + ["steamapps"]) && IsManifestName(m[|m| - 1])
  }

  /** A game's own manifest, when it exists, is one of those the glob finds in its library. */
  lemma OwnManifestFound(fs: Fs, g: SteamGame)
    requires '/' !in g.appid && g.ManifestPath() in fs
    ensures g.ManifestPath() == g.libraryPath + ["steamapps", "appmanifest_" + g.appid + ".acf"]
    ensures g.ManifestPath() in Manifests(fs, g.libraryPath)
  {
    ManifestPathOf(g);
    var text := "appmanifest_" + g.appid + ".acf";
    assert StartsWith(text, "appmanifest_") && text[|text| - 4..] == ".acf";
  }

  /** An app id with no '/' names the single file steamapps/appmanifest_<appid>.acf of its library. */
  lemma ManifestPathOf(g: SteamGame)
    requires '/' !in g.appid
    ensures g.ManifestPath() == g.libraryPath + ["steamapps", "appmanifest_" + g.appid + ".acf"]
  {
    var text := "appmanifest_" + g.appid + ".acf";
    assert '/' !in text by {
      forall i | 0 <= i < |text| ensures text[i] != '/' {
        if 12 <= i < 12 + |g.appid| {
          assert text[i] == g.appid[i - 12];
        }
      }
    }
    SplitSegment(text);
  }

  /** Games of one library share a manifest exactly when they share an app id. */
  lemma ManifestPathDistinct(g: SteamGame, h: SteamGame)
    requires g.libraryPath == h.libraryPath && '/' !in g.appid && '/' !in h.appid
    ensures g.ManifestPath() == h.ManifestPath() <==> g.appid == h.appid
  {
    ManifestPathOf(g);
    ManifestPathOf(h);
    var tg, th := "appmanifest_" + g.appid + ".acf", "appmanifest_" + h.appid + ".acf";
    if g.ManifestPath() == h.ManifestPath() {
      assert tg == g.ManifestPath()[|g.libraryPath| + 1] == th;
      assert tg[12..|tg| - 4] == g.appid;
      assert th[12..|th| - 4] == h.appid;
    }
  }

  /** What the listing does with one manifest. */
  datatype Outcome =
    | Skipped                 // not read, not a game, a tool, malformed, or no game folder
    | Listed(game: SteamGame)
    | ListedUnnamed           // kept although its name is a mapping; sorting then raises

  /** `"Runtime" in name or "Proton" in name`: a substring of a text, a key of a mapping. */
  predicate IsTool(name: Vdf.VNode) {
    match name
    case Leaf(s) => Contains(s, "Runtime") || Contains(s, "Proton")
    case Dict(es) => "Runtime" in Vdf.Keys(es) || "Proton" in Vdf.Keys(es)
  }

  /** The non-empty AppState mapping of a manifest that reads. */
  function AppStateOf(fs: Fs, m: Path): (r: Option<seq<Vdf.Entry>>)
    ensures ReadText(fs, m).None? ==> r.None?
    ensures ReadText(fs, m).Some? ==>
      var app := Vdf.Lookup(Vdf.Parse(ReadText(fs, m).value), "AppState");
      && (r.Some? <==> app.Some? && app.value.Dict? && app.value.entries != [])
      && (r.Some? ==> app.value == Vdf.Dict(r.value))
  {
    match ReadText(fs, m)
    case None => None
    case Some(content) =>
      match Vdf.Lookup(Vdf.Parse(content), "AppState")
      case Some(Dict(st)) => if st == [] then None else Some(st)
      case _ => None
  }

  /** `app_state.get(k, default)`. */
  function Field(st: seq<Vdf.Entry>, k: string, default: string): Vdf.VNode {
    Vdf.Lookup(st, k).GetOr(Vdf.Leaf(default))
  }

  /** The loop body of get_installed_games for an AppState mapping, exactly as written. */
  function AppStateOutcome(fs: Fs, lib: Path, pt: map<string, int>, st: seq<Vdf.Entry>): Outcome {
    var appid := Field(st, "appid", "");
    var name := Field(st, "name", "Unknown");
    var installDir := Field(st, "installdir", "");
    var sizeText := Field(st, "SizeOnDisk", "0");
    if IsTool(name) || sizeText.Dict? || appid.Dict? || installDir.Dict? then Skipped
    else
      var steamapps := lib + ["steamapps"];
      if Join(steamapps + ["common"], installDir.text) !in fs then Skipped
      else if name.Dict? then ListedUnnamed
      else
        Listed(SteamGame(
          appid.text,
          name.text,
          installDir.text,
          ParseInt(sizeText.text).GetOr(0),
          lib,
          Join(steamapps + ["compatdata"], appid.text) in fs,
          Join(steamapps + ["shadercache"], appid.text) in fs,
          if appid.text in pt then pt[appid.text] else 0))
  }

  /** One manifest, exactly as get_installed_games treats it. */
  function ManifestOutcomeAsWritten(fs: Fs, lib: Path, pt: map<string, int>, m: Path): Outcome {
    match AppStateOf(fs, m)
    case None => Skipped
    case Some(st) => AppStateOutcome(fs, lib, pt, st)
  }

  /** One manifest, skipping a game whose install directory or app id is not confined. */
  function ManifestOutcome(fs: Fs, lib: Path, pt: map<string, int>, m: Path): Outcome {
    var o := ManifestOutcomeAsWritten(fs, lib, pt, m);
    if o.Listed? && !(Confined(o.game.installDir) && Confined(o.game.appid)) then Skipped else o
  }

  /**
   * A manifest without "installdir", in a library whose steamapps/common
   * exists, is listed as written with steamapps/common itself as the game's
   * folder; the confined reading skips it.
   */
  lemma MissingInstallDirAsWritten(fs: Fs, lib: Path, pt: map<string, int>, m: Path, st: seq<Vdf.Entry>)
    requires AppStateOf(fs, m) == Some(st)
    requires "installdir" !in Vdf.Keys(st)
    requires Field(st, "appid", "").Leaf? && Field(st, "SizeOnDisk", "0").Leaf?
    requires Field(st, "name", "Unknown").Leaf? && !IsTool(Field(st, "name", "Unknown"))
    requires lib + ["steamapps", "common"] in fs
    ensures var o := ManifestOutcomeAsWritten(fs, lib, pt, m);
      && o.Listed? && o.game.installDir == ""
      && o.game.GamePath() == lib + ["steamapps", "common"]
    ensures ManifestOutcome(fs, lib, pt, m) == Skipped
  {
    assert Vdf.Lookup(st, "installdir") == None;
    assert Field(st, "installdir", "") == Vdf.Leaf("");
    assert Split("") == [];
    assert lib + ["steamapps"] + ["common"] == lib + ["steamapps", "common"];
    assert Join(lib + ["steamapps"] + ["common"], "") == lib + ["steamapps", "common"];
    assert ManifestOutcomeAsWritten(fs, lib, pt, m) == AppStateOutcome(fs, lib, pt, st);
  }

  /**
   * The confined listing keeps exactly the games the code lists whose install
   * directory and app id are confined, and treats every other manifest alike.
   */
  lemma ConfinedListing(fs: Fs, lib: Path, pt: map<string, int>, m: Path, g: SteamGame)
    ensures ManifestOutcome(fs, lib, pt, m) == Listed(g) <==>
      ManifestOutcomeAsWritten(fs, lib, pt, m) == Listed(g) && Confined(g.installDir) && Confined(g.appid)
    ensures ManifestOutcome(fs, lib, pt, m).ListedUnnamed? <==> ManifestOutcomeAsWritten(fs, lib, pt, m).ListedUnnamed?
  {
  }

  /** What a listed game is: every field comes from its manifest, the library and the playtimes. */
  lemma ListedGame(fs: Fs, lib: Path, pt: map<string, int>, m: Path, g: SteamGame)
    requires ManifestOutcomeAsWritten(fs, lib, pt, m) == Listed(g)
    ensures AppStateOf(fs, m).Some?
    ensures var st := AppStateOf(fs, m).value;
      && Field(st, "appid", "") == Vdf.Leaf(g.appid)
      && Field(st, "name", "Unknown") == Vdf.Leaf(g.name)
      && Field(st, "installdir", "") == Vdf.Leaf(g.installDir)
      && Field(st, "SizeOnDisk", "0").Leaf?
      && g.sizeOnDisk == ParseInt(Field(st, "SizeOnDisk", "0").text).GetOr(0)
    ensures !Contains(g.name, "Runtime") && !Contains(g.name, "Proton")
    ensures g.libraryPath == lib && g.GamePath() in fs
    ensures g.hasCompatdata <==> g.CompatdataPath() in fs
    ensures g.hasShadercache <==> g.ShadercachePath() in fs
    ensures g.playtimeMinutes == if g.appid in pt then pt[g.appid] else 0
  {
  }

  lemma ListedGameFields(fs: Fs, lib: Path, pt: map<string, int>, m: Path, g: SteamGame)
    requires ManifestOutcome(fs, lib, pt, m) == Listed(g)
    ensures Confined(g.installDir) && Confined(g.appid) && g.libraryPath == lib
  {
  }

  /** A listed game's folders lie strictly inside the areas of its own library. */
  lemma ListedGameConfined(fs: Fs, lib: Path, pt: map<string, int>, m: Path, g: SteamGame)
    requires ManifestOutcome(fs, lib, pt, m) == Listed(g)
    ensures StrictlyInside(g.GamePath(), lib + ["steamapps", "common"])
    ensures StrictlyInside(g.CompatdataPath(), lib + ["steamapps", "compatdata"])
    ensures StrictlyInside(g.ShadercachePath(), lib + ["steamapps", "shadercache"])
  {
    ListedGameFields(fs, lib, pt, m, g);
    ConfinedAreas(g, lib);
  }

  lemma ConfinedAreas(g: SteamGame, lib: Path)
    requires Confined(g.installDir) && Confined(g.appid) && g.libraryPath == lib
    ensures StrictlyInside(g.GamePath(), lib + ["steamapps", "common"])
    ensures StrictlyInside(g.CompatdataPath(), lib + ["steamapps", "compatdata"])
    ensures StrictlyInside(g.ShadercachePath(), lib + ["steamapps", "shadercache"])
  {
    ConfinedPathsSeparate(g);
    assert g.SteamApps() + ["common"] == lib + ["steamapps", "common"];
    assert g.SteamApps() + ["compatdata"] == lib + ["steamapps", "compatdata"];
    assert g.SteamApps() + ["shadercache"] == lib + ["steamapps", "shadercache"];
  }

  function OutcomeGames(o: Outcome): multiset<SteamGame> {
    if o.Listed? then multiset{o.game} else multiset{}
  }

  /** What each manifest of a library yields, as the code is written. */
  function OutcomeIn(fs: Fs, lib: Path, pt: map<string, int>): Path -> Outcome {
    m => ManifestOutcomeAsWritten(fs, lib, pt, m)
  }

  /** The games that the manifests `ms` yield, visited in any order. */
  ghost function Yield(ms: set<Path>, outcomeOf: Path -> Outcome): multiset<SteamGame>
    decreases ms
  {
    if ms == {} then multiset{}
    else
      var m :| m in ms;
      Yield(ms - {m}, outcomeOf) + OutcomeGames(outcomeOf(m))
  }

  /** The visiting order does not matter: any manifest can be taken last. */
  lemma {:induction false} YieldRemove(ms: set<Path>, outcomeOf: Path -> Outcome, m: Path)
    requires m in ms
    ensures Yield(ms, outcomeOf) == Yield(ms - {m}, outcomeOf) + OutcomeGames(outcomeOf(m))
    decreases ms
  {
    var v :| v in ms && Yield(ms, outcomeOf) == Yield(ms - {v}, outcomeOf) + OutcomeGames(outcomeOf(v));
    if v != m {
      assert ms - {v} - {m} == ms - {m} - {v};
      YieldRemove(ms - {v}, outcomeOf, m);
      YieldRemove(ms - {m}, outcomeOf, v);
    }
  }

  /** A game is in the listing exactly when some manifest lists it. */
  lemma {:induction false} YieldMember(ms: set<Path>, outcomeOf: Path -> Outcome, g: SteamGame)
    ensures g in Yield(ms, outcomeOf) <==> exists m :: m in ms && outcomeOf(m) == Listed(g)
    decreases ms
  {
    if ms != {} {
      var m :| m in ms;
      YieldRemove(ms, outcomeOf, m);
      YieldMember(ms - {m}, outcomeOf, g);
    }
  }

  ghost predicate AnyUnnamed(ms: set<Path>, outcomeOf: Path -> Outcome) {
    exists m :: m in ms && outcomeOf(m).ListedUnnamed?
  }

  /** One more manifest read: its game joins the listing, and it may be the one without a text name. */
  lemma GatherStep(visited: set<Path>, outcomeOf: Path -> Outcome, m: Path, games: seq<SteamGame>, unnamed: bool)
    requires m !in visited
    requires multiset(games) == Yield(visited, outcomeOf)
    requires unnamed <==> AnyUnnamed(visited, outcomeOf)
    ensures var o := outcomeOf(m);
      && multiset(if o.Listed? then games + [o.game] else games) == Yield(visited + {m}, outcomeOf)
      && (unnamed || o.ListedUnnamed? <==> AnyUnnamed(visited + {m}, outcomeOf))
  {
    YieldRemove(visited + {m}, outcomeOf, m);
    assert visited + {m} - {m} == visited;
  }

  /** get_installed_games, as a value: the games of one library as a multiset. */
  ghost function LibraryGames(fs: Fs, lib: Path, pt: map<string, int>): Result<multiset<SteamGame>, CatalogError> {
    if lib + ["steamapps"] !in fs then Success(multiset{})
    else if AnyUnnamed(Manifests(fs, lib), OutcomeIn(fs, lib, pt)) then Failure(NameNotText(lib))
    else Success(Yield(Manifests(fs, lib), OutcomeIn(fs, lib, pt)))
  }

  // ---------------------------------------------------------------------------
  // Sorting by lower-cased name
  // ---------------------------------------------------------------------------

  function NameKey(g: SteamGame): string {
    Lower(g.name)
  }

  predicate SortedByName(gs: seq<SteamGame>) {
    forall i, j :: 0 <= i < j < |gs| ==> LexLe(NameKey(gs[i]), NameKey(gs[j]))
  }

  function InsertByName(g: SteamGame, gs: seq<SteamGame>): (r: seq<SteamGame>)
    requires SortedByName(gs)
    ensures SortedByName(r)
    ensures multiset(r) == multiset(gs) + multiset{g}
  {
    if gs == [] then [g]
    else if LexLe(NameKey(g), NameKey(gs[0])) then
      InsertFront(g, gs);
      [g] + gs
    else
      LexLeTotal(NameKey(g), NameKey(gs[0]));
      var rest := InsertByName(g, gs[1..]);
      InsertAfterHead(g, gs, rest);
      [gs[0]] + rest
  }

  /** A game not above the head of a sorted list goes in front of it. */
  lemma InsertFront(g: SteamGame, gs: seq<SteamGame>)
    requires SortedByName(gs) && gs != [] && LexLe(NameKey(g), NameKey(gs[0]))
    ensures SortedByName([g] + gs)
  {
    forall j | 0 < j < |gs| ensures LexLe(NameKey(g), NameKey(gs[j])) {
      LexLeTransitive(NameKey(g), NameKey(gs[0]), NameKey(gs[j]));
    }
  }

  /** A game not below the head of a sorted list goes into its tail. */
  lemma InsertAfterHead(g: SteamGame, gs: seq<SteamGame>, rest: seq<SteamGame>)
    requires SortedByName(gs) && gs != [] && LexLe(NameKey(gs[0]), NameKey(g))
    requires SortedByName(rest) && multiset(rest) == multiset(gs[1..]) + multiset{g}
    ensures SortedByName([gs[0]] + rest)
    ensures multiset([gs[0]] + rest) == multiset(gs) + multiset{g}
  {
    assert gs == [gs[0]] + gs[1..];
    HeadBelowInserted(g, gs, rest);
  }

  /** The head of a sorted list stays below everything once `g`, which is not below it, is inserted into the tail. */
  lemma HeadBelowInserted(g: SteamGame, gs: seq<SteamGame>, rest: seq<SteamGame>)
    requires SortedByName(gs) && gs != [] && LexLe(NameKey(gs[0]), NameKey(g))
    requires multiset(rest) == multiset(gs[1..]) + multiset{g}
    ensures forall j :: 0 <= j < |rest| ==> LexLe(NameKey(gs[0]), NameKey(rest[j]))
  {
    forall j | 0 <= j < |rest| ensures LexLe(NameKey(gs[0]), NameKey(rest[j])) {
      assert rest[j] in multiset(rest);
      if rest[j] != g {
        assert rest[j] in multiset(gs[1..]);
        var k :| 0 <= k < |gs[1..]| && gs[1..][k] == rest[j];
        assert gs[k + 1] == rest[j];
      }
    }
  }

  /** sorted(games, key=lambda g: g.name.lower()). */
  function SortByName(gs: seq<SteamGame>): (r: seq<SteamGame>)
    ensures SortedByName(r)
    ensures multiset(r) == multiset(gs)
  {
    if gs == [] then []
    else
      assert gs == [gs[0]] + gs[1..];
      InsertByName(gs[0], SortByName(gs[1..]))
  }

  /**
   * The loop of get_installed_games over the manifests found, where
   * `outcomeOf` says what reading one manifest yields: the listed games are
   * appended, and `unnamed` records whether a game without a text name was kept.
   */
  method ReadManifests(manifests: set<Path>, outcomeOf: Path -> Outcome) returns (games: seq<SteamGame>, unnamed: bool)
    ensures multiset(games) == Yield(manifests, outcomeOf)
    ensures unnamed <==> AnyUnnamed(manifests, outcomeOf)
  {
    games := [];
    unnamed := false;
    var remaining := manifests;
    while remaining != {}
      invariant remaining <= manifests
      invariant multiset(games) == Yield(manifests - remaining, outcomeOf)
      invariant unnamed <==> AnyUnnamed(manifests - remaining, outcomeOf)
      decreases |remaining|
    {
      var manifest :| manifest in remaining;
      GatherStep(manifests - remaining, outcomeOf, manifest, games, unnamed);
      assert manifests - (remaining - {manifest}) == manifests - remaining + {manifest};
      var outcome := outcomeOf(manifest);
      if outcome.Listed? {
        games := games + [outcome.game];
      } else if outcome.ListedUnnamed? {
        unnamed := true;
      }
      remaining := remaining - {manifest};
    }
    assert manifests - remaining == manifests;
  }

  /** get_installed_games: read every manifest of the library, then sort. */
  method GetInstalledGames(fs: Fs, lib: Path, pt: map<string, int>) returns (r: Result<seq<SteamGame>, CatalogError>)
    ensures r.Failure? ==> LibraryGames(fs, lib, pt) == Failure(r.error)
    ensures r.Success? ==> && LibraryGames(fs, lib, pt).Success?
                           && multiset(r.value) == LibraryGames(fs, lib, pt).value
                           && SortedByName(r.value)
  {
    var steamapps := lib + ["steamapps"];
    if steamapps !in fs {
      return Success([]);
    }
    var games, unnamed := ReadManifests(Manifests(fs, lib), OutcomeIn(fs, lib, pt));
    if unnamed {
      return Failure(NameNotText(lib));
    }
    return Success(SortByName(games));
  }

  // ---------------------------------------------------------------------------
  // get_all_installed_games
  // ---------------------------------------------------------------------------

  /** What get_installed_games yields for each library, with the root's playtimes. */
  ghost function GamesIn(fs: Fs, pt: map<string, int>): Path -> Result<multiset<SteamGame>, CatalogError> {
    lib => LibraryGames(fs, lib, pt)
  }

  /**
   * The games of every library in turn, where `gamesOf` says what one library
   * yields; the first library that fails ends the listing.
   */
  ghost function Across(libs: seq<Path>, gamesOf: Path -> Result<multiset<SteamGame>, CatalogError>): Result<multiset<SteamGame>, CatalogError> {
    if libs == [] then Success(multiset{})
    else
      match gamesOf(libs[0])
      case Failure(e) => Failure(e)
      case Success(here) =>
        match Across(libs[1..], gamesOf)
        case Failure(e) => Failure(e)
        case Success(rest) => Success(here + rest)
  }

  /** The listing fails exactly when some library fails, and then with the error of the first one. */
  lemma {:induction false} AcrossFailure(libs: seq<Path>, gamesOf: Path -> Result<multiset<SteamGame>, CatalogError>)
    ensures var r := Across(libs, gamesOf);
      && (r.Failure? <==> exists i :: 0 <= i < |libs| && gamesOf(libs[i]).Failure?)
      && (r.Failure? ==> exists i :: && 0 <= i < |libs| && gamesOf(libs[i]) == Failure(r.error)
                                     && forall j :: 0 <= j < i ==> gamesOf(libs[j]).Success?)
  {
    if libs != [] && gamesOf(libs[0]).Success? {
      var tail := libs[1..];
      AcrossFailure(tail, gamesOf);
      if exists i :: 0 <= i < |libs| && gamesOf(libs[i]).Failure? {
        var i :| 0 <= i < |libs| && gamesOf(libs[i]).Failure?;
        assert gamesOf(tail[i - 1]).Failure?;
      }
      if Across(tail, gamesOf).Failure? {
        var e := Across(tail, gamesOf).error;
        var i :| && 0 <= i < |tail| && gamesOf(tail[i]) == Failure(e)
                 && forall j :: 0 <= j < i ==> gamesOf(tail[j]).Success?;
        assert gamesOf(libs[i + 1]) == Failure(e);
        forall j | 0 <= j < i + 1 ensures gamesOf(libs[j]).Success? {
          if j > 0 {
            assert libs[j] == tail[j - 1];
          }
        }
      }
    }
  }

  /** A listing that succeeds holds exactly the games of every library. */
  lemma {:induction false} AcrossGames(libs: seq<Path>, gamesOf: Path -> Result<multiset<SteamGame>, CatalogError>, g: SteamGame)
    requires Across(libs, gamesOf).Success?
    ensures g in Across(libs, gamesOf).value <==> exists i :: 0 <= i < |libs| && gamesOf(libs[i]).Success? && g in gamesOf(libs[i]).value
  {
    if libs != [] {
      var tail := libs[1..];
      AcrossGames(tail, gamesOf, g);
      if exists i :: 0 <= i < |libs| && gamesOf(libs[i]).Success? && g in gamesOf(libs[i]).value {
        var i :| 0 <= i < |libs| && gamesOf(libs[i]).Success? && g in gamesOf(libs[i]).value;
        if i > 0 {
          assert gamesOf(tail[i - 1]).Success? && g in gamesOf(tail[i - 1]).value;
        }
      }
      if exists i :: 0 <= i < |tail| && gamesOf(tail[i]).Success? && g in gamesOf(tail[i]).value {
        var i :| 0 <= i < |tail| && gamesOf(tail[i]).Success? && g in gamesOf(tail[i]).value;
        assert gamesOf(libs[i + 1]).Success? && g in gamesOf(libs[i + 1]).value;
      }
    }
  }

  function AddGames(pre: multiset<SteamGame>, r: Result<multiset<SteamGame>, CatalogError>): Result<multiset<SteamGame>, CatalogError> {
    match r
    case Success(gs) => Success(pre + gs)
    case Failure(e) => Failure(e)
  }

  /** One library further: its games join those gathered, or its failure ends the listing. */
  lemma AcrossStep(libs: seq<Path>, gamesOf: Path -> Result<multiset<SteamGame>, CatalogError>, pre: multiset<SteamGame>)
    requires libs != []
    ensures match gamesOf(libs[0])
      case Failure(e) => AddGames(pre, Across(libs, gamesOf)) == Failure(e)
      case Success(here) => AddGames(pre, Across(libs, gamesOf)) == AddGames(pre + here, Across(libs[1..], gamesOf))
  {
    match gamesOf(libs[0])
    case Failure(e) =>
    case Success(here) =>
      match Across(libs[1..], gamesOf)
      case Failure(e) =>
      case Success(rest) =>
        assert pre + (here + rest) == (pre + here) + rest;
  }

  /** get_all_installed_games, as a value: every game of every library of the Steam root. */
  ghost function Catalog(fs: Fs, home: Path): Result<multiset<SteamGame>, CatalogError> {
    match FirstRoot(fs, Candidates(home))
    case None => Success(multiset{})
    case Some(root) =>
      match LibraryFolders(fs, root)
      case Failure(e) => Failure(e)
      case Success(libs) =>
        match Playtimes(fs, root)
        case Failure(e) => Failure(e)
        case Success(pt) => Across(libs, GamesIn(fs, pt))
  }

  /** get_all_installed_games: gather the games of every library, then sort them all. */
  method GetAllInstalledGames(fs: Fs, home: Path) returns (r: Result<seq<SteamGame>, CatalogError>)
    ensures r.Failure? ==> Catalog(fs, home) == Failure(r.error)
    ensures r.Success? ==> && Catalog(fs, home).Success?
                           && multiset(r.value) == Catalog(fs, home).value
                           && SortedByName(r.value)
  {
    var steamRoot := FindSteamRoot(fs, home);
    if steamRoot.None? {
      return Success([]);
    }
    var libraries := GetLibraryFolders(fs, steamRoot.value);
    if libraries.Failure? {
      return Failure(libraries.error);
    }
    var playtimeData := GetPlaytimeData(fs, steamRoot.value);
    if playtimeData.Failure? {
      return Failure(playtimeData.error);
    }
    var games := GatherLibraries(fs, libraries.value, playtimeData.value);
    if games.Failure? {
      return Failure(games.error);
    }
    return Success(SortByName(games.value));
  }

  /** The loop of get_all_installed_games: the games of each library in turn, appended. */
  method GatherLibraries(fs: Fs, libs: seq<Path>, pt: map<string, int>) returns (r: Result<seq<SteamGame>, CatalogError>)
    ensures r.Failure? ==> Across(libs, GamesIn(fs, pt)) == Failure(r.error)
    ensures r.Success? ==> Across(libs, GamesIn(fs, pt)) == Success(multiset(r.value))
  {
    var allGames: seq<SteamGame> := [];
    ghost var gamesOf := GamesIn(fs, pt);
    assert libs[0..] == libs;
    if Across(libs, gamesOf).Success? {
      assert multiset{} + Across(libs, gamesOf).value == Across(libs, gamesOf).value;
    }
    for i := 0 to |libs|
      invariant Across(libs, gamesOf) == AddGames(multiset(allGames), Across(libs[i..], gamesOf))
    {
      AcrossStep(libs[i..], gamesOf, multiset(allGames));
      assert libs[i..][1..] == libs[i + 1..];
      var games := GetInstalledGames(fs, libs[i], pt);
      assert gamesOf(libs[i]) == LibraryGames(fs, libs[i], pt);
      if games.Failure? {
        return Failure(games.error);
      }
      allGames := allGames + games.value;
    }
    assert libs[|libs|..] == [];
    assert multiset(allGames) + multiset{} == multiset(allGames);
    return Success(allGames);
  }

  /** Every game a library yields was listed by one of its manifests. */
  lemma LibraryGamesMember(fs: Fs, lib: Path, pt: map<string, int>, g: SteamGame)
    requires LibraryGames(fs, lib, pt).Success? && g in LibraryGames(fs, lib, pt).value
    ensures exists m :: m in Manifests(fs, lib) && ManifestOutcomeAsWritten(fs, lib, pt, m) == Listed(g)
  {
    YieldMember(Manifests(fs, lib), OutcomeIn(fs, lib, pt), g);
    var m :| m in Manifests(fs, lib) && OutcomeIn(fs, lib, pt)(m) == Listed(g);
  }

  /**
   * Every game in the catalog was listed by a manifest of one of the root's
   * libraries, with that library's path and the root's playtimes.
   */
  lemma CatalogMember(fs: Fs, home: Path, g: SteamGame)
    requires Catalog(fs, home).Success? && g in Catalog(fs, home).value
    ensures FirstRoot(fs, Candidates(home)).Some?
    ensures var root := FirstRoot(fs, Candidates(home)).value;
      && LibraryFolders(fs, root).Success?
      && Playtimes(fs, root).Success?
      && exists lib, m :: && lib in LibraryFolders(fs, root).value
                          && m in Manifests(fs, lib)
                          && ManifestOutcomeAsWritten(fs, lib, Playtimes(fs, root).value, m) == Listed(g)
  {
    var root := FirstRoot(fs, Candidates(home)).value;
    var libs := LibraryFolders(fs, root).value;
    var pt := Playtimes(fs, root).value;
    AcrossGames(libs, GamesIn(fs, pt), g);
    var i :| 0 <= i < |libs| && GamesIn(fs, pt)(libs[i]).Success? && g in GamesIn(fs, pt)(libs[i]).value;
    var lib := libs[i];
    LibraryGamesMember(fs, lib, pt, g);
  }
}
