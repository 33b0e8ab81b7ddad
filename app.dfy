/**
  The application state of src/app.rs: the installed-add-on view and its
  reconciliation against the catalog, the install, update and remove
  pipelines, the log and its scroll position, and the tab bar.

  Each pipeline is first stated as a function on the file system value `Fs`
  (what the steps return and what the disk holds afterwards); the methods of
  `App` run the steps against a `Disk` and are proved to agree with those
  functions. The catalog server is a parameter: `lookup` is the response of
  the update query for a list of ids, and `web` maps each reachable archive URL
  to the folders the archive holds.
 */
module Application {
  import opened Wrappers
  import opened Strings
  import opened Manifest
  import opened Tables
  import opened Catalog

  const I32Min: int := -0x8000_0000
  const I32Max: int := 0x7fff_ffff

  predicate AllDigits(s: string) {
    forall i :: 0 <= i < |s| ==> IsDigit(s[i])
  }

  /** `str::parse::<i32>()`: an optional `+` or `-`, then one or more decimal digits, the value within the `i32` range. */
  function ParseI32(s: string): (r: Option<int>)
    ensures r.Some? ==> I32Min <= r.value <= I32Max
    ensures r.Some? ==> |s| > 0 && (IsDigit(s[0]) || s[0] == '+' || s[0] == '-') && AllDigits(s[1..])
    ensures r.Some? && s[0] == '-' ==> r.value <= 0
    ensures r.Some? && s[0] != '-' ==> r.value >= 0
    ensures r.Some? && s[0] == '-' ==> r.value == 0 - DigitsValue(s[1..])
    ensures r.Some? && s[0] == '+' ==> r.value == DigitsValue(s[1..])
    ensures r.Some? && IsDigit(s[0]) ==> AllDigits(s) && r.value == DigitsValue(s)
    ensures var digits := if s != [] && (s[0] == '+' || s[0] == '-') then s[1..] else s;
      (s != [] && digits != [] && AllDigits(digits) &&
       I32Min <= (if s[0] == '-' then 0 - DigitsValue(digits) else DigitsValue(digits)) <= I32Max) ==> r.Some?
  {
    if s == [] then None
    else
      var digits := if s[0] == '+' || s[0] == '-' then s[1..] else s;
      if digits == [] || !AllDigits(digits) then None
      else
        var n: int := if s[0] == '-' then 0 - DigitsValue(digits) else DigitsValue(digits);
        if I32Min <= n <= I32Max then Some(n) else None
  }

  /** Every `i32` written in decimal parses back to itself. */
  lemma ParseI32OfIntToString(n: int)
    requires I32Min <= n <= I32Max
    ensures ParseI32(IntToString(n)) == Some(n)
  {
    var d := NatToString(if n < 0 then -n else n);
    DigitsValueOfNatToString(if n < 0 then -n else n);
    ParseI32Digits(d, n < 0);
  }

  /** Decimal digits, with a `-` in front when `negative`, parse to their value or its negation when it fits. */
  lemma ParseI32Digits(d: string, negative: bool)
    requires d != [] && AllDigits(d)
    requires if negative then 0 - DigitsValue(d) >= I32Min else DigitsValue(d) <= I32Max
    ensures ParseI32(if negative then "-" + d else d) == Some(if negative then 0 - DigitsValue(d) else DigitsValue(d))
  {
  }

  /** Text that is not a bare signed decimal, or lies outside the `i32` range, does not parse. */
  lemma ParseI32RejectsMalformed()
    ensures ParseI32("") == None && ParseI32("-") == None && ParseI32("+") == None
    ensures ParseI32("12a") == None && ParseI32(" 1") == None
  {
  }

  /** One past the largest `i32` does not parse; the smallest one does. */
  lemma ParseI32Bounds()
    ensures ParseI32("2147483648") == None && ParseI32("-2147483648") == Some(I32Min)
  {
    assert "-2147483648"[1..] == "2147483648";
    assert DigitsValue("2") == 2;
    assert "21"[..1] == "2";
    assert DigitsValue("21") == 21;
    assert "214"[..2] == "21";
    assert DigitsValue("214") == 214;
    assert "2147"[..3] == "214";
    assert DigitsValue("2147") == 2147;
    assert "21474"[..4] == "2147";
    assert DigitsValue("21474") == 21474;
    assert "214748"[..5] == "21474";
    assert DigitsValue("214748") == 214748;
    assert "2147483"[..6] == "214748";
    assert DigitsValue("2147483") == 2147483;
    assert "21474836"[..7] == "2147483";
    assert DigitsValue("21474836") == 21474836;
    assert "214748364"[..8] == "21474836";
    assert DigitsValue("214748364") == 214748364;
    assert "2147483648"[..9] == "214748364";
    assert DigitsValue("2147483648") == 2147483648;
  }

  /** The id an entry contributes to the update query: its `addon_id` as an `i32`, 0 when it does not parse. */
  function QueryId(a: Addon): int {
    ParseI32(a.addonId).GetOr(0)
  }

  /** The ids sent to the update lookup: the entries' parsed ids in manifest order, zeros dropped. */
  function QueryIds(xs: seq<Addon>): (ids: seq<int>)
    ensures |ids| <= |xs|
    ensures forall k :: 0 <= k < |ids| ==> ids[k] != 0 && I32Min <= ids[k] <= I32Max
    decreases |xs|
  {
    if xs == [] then []
    else
      var id := QueryId(xs[|xs| - 1]);
      QueryIds(xs[..|xs| - 1]) + (if id != 0 then [id] else [])
  }

  /** Every id in the query is the non-zero parsed id of some entry. */
  lemma {:induction false} QueryIdsSound(xs: seq<Addon>, n: int)
    requires n in QueryIds(xs)
    ensures n != 0 && exists i :: 0 <= i < |xs| && QueryId(xs[i]) == n
    decreases |xs|
  {
    var init := xs[..|xs| - 1];
    if n in QueryIds(init) {
      QueryIdsSound(init, n);
      var i :| 0 <= i < |init| && QueryId(init[i]) == n;
      assert init[i] == xs[i];
    } else {
      assert QueryId(xs[|xs| - 1]) == n;
    }
  }

  /** Every entry whose id parses to a non-zero value is in the query. */
  lemma {:induction false} QueryIdsComplete(xs: seq<Addon>, i: nat)
    requires i < |xs| && QueryId(xs[i]) != 0
    ensures QueryId(xs[i]) in QueryIds(xs)
    decreases |xs|
  {
    var init := xs[..|xs| - 1];
    if i < |init| {
      assert init[i] == xs[i];
      QueryIdsComplete(init, i);
    }
  }

  /** The query is empty exactly when no entry's id parses to a non-zero value. */
  lemma QueryIdsEmpty(xs: seq<Addon>)
    ensures QueryIds(xs) == [] <==> forall i :: 0 <= i < |xs| ==> QueryId(xs[i]) == 0
  {
    if QueryIds(xs) != [] {
      QueryIdsSound(xs, QueryIds(xs)[0]);
    }
    forall i | 0 <= i < |xs| && QueryId(xs[i]) != 0 ensures QueryIds(xs) != [] {
      QueryIdsComplete(xs, i);
    }
  }

  const UpToDate: string := "Up-to-date"
  const Outdated: string := "Outdated"

  /** The catalog version reconciliation treats as newer: the map has the id and its file id compares greater as text. */
  function NewerVersion(a: Addon, u: map<string, Addon>): (r: Option<Addon>)
    ensures r.Some? ==> a.addonId in u && r.value == u[a.addonId] && Less(a.fileId, r.value.fileId)
    ensures r.None? ==> a.addonId !in u || Leq(u[a.addonId].fileId, a.fileId)
  {
    if a.addonId in u && Less(a.fileId, u[a.addonId].fileId) then Some(u[a.addonId])
    else if a.addonId in u && a.fileId != u[a.addonId].fileId then LessTotal(a.fileId, u[a.addonId].fileId); None
    else None
  }

  /** The installed-table row of `a`: status, name, game version, installed and latest display version. */
  function InstalledRow(a: Addon, u: map<string, Addon>): (row: TableItem)
    ensures row.addon == a && |row.cells| == 5
    ensures row.cells[1] == a.name && row.cells[2] == a.gameVersion && row.cells[3] == a.version
    ensures row.cells[0] == UpToDate || row.cells[0] == Outdated
    ensures row.cells[0] == Outdated <==> NewerVersion(a, u).Some? && NewerVersion(a, u).value.version != a.version
    ensures NewerVersion(a, u).None? ==> row.cells[4] == a.version && row.downloadUrl == a.downloadUrl
    ensures NewerVersion(a, u).Some? ==>
      row.cells[4] == NewerVersion(a, u).value.version && row.downloadUrl == NewerVersion(a, u).value.downloadUrl
  {
    var latest := NewerVersion(a, u).GetOr(a);
    var status := if latest.version == a.version then UpToDate else Outdated;
    TableItem([status, a.name, a.gameVersion, a.version, latest.version], latest.downloadUrl, a)
  }

  /** The rows of the installed table, one per manifest entry, in manifest order. */
  function InstalledRows(xs: seq<Addon>, u: map<string, Addon>): (rows: seq<TableItem>)
    ensures |rows| == |xs|
    ensures forall i :: 0 <= i < |xs| ==> rows[i] == InstalledRow(xs[i], u)
    decreases |xs|
  {
    if xs == [] then []
    else InstalledRows(xs[..|xs| - 1], u) + [InstalledRow(xs[|xs| - 1], u)]
  }

  /** The pending updates an entry adds: its newer version, if any. */
  function Pending(a: Addon, u: map<string, Addon>): seq<Addon> {
    match NewerVersion(a, u)
    case Some(n) => [n]
    case None => []
  }

  /** The catalog versions kept for a later "update", in manifest order. */
  function PendingUpdates(xs: seq<Addon>, u: map<string, Addon>): (ps: seq<Addon>)
    ensures |ps| <= |xs|
    decreases |xs|
  {
    if xs == [] then []
    else PendingUpdates(xs[..|xs| - 1], u) + Pending(xs[|xs| - 1], u)
  }

  /** The pending updates are exactly the newer versions of the entries. */
  lemma {:induction false} PendingUpdatesMembers(xs: seq<Addon>, u: map<string, Addon>)
    ensures forall p :: p in PendingUpdates(xs, u) <==> exists i :: 0 <= i < |xs| && NewerVersion(xs[i], u) == Some(p)
    decreases |xs|
  {
    if xs != [] {
      var init := xs[..|xs| - 1];
      PendingUpdatesMembers(init, u);
      assert forall i :: 0 <= i < |init| ==> init[i] == xs[i];
      forall p | (exists i :: 0 <= i < |xs| && NewerVersion(xs[i], u) == Some(p))
        ensures p in PendingUpdates(xs, u)
      {
        var i :| 0 <= i < |xs| && NewerVersion(xs[i], u) == Some(p);
        if i < |init| {
          assert NewerVersion(init[i], u) == Some(p);
        }
      }
    }
  }

  /** The update map of the installed entries: nothing is asked of the server when no id parses. */
  function RemoteUpdates(xs: seq<Addon>, v: Version, lookup: seq<int> -> seq<CatalogEntry>): (u: map<string, Addon>)
    requires v != Tbc
    ensures QueryIds(xs) == [] ==> u == map[]
    ensures QueryIds(xs) != [] ==> u == UpdateMap(lookup(QueryIds(xs)), v)
    ensures forall id :: id in u ==> u[id].addonId == id
  {
    if QueryIds(xs) == [] then map[] else UpdateMap(lookup(QueryIds(xs)), v)
  }

  /** The manifest entries the view lists: none when the manifest cannot be read. */
  function ListedAddons(fs: Fs, root: string): seq<Addon> {
    match LoadDb(fs, root)
    case Success(xs) => xs
    case Failure(_) => []
  }

  datatype LogLevel = Info | Warning | Error

  datatype LogEntry = LogEntry(text: string, level: LogLevel)

  /** The text an error is shown with. */
  function Describe(e: Wrappers.Error): string {
    match e
    case NotFound(p) => "No such file or directory: " + p
    case Malformed(p) => "Malformed manifest: " + p
    case Denied(p) => "Permission denied: " + p
    case Network(u) => "Request failed: " + u
  }

  /** The message `load_installed_addons` logs about reading the manifest. */
  function LoadEntry(r: Result<seq<Addon>, Wrappers.Error>): (e: LogEntry)
    ensures e.level == Info <==> r.Success?
  {
    match r
    case Success(xs) => LogEntry("Found " + IntToString(|xs|) + " installed addons.\n", Info)
    case Failure(err) => LogEntry("Couldn't parse addons.\n" + Describe(err) + "\n", LogLevel.Error)
  }

  /** The message a pipeline logs: `done` on success, `verb` and the error on failure. */
  function Report(r: Outcome<Wrappers.Error>, name: string, done: string, verb: string): (e: LogEntry)
    ensures e.level == Info <==> r.Pass?
  {
    match r
    case Pass => LogEntry(name + " successfully " + done + ".\n", Info)
    case Fail(err) => LogEntry("Couldn't " + verb + " " + name + ".\n" + Describe(err) + "\n", LogLevel.Error)
  }

  /** What `load_installed_addons` produces: the table rows, the pending updates and its log message. */
  datatype View = View(rows: seq<TableItem>, updates: seq<Addon>, entry: LogEntry)

  function LoadView(fs: Fs, root: string, v: Version, lookup: seq<int> -> seq<CatalogEntry>): (view: View)
    requires v != Tbc
    ensures |view.rows| == |ListedAddons(fs, root)|
    ensures forall i :: 0 <= i < |view.rows| ==> view.rows[i].addon == ListedAddons(fs, root)[i]
    ensures |view.updates| <= |view.rows|
    ensures view.entry == LoadEntry(LoadDb(fs, root))
  {
    var xs := ListedAddons(fs, root);
    var u := RemoteUpdates(xs, v, lookup);
    View(InstalledRows(xs, u), PendingUpdates(xs, u), LoadEntry(LoadDb(fs, root)))
  }

  /** A row is "Outdated" only for an entry whose newer version is kept as a pending update; an empty update map leaves every row "Up-to-date" and nothing pending. */
  lemma OutdatedOnlyWithUpdate(xs: seq<Addon>, u: map<string, Addon>)
    ensures forall i :: 0 <= i < |xs| && InstalledRows(xs, u)[i].cells[0] == Outdated ==>
      NewerVersion(xs[i], u).Some? && NewerVersion(xs[i], u).value in PendingUpdates(xs, u)
    ensures u == map[] ==>
      PendingUpdates(xs, u) == [] && forall i :: 0 <= i < |xs| ==> InstalledRows(xs, u)[i].cells[0] == UpToDate
  {
  }

  /** When no installed id parses, the server is not asked and the update map is empty. */
  lemma NoQueryNoUpdates(xs: seq<Addon>, v: Version, lookup: seq<int> -> seq<CatalogEntry>)
    requires v != Tbc
    requires forall i :: 0 <= i < |xs| ==> QueryId(xs[i]) == 0
    ensures RemoteUpdates(xs, v, lookup) == map[]
  {
    QueryIdsEmpty(xs);
  }

  /** File ids compare as text: an installed "9" counts as newer than a catalog "10", so no update is offered. */
  lemma FileIdsCompareAsText(a: Addon, b: Addon)
    requires a.addonId == b.addonId && a.fileId == "9" && b.fileId == "10"
    ensures NewerVersion(a, map[a.addonId := b]).None?
    ensures NewerVersion(b, map[b.addonId := a]) == Some(a)
  {
  }

  /** A newer file whose display name equals the installed one is kept as an update but shown "Up-to-date". */
  lemma SameVersionLooksUpToDate(a: Addon, b: Addon)
    requires a.addonId == b.addonId && Less(a.fileId, b.fileId) && a.version == b.version
    ensures NewerVersion(a, map[a.addonId := b]) == Some(b)
    ensures InstalledRow(a, map[a.addonId := b]).cells[0] == UpToDate
  {
  }

  /** `download` then `add_to_db`: the archive is unpacked first, so a manifest failure leaves its folders on disk. */
  function InstallRun(fs: Fs, web: map<string, seq<string>>, url: string, root: string, addon: Addon): (r: Run)
    ensures r.outcome.Pass? <==>
      url in web && Extractable(fs.readOnly, root, web[url]) && LoadDb(fs, root).Success? && ManifestPath(root) !in fs.readOnly
    ensures r.outcome.Pass? ==> LoadDb(r.fs, root) == Success(LoadDb(fs, root).value + [addon])
    ensures url !in web ==> r == Run(Fail(Network(url)), fs)
    ensures url in web && Extractable(fs.readOnly, root, web[url]) ==>
      r.fs.dirs == fs.dirs + (set p | p in ModulePaths(root, web[url]))
    ensures r.outcome.Fail? ==> r.fs.manifests == fs.manifests
    ensures r.fs.readOnly == fs.readOnly
    ensures forall k :: k != root ==> (k in r.fs.manifests <==> k in fs.manifests)
    ensures forall k :: k != root && k in fs.manifests ==> r.fs.manifests[k] == fs.manifests[k]
  {
    var fetched := Fetch(fs, web, url, root);
    if fetched.outcome.Fail? then fetched else AppendDb(fetched.fs, root, addon)
  }

  /** `delete` of `installed`, then `download` of `url`, then `add_to_db` of `latest`, stopping at the first failure. */
  function UpdateRun(fs: Fs, web: map<string, seq<string>>, root: string, installed: Addon, url: string, latest: Addon): (r: Run)
    ensures r.fs.readOnly == fs.readOnly
    ensures DeleteDb(fs, root, installed).outcome.Fail? ==> r == DeleteDb(fs, root, installed)
    ensures DeleteDb(fs, root, installed).outcome.Pass? ==> r == InstallRun(DeleteDb(fs, root, installed).fs, web, url, root, latest)
    ensures DeleteDb(fs, root, installed).outcome.Pass? && r.outcome.Fail? ==>
      r.fs.manifests == DeleteDb(fs, root, installed).fs.manifests
    ensures r.outcome.Pass? <==>
      DeleteDb(fs, root, installed).outcome.Pass? && url in web && Extractable(fs.readOnly, root, web[url])
    ensures r.outcome.Pass? ==>
      LoadDb(r.fs, root) == Success(LoadDb(DeleteDb(fs, root, installed).fs, root).value + [latest])
  {
    var deleted := DeleteDb(fs, root, installed);
    if deleted.outcome.Fail? then deleted
    else
      InstallRun(deleted.fs, web, url, root, latest)
  }

  /** With unique ids, updating an installed entry to a version with the same id replaces exactly that entry: the new version goes last and the ids stay unique. */
  lemma UpdateReplacesEntry(fs: Fs, web: map<string, seq<string>>, root: string, installed: Addon, url: string, latest: Addon, xs: seq<Addon>, i: nat)
    requires LoadDb(fs, root) == Success(xs) && UniqueIds(xs)
    requires Position(xs, installed.addonId) == Some(i)
    requires latest.addonId == installed.addonId
    requires UpdateRun(fs, web, root, installed, url, latest).outcome.Pass?
    ensures LoadDb(UpdateRun(fs, web, root, installed, url, latest).fs, root) == Success(RemoveAt(xs, i) + [latest])
    ensures UniqueIds(RemoveAt(xs, i) + [latest])
  {
  }

  /**
    `update_all` passes the catalog version both to `delete` and to `add_to_db`,
    so the folders it removes are the NEW version's: when a folder was renamed,
    the removal fails and nothing is updated, while `update_addon`, which
    deletes the installed entry, succeeds on the same disk.
   */
  lemma UpdateAllRemovesNewFolders()
    ensures
      var installed := Addon("7", "Bags", "100", "", ["Bags"], "old.zip", "1.0", "", "");
      var latest := Addon("7", "Bags", "200", "", ["BagsCore"], "new.zip", "2.0", "", "");
      var fs := Fs(map["wow" := Parsed([installed])], {"wow/Bags"}, {});
      var web := map["new.zip" := ["BagsCore"]];
      && UpdateRun(fs, web, "wow", latest, latest.downloadUrl, latest) == Run(Fail(NotFound("wow/BagsCore")), fs)
      && UpdateRun(fs, web, "wow", installed, latest.downloadUrl, latest).outcome.Pass?
      && UpdateRun(fs, web, "wow", installed, latest.downloadUrl, latest).fs.dirs == {"wow/BagsCore"}
  {
    var installed := Addon("7", "Bags", "100", "", ["Bags"], "old.zip", "1.0", "", "");
    var latest := Addon("7", "Bags", "200", "", ["BagsCore"], "new.zip", "2.0", "", "");
    var fs := Fs(map["wow" := Parsed([installed])], {"wow/Bags"}, {});
    assert Position([installed], "7") == Some(0);
    assert Join("wow", "BagsCore") == "wow/BagsCore" && Join("wow", "Bags") == "wow/Bags";
    assert ModulePaths("wow", ["BagsCore"]) == ["wow/BagsCore"] by {
      assert ModulePaths("wow", ["BagsCore"])[0] == Join("wow", "BagsCore");
    }
    assert ModulePaths("wow", ["Bags"]) == ["wow/Bags"] by {
      assert ModulePaths("wow", ["Bags"])[0] == Join("wow", "Bags");
    }
    assert {"wow/Bags"} - {"wow/Bags"} + {"wow/BagsCore"} == {"wow/BagsCore"};
  }

  /** The disk and the log as `update_all` goes through its list. */
  datatype Batch = Batch(fs: Fs, log: seq<LogEntry>)

  /** One iteration of `update_all`: update to `item`, deleting and adding `item` itself, and log the outcome. */
  function UpdateStep(b: Batch, web: map<string, seq<string>>, root: string, item: Addon): (r: Batch)
    ensures |r.log| == |b.log| + 1 && r.log[..|b.log|] == b.log
  {
    var run := UpdateRun(b.fs, web, root, item, item.downloadUrl, item);
    Batch(run.fs, b.log + [Report(run.outcome, item.name, "updated", "update")])
  }

  /** `update_all` over `items`, in order; a failed item does not stop the ones after it. */
  function UpdateEach(b: Batch, web: map<string, seq<string>>, root: string, items: seq<Addon>): (r: Batch)
    ensures |r.log| == |b.log| + |items|
    ensures r.log[..|b.log|] == b.log
    ensures r.fs.readOnly == b.fs.readOnly
    decreases |items|
  {
    if items == [] then b
    else UpdateStep(UpdateEach(b, web, root, items[..|items| - 1]), web, root, items[|items| - 1])
  }

  /** Running the updates of `xs + ys` is running those of `xs`, then those of `ys` from where `xs` left off. */
  lemma {:induction false} UpdateEachAppend(b: Batch, web: map<string, seq<string>>, root: string, xs: seq<Addon>, ys: seq<Addon>)
    ensures UpdateEach(b, web, root, xs + ys) == UpdateEach(UpdateEach(b, web, root, xs), web, root, ys)
    decreases |ys|
  {
    if ys == [] {
      assert xs + ys == xs;
    } else {
      var ys' := ys[..|ys| - 1];
      assert (xs + ys)[..|xs + ys| - 1] == xs + ys';
      assert (xs + ys)[|xs + ys| - 1] == ys[|ys| - 1];
      UpdateEachAppend(b, web, root, xs, ys');
    }
  }

  /** The first `k + 1` updates are the first `k`, then the `k`-th. */
  lemma UpdateEachLast(b: Batch, web: map<string, seq<string>>, root: string, items: seq<Addon>, k: nat)
    requires k < |items|
    ensures UpdateEach(b, web, root, items[..k + 1]) == UpdateStep(UpdateEach(b, web, root, items[..k]), web, root, items[k])
  {
    assert items[..k + 1][..k] == items[..k];
  }

  /** Later updates only append: the messages of the first `k` updates stay where they are. */
  lemma UpdateEachKeepsLog(b: Batch, web: map<string, seq<string>>, root: string, items: seq<Addon>, k: nat)
    requires k <= |items|
    ensures UpdateEach(b, web, root, items).log[..|b.log| + k] == UpdateEach(b, web, root, items[..k]).log
  {
    assert items == items[..k] + items[k..];
    UpdateEachAppend(b, web, root, items[..k], items[k..]);
  }

  /** The `k`-th new message is the one the `k`-th update logs, run on the disk the first `k` updates left. */
  lemma UpdateEachReports(b: Batch, web: map<string, seq<string>>, root: string, items: seq<Addon>, k: nat)
    requires k < |items|
    ensures UpdateEach(b, web, root, items).log[|b.log| + k] ==
      UpdateStep(UpdateEach(b, web, root, items[..k]), web, root, items[k]).log[|b.log| + k]
  {
    UpdateEachLast(b, web, root, items, k);
    UpdateEachKeepsLog(b, web, root, items, k + 1);
    var full := UpdateEach(b, web, root, items).log;
    assert full[|b.log| + k] == full[..|b.log| + k + 1][|b.log| + k];
  }

  /** After a successful removal from a manifest with unique ids, the reloaded table has no row for that id. */
  lemma RemoveDropsRow(fs: Fs, root: string, v: Version, lookup: seq<int> -> seq<CatalogEntry>, addon: Addon, xs: seq<Addon>)
    requires v != Tbc
    requires LoadDb(fs, root) == Success(xs) && UniqueIds(xs)
    requires DeleteDb(fs, root, addon).outcome.Pass?
    ensures forall row :: row in LoadView(DeleteDb(fs, root, addon).fs, root, v, lookup).rows ==> row.addon.addonId != addon.addonId
    ensures (exists a :: a in xs && a.addonId == addon.addonId) ==>
      |LoadView(DeleteDb(fs, root, addon).fs, root, v, lookup).rows| == |xs| - 1
  {
    DeleteLeavesNoMatch(fs, root, addon, xs);
    var after := DeleteDb(fs, root, addon).fs;
    var view := LoadView(after, root, v, lookup);
    forall row | row in view.rows ensures row.addon.addonId != addon.addonId {
      var k :| 0 <= k < |view.rows| && view.rows[k] == row;
      assert row.addon in ListedAddons(after, root);
    }
    if exists a :: a in xs && a.addonId == addon.addonId {
      var a :| a in xs && a.addonId == addon.addonId;
      var j :| 0 <= j < |xs| && xs[j] == a;
      var i := Position(xs, addon.addonId).value;
      DeleteRemovesFirstMatch(fs, root, addon, xs, i);
    }
  }

  /** `u16` */
  const U16Limit: nat := 0x1_0000

  /** `scroll_up_log`: one line up, not past the top. */
  function ScrollUp(s: nat): (r: nat)
    ensures s == 0 ==> r == 0
    ensures s > 0 ==> r + 1 == s
  {
    if s > 0 then s - 1 else s
  }

  /** `scroll_down_log`: one line down while below `(len - 1) as u16`, the message count truncated to 16 bits. */
  function ScrollDown(s: nat, len: nat): (r: nat)
    requires len > 0 && s < U16Limit
    ensures r < U16Limit
    ensures r == s + 1 <==> s < (len - 1) % U16Limit
    ensures r != s + 1 ==> r == s
  {
    if s < (len - 1) % U16Limit then s + 1 else s
  }

  /** Scrolling down and then up returns to the same line. */
  lemma ScrollDownUp(s: nat, len: nat)
    requires len > 0 && s < U16Limit
    ensures ScrollDown(s, len) > s ==> ScrollUp(ScrollDown(s, len)) == s
    ensures s < len - 1 < U16Limit ==> ScrollDown(s, len) == s + 1
  {
  }

  /** The truncation to `u16`: with 65537 messages the bound is 0 and the log cannot scroll down at all. */
  lemma ScrollBoundWraps(s: nat)
    requires s < U16Limit
    ensures ScrollDown(s, U16Limit + 1) == s
  {
  }

  /** One more entry adds its row and its pending update at the end. */
  lemma ReconcileStep(xs: seq<Addon>, k: nat, u: map<string, Addon>)
    requires k < |xs|
    ensures InstalledRows(xs[..k + 1], u) == InstalledRows(xs[..k], u) + [InstalledRow(xs[k], u)]
    ensures PendingUpdates(xs[..k + 1], u) == PendingUpdates(xs[..k], u) + Pending(xs[k], u)
  {
    assert xs[..k + 1][..k] == xs[..k];
  }

  /** The body of that loop for one entry: its row, and its newer version when the catalog has one. */
  method ReconcileEntry(addon: Addon, remote: map<string, Addon>) returns (row: TableItem, found: seq<Addon>)
    ensures row == InstalledRow(addon, remote)
    ensures found == Pending(addon, remote)
  {
    var downloadUrl := addon.downloadUrl;
    var latestVersion := addon.version;
    found := [];
    if addon.addonId in remote {
      var update := remote[addon.addonId];
      if Less(addon.fileId, update.fileId) {
        downloadUrl := update.downloadUrl;
        latestVersion := update.version;
        found := [update];
      }
    }
    var status := if latestVersion == addon.version then UpToDate else Outdated;
    row := TableItem([status, addon.name, addon.gameVersion, addon.version, latestVersion], downloadUrl, addon);
  }

  /** The loop of `load_installed_addons`: one row per entry, and the newer versions in manifest order. */
  method Reconcile(addons: seq<Addon>, remote: map<string, Addon>) returns (rows: seq<TableItem>, pending: seq<Addon>)
    ensures rows == InstalledRows(addons, remote)
    ensures pending == PendingUpdates(addons, remote)
  {
    rows := [];
    pending := [];
    var k := 0;
    while k < |addons|
      invariant 0 <= k <= |addons|
      invariant rows == InstalledRows(addons[..k], remote)
      invariant pending == PendingUpdates(addons[..k], remote)
    {
      var row, found := ReconcileEntry(addons[k], remote);
      ReconcileStep(addons, k, remote);
      rows := rows + [row];
      pending := pending + found;
      k := k + 1;
    }
    assert addons[..k] == addons;
  }

  class App {
    var tabIndex: Tab
    var selectedVersion: Version
    const classicPath: string
    const retailPath: string
    const tbcPath: string
    const searchTable: StatefulTable
    const installedTable: StatefulTable
    const disk: Disk
    var logScroll: nat
    var logMessages: seq<LogEntry>
    var updates: seq<Addon>

    /** The two tables are distinct objects, the scroll position fits a `u16`, and the log holds a message (`App::new` logs the first load). */
    predicate Valid()
      reads this
    {
      searchTable != installedTable && logScroll < U16Limit && |logMessages| > 0
    }

    /** `get_save_path`: the game root of the selected version. */
    function SavePath(): (path: string)
      reads this
      ensures selectedVersion == Classic ==> path == classicPath
      ensures selectedVersion == Retail ==> path == retailPath
      ensures selectedVersion == Tbc ==> path == tbcPath
    {
      match selectedVersion
      case Classic => classicPath
      case Retail => retailPath
      case Tbc => tbcPath
    }

    /** `App::new`: the installed tab of Classic, loaded from `disk`. */
    constructor (classicPath: string, retailPath: string, tbcPath: string, disk: Disk, lookup: seq<int> -> seq<CatalogEntry>)
      ensures Valid()
      ensures tabIndex == Installed && selectedVersion == Classic && logScroll == 0
      ensures this.classicPath == classicPath && this.retailPath == retailPath && this.tbcPath == tbcPath
      ensures this.disk == disk && fresh(searchTable) && fresh(installedTable)
      ensures searchTable.items == [] && searchTable.selected == None && installedTable.selected == None
      ensures var view := LoadView(disk.State(), classicPath, Classic, lookup);
        installedTable.items == view.rows && updates == view.updates && logMessages == [view.entry]
    {
      this.tabIndex := Installed;
      this.selectedVersion := Classic;
      this.classicPath := classicPath;
      this.retailPath := retailPath;
      this.tbcPath := tbcPath;
      this.searchTable := new StatefulTable();
      this.installedTable := new StatefulTable();
      this.disk := disk;
      this.logScroll := 0;
      this.logMessages := [];
      this.updates := [];
      new;
      LoadInstalledAddons(lookup);
    }

    /** `log`: append a message. */
    method Log(text: string, level: LogLevel)
      requires searchTable != installedTable && logScroll < U16Limit
      modifies this
      ensures Valid()
      ensures logMessages == old(logMessages) + [LogEntry(text, level)]
      ensures tabIndex == old(tabIndex) && selectedVersion == old(selectedVersion)
      ensures logScroll == old(logScroll) && updates == old(updates)
    {
      logMessages := logMessages + [LogEntry(text, level)];
    }

    /** The reading half of `load_installed_addons`: the manifest, the update query and the reconciliation. */
    method ReadView(lookup: seq<int> -> seq<CatalogEntry>) returns (view: View)
      requires selectedVersion != Tbc
      ensures view == LoadView(disk.State(), SavePath(), selectedVersion, lookup)
    {
      var path := SavePath();
      var loaded := disk.LoadAddonDb(path);
      var addons: seq<Addon> := [];
      if loaded.Success? {
        addons := loaded.value;
      }
      var ids := QueryIds(addons);
      var remote: map<string, Addon> := map[];
      if ids != [] {
        remote := CheckForUpdates(lookup(ids), selectedVersion);
      }
      var rows, pending := Reconcile(addons, remote);
      assert addons == ListedAddons(disk.State(), path);
      assert remote == RemoteUpdates(addons, selectedVersion, lookup);
      view := View(rows, pending, LoadEntry(loaded));
    }

    /** `load_installed_addons`: the installed table lists the manifest, the updates are kept and the result is logged. */
    method LoadInstalledAddons(lookup: seq<int> -> seq<CatalogEntry>)
      requires selectedVersion != Tbc && searchTable != installedTable && logScroll < U16Limit
      modifies this, installedTable
      ensures Valid()
      ensures tabIndex == old(tabIndex) && selectedVersion == old(selectedVersion) && logScroll == old(logScroll)
      ensures installedTable.selected == old(installedTable.selected)
      ensures var view := LoadView(disk.State(), SavePath(), selectedVersion, lookup);
        installedTable.items == view.rows && updates == view.updates && logMessages == old(logMessages) + [view.entry]
    {
      var view := ReadView(lookup);
      Log(view.entry.text, view.entry.level);
      installedTable.items := view.rows;
      updates := view.updates;
    }

    /** `download` (the app's): install the selected search result into the selected version's root. */
    method Download(web: map<string, seq<string>>)
      requires Valid()
      ensures Valid()
      requires tabIndex == Tab.Search ==> searchTable.Selection().Some? && |searchTable.Selection().value.cells| > 0
      modifies this, disk
      ensures tabIndex == old(tabIndex) && selectedVersion == old(selectedVersion)
      ensures logScroll == old(logScroll) && updates == old(updates)
      ensures tabIndex != Tab.Search ==> disk.State() == old(disk.State()) && logMessages == old(logMessages)
      ensures tabIndex == Tab.Search ==>
        var item := searchTable.Selection().value;
        var run := InstallRun(old(disk.State()), web, item.downloadUrl, SavePath(), item.addon);
        disk.State() == run.fs && logMessages == old(logMessages) + [Report(run.outcome, item.cells[0], "installed", "install")]
    {
      if tabIndex == Tab.Search {
        var selected := searchTable.GetSelected();
        var item := selected.value;
        var savePath := SavePath();
        var r := Catalog.Download(disk, web, item.downloadUrl, savePath);
        if r.Pass? {
          r := disk.AddToDb(savePath, item.addon);
        }
        var entry := Report(r, item.cells[0], "installed", "install");
        Log(entry.text, entry.level);
      }
    }

    /** One iteration of `update_all`: update `item` to itself and log the outcome. */
    method UpdateOne(web: map<string, seq<string>>, savePath: string, item: Addon)
      requires Valid()
      ensures Valid()
      modifies this, disk
      ensures tabIndex == old(tabIndex) && selectedVersion == old(selectedVersion)
      ensures logScroll == old(logScroll) && updates == old(updates)
      ensures Batch(disk.State(), logMessages) == UpdateStep(Batch(old(disk.State()), old(logMessages)), web, savePath, item)
    {
      var r := Upgrade(web, savePath, item, item.downloadUrl, item);
      var entry := Report(r, item.name, "updated", "update");
      Log(entry.text, entry.level);
    }

    /** `delete`, `download` and `add_to_db` chained with `and_then`. */
    method Upgrade(web: map<string, seq<string>>, savePath: string, installed: Addon, url: string, latest: Addon) returns (r: Outcome<Wrappers.Error>)
      modifies disk
      ensures Run(r, disk.State()) == UpdateRun(old(disk.State()), web, savePath, installed, url, latest)
    {
      r := disk.Delete(savePath, installed);
      if r.Pass? {
        r := Catalog.Download(disk, web, url, savePath);
        if r.Pass? {
          r := disk.AddToDb(savePath, latest);
        }
      }
    }

    /** `update_all`: update every pending update in turn, each with its own message. */
    method UpdateAll(web: map<string, seq<string>>)
      requires Valid()
      ensures Valid()
      modifies this, disk
      ensures tabIndex == old(tabIndex) && selectedVersion == old(selectedVersion)
      ensures logScroll == old(logScroll) && updates == old(updates)
      ensures tabIndex != Installed ==> disk.State() == old(disk.State()) && logMessages == old(logMessages)
      ensures tabIndex == Installed ==>
        Batch(disk.State(), logMessages) == UpdateEach(Batch(old(disk.State()), old(logMessages)), web, SavePath(), updates)
    {
      if tabIndex == Installed {
        var savePath := SavePath();
        var items := updates;
        var k := 0;
        while k < |items|
          invariant 0 <= k <= |items|
          invariant Batch(disk.State(), logMessages) == UpdateEach(Batch(old(disk.State()), old(logMessages)), web, savePath, items[..k])
          invariant tabIndex == old(tabIndex) && selectedVersion == old(selectedVersion)
          invariant logScroll == old(logScroll) && updates == old(updates)
          invariant Valid()
        {
          UpdateOne(web, savePath, items[k]);
          UpdateEachLast(Batch(old(disk.State()), old(logMessages)), web, savePath, items, k);
          k := k + 1;
        }
        assert items[..k] == items;
      }
    }

    /** `update_addon`: replace the selected installed entry by its pending update, then reload on success. */
    method UpdateAddon(web: map<string, seq<string>>, lookup: seq<int> -> seq<CatalogEntry>)
      requires selectedVersion != Tbc && Valid()
      ensures Valid()
      requires tabIndex == Installed ==>
        && installedTable.Selection().Some?
        && |installedTable.Selection().value.cells| > 1
        && exists u :: u in updates && u.addonId == installedTable.Selection().value.addon.addonId
      modifies this, disk, installedTable
      ensures tabIndex == old(tabIndex) && selectedVersion == old(selectedVersion) && logScroll == old(logScroll)
      ensures installedTable.selected == old(installedTable.selected)
      ensures tabIndex != Installed ==>
        && disk.State() == old(disk.State()) && logMessages == old(logMessages)
        && installedTable.items == old(installedTable.items) && updates == old(updates)
      ensures tabIndex == Installed ==>
        var item := old(installedTable.Selection().value);
        var latest := FindUpdate(old(updates), item.addon.addonId).value;
        var run := UpdateRun(old(disk.State()), web, SavePath(), item.addon, item.downloadUrl, latest);
        var report := Report(run.outcome, item.cells[1], "updated", "update");
        var view := LoadView(run.fs, SavePath(), selectedVersion, lookup);
        && disk.State() == run.fs
        && (run.outcome.Pass? ==> installedTable.items == view.rows && updates == view.updates &&
                                  logMessages == old(logMessages) + [view.entry, report])
        && (run.outcome.Fail? ==> installedTable.items == old(installedTable.items) && updates == old(updates) &&
                                  logMessages == old(logMessages) + [report])
    {
      if tabIndex == Installed {
        var savePath := SavePath();
        var selected := installedTable.GetSelected();
        var item := selected.value;
        var found := FindUpdate(updates, item.addon.addonId);
        var latest := found.value;
        var name := item.cells[1];
        var r := Upgrade(web, savePath, item.addon, item.downloadUrl, latest);
        FinishUpdate(r, name, lookup);
      }
    }

    /** The end of `update_addon`: reload the view after a success, then log the outcome. */
    method FinishUpdate(r: Outcome<Wrappers.Error>, name: string, lookup: seq<int> -> seq<CatalogEntry>)
      requires selectedVersion != Tbc && Valid()
      ensures Valid()
      modifies this, installedTable
      ensures tabIndex == old(tabIndex) && selectedVersion == old(selectedVersion) && logScroll == old(logScroll)
      ensures installedTable.selected == old(installedTable.selected)
      ensures r.Pass? ==>
        var view := LoadView(disk.State(), SavePath(), selectedVersion, lookup);
        installedTable.items == view.rows && updates == view.updates &&
        logMessages == old(logMessages) + [view.entry, Report(r, name, "updated", "update")]
      ensures r.Fail? ==>
        installedTable.items == old(installedTable.items) && updates == old(updates) &&
        logMessages == old(logMessages) + [Report(r, name, "updated", "update")]
    {
      if r.Pass? {
        LoadInstalledAddons(lookup);
      }
      var entry := Report(r, name, "updated", "update");
      Log(entry.text, entry.level);
    }

    /** `remove_addon`: delete the selected installed entry, reload, then log the outcome. */
    method RemoveAddon(lookup: seq<int> -> seq<CatalogEntry>)
      requires selectedVersion != Tbc && Valid()
      ensures Valid()
      requires tabIndex == Installed ==> installedTable.Selection().Some? && |installedTable.Selection().value.cells| > 1
      modifies this, disk, installedTable
      ensures tabIndex == old(tabIndex) && selectedVersion == old(selectedVersion) && logScroll == old(logScroll)
      ensures installedTable.selected == old(installedTable.selected)
      ensures tabIndex != Installed ==>
        && disk.State() == old(disk.State()) && logMessages == old(logMessages)
        && installedTable.items == old(installedTable.items) && updates == old(updates)
      ensures tabIndex == Installed ==>
        var item := old(installedTable.Selection().value);
        var run := DeleteDb(old(disk.State()), SavePath(), item.addon);
        var view := LoadView(run.fs, SavePath(), selectedVersion, lookup);
        && disk.State() == run.fs
        && installedTable.items == view.rows && updates == view.updates
        && logMessages == old(logMessages) + [view.entry, Report(run.outcome, item.cells[1], "deleted", "delete")]
    {
      if tabIndex == Installed {
        var path := SavePath();
        var selected := installedTable.GetSelected();
        var item := selected.value;
        ghost var before := disk.State();
        var r := disk.Delete(path, item.addon);
        ghost var run := DeleteDb(before, path, item.addon);
        assert r == run.outcome && disk.State() == run.fs;
        LoadInstalledAddons(lookup);
        var entry := Report(r, item.cells[1], "deleted", "delete");
        Log(entry.text, entry.level);
      }
    }

    method ScrollUpLog()
      requires Valid()
      modifies this
      ensures Valid()
      ensures logScroll == ScrollUp(old(logScroll))
      ensures logMessages == old(logMessages) && tabIndex == old(tabIndex) && updates == old(updates)
      ensures selectedVersion == old(selectedVersion)
    {
      if logScroll > 0 {
        logScroll := logScroll - 1;
      }
    }

    /** `Valid` keeps a message in the log, so `len() - 1` does not underflow. */
    method ScrollDownLog()
      requires Valid()
      modifies this
      ensures logMessages == old(logMessages) && tabIndex == old(tabIndex) && updates == old(updates)
      ensures logScroll == ScrollDown(old(logScroll), |logMessages|)
      ensures Valid()
      ensures selectedVersion == old(selectedVersion)
    {
      if logScroll < (|logMessages| - 1) % U16Limit {
        logScroll := logScroll + 1;
      }
    }

    /** `select_next_tab`: move to the next tab, reloading the installed view when it is entered. */
    method SelectNextTab(lookup: seq<int> -> seq<CatalogEntry>)
      requires selectedVersion != Tbc && Valid()
      ensures Valid()
      modifies this, installedTable
      ensures tabIndex == NextTab(old(tabIndex)) && selectedVersion == old(selectedVersion) && logScroll == old(logScroll)
      ensures installedTable.selected == old(installedTable.selected)
      ensures tabIndex == Installed ==>
        var view := LoadView(disk.State(), SavePath(), selectedVersion, lookup);
        installedTable.items == view.rows && updates == view.updates && logMessages == old(logMessages) + [view.entry]
      ensures tabIndex != Installed ==>
        installedTable.items == old(installedTable.items) && updates == old(updates) && logMessages == old(logMessages)
    {
      var index := (TabIndex(tabIndex) + 1) % TabCount;
      tabIndex := TabFrom(index).value;
      if tabIndex == Installed {
        LoadInstalledAddons(lookup);
      }
    }

    /** `select_prev_tab`: move to the previous tab, reloading the installed view when it is entered. */
    method SelectPrevTab(lookup: seq<int> -> seq<CatalogEntry>)
      requires selectedVersion != Tbc && Valid()
      ensures Valid()
      modifies this, installedTable
      ensures tabIndex == PrevTab(old(tabIndex)) && selectedVersion == old(selectedVersion) && logScroll == old(logScroll)
      ensures installedTable.selected == old(installedTable.selected)
      ensures tabIndex == Installed ==>
        var view := LoadView(disk.State(), SavePath(), selectedVersion, lookup);
        installedTable.items == view.rows && updates == view.updates && logMessages == old(logMessages) + [view.entry]
      ensures tabIndex != Installed ==>
        installedTable.items == old(installedTable.items) && updates == old(updates) && logMessages == old(logMessages)
    {
      var index := (TabIndex(tabIndex) - 1) % TabCount;
      tabIndex := TabFrom(index as nat).value;
      if tabIndex == Installed {
        LoadInstalledAddons(lookup);
      }
    }
  }

  /** `updates.iter().find(|u| u.addon_id == id)`: the first pending update with that id. */
  function FindUpdate(us: seq<Addon>, id: string): (r: Option<Addon>)
    ensures r.Some? <==> exists u :: u in us && u.addonId == id
    ensures r.Some? ==> r.value in us && r.value.addonId == id
    ensures r.Some? ==> exists i :: 0 <= i < |us| && us[i] == r.value && forall j :: 0 <= j < i ==> us[j].addonId != id
    decreases |us|
  {
    if us == [] then None
    else if us[0].addonId == id then Some(us[0])
    else FindUpdate(us[1..], id)
  }
}
