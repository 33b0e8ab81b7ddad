/**
  The catalog client of src/curse.rs, without the network.

  A catalog entry lists its latest files; the client keeps the stable files of
  the requested game flavour and picks one of them with `max_by`, turns the
  pick into an `Addon`, and collects the add-ons of a whole response either as
  search rows (in response order) or as a map keyed by add-on id. It also
  formats dates and download counts, and downloads archives into a game root.
 */
module Catalog {
  import opened Wrappers
  import opened Strings
  import opened Manifest
  import opened Tables

  /** `STABLE_RELEASE` */
  const StableRelease: int := 1

  /** The scalar JSON values the client reads from a response. */
  datatype Json = Null | Int(i: int) | Str(s: string)

  /** `as_str().unwrap_or_default()`: the text of a string value, and "" for anything else. */
  function AsStr(v: Json): string {
    match v
    case Str(s) => s
    case _ => ""
  }

  /** `to_string()`: the JSON text of the value; a string keeps its quotes. */
  function Render(v: Json): (r: string)
    ensures v.Str? <==> r != [] && r[0] == '"'
    ensures v.Str? ==> |r| == |v.s| + 2 && r[1..|r| - 1] == v.s && r[|r| - 1] == '"'
  {
    match v
    case Null => "null"
    case Int(i) => IntToString(i)
    case Str(s) => "\"" + s + "\""
  }

  /** One element of an entry's `latestFiles`. */
  datatype CatalogFile = CatalogFile(
    id: Json,
    fileDate: Json,
    displayName: Json,
    gameVersion: seq<Json>,
    downloadUrl: Json,
    releaseType: Json,
    flavor: Json,             // `gameVersionFlavor`
    folders: seq<Json>)       // the `foldername` of each element of `modules`

  /** One element of a search or lookup response. */
  datatype CatalogEntry = CatalogEntry(
    id: Json,
    name: Json,
    downloadCount: string,    // the count as printed by the float formatting, before grouping
    latestFiles: seq<CatalogFile>)

  /** The `gameVersionFlavor` tag of a game line. Only Classic and Retail have one. */
  function FlavorTag(v: Version): string
    requires v != Tbc
  {
    if v == Classic then "wow_classic" else "wow_retail"
  }

  /** The filter of `latest_file`: a stable release of the requested flavour. */
  predicate IsCandidate(f: CatalogFile, v: Version)
    requires v != Tbc
  {
    f.releaseType == Int(StableRelease) && f.flavor == Str(FlavorTag(v))
  }

  /** The files that pass the filter, in their original order. */
  function Candidates(files: seq<CatalogFile>, v: Version): (cs: seq<CatalogFile>)
    requires v != Tbc
    ensures forall f :: f in cs <==> f in files && IsCandidate(f, v)
    decreases |files|
  {
    if files == [] then []
    else Candidates(files[..|files| - 1], v) + (if IsCandidate(files[|files| - 1], v) then [files[|files| - 1]] else [])
  }

  /** What `max_by` compares: the rendered id. */
  function SortKey(f: CatalogFile): string {
    Render(f.id)
  }

  /**
    The fold `Iterator::max_by` performs with the comparator `|a, b| b.cmp(a)`:
    the running pick is kept only when the comparator says Greater, i.e. when the
    next key is strictly larger. The reversed comparator therefore yields the
    least key, and the last of several equal least keys.
   */
  function MaxByFrom(cs: seq<CatalogFile>, best: nat, i: nat): (k: nat)
    requires best < i <= |cs|
    requires forall j :: 0 <= j < i ==> Leq(SortKey(cs[best]), SortKey(cs[j]))
    requires forall j :: best < j < i ==> Less(SortKey(cs[best]), SortKey(cs[j]))
    ensures k < |cs|
    ensures forall j :: 0 <= j < |cs| ==> Leq(SortKey(cs[k]), SortKey(cs[j]))
    ensures forall j :: k < j < |cs| ==> Less(SortKey(cs[k]), SortKey(cs[j]))
    decreases |cs| - i
  {
    if i == |cs| then best
    else if Less(SortKey(cs[best]), SortKey(cs[i])) then MaxByFrom(cs, best, i + 1)
    else
      assert forall j :: 0 <= j < i + 1 ==> Leq(SortKey(cs[i]), SortKey(cs[j])) by {
        if SortKey(cs[best]) != SortKey(cs[i]) {
          LessTotal(SortKey(cs[best]), SortKey(cs[i]));
        }
        forall j | 0 <= j < i ensures Leq(SortKey(cs[i]), SortKey(cs[j])) {
          LeqTransitive(SortKey(cs[i]), SortKey(cs[best]), SortKey(cs[j]));
        }
      }
      MaxByFrom(cs, i, i + 1)
  }

  /** `latest_file`: the candidate `max_by` returns, or None when no file passes the filter. */
  function LatestFile(e: CatalogEntry, v: Version): (r: Option<CatalogFile>)
    requires v != Tbc
    ensures r.None? <==> forall f :: f in e.latestFiles ==> !IsCandidate(f, v)
    ensures r.Some? ==> r.value in e.latestFiles && IsCandidate(r.value, v)
    ensures r.Some? ==> forall f :: f in e.latestFiles && IsCandidate(f, v) ==> Leq(SortKey(r.value), SortKey(f))
    ensures r.Some? ==> exists k :: (
      && 0 <= k < |Candidates(e.latestFiles, v)|
      && Candidates(e.latestFiles, v)[k] == r.value
      && forall j :: k < j < |Candidates(e.latestFiles, v)| ==>
           Less(SortKey(r.value), SortKey(Candidates(e.latestFiles, v)[j])))
  {
    var cs := Candidates(e.latestFiles, v);
    if cs == [] then None
    else
      var k := MaxByFrom(cs, 0, 1);
      assert cs[k] in cs;
      assert forall f :: f in cs ==> Leq(SortKey(cs[k]), SortKey(f));
      Some(cs[k])
  }

  /** `parse_date`: the first ten characters of a string value; "" for any other value. */
  function ParseDate(v: Json): (r: string)
    ensures |r| == if |AsStr(v)| < 10 then |AsStr(v)| else 10
    ensures r <= AsStr(v)
    ensures !v.Str? ==> r == ""
  {
    var s := AsStr(v);
    if |s| < 10 then s else s[..10]
  }

  /**
    The digit grouping of `parse_download_count`. The source walks the digits from
    the right and puts a comma in front of every third one; equivalently, a
    character is followed by a comma when the number of characters after it is
    a positive multiple of three.
   */
  function Group(s: string): (r: string)
    ensures |s| <= |r|
    ensures s != [] ==> r != [] && r[0] == s[0]
    ensures |s| <= 3 ==> r == s
    decreases |s|
  {
    if s == [] then []
    else [s[0]] + (if |s| - 1 > 0 && (|s| - 1) % 3 == 0 then "," else "") + Group(s[1..])
  }

  /** The loop of `parse_download_count` over the formatted count. */
  method GroupDigits(digits: string) returns (s: string)
    ensures s == Group(digits)
  {
    s := "";
    var n := |digits|;
    var idx := 0;
    while idx < n
      invariant 0 <= idx <= n
      invariant s == Group(digits[n - idx..])
    {
      var val := digits[n - 1 - idx];
      if idx != 0 && idx % 3 == 0 {
        s := "," + s;
      }
      s := [val] + s;
      assert digits[n - 1 - idx..][1..] == digits[n - idx..];
      idx := idx + 1;
    }
    assert digits[0..] == digits;
  }

  function StripCommas(s: string): (r: string)
    ensures ',' !in r
    decreases |s|
  {
    if s == [] then [] else (if s[0] == ',' then [] else [s[0]]) + StripCommas(s[1..])
  }

  /** Erasing the commas from the grouped text gives back the input. */
  lemma {:induction false} GroupStripCommas(s: string)
    requires ',' !in s
    ensures StripCommas(Group(s)) == s
    decreases |s|
  {
    if s != [] {
      GroupStripCommas(s[1..]);
      var sep := if |s| - 1 > 0 && (|s| - 1) % 3 == 0 then "," else "";
      StripCommasAppend([s[0]] + sep, Group(s[1..]));
      StripCommasAppend([s[0]], sep);
    }
  }

  lemma {:induction false} StripCommasAppend(a: string, b: string)
    ensures StripCommas(a + b) == StripCommas(a) + StripCommas(b)
    decreases |a|
  {
    if a == [] {
      assert a + b == b;
    } else {
      assert (a + b)[0] == a[0] && (a + b)[1..] == a[1..] + b;
      StripCommasAppend(a[1..], b);
    }
  }

  /** Grouping `n` characters adds `(n - 1) / 3` commas. */
  lemma {:induction false} GroupLength(s: string)
    ensures |Group(s)| == if s == [] then 0 else |s| + (|s| - 1) / 3
    decreases |s|
  {
    if s != [] {
      GroupLength(s[1..]);
    }
  }

  /**
    A comma sits exactly at the positions whose distance from the end is a
    multiple of four: one comma before each group of three counted from the right,
    and never a comma in front.
   */
  lemma {:induction false} GroupCommaPositions(s: string)
    requires ',' !in s
    ensures forall i :: 0 <= i < |Group(s)| ==> (Group(s)[i] == ',' <==> (|Group(s)| - i) % 4 == 0)
    decreases |s|
  {
    if s != [] {
      var g := Group(s);
      var sep := if |s| - 1 > 0 && (|s| - 1) % 3 == 0 then "," else "";
      var rest := Group(s[1..]);
      assert ',' !in s[1..] by {
        forall i | 0 <= i < |s[1..]| ensures s[1..][i] != ',' {
          assert s[1..][i] == s[i + 1];
        }
      }
      GroupCommaPositions(s[1..]);
      GroupLength(s);
      var m := |s| - 1;
      assert m == 3 * (m / 3) + m % 3;
      assert |g| == 4 * (m / 3) + m % 3 + 1;
      assert g == [s[0]] + sep + rest;
      CommaShift(g, rest, |sep| + 1);
      assert g[0] == s[0] && s[0] in s;
    }
  }

  /** The comma positions of a suffix, counted from the end, carry over to the whole text. */
  lemma CommaShift(g: string, rest: string, d: nat)
    requires d <= |g| && g[d..] == rest
    requires forall i :: 0 <= i < |rest| ==> (rest[i] == ',' <==> (|rest| - i) % 4 == 0)
    ensures forall i :: d <= i < |g| ==> (g[i] == ',' <==> (|g| - i) % 4 == 0)
  {
    forall i | d <= i < |g| ensures g[i] == ',' <==> (|g| - i) % 4 == 0 {
      assert g[i] == rest[i - d] && |g| - i == |rest| - (i - d);
    }
  }

  /** Three digits get no separator, and four get one. */
  lemma GroupShortExamples()
    ensures Group("999") == "999"
    ensures Group("1234") == "1,234"
  {
  }

  /** Seven digits get two separators: 1234567 is shown as "1,234,567". */
  lemma GroupMillionExample()
    ensures Group("1234567") == "1,234,567"
  {
    assert "1234567"[1..] == "234567" && "234567"[1..] == "34567" && "34567"[1..] == "4567";
    assert "4567"[1..] == "567" && "567"[1..] == "67" && "67"[1..] == "7";
    assert Group("7") == "7" && Group("67") == "67";
    assert Group("567") == "567";
    assert Group("4567") == "4,567";
    assert Group("34567") == "34,567";
    assert Group("234567") == "234,567";
  }

  /** The `foldername` of each module, in order. */
  function FolderNames(folders: seq<Json>): (ms: seq<string>)
    ensures |ms| == |folders|
    ensures forall i :: 0 <= i < |ms| ==> ms[i] == AsStr(folders[i])
  {
    seq(|folders|, i requires 0 <= i < |folders| => AsStr(folders[i]))
  }

  /** `parse_json`: the entry's chosen file as an `Addon`, or None when there is no applicable file. */
  function ParseJson(e: CatalogEntry, v: Version): (r: Option<Addon>)
    requires v != Tbc
    ensures r.None? <==> LatestFile(e, v).None?
    ensures r.Some? ==>
      var f := LatestFile(e, v).value;
      && r.value.addonId == AsStr(e.id)
      && r.value.name == AsStr(e.name)
      && r.value.fileId == AsStr(f.id)
      && r.value.version == AsStr(f.displayName)
      && r.value.downloadUrl == AsStr(f.downloadUrl)
      && r.value.gameVersion == (if |f.gameVersion| > 0 then AsStr(f.gameVersion[0]) else "")
      && r.value.modules == FolderNames(f.folders)
      && r.value.fileDate == ParseDate(f.fileDate)
      && r.value.downloadCount == Group(e.downloadCount)
  {
    match LatestFile(e, v)
    case None => None
    case Some(f) =>
      Some(Addon(
        addonId := AsStr(e.id),
        name := AsStr(e.name),
        fileId := AsStr(f.id),
        fileDate := ParseDate(f.fileDate),
        modules := FolderNames(f.folders),
        downloadUrl := AsStr(f.downloadUrl),
        version := AsStr(f.displayName),
        gameVersion := if |f.gameVersion| > 0 then AsStr(f.gameVersion[0]) else "",
        downloadCount := Group(e.downloadCount)))
  }

  /** The row `search` shows for an add-on: name, game version, file date, download count. */
  function SearchRow(a: Addon): (row: TableItem)
    ensures row.addon == a && row.downloadUrl == a.downloadUrl
    ensures row.cells == [a.name, a.gameVersion, a.fileDate, a.downloadCount]
  {
    TableItem([a.name, a.gameVersion, a.fileDate, a.downloadCount], a.downloadUrl, a)
  }

  /** `parse_json` applied to every entry of a response, in order. */
  function ParseAll(es: seq<CatalogEntry>, v: Version): (ps: seq<Option<Addon>>)
    requires v != Tbc
    ensures |ps| == |es|
    ensures forall i :: 0 <= i < |es| ==> ps[i] == ParseJson(es[i], v)
  {
    seq(|es|, i requires 0 <= i < |es| => ParseJson(es[i], v))
  }

  /** The rows one parse result adds: its search row, or none. */
  function RowsOf(p: Option<Addon>): seq<TableItem> {
    match p
    case Some(a) => [SearchRow(a)]
    case None => []
  }

  /** The rows `search` pushes: one per parsed add-on, skipping the entries without one. */
  function CollectRows(ps: seq<Option<Addon>>): (rows: seq<TableItem>)
    ensures |rows| <= |ps|
    decreases |ps|
  {
    if ps == [] then [] else CollectRows(ps[..|ps| - 1]) + RowsOf(ps[|ps| - 1])
  }

  /** One more result adds its rows at the end. */
  lemma CollectRowsStep(ps: seq<Option<Addon>>, k: nat)
    requires k < |ps|
    ensures CollectRows(ps[..k + 1]) == CollectRows(ps[..k]) + RowsOf(ps[k])
  {
    assert ps[..k + 1][..k] == ps[..k];
  }

  /** The rows of a concatenation are the rows of each part, in order. */
  lemma {:induction false} CollectRowsAppend(ps: seq<Option<Addon>>, qs: seq<Option<Addon>>)
    ensures CollectRows(ps + qs) == CollectRows(ps) + CollectRows(qs)
    decreases |qs|
  {
    if qs == [] {
      assert ps + qs == ps;
    } else {
      var qs' := qs[..|qs| - 1];
      assert (ps + qs)[..|ps + qs| - 1] == ps + qs';
      assert (ps + qs)[|ps + qs| - 1] == qs[|qs| - 1];
      CollectRowsAppend(ps, qs');
    }
  }

  /** Exactly the parsed add-ons get a row: their number is the number of successful parses. */
  lemma {:induction false} CollectRowsCount(ps: seq<Option<Addon>>)
    ensures |CollectRows(ps)| == |set i | 0 <= i < |ps| && ps[i].Some?|
    decreases |ps|
  {
    if ps != [] {
      var n := |ps| - 1;
      CollectRowsCount(ps[..n]);
      assert |CollectRows(ps)| == |CollectRows(ps[..n])| + |RowsOf(ps[n])|;
      var before := set i | 0 <= i < n && ps[..n][i].Some?;
      var all := set i | 0 <= i < |ps| && ps[i].Some?;
      assert before == set i | 0 <= i < n && ps[i].Some?;
      if ps[n].Some? {
        assert all == before + {n};
      } else {
        assert all == before;
      }
    }
  }

  /** Every row is the row of a parsed add-on. */
  lemma {:induction false} CollectRowsFrom(ps: seq<Option<Addon>>)
    ensures forall r :: r in CollectRows(ps) ==> exists i :: 0 <= i < |ps| && ps[i].Some? && r == SearchRow(ps[i].value)
    decreases |ps|
  {
    if ps != [] {
      var init := ps[..|ps| - 1];
      CollectRowsFrom(init);
      forall r | r in CollectRows(ps)
        ensures exists i :: 0 <= i < |ps| && ps[i].Some? && r == SearchRow(ps[i].value)
      {
        if r in CollectRows(init) {
          var i :| 0 <= i < |init| && init[i].Some? && r == SearchRow(init[i].value);
          assert ps[i] == init[i];
        }
      }
    }
  }

  /** The rows of a search response. */
  function SearchRows(es: seq<CatalogEntry>, v: Version): seq<TableItem>
    requires v != Tbc
  {
    CollectRows(ParseAll(es, v))
  }

  /** The collection loop of `search` over an already parsed response. */
  method Search(entries: seq<CatalogEntry>, v: Version) returns (items: seq<TableItem>)
    requires v != Tbc
    ensures items == SearchRows(entries, v)
  {
    ghost var ps := ParseAll(entries, v);
    items := [];
    var k := 0;
    while k < |entries|
      invariant 0 <= k <= |entries|
      invariant items == CollectRows(ps[..k])
    {
      var parsed := ParseJson(entries[k], v);
      assert parsed == ps[k];
      CollectRowsStep(ps, k);
      ghost var before := items;
      if parsed.Some? {
        items := items + [SearchRow(parsed.value)];
      }
      assert items == before + RowsOf(ps[k]);
      k := k + 1;
    }
    assert ps[..k] == ps;
  }

  /** Result `i` is an add-on with id `id`. */
  predicate Provides(ps: seq<Option<Addon>>, i: nat, id: string) {
    i < |ps| && ps[i].Some? && ps[i].value.addonId == id
  }

  /** The map `check_for_updates` builds with `insert(a.addon_id, a)`, in response order. */
  function CollectMap(ps: seq<Option<Addon>>): (m: map<string, Addon>)
    ensures forall id :: id in m ==> m[id].addonId == id
    decreases |ps|
  {
    if ps == [] then map[] else Insert(CollectMap(ps[..|ps| - 1]), ps[|ps| - 1])
  }

  /** `insert(a.addon_id, a)` for a parsed add-on; nothing for an entry without one. */
  function Insert(m: map<string, Addon>, p: Option<Addon>): map<string, Addon> {
    match p
    case Some(a) => m[a.addonId := a]
    case None => m
  }

  /** One more result is inserted into the map built so far. */
  lemma CollectMapStep(ps: seq<Option<Addon>>, k: nat)
    requires k < |ps|
    ensures CollectMap(ps[..k + 1]) == Insert(CollectMap(ps[..k]), ps[k])
  {
    assert ps[..k + 1][..k] == ps[..k];
  }

  /** The map has a key exactly for the ids some result provides. */
  lemma {:induction false} CollectMapKeys(ps: seq<Option<Addon>>, id: string)
    ensures id in CollectMap(ps) <==> exists i :: 0 <= i < |ps| && Provides(ps, i, id)
    decreases |ps|
  {
    if ps != [] {
      var init := ps[..|ps| - 1];
      CollectMapKeys(init, id);
      var n := |ps| - 1;
      assert CollectMap(init).Keys <= CollectMap(ps).Keys;
      if id in CollectMap(ps) {
        if Provides(ps, n, id) {
        } else if id in CollectMap(init) {
          var i :| 0 <= i < |init| && Provides(init, i, id);
          assert ps[i] == init[i] && Provides(ps, i, id);
        } else {
          assert false;
        }
      }
      if exists i :: 0 <= i < |ps| && Provides(ps, i, id) {
        var i :| 0 <= i < |ps| && Provides(ps, i, id);
        if i < n {
          assert ps[i] == init[i] && Provides(init, i, id);
        }
      }
    }
  }

  /** A later result overwrites an earlier one: an id maps to the add-on of the LAST result that provides it. */
  lemma {:induction false} CollectMapLastWins(ps: seq<Option<Addon>>, id: string, i: nat)
    requires Provides(ps, i, id)
    requires forall j :: i < j < |ps| ==> !Provides(ps, j, id)
    ensures id in CollectMap(ps) && CollectMap(ps)[id] == ps[i].value
    decreases |ps|
  {
    var init := ps[..|ps| - 1];
    if i < |ps| - 1 {
      assert ps[i] == init[i];
      forall j | i < j < |init| ensures !Provides(init, j, id) {
        assert ps[j] == init[j];
        assert !Provides(ps, j, id);
      }
      CollectMapLastWins(init, id, i);
      assert !Provides(ps, |ps| - 1, id);
    }
  }

  /** The update map of a lookup response. */
  function UpdateMap(es: seq<CatalogEntry>, v: Version): (m: map<string, Addon>)
    requires v != Tbc
    ensures forall id :: id in m ==> m[id].addonId == id
  {
    CollectMap(ParseAll(es, v))
  }

  /** The collection loop of `check_for_updates` over an already parsed response. */
  method CheckForUpdates(entries: seq<CatalogEntry>, v: Version) returns (items: map<string, Addon>)
    requires v != Tbc
    ensures items == UpdateMap(entries, v)
  {
    ghost var ps := ParseAll(entries, v);
    items := map[];
    var k := 0;
    while k < |entries|
      invariant 0 <= k <= |entries|
      invariant items == CollectMap(ps[..k])
    {
      var parsed := ParseJson(entries[k], v);
      CollectMapStep(ps, k);
      match parsed {
        case Some(a) =>
          items := items[a.addonId := a];
        case None =>
      }
      k := k + 1;
    }
    assert ps[..k] == ps;
  }

  /** Every folder of the archive may be created under `root`. */
  predicate Extractable(readOnly: set<string>, root: string, folders: seq<string>) {
    forall i :: 0 <= i < |folders| ==> Join(root, folders[i]) !in readOnly
  }

  /**
    The extraction loop of `download`: the folders are created in archive
    order, and the first one the file system refuses stops the extraction
    (the source's `create_dir_all(..).unwrap()`), with the folders before it
    already on disk.
   */
  function Extract(fs: Fs, root: string, folders: seq<string>): (r: Run)
    ensures r.fs.manifests == fs.manifests && r.fs.readOnly == fs.readOnly
    decreases |folders|
  {
    if folders == [] then Run(Pass, fs)
    else
      var p := Join(root, folders[0]);
      if p in fs.readOnly then Run(Fail(Denied(p)), fs)
      else Extract(fs.(dirs := fs.dirs + {p}), root, folders[1..])
  }

  /** The extraction succeeds exactly when the file system refuses none of the archive's folders. */
  lemma {:induction false} ExtractSucceeds(fs: Fs, root: string, folders: seq<string>)
    ensures Extract(fs, root, folders).outcome.Pass? <==> Extractable(fs.readOnly, root, folders)
    decreases |folders|
  {
    if folders != [] {
      var p := Join(root, folders[0]);
      if p !in fs.readOnly {
        ExtractSucceeds(fs.(dirs := fs.dirs + {p}), root, folders[1..]);
        if Extractable(fs.readOnly, root, folders[1..]) {
          forall i | 0 <= i < |folders|
            ensures Join(root, folders[i]) !in fs.readOnly
          {
            if i > 0 {
              assert folders[i] == folders[1..][i - 1];
            }
          }
        } else {
          var i :| 0 <= i < |folders[1..]| && Join(root, folders[1..][i]) in fs.readOnly;
          assert folders[1..][i] == folders[i + 1];
        }
      }
    }
  }

  /** A successful extraction adds exactly the archive's folders under the root. */
  lemma {:induction false} ExtractAdds(fs: Fs, root: string, folders: seq<string>)
    requires Extract(fs, root, folders).outcome.Pass?
    ensures Extract(fs, root, folders).fs.dirs == fs.dirs + (set p | p in ModulePaths(root, folders))
    decreases |folders|
  {
    if folders != [] {
      var p := Join(root, folders[0]);
      assert ModulePaths(root, folders) == [p] + ModulePaths(root, folders[1..]);
      ExtractAdds(fs.(dirs := fs.dirs + {p}), root, folders[1..]);
    }
  }

  /** A failed extraction names a refused folder of the archive and has created only some of the folders. */
  lemma {:induction false} ExtractStops(fs: Fs, root: string, folders: seq<string>)
    requires Extract(fs, root, folders).outcome.Fail?
    ensures var r := Extract(fs, root, folders);
      && r.outcome.error.Denied?
      && r.outcome.error.path in fs.readOnly
      && r.outcome.error.path in ModulePaths(root, folders)
      && fs.dirs <= r.fs.dirs <= fs.dirs + (set p | p in ModulePaths(root, folders))
    decreases |folders|
  {
    var p := Join(root, folders[0]);
    assert ModulePaths(root, folders) == [p] + ModulePaths(root, folders[1..]);
    if p !in fs.readOnly {
      ExtractStops(fs.(dirs := fs.dirs + {p}), root, folders[1..]);
    }
  }

  /** One folder of the extraction: created when allowed, otherwise the stop. */
  lemma ExtractFirst(fs: Fs, root: string, folders: seq<string>)
    requires folders != []
    ensures Join(root, folders[0]) in fs.readOnly ==>
      Extract(fs, root, folders) == Run(Fail(Denied(Join(root, folders[0]))), fs)
    ensures Join(root, folders[0]) !in fs.readOnly ==>
      Extract(fs, root, folders) == Extract(fs.(dirs := fs.dirs + {Join(root, folders[0])}), root, folders[1..])
  {
  }

  /**
    `download` as one step: fetching the archive at `url` fails when the URL
    cannot be reached, leaving the disk as it was; otherwise the archive's
    top-level folders are unpacked under `root` by `Extract`.
    `web` maps each reachable URL to the folders its archive holds.
   */
  function Fetch(fs: Fs, web: map<string, seq<string>>, url: string, root: string): (r: Run)
    ensures r.fs.manifests == fs.manifests && r.fs.readOnly == fs.readOnly
    ensures r.outcome.Pass? <==> url in web && Extractable(fs.readOnly, root, web[url])
    ensures url !in web ==> r == Run(Fail(Network(url)), fs)
    ensures r.outcome.Pass? ==> r.fs.dirs == fs.dirs + (set p | p in ModulePaths(root, web[url]))
    ensures url in web ==> fs.dirs <= r.fs.dirs <= fs.dirs + (set p | p in ModulePaths(root, web[url]))
  {
    if url in web then
      var r := Extract(fs, root, web[url]);
      ExtractSucceeds(fs, root, web[url]);
      if r.outcome.Pass? then ExtractAdds(fs, root, web[url]); r
      else ExtractStops(fs, root, web[url]); r
    else Run(Fail(Network(url)), fs)
  }

  method Download(disk: Disk, web: map<string, seq<string>>, url: string, savePath: string) returns (r: Outcome<Error>)
    modifies disk
    ensures Run(r, disk.State()) == Fetch(old(disk.State()), web, url, savePath)
  {
    if url !in web {
      return Fail(Network(url));
    }
    var k := 0;
    var folders := web[url];
    while k < |folders|
      invariant 0 <= k <= |folders|
      invariant Extract(disk.State(), savePath, folders[k..]) == Extract(old(disk.State()), savePath, folders)
    {
      assert folders[k..][1..] == folders[k + 1..];
      ExtractFirst(disk.State(), savePath, folders[k..]);
      var p := Join(savePath, folders[k]);
      if p in disk.readOnly {
        return Fail(Denied(p));
      }
      disk.dirs := disk.dirs + {p};
      k := k + 1;
    }
    assert Extract(disk.State(), savePath, folders[k..]) == Run(Pass, disk.State());
    r := Pass;
  }
}
