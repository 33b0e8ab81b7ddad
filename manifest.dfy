/**
  The manifest store of src/addon_manager.rs.

  Every game root directory holds a manifest file `.addons.json` listing the
  installed add-ons. Each operation loads the whole list, changes it and writes
  it back. The file system is modelled as a value `Fs`: the parsed manifest of
  each root, the set of existing directory paths, and the set of paths the
  operating system refuses to write or remove. `Disk` is the mutable file
  system the operations run against; each of its methods is tied to a function
  on `Fs` that says what the step returns and what the disk holds afterwards.
 */
module Manifest {
  import opened Wrappers

  const FileName: string := ".addons.json"

  /** One installed (or catalog) add-on version; every field is a string as in the JSON file. */
  datatype Addon = Addon(
    addonId: string,
    name: string,
    fileId: string,
    fileDate: string,
    modules: seq<string>,
    downloadUrl: string,
    version: string,
    gameVersion: string,
    downloadCount: string)

  /** What reading a root's manifest file yields: a list of add-ons, or text that does not parse. */
  datatype ManifestFile = Parsed(addons: seq<Addon>) | Corrupt

  /** The part of the file system the manager touches. */
  datatype Fs = Fs(
    manifests: map<string, ManifestFile>,  // root -> its manifest file, when the file exists
    dirs: set<string>,                     // existing directories, as full paths
    readOnly: set<string>)                 // paths whose writing or removal the system refuses

  /** The outcome of a step together with the file system it leaves behind. */
  datatype Run = Run(outcome: Outcome<Error>, fs: Fs)

  /** `format!("{}/{}", path, name)` */
  function Join(root: string, name: string): string {
    root + "/" + name
  }

  function ManifestPath(root: string): string {
    Join(root, FileName)
  }

  predicate UniqueIds(xs: seq<Addon>) {
    forall i, j :: 0 <= i < j < |xs| ==> xs[i].addonId != xs[j].addonId
  }

  /** `load_addon_db`: read and parse the root's manifest file. */
  function LoadDb(fs: Fs, root: string): (r: Result<seq<Addon>, Error>)
    ensures r.Success? <==> root in fs.manifests && fs.manifests[root].Parsed?
    ensures r.Success? ==> r.value == fs.manifests[root].addons
    ensures root !in fs.manifests ==> r == Failure(NotFound(ManifestPath(root)))
  {
    if root !in fs.manifests then Failure(NotFound(ManifestPath(root)))
    else match fs.manifests[root]
      case Parsed(xs) => Success(xs)
      case Corrupt => Failure(Malformed(ManifestPath(root)))
  }

  /** `save_addon_db`: overwrite the root's manifest file with `addons`. */
  function SaveDb(fs: Fs, root: string, addons: seq<Addon>): (r: Run)
    ensures r.outcome.Pass? <==> ManifestPath(root) !in fs.readOnly
    ensures r.outcome.Pass? ==> LoadDb(r.fs, root) == Success(addons)
    ensures r.outcome.Fail? ==> r.fs == fs
    ensures r.fs.dirs == fs.dirs && r.fs.readOnly == fs.readOnly
    ensures forall k :: k != root ==> (k in r.fs.manifests <==> k in fs.manifests)
    ensures forall k :: k != root && k in fs.manifests ==> r.fs.manifests[k] == fs.manifests[k]
  {
    if ManifestPath(root) in fs.readOnly then Run(Fail(Denied(ManifestPath(root))), fs)
    else Run(Pass, fs.(manifests := fs.manifests[root := Parsed(addons)]))
  }

  /** `init_addon_db`: write an empty manifest unless a manifest file already exists. */
  function InitDb(fs: Fs, root: string): (r: Run)
    ensures root in fs.manifests ==> r == Run(Pass, fs)
    ensures root !in fs.manifests ==>
      (r.outcome.Pass? <==> ManifestPath(root) !in fs.readOnly) &&
      (r.outcome.Pass? ==> LoadDb(r.fs, root) == Success([]))
    ensures r.outcome.Fail? ==> r.fs == fs
    ensures r.fs.dirs == fs.dirs && r.fs.readOnly == fs.readOnly
    ensures forall k :: k != root ==> (k in r.fs.manifests <==> k in fs.manifests)
    ensures forall k :: k != root && k in fs.manifests ==> r.fs.manifests[k] == fs.manifests[k]
  {
    if root in fs.manifests then Run(Pass, fs) else SaveDb(fs, root, [])
  }

  /** Initialising twice leaves the same state and outcome as initialising once. */
  lemma InitDbIdempotent(fs: Fs, root: string)
    ensures InitDb(InitDb(fs, root).fs, root) == InitDb(fs, root)
  {
  }

  /** `add_to_db`: load, push `addon` at the end, save. No deduplication is done. */
  function AppendDb(fs: Fs, root: string, addon: Addon): (r: Run)
    ensures r.outcome.Pass? <==> LoadDb(fs, root).Success? && ManifestPath(root) !in fs.readOnly
    ensures r.outcome.Pass? ==> LoadDb(r.fs, root) == Success(LoadDb(fs, root).value + [addon])
    ensures r.outcome.Fail? ==> r.fs == fs
    ensures LoadDb(fs, root).Failure? ==> r.outcome == Fail(LoadDb(fs, root).error)
    ensures r.fs.dirs == fs.dirs && r.fs.readOnly == fs.readOnly
    ensures forall k :: k != root ==> (k in r.fs.manifests <==> k in fs.manifests)
    ensures forall k :: k != root && k in fs.manifests ==> r.fs.manifests[k] == fs.manifests[k]
  {
    match LoadDb(fs, root)
    case Failure(e) => Run(Fail(e), fs)
    case Success(xs) => SaveDb(fs, root, xs + [addon])
  }

  /** `iter().position(|a| a.addon_id == id)`: the index of the first entry with that id. */
  function Position(xs: seq<Addon>, id: string): (r: Option<nat>)
    ensures r.Some? ==> r.value < |xs| && xs[r.value].addonId == id
    ensures r.Some? ==> forall j :: 0 <= j < r.value ==> xs[j].addonId != id
    ensures r.None? <==> forall j :: 0 <= j < |xs| ==> xs[j].addonId != id
    decreases |xs|
  {
    if xs == [] then None
    else if xs[0].addonId == id then Some(0)
    else match Position(xs[1..], id)
      case None => None
      case Some(i) => Some(i + 1)
  }

  /** `Vec::remove(index)`: the entries before and after `i`, in order. */
  function RemoveAt(xs: seq<Addon>, i: nat): (r: seq<Addon>)
    requires i < |xs|
    ensures |r| == |xs| - 1
    ensures forall j :: 0 <= j < i ==> r[j] == xs[j]
    ensures forall j :: i <= j < |r| ==> r[j] == xs[j + 1]
  {
    xs[..i] + xs[i + 1..]
  }

  /** The directories of the listed modules under `root`, in list order. */
  function ModulePaths(root: string, modules: seq<string>): (ps: seq<string>)
    ensures |ps| == |modules|
    ensures forall i :: 0 <= i < |ps| ==> ps[i] == Join(root, modules[i])
  {
    seq(|modules|, i requires 0 <= i < |modules| => Join(root, modules[i]))
  }

  /** Every path exists, none is protected, and none is listed twice. */
  predicate Removable(fs: Fs, paths: seq<string>) {
    && (forall i :: 0 <= i < |paths| ==> paths[i] in fs.dirs && paths[i] !in fs.readOnly)
    && (forall i, j :: 0 <= i < j < |paths| ==> paths[i] != paths[j])
  }

  /** `fs::remove_dir_all` on each path in turn, stopping at the first failure. */
  function RemoveDirs(fs: Fs, paths: seq<string>): (r: Run)
    ensures r.fs.manifests == fs.manifests && r.fs.readOnly == fs.readOnly
    ensures r.fs.dirs <= fs.dirs
    ensures forall p :: p in fs.dirs && p !in r.fs.dirs ==> p in paths
    ensures r.outcome.Pass? <==> Removable(fs, paths)
    ensures r.outcome.Pass? ==> r.fs.dirs == fs.dirs - (set p | p in paths)
    decreases |paths|
  {
    if paths == [] then Run(Pass, fs)
    else
      var p := paths[0];
      if p !in fs.dirs then Run(Fail(NotFound(p)), fs)
      else if p in fs.readOnly then Run(Fail(Denied(p)), fs)
      else
        var next := fs.(dirs := fs.dirs - {p});
        var r := RemoveDirs(next, paths[1..]);
        assert Removable(next, paths[1..]) && p !in paths[1..] <==> Removable(fs, paths) by {
          if Removable(fs, paths) {
            forall i | 0 <= i < |paths[1..]| ensures paths[1..][i] != p {
              assert paths[1..][i] == paths[i + 1];
            }
          }
          if Removable(next, paths[1..]) && p !in paths[1..] {
            forall i | 0 <= i < |paths| ensures paths[i] in fs.dirs && paths[i] !in fs.readOnly {
              if i > 0 { assert paths[i] == paths[1..][i - 1]; }
            }
            forall i, j | 0 <= i < j < |paths| ensures paths[i] != paths[j] {
              assert paths[j] == paths[1..][j - 1];
              if i > 0 { assert paths[i] == paths[1..][i - 1]; }
            }
          }
        }
        assert r.outcome.Pass? ==> forall i :: 0 <= i < |paths[1..]| ==> paths[1..][i] != p;
        r
  }

  /**
    `delete`: load; if some entry has the argument's `addon_id`, remove the first
    such entry and then the directory of every module listed in the ARGUMENT
    (not in the stored entry); finally save. A failed removal returns before the
    save, so the manifest file keeps its old contents.
   */
  function DeleteDb(fs: Fs, root: string, addon: Addon): (r: Run)
    ensures r.fs.readOnly == fs.readOnly
    ensures r.fs.dirs <= fs.dirs
    ensures forall p :: p in fs.dirs && p !in r.fs.dirs ==> p in ModulePaths(root, addon.modules)
    ensures r.outcome.Fail? ==> r.fs.manifests == fs.manifests
    ensures r.outcome.Pass? ==> LoadDb(r.fs, root).Success? && ManifestPath(root) !in r.fs.readOnly
    ensures LoadDb(fs, root).Failure? ==> r == Run(Fail(LoadDb(fs, root).error), fs)
    ensures forall k :: k != root ==> (k in r.fs.manifests <==> k in fs.manifests)
    ensures forall k :: k != root && k in fs.manifests ==> r.fs.manifests[k] == fs.manifests[k]
  {
    match LoadDb(fs, root)
    case Failure(e) => Run(Fail(e), fs)
    case Success(xs) =>
      match Position(xs, addon.addonId)
      case None => SaveDb(fs, root, xs)
      case Some(i) =>
        var removed := RemoveDirs(fs, ModulePaths(root, addon.modules));
        if removed.outcome.Fail? then removed
        else SaveDb(removed.fs, root, RemoveAt(xs, i))
  }

  /** With a matching entry, a successful delete drops exactly the first match and exactly the argument's module directories. */
  lemma DeleteRemovesFirstMatch(fs: Fs, root: string, addon: Addon, xs: seq<Addon>, i: nat)
    requires LoadDb(fs, root) == Success(xs)
    requires Position(xs, addon.addonId) == Some(i)
    ensures DeleteDb(fs, root, addon).outcome.Pass? <==>
      Removable(fs, ModulePaths(root, addon.modules)) && ManifestPath(root) !in fs.readOnly
    ensures DeleteDb(fs, root, addon).outcome.Pass? ==>
      && LoadDb(DeleteDb(fs, root, addon).fs, root) == Success(xs[..i] + xs[i + 1..])
      && DeleteDb(fs, root, addon).fs.dirs == fs.dirs - (set p | p in ModulePaths(root, addon.modules))
  {
  }

  /** Without a matching entry, delete removes no directory and rewrites the same list. */
  lemma DeleteWithoutMatch(fs: Fs, root: string, addon: Addon, xs: seq<Addon>)
    requires LoadDb(fs, root) == Success(xs)
    requires Position(xs, addon.addonId).None?
    ensures DeleteDb(fs, root, addon).fs.dirs == fs.dirs
    ensures DeleteDb(fs, root, addon).outcome.Pass? <==> ManifestPath(root) !in fs.readOnly
    ensures LoadDb(DeleteDb(fs, root, addon).fs, root) == Success(xs)
  {
  }

  /** A module that cannot be removed fails the delete before the save: the manifest is unchanged, though earlier module directories may be gone. */
  lemma DeleteRemovalFailure(fs: Fs, root: string, addon: Addon, xs: seq<Addon>)
    requires LoadDb(fs, root) == Success(xs)
    requires Position(xs, addon.addonId).Some?
    requires !Removable(fs, ModulePaths(root, addon.modules))
    ensures DeleteDb(fs, root, addon).outcome.Fail?
    ensures DeleteDb(fs, root, addon).fs.manifests == fs.manifests
  {
  }

  /** In a list whose ids are unique, removing the first entry with an id leaves no entry with that id. */
  lemma {:induction false} RemoveFirstLeavesNone(xs: seq<Addon>, id: string, i: nat)
    requires UniqueIds(xs)
    requires Position(xs, id) == Some(i)
    ensures forall b :: b in RemoveAt(xs, i) ==> b.addonId != id
    ensures UniqueIds(RemoveAt(xs, i))
  {
  }

  /** When the ids are unique, a successful delete leaves no entry with the argument's id, and the ids stay unique. */
  lemma DeleteLeavesNoMatch(fs: Fs, root: string, addon: Addon, xs: seq<Addon>)
    requires LoadDb(fs, root) == Success(xs)
    requires UniqueIds(xs)
    requires DeleteDb(fs, root, addon).outcome.Pass?
    ensures LoadDb(DeleteDb(fs, root, addon).fs, root).Success?
    ensures forall b :: b in LoadDb(DeleteDb(fs, root, addon).fs, root).value ==> b.addonId != addon.addonId
    ensures UniqueIds(LoadDb(DeleteDb(fs, root, addon).fs, root).value)
  {
  }

  /** The mutable file system the manifest operations act on. */
  class Disk {
    var manifests: map<string, ManifestFile>
    var dirs: set<string>
    const readOnly: set<string>

    function State(): Fs
      reads this
    {
      Fs(manifests, dirs, readOnly)
    }

    constructor (manifests: map<string, ManifestFile>, dirs: set<string>, readOnly: set<string>)
      ensures State() == Fs(manifests, dirs, readOnly)
    {
      this.manifests := manifests;
      this.dirs := dirs;
      this.readOnly := readOnly;
    }

    method InitAddonDb(root: string) returns (r: Outcome<Error>)
      modifies this
      ensures Run(r, State()) == InitDb(old(State()), root)
    {
      if root !in manifests {
        r := SaveAddonDb(root, []);
      } else {
        r := Pass;
      }
    }

    method LoadAddonDb(root: string) returns (r: Result<seq<Addon>, Error>)
      ensures r == LoadDb(State(), root)
    {
      if root !in manifests {
        return Failure(NotFound(ManifestPath(root)));
      }
      match manifests[root]
      case Parsed(xs) => r := Success(xs);
      case Corrupt => r := Failure(Malformed(ManifestPath(root)));
    }

    method SaveAddonDb(root: string, addons: seq<Addon>) returns (r: Outcome<Error>)
      modifies this
      ensures Run(r, State()) == SaveDb(old(State()), root, addons)
    {
      var path := ManifestPath(root);
      if path in readOnly {
        return Fail(Denied(path));
      }
      manifests := manifests[root := Parsed(addons)];
      r := Pass;
    }

    method AddToDb(root: string, addon: Addon) returns (r: Outcome<Error>)
      modifies this
      ensures Run(r, State()) == AppendDb(old(State()), root, addon)
    {
      var loaded := LoadAddonDb(root);
      if loaded.Failure? {
        return Fail(loaded.error);
      }
      var addons := loaded.value;
      addons := addons + [addon];
      r := SaveAddonDb(root, addons);
    }

    method Delete(root: string, addon: Addon) returns (r: Outcome<Error>)
      modifies this
      ensures Run(r, State()) == DeleteDb(old(State()), root, addon)
    {
      var loaded := LoadAddonDb(root);
      if loaded.Failure? {
        return Fail(loaded.error);
      }
      var addons := loaded.value;
      match Position(addons, addon.addonId) {
        case Some(index) =>
          addons := RemoveAt(addons, index);
          ghost var paths := ModulePaths(root, addon.modules);
          var k := 0;
          while k < |addon.modules|
            invariant 0 <= k <= |addon.modules|
            invariant manifests == old(manifests)
            invariant RemoveDirs(old(State()), paths) == RemoveDirs(State(), paths[k..])
          {
            var p := Join(root, addon.modules[k]);
            assert paths[k..][0] == p;
            if p !in dirs {
              return Fail(NotFound(p));
            }
            if p in readOnly {
              return Fail(Denied(p));
            }
            dirs := dirs - {p};
            assert paths[k..][1..] == paths[k + 1..];
            k := k + 1;
          }
        case None =>
      }
      r := SaveAddonDb(root, addons);
    }
  }
}
