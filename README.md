# wowAddonManager in Dafny

A model of the core of wowAddonManager, a terminal manager for World of
Warcraft add-ons written in Rust, with proofs about it. The model covers:

- **The manifest store** (`manifest.dfy`, module `Manifest`). Each game root
  holds a `.addons.json` list of installed add-ons. `init_addon_db`,
  `load_addon_db`, `save_addon_db`, `add_to_db` and `delete` read the list,
  change it and write it back. The file system is the value `Fs`: the parsed
  manifest of each root, the existing directories, and the paths the system
  refuses to write or remove. The class `Disk` holds that value as mutable
  state. Each `Disk` method is proved to agree with the function on `Fs` that
  specifies it.
- **The catalog client** (`catalog.dfy`, module `Catalog`), without the
  network:
  - `latest_file` picks one stable file of the requested flavour;
  - `parse_json` turns a catalog entry into an `Addon`;
  - `parse_date` keeps the first ten characters of the file date;
  - the digit-grouping loop of `parse_download_count` inserts the commas;
  - the collection loops of `search` and `check_for_updates` gather results;
  - `download` unpacks an archive's folders into a game root.
- **The application state** (`tables.dfy`, module `Tables`, and `app.dfy`,
  module `Application`):
  - the wrap-around selection of `StatefulTable` and the two-tab cycle;
  - the log and its scroll position;
  - `load_installed_addons`, which reconciles the manifest with the catalog;
  - the `download`, `update_addon`, `update_all` and `remove_addon` pipelines,
    which chain store and catalog steps and stop at the first failure.
- **The key-name parser** `parse_key` of the settings (`settings.dfy`, module
  `Settings`).
- **Shared helpers**: `strings.dfy` defines the string order Rust's `String`
  comparison uses and decimal rendering. `wrappers.dfy` defines `Option`,
  `Result`, the `Outcome` of a step, and the error kinds.

Each pipeline is stated twice:

- as a function on `Fs` (`InstallRun`, `UpdateRun`, `DeleteDb`, `UpdateEach`);
- as a method of the class `App` that runs the steps against a `Disk`.

The method is proved to leave exactly the state and the log messages the
function gives.

The catalog server is a parameter:

- `lookup` is the response to the update query for a list of ids;
- `web` maps each reachable archive URL to the top-level folders of its archive.

The model follows the code in these places:

- **`latest_file` picks the least id.** It calls `max_by` with the reversed
  comparator `b.cmp(a)`, so it returns the candidate whose id text is least,
  and the last of several equal ones. It does not return the newest file, as
  its name suggests. `Catalog.LatestFile` states what the code does.
- **File ids are compared as text.** They are strings, so an installed file
  "9" counts as newer than a catalog file "10", and no update is offered
  (`Application.FileIdsCompareAsText`).
- **`update_all` deletes with the catalog version.** It passes the catalog
  version both to `delete` and to `add_to_db`. So the folders it removes are
  the new version's module folders, not the installed ones
  (`Application.UpdateAllRemovesNewFolders`).

## Model

| member | source | states |
|---|---|---|
| Manifest.LoadDb | src/addon_manager.rs:38-43 | reading succeeds exactly when the root has a manifest file that parses, and yields its list; a missing file is reported as not found at `root/.addons.json` |
| Manifest.SaveDb | src/addon_manager.rs:45-53 | saving succeeds exactly when the manifest path is writable, after which loading yields the saved list; a failed save changes nothing; directories and other roots are untouched |
| Manifest.InitDb | src/addon_manager.rs:29-36 | an existing manifest file, even one that does not parse, is left alone and reported as success; otherwise an empty list is written, succeeding exactly when the path is writable; a failure changes nothing; the directories, the read-only set and the other roots' manifests are kept |
| Manifest.InitDbIdempotent | src/addon_manager.rs:29-36 | initialising twice gives the same outcome and state as initialising once |
| Manifest.AppendDb | src/addon_manager.rs:55-60 | appending succeeds exactly when the manifest loads and is writable, and the stored list is then the old one with the add-on at the end (no deduplication); a failure writes nothing, and a load failure is returned unchanged |
| Manifest.Position | src/addon_manager.rs:64-67 | the index of the first entry with the id: the entry there has the id, none before it does, and None exactly when no entry has it |
| Manifest.RemoveAt | src/addon_manager.rs:70 | removing index `i` keeps the entries before `i` and shifts those after it down by one, in order |
| Manifest.ModulePaths | src/addon_manager.rs:71-72 | one path `root/module` per listed module, in list order |
| Manifest.RemoveDirs | src/addon_manager.rs:71-74 | removal stops at the first failure; it succeeds exactly when every path exists, is removable and is listed once, and then exactly the listed paths are gone; only listed paths ever disappear and manifests are untouched (paths are flat names: see "## Left out") |
| Manifest.DeleteDb | src/addon_manager.rs:62-80 | only module folders of the argument add-on can disappear; a failure leaves every manifest as it was; a load failure is returned with nothing changed; a success leaves a readable manifest; other roots are untouched (for module names that are single folder names: see "## Left out") |
| Manifest.DeleteRemovesFirstMatch | src/addon_manager.rs:64-78 | with a matching entry, delete succeeds exactly when all argument module folders are removable and the manifest writable, and then the list loses exactly its first match (others keep their order) and exactly those folders are gone |
| Manifest.DeleteWithoutMatch | src/addon_manager.rs:76-78 | without a matching entry no folder is removed and the same list is saved, succeeding exactly when the manifest is writable |
| Manifest.DeleteRemovalFailure | src/addon_manager.rs:71-78 | a module folder that cannot be removed fails the delete before the save, so the manifest keeps its old contents |
| Manifest.RemoveFirstLeavesNone | src/addon_manager.rs:64-70 | in a list with unique ids, removing the first entry with an id leaves no entry with it, and the ids stay unique |
| Manifest.DeleteLeavesNoMatch | src/addon_manager.rs:62-80 | after a successful delete from a list with unique ids, no entry with the argument's id remains and the ids stay unique |
| Manifest.Disk.constructor | src/addon_manager.rs:26-28 | a new disk holds exactly the given manifests, directories and protected paths |
| Manifest.Disk.InitAddonDb | src/addon_manager.rs:29-36 | the outcome and the new disk are those `InitDb` gives for the old disk |
| Manifest.Disk.LoadAddonDb | src/addon_manager.rs:38-43 | the result is `LoadDb` of the disk |
| Manifest.Disk.SaveAddonDb | src/addon_manager.rs:45-53 | the outcome and the new disk are those `SaveDb` gives for the old disk |
| Manifest.Disk.AddToDb | src/addon_manager.rs:55-60 | the outcome and the new disk are those `AppendDb` gives for the old disk |
| Manifest.Disk.Delete | src/addon_manager.rs:62-80 | the removal loop with its early exit leaves the outcome and the disk that `DeleteDb` gives for the old disk |
| Tables.NextIndex | src/app.rs:69-81 | no selection moves to 0; the last row or beyond wraps to 0; any other row moves one down; with a selection the result is in range |
| Tables.PreviousIndex | src/app.rs:83-95 | no selection moves to 0; row 0 wraps to the last row; any other row moves one up; an in-range selection stays in range |
| Tables.NextPreviousInverse | src/app.rs:69-95 | on an in-range selection, next then previous, and previous then next, return to the same row |
| Tables.StatefulTable.constructor | src/app.rs:63-68 | a new table has no rows and no selection |
| Tables.StatefulTable.Selection | src/app.rs:97-102 | there is a selected row exactly when the selection is inside the table, and it is the row at that index |
| Tables.StatefulTable.Next | src/app.rs:69-81 | the rows are kept and the selection becomes `NextIndex` of the old one |
| Tables.StatefulTable.Previous | src/app.rs:83-95 | the rows are kept and the selection becomes `PreviousIndex` of the old one |
| Tables.StatefulTable.GetSelected | src/app.rs:97-102 | returns the selected row, or None when nothing in range is selected |
| Tables.TabIndex | src/app.rs:12-16 | every tab's discriminant is below the tab count |
| Tables.TabFrom | src/app.rs:19-25 | there is a tab exactly for the indices below the tab count, and it is the tab with that index |
| Tables.NextTab | src/app.rs:650-652 | the next tab is the other tab, at index one more modulo the tab count |
| Tables.PrevTab | src/app.rs:659-662 | the previous tab is the other tab, at index one less modulo the tab count, computed as `rem_euclid` does |
| Tables.TabCycle | src/app.rs:650-667 | next and previous tab undo each other, and each moves to the other tab |
| Catalog.Candidates | src/curse.rs:134-141 | a file is a candidate exactly when it is a stable release of the requested flavour |
| Catalog.Render | src/curse.rs:142 | `to_string()` of a JSON value starts with a quote exactly for a string, whose text is then wrapped in one quote on each side |
| Catalog.MaxByFrom | src/curse.rs:142 | the fold of `max_by` under the reversed comparator ends on a candidate whose id text is least, with every later candidate strictly greater |
| Catalog.LatestFile | src/curse.rs:126-144 | None exactly when no file is a stable release of the flavour; otherwise a candidate whose id text is at most every candidate's, and the last one with that least text |
| Catalog.ParseDate | src/curse.rs:103-107 | the date is the prefix of the string value of length min(10, its length), and empty for a non-string value |
| Catalog.Group | src/curse.rs:116-122 | grouping never shortens the digits, keeps the first digit in front, and leaves up to three digits unchanged |
| Catalog.GroupDigits | src/curse.rs:116-122 | the right-to-left insertion loop builds exactly the grouped text `Group` specifies |
| Catalog.GroupStripCommas | src/curse.rs:116-122 | erasing the commas from the grouped text gives back the digits |
| Catalog.GroupLength | src/curse.rs:116-122 | grouping `n > 0` characters adds `(n - 1) / 3` commas, and empty input stays empty |
| Catalog.GroupCommaPositions | src/curse.rs:116-122 | a comma sits exactly where the distance from the end is a multiple of four: one before each group of three from the right, never in front |
| Catalog.GroupShortExamples | src/curse.rs:116-122 | "999" is shown as "999" and "1234" as "1,234" |
| Catalog.GroupMillionExample | src/curse.rs:116-122 | "1234567" is shown as "1,234,567" |
| Catalog.FolderNames | src/curse.rs:64-71 | the modules are the folder names of the chosen file, one per module, in order |
| Catalog.ParseJson | src/curse.rs:54-101 | an add-on exactly when `latest_file` finds a file; its id and name come from the entry; its file id, display version, download URL, first game version (empty when there is none), modules and date come from the chosen file; its download count is the entry's count grouped |
| Catalog.SearchRow | src/curse.rs:37-46 | a search row shows the name, game version, file date and download count, and installs the add-on from its download URL |
| Catalog.ParseAll | src/curse.rs:34-35 | the response is parsed entry by entry, one result per entry, in order |
| Catalog.CollectRows | src/curse.rs:34-50 | a search never yields more rows than response entries |
| Catalog.CollectRowsAppend | src/curse.rs:34-50 | the rows of a concatenated response are the rows of each part, in order |
| Catalog.CollectRowsStep | src/curse.rs:34-50 | one more response entry appends its row, if it parses, after the rows so far |
| Catalog.CollectRowsCount | src/curse.rs:34-50 | the number of rows is the number of entries that parse |
| Catalog.CollectRowsFrom | src/curse.rs:34-50 | every row is the search row of some parsed entry |
| Catalog.Search | src/curse.rs:33-51 | the collection loop of `search` yields exactly the rows of the parsed entries, in response order |
| Catalog.CollectMap | src/curse.rs:197-205 | every key of the update map is the id of the add-on it maps to |
| Catalog.CollectMapKeys | src/curse.rs:197-205 | the map has a key exactly for the ids that some parsed entry carries |
| Catalog.CollectMapLastWins | src/curse.rs:197-205 | an id maps to the add-on of the last entry that carries it: a later entry overwrites an earlier one |
| Catalog.CollectMapStep | src/curse.rs:198-205 | one more response entry is inserted into the map built from the entries before it |
| Catalog.UpdateMap | src/curse.rs:189-207 | every key of a lookup's update map is the id of the add-on it maps to |
| Catalog.CheckForUpdates | src/curse.rs:197-207 | the collection loop of `check_for_updates` yields exactly the map `CollectMap` specifies |
| Catalog.Extract | src/curse.rs:166-183 | extracting never touches manifests or the protected paths |
| Catalog.ExtractSucceeds | src/curse.rs:166-183 | the extraction succeeds exactly when the file system refuses none of the archive's folder paths |
| Catalog.ExtractAdds | src/curse.rs:166-183 | a successful extraction adds exactly the archive's folders under the root |
| Catalog.ExtractStops | src/curse.rs:172-180 | a failed extraction reports a refused folder path of the archive and has created only some of the archive's folders, keeping every existing directory |
| Catalog.ExtractFirst | src/curse.rs:166-183 | the first folder of the archive either stops the extraction, when refused, or is created before the rest are extracted |
| Catalog.Fetch | src/curse.rs:146-186 | an unreachable URL fails with nothing changed; otherwise the archive is extracted by `Extract`: success exactly when no folder path is refused, and then exactly its folders are added under the root; manifests and protected paths are never touched |
| Catalog.Download | src/curse.rs:166-183 | the extraction loop, which stops at the first refused folder, leaves the outcome and the disk that `Fetch` gives for the old disk |
| Application.ParseI32 | src/app.rs:275 | a parsed id is within the `i32` range and comes from an optional sign followed by digits only; a leading `-` gives a value of at most 0, and otherwise it is at least 0; the value is the digits' decimal value, negated after a `-`; every sign-and-digits text whose signed value fits in `i32` parses, so in-range digits that overflow give none |
| Application.ParseI32OfIntToString | src/app.rs:275 | every `i32` written in decimal parses back to itself |
| Application.ParseI32Digits | src/app.rs:275 | digits, with a `-` in front or not, parse to their value or its negation whenever that fits in `i32` |
| Application.ParseI32RejectsMalformed | src/app.rs:275 | empty text, a bare sign, trailing garbage and leading blanks do not parse |
| Application.ParseI32Bounds | src/app.rs:275 | 2147483648 does not parse and -2147483648 does |
| Application.QueryIds | src/app.rs:272-277 | the query is no longer than the manifest and holds only non-zero `i32` values |
| Application.QueryIdsSound | src/app.rs:272-277 | every queried id is the non-zero parsed id of some entry |
| Application.QueryIdsComplete | src/app.rs:272-277 | every entry whose id parses to a non-zero value is queried |
| Application.QueryIdsEmpty | src/app.rs:272-277 | the query is empty exactly when no entry's id parses to a non-zero value |
| Application.NewerVersion | src/app.rs:290-292 | a catalog version is offered exactly when the map has the entry's id and its file id is greater as text; otherwise the installed file id is at least the catalog's, as text |
| Application.RemoteUpdates | src/app.rs:278-285 | the server is asked only when some id parses, and then the update map is that of its response; every key is the id of the add-on it maps to |
| Application.InstalledRow | src/app.rs:290-321 | the row shows the entry's name, game version and version; it is "Outdated" exactly when a newer catalog file exists and its display name differs; the latest version and URL come from that file if any, else from the entry |
| Application.InstalledRows | src/app.rs:286-322 | one row per manifest entry, in manifest order, each the entry's `InstalledRow` |
| Application.PendingUpdates | src/app.rs:286-305 | there are no more pending updates than manifest entries |
| Application.PendingUpdatesMembers | src/app.rs:290-296 | a catalog add-on is pending exactly when it is the newer version of some entry |
| Application.LoadEntry | src/app.rs:256-271 | reading the manifest logs at Info exactly when it succeeds, and at Error otherwise |
| Application.Report | src/app.rs:495-507 | a pipeline logs at Info exactly when it succeeds, and at Error otherwise |
| Application.LoadView | src/app.rs:248-323 | the view lists exactly the readable manifest's entries in order (none when unreadable), has no more pending updates than rows, and logs the reading outcome |
| Application.OutdatedOnlyWithUpdate | src/app.rs:290-310 | an "Outdated" row always has a newer version kept as pending; with no catalog data every row is "Up-to-date" and nothing is pending |
| Application.NoQueryNoUpdates | src/app.rs:278-285 | when no id parses to a non-zero value the server is not asked and the update map is empty |
| Application.FileIdsCompareAsText | src/app.rs:292 | file ids compare as text: installed "9" is not updated to catalog "10", but "10" is updated to "9" |
| Strings.Less | src/app.rs:292 | `String` order is irreflexive: no text is less than itself |
| Strings.LessPrefix | src/app.rs:292 | a proper prefix is less than the text it begins |
| Application.SameVersionLooksUpToDate | src/app.rs:292-310 | a newer file with the same display name is kept as pending while its row says "Up-to-date" |
| Application.InstallRun | src/app.rs:464-469 | installing succeeds exactly when the archive can be fetched, none of its folders is refused, and the manifest can be read and written; the manifest then gains the add-on at the end; the archive's folders are unpacked before the manifest step; a failure leaves every manifest unchanged; the read-only set and the other roots' manifests are kept in every case |
| Application.UpdateRun | src/app.rs:525-531 | an update stops at a failed delete with the delete's result; it succeeds exactly when the delete succeeds, the archive can be fetched and none of its folders is refused; the manifest is then the one after the delete plus the new version at the end; after a successful delete the rest is exactly the install run on the deleted state, so a failed fetch leaves the entry and its folders gone with nothing re-added |
| Application.UpdateReplacesEntry | src/app.rs:525-531 | with unique ids, a successful update to a version with the same id removes exactly the old entry and appends the new one, and the ids stay unique |
| Application.UpdateAllRemovesNewFolders | src/app.rs:487-493 | passing the catalog version to `delete` removes its folders, not the installed ones: after a folder rename `update_all` fails where deleting the installed entry succeeds |
| Application.UpdateStep | src/app.rs:485-508 | one update adds exactly one message and keeps the earlier ones |
| Application.UpdateEach | src/app.rs:481-511 | `update_all` adds exactly one message per item, keeps the earlier messages, and never changes which paths are protected |
| Application.UpdateEachAppend | src/app.rs:484-509 | updating `xs + ys` is updating `xs`, then `ys` from the state `xs` left: a failing item does not stop later ones |
| Application.UpdateEachLast | src/app.rs:484-509 | the first `k + 1` updates are the first `k` followed by update `k` |
| Application.UpdateEachKeepsLog | src/app.rs:484-509 | later updates only append: the messages of the first `k` updates stay in place |
| Application.UpdateEachReports | src/app.rs:484-509 | the `k`-th new message is the one update `k` logs, run on the disk the first `k` updates left |
| Application.RemoveDropsRow | src/app.rs:544-570 | after a successful removal from a manifest with unique ids, the reloaded table has no row for that id and one row fewer when the id was present |
| Application.ScrollUp | src/app.rs:638-642 | scrolling up moves one line up and never goes below 0 |
| Application.ScrollDown | src/app.rs:644-648 | scrolling down moves one line exactly while below the message count minus one truncated to `u16`, and stays in `u16` range |
| Application.ScrollDownUp | src/app.rs:638-648 | a move down is undone by a move up; below the last message, with fewer than 65536 messages, a move down always happens |
| Application.ScrollBoundWraps | src/app.rs:645 | with 65537 messages the truncated bound is 0 and the log cannot scroll down |
| Application.ReconcileStep | src/app.rs:286-322 | one more entry appends its row and its pending update at the end |
| Application.ReconcileEntry | src/app.rs:287-321 | the loop body builds the entry's `InstalledRow` and its pending update, if any |
| Application.Reconcile | src/app.rs:286-322 | the loop of `load_installed_addons` builds exactly `InstalledRows` and `PendingUpdates` of the manifest |
| Application.FindUpdate | src/app.rs:517-521 | finds an update exactly when some pending update has the id; the result is the first one with that id |
| Application.App.constructor | src/app.rs:142-160 | a new app is on the installed tab of Classic with empty search table, no selection, and the installed view loaded from disk with its message logged; the app is `Valid`: distinct tables, a scroll within `u16` and a non-empty log |
| Application.App.SavePath | src/app.rs:690-696 | the save path is the game root of the selected version |
| Application.App.Log | src/app.rs:679-681 | appends one message and changes nothing else; the app is `Valid` afterwards |
| Application.App.ReadView | src/app.rs:251-322 | reading the manifest, querying updates and reconciling gives exactly `LoadView` of the disk |
| Application.App.LoadInstalledAddons | src/app.rs:248-323 | the installed table and pending updates become those of `LoadView`, and its message is appended; tab, version, scroll and selection are kept; the app is `Valid` afterwards |
| Application.App.Download | src/app.rs:458-479 | on the search tab the selected result is installed per `InstallRun` and its outcome is logged under its first cell; on another tab nothing changes; `Valid` is kept |
| Application.App.UpdateOne | src/app.rs:485-508 | one iteration leaves the disk and log that `UpdateStep` gives; `Valid` is kept |
| Application.App.Upgrade | src/app.rs:487-494 | delete, download and add, chained, leave the outcome and disk that `UpdateRun` gives |
| Application.App.UpdateAll | src/app.rs:481-511 | on the installed tab the disk and log become those of `UpdateEach` over the pending updates; on another tab nothing changes; `Valid` is kept |
| Application.App.UpdateAddon | src/app.rs:513-542 | on the installed tab the selected entry is updated to its first pending update per `UpdateRun`; on success the view is reloaded before the message is logged; on failure the view is kept; on another tab nothing changes; the selection is kept; `Valid` is kept |
| Application.App.FinishUpdate | src/app.rs:532-541 | after a success the view is reloaded and then the message is logged; after a failure only the message is logged; the selection is kept; `Valid` is kept |
| Application.App.RemoveAddon | src/app.rs:544-570 | on the installed tab the selected entry is deleted per `DeleteDb`, the view is reloaded whatever the outcome, then the outcome is logged; on another tab nothing changes; the selection is kept; `Valid` is kept |
| Application.App.ScrollUpLog | src/app.rs:638-642 | the scroll position becomes `ScrollUp` of the old one; nothing else changes; `Valid` is kept |
| Application.App.ScrollDownLog | src/app.rs:644-648 | the scroll position becomes `ScrollDown` of the old one and stays within `u16`; nothing else changes; `Valid` is kept |
| Application.App.SelectNextTab | src/app.rs:650-657 | the tab becomes the next one, and entering the installed tab reloads its view; the selection is kept; `Valid` is kept |
| Application.App.SelectPrevTab | src/app.rs:659-667 | the tab becomes the previous one, and entering the installed tab reloads its view; the selection is kept; `Valid` is kept |
| Settings.Utf8Width | src/settings.rs:167 | a character takes one to four bytes, and one exactly when it is ASCII |
| Settings.Utf8Len | src/settings.rs:167 | the byte length is at least the character count, and is 1 exactly for a single ASCII character |
| Settings.Split | src/settings.rs:170 | splitting gives at least one piece and no piece contains the separator |
| Settings.SplitJoin | src/settings.rs:170 | joining the pieces with the separator gives the name back |
| Settings.SplitWithoutSeparator | src/settings.rs:170 | a name without the separator is a single piece |
| Settings.SplitAtFirst | src/settings.rs:170 | the first piece ends at the first separator and the rest is split on its own |
| Settings.LowerChar | src/settings.rs:172 | ASCII capitals move to lower case; only they and the Kelvin sign change |
| Settings.Lower | src/settings.rs:172 | lower-casing keeps the length and maps each character |
| Settings.FirstChar | src/settings.rs:160-165 | the first character of a non-empty text, and NUL for the empty text |
| Settings.ParseKey | src/settings.rs:159-189 | a one-byte name is that character; otherwise the name is Ctrl or Alt exactly when its first piece lower-cases to `ctrl` or `alt`, with the first character of the second piece; a name that gives no key is longer than one byte and its first piece names no key word; any other name longer than one byte is the named key of its lowered first piece (so `PageUp` and `LEFT` name keys) |
| Settings.ParseKeySingleByte | src/settings.rs:167-168 | a one-byte name is that character, `-` included |
| Settings.ParseKeyWideChar | src/settings.rs:167-185 | a single non-ASCII character is longer than one byte and names no key |
| Settings.ParseKeyModifier | src/settings.rs:170-174 | `ctrl-` and `alt-` in any case take the first character of the next piece, NUL when it is empty |
| Settings.ParseKeyFirstPiece | src/settings.rs:170-186 | only the piece before the first `-` picks a named key; an unknown or empty piece gives no key |
| Settings.ParseKeyBareModifier | src/settings.rs:170-174 | a bare `ctrl` or `alt` has no second piece and cannot be parsed |
| Settings.ParseKeyDashQuirk | src/settings.rs:160-174 | "ctrl--" gives Ctrl of NUL, and "-" gives the dash character |
| Settings.ParseWord | src/settings.rs:172-186 | a lower-case word other than `ctrl` and `alt` names the key its word list gives |
| Settings.ParseSpecialKeyName | src/settings.rs:175-183 | every special key is read back from its word |
| Settings.ParseModifierKeyName | src/settings.rs:173-174 | Ctrl and Alt with any character but `-` are read back from their names |
| Settings.ParseCharKeyName | src/settings.rs:167-184 | every ASCII character key is read back from its name, the space from "space" |
| Settings.ParseKeyName | src/settings.rs:159-189 | every key a name can denote is read back from its name |

## Left out

- The network and `async` code of `search`, `check_for_updates` and `download`: the HTTP requests, `reqwest` and `tokio`. The collection loops run over already-parsed responses, the update response is the parameter `lookup`, and archives are the parameter `web`.
- Manifest.RemoveDirs, Manifest.DeleteDb: paths are flat names, and the directories form a set with no nesting. A module name that is empty or contains `/` or `..` is not modelled. In the source such a name reaches outside the module folder: `remove_dir_all` is recursive. A module whose `foldername` is missing becomes "" (`unwrap_or_default` at src/curse.rs:69), so its path is `root/` and removing the add-on wipes the whole AddOns folder, `.addons.json` included; `save_addon_db` then fails and `delete` returns an error with the manifest gone. The model instead removes the path `root/` alone and saves the manifest.
- Zip extraction details of `download`: temporary files, `sanitized_name`, files inside folders. An archive is the list of its top-level folders.
- The float front end of `parse_download_count` (`as_f64().to_string().replace(".0", "")`): floating-point formatting. The model starts from the formatted digit text.
- serde (de)serialisation of the manifest and of JSON responses. A manifest is stored as the parsed list, or as a file that does not parse. A response entry holds only the scalar fields the client reads.
- Catalog.Render: JSON string escapes are not produced, so ids containing quotes or backslashes compare as if unescaped.
- Application.Describe: the text of an error is a fixed message per error kind, not the operating system's message.
- Panics: most calls that would panic in the source are preconditions in the model. This covers the `unwrap` of a missing selection or a missing pending update, the `len() - 1` underflow on an empty table or log (a panic in a debug build; a release build wraps instead, so `next` on an empty table would select `i + 1` and `scroll_down_log` would get a bound of 65535), and the out-of-bounds `tokens[1]` of `parse_key` on a bare `ctrl` or `alt` (the `Parsable` precondition, shown by Settings.ParseKeyBareModifier). A failing `check_for_updates`, whose error the source `unwrap`s, is not a precondition: the update query is the total parameter `lookup`, so the model has no failing lookup at all. The extraction `unwrap`s of `download` are the exception, in the next line.
- Catalog.Fetch: in the source a folder the file system refuses makes `create_dir_all(..).unwrap()` panic, which ends the program; the model instead reports `Denied` for that folder, with the folders before it created, and the pipeline logs it as an error. A body that is not a zip archive (`ZipArchive::new(..).unwrap()`) and a response whose `data`, `latestFiles` or `modules` is not an array (`as_array().unwrap()`) also panic in the source; the model's types rule these out, because an archive is a list of folders and a response entry holds lists.
- Tbc: `latest_file` has no flavour for `Version::Tbc`. Catalog.LatestFile, Catalog.ParseJson and every member that reaches them therefore require a version other than Tbc, and `select_tbc` is not modelled.
- Rendering and input: the `draw_*` methods, `centered_rect`, `Theme`, the dialog, the editing mode and `user_input`, and the event loop of src/main.rs.
- `App::search`, `refresh_view`, `select_classic`, `select_retail`, `select_installed`, `select_search`, `next_table_item` and `prev_table_item`. They only dispatch to the modelled operations or set fields.
- `Settings::new` and `init_config_file`: configuration-file I/O.
- Settings.LowerChar: Unicode lower-casing is modelled only for ASCII letters and the Kelvin sign. Every other character either has no lower-case form or one that matches no key word.
- Application.Reconcile: it accumulates rows and updates in locals and assigns them to the table at the end. The source clears the table and pushes into it directly. No reader runs in between, so the result is the same.
- The terminal library's other `Key` variants (function keys, Home, End, Insert and so on): `parse_key` never produces them.
