# Minecraft mod launcher: repository scan, change detection and mirror sync

This project models the engine of a small Minecraft mod launcher. The
launcher keeps a repository folder of mod files (`mods/`, next to the
launcher) and does four things with it:

- It scans the folder's `.jar` files into records of name, size, content hash
  and modification time, sorted by lower-cased name.
- It compares a scan with the snapshot stored in `mods_cache.json` and reports
  which mods were added, removed or modified. A mod is modified when its hash
  differs.
- It mirrors the repository's `.jar` files into `<minecraft_dir>/mods`.
- It adds and removes files in the repository, then re-snapshots and
  optionally re-syncs.

The configuration lives in `config.json`. A missing or corrupt file falls back
to defaults.

The engine is written twice, with the same logic each time:

- `launcher_web.py` holds it as methods of a Flask application class.
- `launcher_app.py` holds it as module-level functions behind Eel.

It is modelled once here. The class `Launcher.Launcher` stands for the web
class's instance, and for the app module's global paths. Its state is:

- the repository folder;
- the two stored documents;
- the set of paths that exist;
- the `mods` folders of the game directories.

The corresponding operations in the two files are:

| operation | launcher_web.py | launcher_app.py |
|---|---|---|
| `load_config` | 33-52 | 24-43 |
| `load_mods_cache` | 67-75 | 58-66 |
| `scan_mods` | 82-100 | 73-90 |
| `sync_mods_to_minecraft` | 102-128 | 92-116 |
| `check_mods_updates_internal` | 130-139 | 118-127 |
| `add_mod` | 180-205 | 164-190 |
| `remove_mod` | 210-226 | 195-209 |
| `check_updates` | 231-282 | 214-266 |

Modules:

- `Text`: ASCII lower-casing, Python string order, decimal rendering, `str.join`.
- `Records`: folders, mod records, the `.jar` filter, the scan specification,
  the sort, and the name-keyed cache.
- `Changes`: the added/removed/modified classification.
- `Summary`: the report message, and a decoder that reads the counts back from it.
- `Mirror`: the folder a sync leaves behind.
- `Config`: JSON values, the stored documents, and their fallbacks.
- `Launcher`: the stateful operations.

Modelling choices:

- Folders are maps from file name to contents and modification time.
- The MD5 hash is an arbitrary function of the file's bytes, fixed for the
  launcher's lifetime.
- The order in which `glob` and dictionaries yield names is left open. Each
  loop takes any remaining name.
- A per-file deletion or copy can fail. Which ones fail is given as a set of
  names: `deleteFails`, `copyFails`, or `failing` for `remove_mod`.

## Model

| member | source | states |
|---|---|---|
| Text.Lower | launcher_web.py:99 | the lower-cased key has the input's length, lowers each ASCII capital letter and leaves every other character as it is, and contains no ASCII capital |
| Text.LexLeTotal | launcher_web.py:99 | any two sort keys are comparable, so the key order used by `list.sort` is total |
| Text.LexLeTrans | launcher_web.py:99 | the key order is transitive |
| Text.LexLeAntisym | launcher_web.py:99 | two keys ordered both ways are equal |
| Text.NatToStringRoundTrip | launcher_web.py:128 | the decimal rendering of a count reads back as that count |
| Text.NatToStringInjective | launcher_web.py:128 | distinct counts render as distinct strings |
| Records.SortByLowerName | launcher_web.py:99 | the result is sorted by lower-cased name and is a permutation of the input, and distinct names stay distinct |
| Records.InsertByLowerName | launcher_web.py:99 | inserting one record into a sorted list keeps it sorted and adds exactly that record |
| Records.KeyedKeys | launcher_web.py:134 | the dict built from the scan has exactly the scanned names as keys |
| Records.KeyedNamesMatch | launcher_web.py:134 | each key of that dict maps to a scanned record whose `name` is the key |
| Records.KeyedFindsEach | launcher_web.py:134 | when the names are distinct, keying loses nothing: each scanned record is found under its own name |
| Records.ScanKeyed | launcher_web.py:235 | the dict built from any valid scan is the folder's `.jar` files mapped to their records |
| Records.ScanCount | launcher_web.py:84-100 | a scan has exactly one record per `.jar` of the folder |
| Records.ScanUnique | launcher_web.py:84-100 | when no two jar names share a lower-case form, the scan is fully determined by the folder |
| Changes.DetectChanges | launcher_web.py:237-249 | a name is added iff current and not cached, modified iff in both with a different hash, removed iff cached and not current; each list is duplicate-free and its length is the size of its set |
| Changes.ClassifyCurrent | launcher_web.py:241-245 | the first loop yields exactly the added and exactly the modified names, without duplicates |
| Changes.CollectRemoved | launcher_web.py:247-249 | the second loop yields exactly the removed names, without duplicates |
| Changes.ChangeSetDisjoint | launcher_web.py:241-249 | the three lists are pairwise disjoint, and a shared name with an equal hash is in none of them |
| Changes.ChangeSetCounts | launcher_web.py:241-249 | current count = added + modified + unchanged, and cached count = removed + modified + unchanged |
| Changes.ChangeSetRebuildsKeys | launcher_web.py:241-249 | the current names are the cached names minus the removed ones plus the added ones |
| Changes.OnlyHashCounts | launcher_web.py:244 | size and modification time never affect the classification; only the hash does |
| Summary.NoChangeIff | launcher_web.py:268-271 | the message is "Aucun changement detecte" iff all three counts are zero |
| Summary.SummaryRoundTrip | launcher_web.py:254-271 | the message built from the counts and the optional sync suffix decodes back to exactly those counts and that sync count, so the parts appear in order, non-empty only, joined by " \| " |
| Mirror.MirrorExact | launcher_web.py:108-128 | without failures, the destination's `.jar` files are exactly the repository's with the same contents, and its other entries are untouched |
| Mirror.MirrorWithFailures | launcher_web.py:108-126 | with failures, a `.jar` is present iff its copy succeeded or its deletion failed, and a successful copy wins |
| Mirror.MirrorIdempotent | launcher_web.py:108-128 | a second failure-free run over the result leaves it unchanged |
| Mirror.MirrorForgetsOldJars | launcher_web.py:111-116 | without failures, the result does not depend on which `.jar` files the destination held |
| Mirror.MirrorJarNames | launcher_web.py:108-128 | the `.jar` names a sync leaves are those whose copy succeeded plus those already there whose deletion failed; without failures they are exactly the repository's `.jar` names |
| Mirror.CopyCountBound | launcher_web.py:119-128 | the copy count never exceeds the repository's `.jar` count, equals it when no copy fails, and equals the number of copied files |
| Config.LoadConfigFallback | launcher_web.py:33-52 | a missing, empty or corrupt file reads as the default configuration with its six keys and values |
| Config.StampKeepsSettings | launcher_web.py:273-274 | stamping `last_check` and writing the configuration back changes no other key, so auto-sync and the destination stay as they were |
| Launcher.DeleteJars | launcher_web.py:111-116 | the delete loop leaves the non-`.jar` entries and the `.jar` entries whose deletion failed |
| Launcher.CopyJars | launcher_web.py:118-128 | the copy loop adds every `.jar` of the repository whose copy succeeds, and counts exactly those |
| Launcher.CountChanges | launcher_web.py:276-282 | the three reported counts are the sizes of the added, removed and modified sets |
| Launcher.SyncIdempotent | launcher_web.py:102-128 | a second failure-free sync with the same configuration leaves every game folder as the first left it |
| Launcher.RecheckIsQuiet | launcher_web.py:231-271 | a check right after a check, with an unchanged repository, counts nothing and says "Aucun changement detecte" |
| Launcher.AddCopiesKeys | launcher_web.py:191-200 | after adding, the repository holds exactly its old names plus the names of the readable picked files |
| Launcher.AddCopiesLast | launcher_web.py:193-200 | a name holds the last readable picked file copied to it |
| Launcher.AddCopiesKeeps | launcher_web.py:193-200 | a name no readable picked file is copied to keeps its old contents |
| Launcher.ReadableBound | launcher_web.py:192-198 | the added count is at most the number of picked files, and equals it iff every file can be read |
| Launcher.RemovedAtMostRequested | launcher_web.py:214-221 | no more files are removed than names were requested |
| Launcher.Launcher.constructor | launcher_web.py:16-24 | the launcher starts with its repository folder existing |
| Launcher.Launcher.ScanMods | launcher_web.py:82-100 | the result is empty when the folder is missing, and otherwise is a valid scan: sorted, one record per `.jar`, each matching its file |
| Launcher.Launcher.SyncModsToMinecraft | launcher_web.py:102-128 | fails with "Dossier Minecraft non configure" and changes nothing iff the destination is unset or missing; otherwise the folder becomes the mirror and the message carries the copy count |
| Launcher.Launcher.CheckModsUpdatesInternal | launcher_web.py:130-139 | the cache becomes the current scan keyed by name, and the game folders are synced iff auto-sync is on |
| Launcher.Launcher.RecordSnapshot | launcher_web.py:233-251 | the counts are those of the current scan against the stored snapshot, and the snapshot is replaced by the current scan |
| Launcher.Launcher.AutoSyncStep | launcher_web.py:254-258 | the suffix is " \| " plus the sync message exactly when auto-sync is on and the sync succeeds, and the folders are synced iff auto-sync is on |
| Launcher.Launcher.CheckUpdates | launcher_web.py:231-282 | reports success with the change counts and a message that decodes back to them; replaces the snapshot; syncs iff auto-sync is on; stores the configuration with `last_check` set |
| Launcher.Launcher.RemoveMod | launcher_web.py:210-226 | a file is left iff it was there and was not requested or its deletion failed; the count is the number of files deleted; then the internal check runs |
| Launcher.Launcher.AddMod | launcher_web.py:180-205 | with nothing picked it reports "Aucun fichier selectionne" and changes nothing; otherwise it copies the readable files in order, counts them, and runs the internal check |

## Left out

- HTTP and IPC transport (Flask routes, CORS, Eel exposure, the browser thread): this is glue, not engine logic.
- The tkinter dialogs: the folder picker is left out, and the file picker's result is the `sources` input of `AddMod`.
- Launching the game (`subprocess.Popen`): this is external process handling.
- MD5 itself and its chunked reading: the hash is an arbitrary function of the bytes.
- The megabyte string `size`: this is floating-point formatting. Records keep `size_bytes`.
- `datetime` values: `modified` is the raw modification time, and `last_check` is a string parameter of `CheckUpdates`.
- JSON text: the stored documents are the values `json.load` would return. Floats are not modelled.
- `print` error logging.
- Text.Lower: lowers the ASCII capitals only, where `str.lower` also lowers other letters (É to é); Unicode case mapping is not modelled, so names with non-ASCII capitals may sort differently than in the launcher.
- Launcher.Launcher.ScanMods: the sort key is `Text.Lower`, so it inherits the ASCII-only lowering above.
- Launcher.Launcher.ScanMods: never fails. In the launcher a `.jar` that cannot be stat'ed or read, or a sub-folder named `*.jar`, makes the scan raise, and then `check_mods_updates_internal` raises too; that failure path is not modelled.
- Launcher.Launcher.AddMod: always reports success once files are picked. In the launcher a failing scan in the follow-up check makes the route return an error after the files were already copied; not modelled, as the scan never fails here.
- Launcher.Launcher.RemoveMod: always reports success. In the launcher a failing scan in the follow-up check makes the route return an error after the files were already deleted; not modelled, as the scan never fails here.
- Config.LoadConfig: a `config.json` that parses to something other than an object (`[]`, `null`, a number) is returned as is by `load_config`, and every caller then raises at `config.get`; a stored configuration here is always an object, so that path is not modelled.
- Config.LoadConfig: writing a configuration or a snapshot and reading it back yields the same value; this JSON round trip is built into the stored-document abstraction, not proved.
- Records.JarNames: the `*.jar` glob is a case-sensitive suffix test, as on POSIX. Windows globbing, which ignores case, is not modelled.
- Config.Destination: a `minecraft_dir` that is truthy but not a string is treated as unset. In the launcher a list or object makes `os.path.exists` raise; a number or `true` is taken as a file descriptor, so a closed one reports "Dossier Minecraft non configure" (as here) while an open one passes the check and then raises at `Path(minecraft_dir)`.
- Launcher.Launcher.CheckUpdates: the cache is assumed to be a name-to-record object whose records carry `hash`. Other shapes are not modelled: a `[]` cache behaves as the empty one, a string cache reports its characters as removed (`in` tests substrings and iteration yields characters), and a record without `hash` makes the route fail.
- Launcher.Launcher.CheckUpdates: a whole-route exception (the `{'error': ...}` result) is not modelled.
- Launcher.Launcher.SyncModsToMinecraft: `<minecraft_dir>/mods` is assumed not to be the repository folder itself. Aliasing of the two folders is not modelled.
- Launcher.Launcher.SyncModsToMinecraft: a failing `mkdir` of `<minecraft_dir>/mods` is not modelled.
- Launcher.Launcher.RemoveMod: names are plain file names. A name with a path separator or `..`, which would reach outside the repository, is not modelled.
- Launcher.Launcher.AddMod: the picked files' base names are plain non-empty names.
- Launcher.Launcher.AddMod: `shutil.SameFileError`, for a file picked from the repository itself, is folded into the unreadable-file case.
- Launcher.Launcher.AddMod: the empty-selection result carries a count of 0, where the source's dictionary has no `added` key.
- Launcher.Launcher.AddMod: only a repository folder missing altogether is modelled as a reason every copy fails.
- `check_mods_updates_internal` loads the old cache and never uses it. The model leaves that read out.
