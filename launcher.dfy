/** The launcher's engine over its disk state: the repository folder
    (`mods` next to the launcher), the two persisted documents, and the
    `mods` folders of the game directories the sync writes into. Each
    method is one operation of the launcher and states its whole effect on
    that state. */
module Launcher {
  import opened Wrappers
  import opened Text
  import opened Records
  import opened Changes
  import opened Summary
  import opened Mirror
  import opened Config

  /** What `check_updates` returns on success. */
  datatype CheckResult = CheckResult(success: bool, message: string, added: nat, removed: nat, modified: nat)

  /** What `remove_mod` and `add_mod` return: success, the count, the message. */
  datatype CountResult = CountResult(success: bool, count: nat, message: string)

  /** A file picked in the add dialog: its base name and its contents, or
      `None` when it cannot be read (then its copy fails). */
  datatype Source = Source(name: string, entry: Option<FileEntry>)

  const NoFileSelectedMessage: string := "Aucun fichier selectionne"

  /** The check that opens `sync_mods_to_minecraft`: the destination is set
      and exists. */
  predicate CanSync(config: Config, existingDirs: set<string>)
  {
    Destination(config) != "" && Destination(config) in existingDirs
  }

  /** The contents of `<dir>/mods`, empty when that folder does not exist yet
      (the sync creates it). */
  function FolderOf(gameMods: map<string, Dir>, dir: string): Dir
  {
    if dir in gameMods then gameMods[dir] else map[]
  }

  /** The game folders after one sync with this configuration. */
  function SyncedMods(gameMods: map<string, Dir>, existingDirs: set<string>, repo: Dir, config: Config,
                      deleteFails: set<string>, copyFails: set<string>): map<string, Dir>
  {
    if CanSync(config, existingDirs) then
      var dest := Destination(config);
      gameMods[dest := MirrorOf(FolderOf(gameMods, dest), repo, deleteFails, copyFails)]
    else gameMods
  }

  /** The game folders after the optional sync that follows a check. */
  function AutoSynced(gameMods: map<string, Dir>, existingDirs: set<string>, repo: Dir, config: Config,
                      deleteFails: set<string>, copyFails: set<string>): map<string, Dir>
  {
    if AutoSync(config) then SyncedMods(gameMods, existingDirs, repo, config, deleteFails, copyFails)
    else gameMods
  }

  /** A second sync with the same repository and configuration and no
      failures leaves every game folder as the first one left it. */
  lemma SyncIdempotent(gameMods: map<string, Dir>, existingDirs: set<string>, repo: Dir, config: Config)
    ensures var once := SyncedMods(gameMods, existingDirs, repo, config, {}, {});
      SyncedMods(once, existingDirs, repo, config, {}, {}) == once
  {
    if CanSync(config, existingDirs) {
      MirrorIdempotent(FolderOf(gameMods, Destination(config)), repo);
    }
  }

  /** A check right after a check, with the repository unchanged, finds
      nothing added, removed or modified and says so, whatever its sync
      reports. */
  lemma RecheckIsQuiet(current: Cache, synced: Option<nat>)
    ensures var oldCache := LoadModsCache(Written(current));
      && |AddedNames(oldCache, current)| == 0
      && |RemovedNames(oldCache, current)| == 0
      && |ModifiedNames(oldCache, current)| == 0
      && SummaryMessage(0, 0, 0, SyncSuffix(synced)) == NoChangeMessage
  {
    NoChangesAgainstItself(current);
    NoChangeIff(0, 0, 0, SyncSuffix(synced));
  }

  /** The copy count a check reports after its sync: present exactly when
      the sync runs and succeeds. */
  function SyncReport(config: Config, existingDirs: set<string>, repo: Dir, copyFails: set<string>): Option<nat>
  {
    if AutoSync(config) && CanSync(config, existingDirs) then Some(CopyCount(repo, copyFails)) else None
  }

  /** The names `remove_mod` deletes: requested, present, and deletable. */
  function Removable(repo: Dir, names: seq<string>, failing: set<string>): set<string>
  {
    set n | n in names && n in repo && n !in failing
  }

  /** The repository after copying the picked files in order; a later file
      with the same name overwrites an earlier one, and a file that cannot
      be read is skipped. */
  function AddCopies(repo: Dir, sources: seq<Source>): Dir
    decreases |sources|
  {
    if sources == [] then repo
    else
      var before := AddCopies(repo, sources[..|sources| - 1]);
      var s := sources[|sources| - 1];
      if s.entry.Some? then before[s.name := s.entry.value] else before
  }

  /** The number of picked files that can be read, hence copied. */
  function Readable(sources: seq<Source>): nat
    decreases |sources|
  {
    if sources == [] then 0
    else Readable(sources[..|sources| - 1]) + (if sources[|sources| - 1].entry.Some? then 1 else 0)
  }

  /** The `i`-th picked file is readable and lands on `name`. */
  predicate CopiesTo(sources: seq<Source>, i: int, name: string)
    requires 0 <= i < |sources|
  {
    sources[i].name == name && sources[i].entry.Some?
  }

  /** After the copies the repository holds exactly its old names and the
      names of the readable picked files. */
  lemma {:induction false} AddCopiesKeys(repo: Dir, sources: seq<Source>)
    decreases |sources|
    ensures forall n :: n in AddCopies(repo, sources) <==> n in repo || exists i | 0 <= i < |sources| :: CopiesTo(sources, i, n)
  {
    if sources != [] {
      var k := |sources| - 1;
      var front := sources[..k];
      AddCopiesKeys(repo, front);
      assert forall i | 0 <= i < k :: front[i] == sources[i];
      forall n | n in AddCopies(repo, sources)
        ensures n in repo || exists i | 0 <= i < |sources| :: CopiesTo(sources, i, n)
      {
        if !CopiesTo(sources, k, n) {
          assert n in AddCopies(repo, front);
          if n !in repo {
            var i :| 0 <= i < k && CopiesTo(front, i, n);
            assert CopiesTo(sources, i, n);
          }
        }
      }
      forall n, i | 0 <= i < |sources| && CopiesTo(sources, i, n)
        ensures n in AddCopies(repo, sources)
      {
        if i < k {
          assert CopiesTo(front, i, n);
        }
      }
    }
  }

  /** A name holds the last readable picked file copied to it. */
  lemma {:induction false} AddCopiesLast(repo: Dir, sources: seq<Source>)
    decreases |sources|
    ensures forall n, i | 0 <= i < |sources| && CopiesTo(sources, i, n) && (forall j | i < j < |sources| :: !CopiesTo(sources, j, n)) ::
      n in AddCopies(repo, sources) && AddCopies(repo, sources)[n] == sources[i].entry.value
  {
    if sources != [] {
      var k := |sources| - 1;
      var front := sources[..k];
      AddCopiesLast(repo, front);
      forall n, i | 0 <= i < |sources| && CopiesTo(sources, i, n) && (forall j | i < j < |sources| :: !CopiesTo(sources, j, n))
        ensures n in AddCopies(repo, sources) && AddCopies(repo, sources)[n] == sources[i].entry.value
      {
        if i < k {
          assert CopiesTo(front, i, n);
          assert !CopiesTo(sources, k, n);
          forall j | i < j < k
            ensures !CopiesTo(front, j, n)
          {
            assert !CopiesTo(sources, j, n);
          }
        }
      }
    }
  }

  /** A name no readable picked file is copied to keeps its old entry. */
  lemma {:induction false} AddCopiesKeeps(repo: Dir, sources: seq<Source>)
    decreases |sources|
    ensures forall n | n in repo && (forall i | 0 <= i < |sources| :: !CopiesTo(sources, i, n)) ::
      n in AddCopies(repo, sources) && AddCopies(repo, sources)[n] == repo[n]
  {
    if sources != [] {
      var k := |sources| - 1;
      var front := sources[..k];
      AddCopiesKeeps(repo, front);
      forall n | n in repo && (forall i | 0 <= i < |sources| :: !CopiesTo(sources, i, n))
        ensures n in AddCopies(repo, sources) && AddCopies(repo, sources)[n] == repo[n]
      {
        forall i | 0 <= i < k
          ensures !CopiesTo(front, i, n)
        {
          assert !CopiesTo(sources, i, n);
        }
        assert !CopiesTo(sources, k, n);
      }
    }
  }

  /** Every picked file that can be read is counted. */
  lemma {:induction false} ReadableBound(sources: seq<Source>)
    decreases |sources|
    ensures Readable(sources) <= |sources|
    ensures Readable(sources) == |sources| <==> forall i | 0 <= i < |sources| :: sources[i].entry.Some?
  {
    if sources != [] {
      var k := |sources| - 1;
      ReadableBound(sources[..k]);
      assert forall i | 0 <= i < k :: sources[..k][i] == sources[i];
    }
  }

  const AddedMessageWord: string := " mod(s) ajoute(s)"
  const RemovedMessageWord: string := " mod(s) retire(s)"

  /** One turn of the remove loop: the name is deleted, and counted, exactly
      when it is still present and its deletion does not fail. */
  lemma RemoveStep(repo: Dir, names: seq<string>, failing: set<string>, i: nat)
    requires i < |names|
    ensures var before := Removable(repo, names[..i], failing);
      var n := names[i];
      && (n in repo - before && n !in failing ==> n !in before && Removable(repo, names[..i + 1], failing) == before + {n})
      && (!(n in repo - before && n !in failing) ==> Removable(repo, names[..i + 1], failing) == before)
  {
    assert names[..i + 1] == names[..i] + [names[i]];
  }

  /** No more files are deleted than names were requested. */
  lemma RemovedAtMostRequested(repo: Dir, names: seq<string>, failing: set<string>)
    ensures |Removable(repo, names, failing)| <= |names|
  {
    ElementsBound(names);
    var requested := set n | n in names;
    var gone := Removable(repo, names, failing);
    assert requested == gone + (requested - gone);
    assert gone * (requested - gone) == {};
  }

  lemma {:induction false} ElementsBound(names: seq<string>)
    decreases |names|
    ensures |set n | n in names| <= |names|
  {
    if names != [] {
      var k := |names| - 1;
      ElementsBound(names[..k]);
      assert (set n | n in names) == (set n | n in names[..k]) + {names[k]};
    }
  }

  /** The delete loop of the sync: every `.jar` of the folder is removed,
      except those whose deletion fails. */
  method DeleteJars(folder: Dir, deleteFails: set<string>) returns (kept: Dir)
    ensures kept == KeptAfterDelete(folder, deleteFails)
  {
    kept := folder;
    var pending := JarNames(folder);
    while pending != {}
      invariant pending <= JarNames(folder)
      invariant kept == folder - ((JarNames(folder) - pending) - deleteFails)
      decreases pending
    {
      var name :| name in pending;
      if name !in deleteFails {
        kept := kept - {name};
      }
      pending := pending - {name};
    }
  }

  /** The copy loop of the sync: every `.jar` of the repository is copied
      into the folder, except those whose copy fails, and counted. */
  method CopyJars(folder: Dir, repo: Dir, copyFails: set<string>) returns (result: Dir, copied: nat)
    ensures result == folder + CopiedJars(repo, copyFails)
    ensures copied == CopyCount(repo, copyFails)
  {
    result := folder;
    copied := 0;
    var pending := JarNames(repo);
    CopyBounds(folder, repo, copyFails);
    while pending != {}
      invariant pending <= JarNames(repo)
      invariant result == folder + CopiedJars(repo, copyFails + pending)
      invariant copied == |(JarNames(repo) - pending) - copyFails|
      decreases pending
    {
      var name :| name in pending;
      CopyStep(folder, repo, copyFails, pending, name);
      if name !in copyFails {
        result := result[name := repo[name]];
        copied := copied + 1;
      }
      pending := pending - {name};
    }
  }

  /** The copy loop starts with nothing copied and ends with every name
      considered. */
  lemma CopyBounds(folder: Dir, repo: Dir, copyFails: set<string>)
    ensures folder + CopiedJars(repo, copyFails + JarNames(repo)) == folder
    ensures |(JarNames(repo) - JarNames(repo)) - copyFails| == 0
    ensures CopiedJars(repo, copyFails + {}) == CopiedJars(repo, copyFails)
    ensures (JarNames(repo) - {}) - copyFails == JarNames(repo) - copyFails
  {
    assert copyFails + {} == copyFails;
    assert CopiedJars(repo, copyFails + JarNames(repo)) == map[];
  }

  /** One turn of the copy loop: the name leaves `pending`, and the copied
      map and count grow by it exactly when its copy succeeds. */
  lemma CopyStep(folder: Dir, repo: Dir, copyFails: set<string>, pending: set<string>, name: string)
    requires name in pending && pending <= JarNames(repo)
    ensures name !in copyFails ==>
      && folder + CopiedJars(repo, copyFails + (pending - {name})) == (folder + CopiedJars(repo, copyFails + pending))[name := repo[name]]
      && |(JarNames(repo) - (pending - {name})) - copyFails| == |(JarNames(repo) - pending) - copyFails| + 1
    ensures name in copyFails ==>
      && folder + CopiedJars(repo, copyFails + (pending - {name})) == folder + CopiedJars(repo, copyFails + pending)
      && |(JarNames(repo) - (pending - {name})) - copyFails| == |(JarNames(repo) - pending) - copyFails|
  {
    var before := (JarNames(repo) - pending) - copyFails;
    if name !in copyFails {
      assert (JarNames(repo) - (pending - {name})) - copyFails == before + {name};
      assert CopiedJars(repo, copyFails + (pending - {name})) == CopiedJars(repo, copyFails + pending)[name := repo[name]];
    } else {
      assert (JarNames(repo) - (pending - {name})) - copyFails == before;
      assert copyFails + (pending - {name}) == copyFails + pending;
    }
  }

  /** The three counts `check_updates` reports: the lengths of its added,
      removed and modified lists. */
  method CountChanges(oldCache: Cache, current: Cache) returns (added: nat, removed: nat, modified: nat)
    ensures added == |AddedNames(oldCache, current)|
    ensures removed == |RemovedNames(oldCache, current)|
    ensures modified == |ModifiedNames(oldCache, current)|
  {
    var a, r, m := DetectChanges(oldCache, current);
    added, removed, modified := |a|, |r|, |m|;
  }

  class Launcher {
    /** The content hash (MD5 in the launcher), as a function of the bytes. */
    const hasher: Bytes -> Digest
    /** Whether the repository folder exists. */
    var repoExists: bool
    /** The repository folder's entries. */
    var repo: Dir
    var cacheFile: Stored<Cache>
    var configFile: Stored<Config>
    /** The paths `os.path.exists` reports as present. */
    var existingDirs: set<string>
    /** For each game directory whose `mods` subfolder exists, its entries. */
    var gameMods: map<string, Dir>

    ghost predicate Valid()
      reads this
    {
      (!repoExists ==> repo == map[]) && "" !in repo
    }

    /** The launcher starts by creating its repository folder if needed. */
    constructor (hasher: Bytes -> Digest, repo: Dir, cacheFile: Stored<Cache>, configFile: Stored<Config>,
                 existingDirs: set<string>, gameMods: map<string, Dir>)
      requires "" !in repo
      ensures Valid() && this.repoExists
      ensures this.hasher == hasher && this.repo == repo
      ensures this.cacheFile == cacheFile && this.configFile == configFile
      ensures this.existingDirs == existingDirs && this.gameMods == gameMods
    {
      this.hasher := hasher;
      this.repoExists := true;
      this.repo := repo;
      this.cacheFile := cacheFile;
      this.configFile := configFile;
      this.existingDirs := existingDirs;
      this.gameMods := gameMods;
    }

    /** `scan_mods`: one record per `.jar` of the repository, sorted by
        lower-cased name; empty when the folder is missing. */
    method ScanMods() returns (mods: seq<ModRecord>)
      requires Valid()
      ensures !repoExists ==> mods == []
      ensures IsScanOf(repo, hasher, mods)
      ensures |mods| == |JarNames(repo)|
    {
      mods := [];
      if repoExists {
        var pending := JarNames(repo);
        while pending != {}
          invariant pending <= JarNames(repo)
          invariant DistinctNames(mods)
          invariant forall r | r in mods :: r.name in repo && IsJar(r.name) && r.name !in pending && r == RecordOf(r.name, repo[r.name], hasher)
          invariant forall n | n in repo && IsJar(n) && n !in pending :: n in NameSet(mods)
          decreases pending
        {
          var name :| name in pending;
          var record := RecordOf(name, repo[name], hasher);
          assert forall i | 0 <= i < |mods| :: mods[i] in mods;
          NameSetSnoc(mods, record);
          mods := mods + [record];
          pending := pending - {name};
        }
        var sorted := SortByLowerName(mods);
        forall r
          ensures r in sorted <==> r in mods
        {
          assert r in sorted <==> r in multiset(sorted);
        }
        mods := sorted;
      }
      ScanCount(repo, hasher, mods);
    }

    /** `sync_mods_to_minecraft`: fails, changing nothing, when the
        destination is unset or missing; otherwise mirrors the repository's
        `.jar` files into `<destination>/mods`. */
    method SyncModsToMinecraft(config: Config, deleteFails: set<string>, copyFails: set<string>)
      returns (success: bool, msg: string)
      requires Valid()
      modifies this`gameMods
      ensures success == CanSync(config, existingDirs)
      ensures !success ==> msg == NotConfiguredMessage
      ensures success ==> msg == SyncMessage(CopyCount(repo, copyFails))
      ensures gameMods == SyncedMods(old(gameMods), existingDirs, repo, config, deleteFails, copyFails)
    {
      var dest := Destination(config);
      if dest == "" || dest !in existingDirs {
        return false, NotConfiguredMessage;
      }
      // mods_dir.mkdir(exist_ok=True)
      var folder := if dest in gameMods then gameMods[dest] else map[];
      var kept := DeleteJars(folder, deleteFails);
      var mirrored, copied := CopyJars(kept, repo, copyFails);
      gameMods := gameMods[dest := mirrored];
      return true, SyncMessage(copied);
    }
    /** `check_mods_updates_internal`: records the current scan as the
        snapshot and, when auto-sync is on, syncs. */
    method CheckModsUpdatesInternal(deleteFails: set<string>, copyFails: set<string>)
      requires Valid()
      modifies this`cacheFile, this`gameMods
      ensures cacheFile == Written(ScanMap(repo, hasher))
      ensures gameMods == AutoSynced(old(gameMods), existingDirs, repo, LoadConfig(configFile), deleteFails, copyFails)
    {
      var mods := ScanMods();
      ScanKeyed(repo, hasher, mods);
      cacheFile := Written(Keyed(mods));
      var config := LoadConfig(configFile);
      var _ := AutoSyncStep(config, deleteFails, copyFails);
    }

    /** The first half of `check_updates`: compares the scan with the last
        snapshot and records the scan as the new snapshot. */
    method RecordSnapshot() returns (added: nat, removed: nat, modified: nat)
      requires Valid()
      modifies this`cacheFile
      ensures var oldCache := LoadModsCache(old(cacheFile));
        var current := ScanMap(repo, hasher);
        && added == |AddedNames(oldCache, current)|
        && removed == |RemovedNames(oldCache, current)|
        && modified == |ModifiedNames(oldCache, current)|
      ensures cacheFile == Written(ScanMap(repo, hasher))
    {
      var oldCache := LoadModsCache(cacheFile);
      var mods := ScanMods();
      ScanKeyed(repo, hasher, mods);
      var current := Keyed(mods);
      added, removed, modified := CountChanges(oldCache, current);
      cacheFile := Written(current);
    }

    /** The sync that follows a check when auto-sync is on, and the suffix
        it adds to the check's message: " | " and the sync's message when it
        succeeds, nothing otherwise. */
    method AutoSyncStep(config: Config, deleteFails: set<string>, copyFails: set<string>) returns (syncMessage: string)
      requires Valid()
      modifies this`gameMods
      ensures syncMessage == SyncSuffix(SyncReport(config, existingDirs, repo, copyFails))
      ensures gameMods == AutoSynced(old(gameMods), existingDirs, repo, config, deleteFails, copyFails)
    {
      syncMessage := "";
      if AutoSync(config) {
        var success, msg := SyncModsToMinecraft(config, deleteFails, copyFails);
        if success {
          syncMessage := Separator + msg;
        }
      }
    }

    /** `check_updates`: compares the scan with the last snapshot, records
        the scan, syncs when auto-sync is on, reports the counts and a
        message, and stamps the configuration with the check time. */
    method CheckUpdates(now: string, deleteFails: set<string>, copyFails: set<string>) returns (result: CheckResult)
      requires Valid()
      modifies this`cacheFile, this`gameMods, this`configFile
      ensures var oldCache := LoadModsCache(old(cacheFile));
        var current := ScanMap(repo, hasher);
        && result.success
        && result.added == |AddedNames(oldCache, current)|
        && result.removed == |RemovedNames(oldCache, current)|
        && result.modified == |ModifiedNames(oldCache, current)|
      ensures var synced := SyncReport(LoadConfig(old(configFile)), existingDirs, repo, copyFails);
        && result.message == SummaryMessage(result.added, result.removed, result.modified, SyncSuffix(synced))
        && Decode(result.message) == Some(Expected(result.added, result.removed, result.modified, synced))
      ensures cacheFile == Written(ScanMap(repo, hasher))
      ensures gameMods == AutoSynced(old(gameMods), existingDirs, repo, LoadConfig(old(configFile)), deleteFails, copyFails)
      ensures configFile == Written(LoadConfig(old(configFile))["last_check" := JStr(now)])
    {
      var added, removed, modified := RecordSnapshot();
      var config := LoadConfig(configFile);
      var syncMessage := AutoSyncStep(config, deleteFails, copyFails);
      var message := SummaryMessage(added, removed, modified, syncMessage);
      SummaryRoundTrip(added, removed, modified, SyncReport(config, existingDirs, repo, copyFails));
      configFile := Written(config["last_check" := JStr(now)]);
      result := CheckResult(true, message, added, removed, modified);
    }

    /** `remove_mod`: deletes each requested name that still exists in the
        repository (a deletion in `failing` fails and is skipped), then runs
        the internal check. */
    method RemoveMod(names: seq<string>, failing: set<string>, deleteFails: set<string>, copyFails: set<string>)
      returns (result: CountResult)
      requires Valid()
      modifies this`repo, this`cacheFile, this`gameMods
      ensures Valid()
      ensures repo == old(repo) - Removable(old(repo), names, failing)
      ensures forall n :: n in repo <==> n in old(repo) && (n !in names || n in failing)
      ensures result == CountResult(true, |Removable(old(repo), names, failing)|,
                                    NatToString(|Removable(old(repo), names, failing)|) + RemovedMessageWord)
      ensures cacheFile == Written(ScanMap(repo, hasher))
      ensures gameMods == AutoSynced(old(gameMods), existingDirs, repo, LoadConfig(configFile), deleteFails, copyFails)
    {
      var removed := 0;
      var i := 0;
      while i < |names|
        invariant 0 <= i <= |names|
        invariant repo == old(repo) - Removable(old(repo), names[..i], failing)
        invariant removed == |Removable(old(repo), names[..i], failing)|
        modifies this`repo
      {
        var name := names[i];
        RemoveStep(old(repo), names, failing, i);
        if name in repo && name !in failing {
          repo := repo - {name};
          removed := removed + 1;
        }
        i := i + 1;
      }
      assert names[..i] == names;
      CheckModsUpdatesInternal(deleteFails, copyFails);
      result := CountResult(true, removed, NatToString(removed) + RemovedMessageWord);
    }

    /** `add_mod`: with no file picked, reports it and changes nothing;
        otherwise copies each picked file into the repository under its base
        name (an unreadable file, or a missing repository folder, makes the
        copy fail and it is skipped), then runs the internal check. */
    method AddMod(sources: seq<Source>, deleteFails: set<string>, copyFails: set<string>)
      returns (result: CountResult)
      requires Valid()
      requires forall i | 0 <= i < |sources| :: sources[i].name != ""
      modifies this`repo, this`cacheFile, this`gameMods
      ensures Valid()
      ensures sources == [] ==>
        && result == CountResult(false, 0, NoFileSelectedMessage)
        && repo == old(repo) && cacheFile == old(cacheFile) && gameMods == old(gameMods)
      ensures sources != [] ==>
        && repo == (if repoExists then AddCopies(old(repo), sources) else old(repo))
        && result.success
        && result.count == (if repoExists then Readable(sources) else 0)
        && result.message == NatToString(result.count) + AddedMessageWord
        && cacheFile == Written(ScanMap(repo, hasher))
        && gameMods == AutoSynced(old(gameMods), existingDirs, repo, LoadConfig(configFile), deleteFails, copyFails)
    {
      if sources == [] {
        return CountResult(false, 0, NoFileSelectedMessage);
      }
      var added := 0;
      var i := 0;
      while i < |sources|
        invariant 0 <= i <= |sources|
        invariant repo == (if repoExists then AddCopies(old(repo), sources[..i]) else old(repo))
        invariant added == (if repoExists then Readable(sources[..i]) else 0)
        invariant "" !in repo
        modifies this`repo
      {
        var source := sources[i];
        assert sources[..i + 1][..i] == sources[..i];
        if repoExists && source.entry.Some? {
          repo := repo[source.name := source.entry.value];
          added := added + 1;
        }
        i := i + 1;
      }
      assert sources[..i] == sources;
      CheckModsUpdatesInternal(deleteFails, copyFails);
      result := CountResult(true, added, NatToString(added) + AddedMessageWord);
    }
  }
}
