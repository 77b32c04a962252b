/** What `sync_mods_to_minecraft` leaves in `<minecraft_dir>/mods`: every
    `.jar` there is deleted, then every `.jar` of the repository is copied
    in (with its modification time, as `shutil.copy2` does). A deletion or
    a copy that fails is skipped; the sets of names whose deletion or copy
    fails are inputs. */
module Mirror {
  import opened Records

  /** The destination folder after the delete loop: its non-`.jar` entries
      and the `.jar` entries whose deletion failed. */
  function KeptAfterDelete(folder: Dir, deleteFails: set<string>): Dir
  {
    map n | n in folder && (!IsJar(n) || n in deleteFails) :: folder[n]
  }

  /** The repository's `.jar` files whose copy succeeded. */
  function CopiedJars(source: Dir, copyFails: set<string>): Dir
  {
    map n | n in source && IsJar(n) && n !in copyFails :: source[n]
  }

  /** The destination folder after the delete loop and the copy loop. */
  function MirrorOf(folder: Dir, source: Dir, deleteFails: set<string>, copyFails: set<string>): Dir
  {
    KeptAfterDelete(folder, deleteFails) + CopiedJars(source, copyFails)
  }

  /** The `copied` counter: one per successful copy. */
  function CopyCount(source: Dir, copyFails: set<string>): nat
  {
    |JarNames(source) - copyFails|
  }

  /** Without failures the destination's `.jar` files are exactly the
      repository's, with the same contents, stale ones are gone, and every
      other entry of the destination is left as it was. */
  lemma MirrorExact(folder: Dir, source: Dir)
    ensures var r := MirrorOf(folder, source, {}, {});
      && (forall n | IsJar(n) :: (n in r <==> n in source) && (n in r ==> r[n] == source[n]))
      && (forall n | !IsJar(n) :: (n in r <==> n in folder) && (n in r ==> r[n] == folder[n]))
  {
  }

  /** With failures: a `.jar` is in the destination iff its copy succeeded
      or it was there and its deletion failed; a successful copy wins; every
      non-`.jar` entry is left as it was. */
  lemma MirrorWithFailures(folder: Dir, source: Dir, deleteFails: set<string>, copyFails: set<string>)
    ensures var r := MirrorOf(folder, source, deleteFails, copyFails);
      && (forall n | IsJar(n) :: n in r <==> (n in source && n !in copyFails) || (n in folder && n in deleteFails))
      && (forall n | n in source && IsJar(n) && n !in copyFails :: r[n] == source[n])
      && (forall n | n in r && !(n in source && n !in copyFails) :: n in folder && r[n] == folder[n])
      && (forall n | !IsJar(n) :: (n in r <==> n in folder))
  {
  }

  /** The `.jar` names a sync leaves: those whose copy succeeded and those
      already there whose deletion failed; without failures, exactly the
      repository's. */
  lemma MirrorJarNames(folder: Dir, source: Dir, deleteFails: set<string>, copyFails: set<string>)
    ensures JarNames(MirrorOf(folder, source, deleteFails, copyFails))
         == (JarNames(source) - copyFails) + (JarNames(folder) * deleteFails)
    ensures JarNames(MirrorOf(folder, source, {}, {})) == JarNames(source)
  {
    MirrorWithFailures(folder, source, deleteFails, copyFails);
    MirrorExact(folder, source);
  }

  /** Running the sync a second time, with the repository unchanged and no
      failures, leaves the destination as the first run left it. */
  lemma MirrorIdempotent(folder: Dir, source: Dir)
    ensures MirrorOf(MirrorOf(folder, source, {}, {}), source, {}, {}) == MirrorOf(folder, source, {}, {})
  {
    var once := MirrorOf(folder, source, {}, {});
    var twice := MirrorOf(once, source, {}, {});
    MirrorExact(folder, source);
    MirrorExact(once, source);
    assert twice.Keys == once.Keys;
  }

  /** Without failures the result does not depend on which `.jar` files the
      destination held before. */
  lemma MirrorForgetsOldJars(folder: Dir, folder': Dir, source: Dir)
    requires forall n | !IsJar(n) :: (n in folder <==> n in folder') && (n in folder ==> folder[n] == folder'[n])
    ensures MirrorOf(folder, source, {}, {}) == MirrorOf(folder', source, {}, {})
  {
    MirrorExact(folder, source);
    MirrorExact(folder', source);
    assert MirrorOf(folder, source, {}, {}).Keys == MirrorOf(folder', source, {}, {}).Keys;
  }

  /** The reported count never exceeds the repository's `.jar` count and
      equals it when no copy fails. */
  lemma CopyCountBound(source: Dir, copyFails: set<string>)
    ensures CopyCount(source, copyFails) <= |JarNames(source)|
    ensures copyFails !! JarNames(source) ==> CopyCount(source, copyFails) == |JarNames(source)|
    ensures CopyCount(source, copyFails) == |CopiedJars(source, copyFails)|
  {
    var names := JarNames(source) - copyFails;
    assert names <= JarNames(source);
    if copyFails !! JarNames(source) {
      assert names == JarNames(source);
    }
    assert CopiedJars(source, copyFails).Keys == names;
  }
}
