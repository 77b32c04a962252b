/** Change detection of `check_updates`: the old snapshot against the
    current scan keyed by name, classified into added, modified and removed
    names. Only the `hash` field decides "modified". */
module Changes {
  import opened Records

  /** A list without repetitions. */
  predicate Distinct(s: seq<string>)
  {
    forall i, j | 0 <= i < j < |s| :: s[i] != s[j]
  }

  /** The three classes as sets. */
  function AddedNames(oldCache: Cache, current: Cache): set<string>
  {
    current.Keys - oldCache.Keys
  }

  function ModifiedNames(oldCache: Cache, current: Cache): set<string>
  {
    set n | n in current && n in oldCache && oldCache[n].hash != current[n].hash
  }

  function RemovedNames(oldCache: Cache, current: Cache): set<string>
  {
    oldCache.Keys - current.Keys
  }

  /** Names present on both sides with the same hash: in none of the lists. */
  function UnchangedNames(oldCache: Cache, current: Cache): set<string>
  {
    set n | n in current && n in oldCache && oldCache[n].hash == current[n].hash
  }

  /** The two loops of `check_updates`: the first walks the current snapshot
      and appends a name to `added` when the old snapshot lacks it, or to
      `modified` when the stored hash differs; the second walks the old
      snapshot and appends to `removed` the names the current one lacks.
      Dictionary iteration order is not fixed by the model, so each loop
      takes the names in an arbitrary order. */
  method DetectChanges(oldCache: Cache, current: Cache)
    returns (added: seq<string>, removed: seq<string>, modified: seq<string>)
    ensures forall n :: n in added <==> n in current && n !in oldCache
    ensures forall n :: n in modified <==> n in current && n in oldCache && oldCache[n].hash != current[n].hash
    ensures forall n :: n in removed <==> n in oldCache && n !in current
    ensures Distinct(added) && Distinct(modified) && Distinct(removed)
    ensures |added| == |AddedNames(oldCache, current)|
    ensures |modified| == |ModifiedNames(oldCache, current)|
    ensures |removed| == |RemovedNames(oldCache, current)|
  {
    added, modified := ClassifyCurrent(oldCache, current);
    removed := CollectRemoved(oldCache, current);
    DistinctCount(added, AddedNames(oldCache, current));
    DistinctCount(modified, ModifiedNames(oldCache, current));
    DistinctCount(removed, RemovedNames(oldCache, current));
  }

  /** The first loop of `check_updates`, over the current snapshot. */
  method ClassifyCurrent(oldCache: Cache, current: Cache) returns (added: seq<string>, modified: seq<string>)
    ensures forall n :: n in added <==> n in current && n !in oldCache
    ensures forall n :: n in modified <==> n in current && n in oldCache && oldCache[n].hash != current[n].hash
    ensures Distinct(added) && Distinct(modified)
  {
    added, modified := [], [];
    var pending := current.Keys;
    while pending != {}
      invariant pending <= current.Keys
      invariant forall n :: n in added <==> n in current && n !in pending && n !in oldCache
      invariant forall n :: n in modified <==> n in current && n !in pending && n in oldCache && oldCache[n].hash != current[n].hash
      invariant Distinct(added) && Distinct(modified)
      decreases pending
    {
      var name :| name in pending;
      if name !in oldCache {
        added := added + [name];
      } else if oldCache[name].hash != current[name].hash {
        modified := modified + [name];
      }
      pending := pending - {name};
    }
  }

  /** The second loop of `check_updates`, over the old snapshot. */
  method CollectRemoved(oldCache: Cache, current: Cache) returns (removed: seq<string>)
    ensures forall n :: n in removed <==> n in oldCache && n !in current
    ensures Distinct(removed)
  {
    removed := [];
    var pending := oldCache.Keys;
    while pending != {}
      invariant pending <= oldCache.Keys
      invariant forall n :: n in removed <==> n in oldCache && n !in pending && n !in current
      invariant Distinct(removed)
      decreases pending
    {
      var name :| name in pending;
      if name !in current {
        removed := removed + [name];
      }
      pending := pending - {name};
    }
  }

  /** A list without repetitions is as long as the set of its elements. */
  lemma {:induction false} DistinctCount(s: seq<string>, elems: set<string>)
    requires Distinct(s)
    requires forall n :: n in s <==> n in elems
    ensures |s| == |elems|
  {
    if s != [] {
      var p := s[..|s| - 1];
      var x := s[|s| - 1];
      assert s == p + [x];
      forall i | 0 <= i < |p|
        ensures p[i] != x
      {
        assert p[i] == s[i];
      }
      DistinctCount(p, elems - {x});
    }
  }

  /** No name is in two of the lists, and a name present on both sides with
      an equal hash is in none of them. */
  lemma ChangeSetDisjoint(oldCache: Cache, current: Cache)
    ensures AddedNames(oldCache, current) !! ModifiedNames(oldCache, current)
    ensures AddedNames(oldCache, current) !! RemovedNames(oldCache, current)
    ensures ModifiedNames(oldCache, current) !! RemovedNames(oldCache, current)
    ensures forall n | n in UnchangedNames(oldCache, current) ::
      n !in AddedNames(oldCache, current) && n !in ModifiedNames(oldCache, current) && n !in RemovedNames(oldCache, current)
  {
  }

  /** Every current name is added, modified or unchanged, and every old name
      is removed, modified or unchanged; the counts add up accordingly. */
  lemma ChangeSetCounts(oldCache: Cache, current: Cache)
    ensures |current| == |AddedNames(oldCache, current)| + |ModifiedNames(oldCache, current)| + |UnchangedNames(oldCache, current)|
    ensures |oldCache| == |RemovedNames(oldCache, current)| + |ModifiedNames(oldCache, current)| + |UnchangedNames(oldCache, current)|
  {
    var m := ModifiedNames(oldCache, current);
    var u := UnchangedNames(oldCache, current);
    var both := m + u;
    assert |both| == |m| + |u| by { assert m !! u; }
    assert both == current.Keys * oldCache.Keys;
    SplitCount(current.Keys, oldCache.Keys);
    SplitCount(oldCache.Keys, current.Keys);
  }

  /** A set is its part outside another set plus its part inside it. */
  lemma SplitCount(x: set<string>, y: set<string>)
    ensures |x| == |x - y| + |x * y|
  {
    assert x == (x - y) + (x * y);
    assert (x - y) !! (x * y);
  }

  /** Applying the change set to the old names gives the current names:
      drop the removed ones, add the added ones. */
  lemma ChangeSetRebuildsKeys(oldCache: Cache, current: Cache)
    ensures current.Keys == (oldCache.Keys - RemovedNames(oldCache, current)) + AddedNames(oldCache, current)
    ensures ModifiedNames(oldCache, current) <= oldCache.Keys * current.Keys
  {
  }

  /** Size and modification time never make a name modified: two current
      snapshots with the same names and hashes yield the same change set. */
  lemma OnlyHashCounts(oldCache: Cache, current: Cache, current': Cache)
    requires current.Keys == current'.Keys
    requires forall n | n in current :: current[n].hash == current'[n].hash
    ensures AddedNames(oldCache, current) == AddedNames(oldCache, current')
    ensures ModifiedNames(oldCache, current) == ModifiedNames(oldCache, current')
    ensures RemovedNames(oldCache, current) == RemovedNames(oldCache, current')
  {
  }

  /** Detection against the snapshot just saved finds nothing: a check run
      right after another, with no change on disk, reports no change. */
  lemma NoChangesAgainstItself(current: Cache)
    ensures AddedNames(current, current) == {}
    ensures ModifiedNames(current, current) == {}
    ensures RemovedNames(current, current) == {}
  {
  }
}
