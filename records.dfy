/** The repository scanner's data: a directory as a map from entry name to
    file, the per-mod record `scan_mods` builds, the `*.jar` filter, the
    ordering by lower-cased name, and the name-keyed snapshot built from a
    scan. */
module Records {
  import opened Text

  newtype Byte = b: int | 0 <= b < 256
  type Bytes = seq<Byte>

  /** The hex digest `hashlib.md5(...).hexdigest()` returns. */
  type Digest = string

  /** The modification time `st_mtime`; its ISO rendering is not modelled. */
  type Timestamp = int

  /** A file on disk: its bytes and its modification time. */
  datatype FileEntry = FileEntry(data: Bytes, mtime: Timestamp)

  /** The entries directly inside one directory, by name. */
  type Dir = map<string, FileEntry>

  /** One record of `scan_mods`: `name`, `size_bytes`, `hash`, `modified`. */
  datatype ModRecord = ModRecord(name: string, sizeBytes: nat, hash: Digest, modified: Timestamp)

  /** The snapshot persisted in the cache file: records keyed by name. */
  type Cache = map<string, ModRecord>

  /** `glob("*.jar")` matches a name iff it ends in ".jar". */
  predicate IsJar(name: string)
  {
    |name| >= 4 && name[|name| - 4..] == ".jar"
  }

  /** The names `glob("*.jar")` yields in a directory. */
  function JarNames(d: Dir): set<string>
  {
    set n | n in d && IsJar(n)
  }

  /** The record `scan_mods` builds for file `name` with entry `e`. */
  function RecordOf(name: string, e: FileEntry, hasher: Bytes -> Digest): ModRecord
  {
    ModRecord(name, |e.data|, hasher(e.data), e.mtime)
  }

  /** The sort key `x['name'].lower()`. */
  function Key(r: ModRecord): string
  {
    Lower(r.name)
  }

  predicate SortedByLowerName(s: seq<ModRecord>)
  {
    forall i, j | 0 <= i < j < |s| :: LexLe(Key(s[i]), Key(s[j]))
  }

  predicate DistinctNames(s: seq<ModRecord>)
  {
    forall i, j | 0 <= i < j < |s| :: s[i].name != s[j].name
  }

  function NameSet(s: seq<ModRecord>): set<string>
  {
    set r | r in s :: r.name
  }

  /** `{mod['name']: mod for mod in s}`: a later record with the same name
      overwrites an earlier one. */
  function Keyed(s: seq<ModRecord>): Cache
  {
    if s == [] then map[] else Keyed(s[..|s| - 1])[s[|s| - 1].name := s[|s| - 1]]
  }

  /** The snapshot a scan of `d` yields, independently of enumeration order. */
  function ScanMap(d: Dir, hasher: Bytes -> Digest): Cache
  {
    map n | n in d && IsJar(n) :: RecordOf(n, d[n], hasher)
  }

  /** What `scan_mods` promises about its list for an existing directory `d`:
      sorted by lower-cased name, one record per `.jar` entry, each record
      describing that entry. */
  predicate IsScanOf(d: Dir, hasher: Bytes -> Digest, mods: seq<ModRecord>)
  {
    && SortedByLowerName(mods)
    && DistinctNames(mods)
    && (forall r | r in mods :: r.name in d && IsJar(r.name) && r == RecordOf(r.name, d[r.name], hasher))
    && (forall n | n in d && IsJar(n) :: n in NameSet(mods))
  }

  /** `mods.sort(key=lambda x: x['name'].lower())`, as an insertion sort:
      the result is ordered by lower-cased name and is a permutation of the
      input. */
  method SortByLowerName(s: seq<ModRecord>) returns (r: seq<ModRecord>)
    ensures SortedByLowerName(r)
    ensures multiset(r) == multiset(s)
    ensures DistinctNames(s) ==> DistinctNames(r)
  {
    r := [];
    for i := 0 to |s|
      invariant SortedByLowerName(r)
      invariant multiset(r) == multiset(s[..i])
      invariant DistinctNames(s) ==> DistinctNames(r)
    {
      if DistinctNames(s) {
        NameNotYetSorted(s, i, r);
      }
      r := InsertByLowerName(r, s[i]);
      assert s[..i + 1] == s[..i] + [s[i]];
    }
    assert s[..|s|] == s;
  }

  /** Inserts `x` after every record whose key is not greater than its own,
      as a stable sort places it. */
  method InsertByLowerName(r: seq<ModRecord>, x: ModRecord) returns (t: seq<ModRecord>)
    requires SortedByLowerName(r)
    ensures SortedByLowerName(t)
    ensures multiset(t) == multiset(r) + multiset{x}
    ensures DistinctNames(r) && (forall k | 0 <= k < |r| :: r[k].name != x.name) ==> DistinctNames(t)
  {
    var j := 0;
    while j < |r| && LexLe(Key(r[j]), Key(x))
      invariant 0 <= j <= |r|
      invariant forall k | 0 <= k < j :: LexLe(Key(r[k]), Key(x))
    {
      j := j + 1;
    }
    if j < |r| {
      LexLeTotal(Key(r[j]), Key(x));
    }
    InsertKeepsSorted(r, j, x);
    if DistinctNames(r) && (forall k | 0 <= k < |r| :: r[k].name != x.name) {
      InsertKeepsDistinct(r, j, x);
    }
    t := r[..j] + [x] + r[j..];
    assert r == r[..j] + r[j..];
  }

  /** The next record to insert has a name not yet among the sorted ones. */
  lemma NameNotYetSorted(s: seq<ModRecord>, i: nat, r: seq<ModRecord>)
    requires DistinctNames(s) && i < |s|
    requires multiset(r) == multiset(s[..i])
    ensures forall k | 0 <= k < |r| :: r[k].name != s[i].name
  {
    forall k | 0 <= k < |r|
      ensures r[k].name != s[i].name
    {
      assert r[k] in multiset(s[..i]);
      var m :| 0 <= m < i && s[..i][m] == r[k];
    }
  }

  lemma InsertKeepsSorted(r: seq<ModRecord>, j: nat, x: ModRecord)
    requires j <= |r|
    requires SortedByLowerName(r)
    requires forall k | 0 <= k < j :: LexLe(Key(r[k]), Key(x))
    requires j < |r| ==> LexLe(Key(x), Key(r[j]))
    ensures SortedByLowerName(r[..j] + [x] + r[j..])
  {
    var t := r[..j] + [x] + r[j..];
    forall a, b | 0 <= a < b < |t|
      ensures LexLe(Key(t[a]), Key(t[b]))
    {
      if b > j && a <= j {
        if a == j {
          if b - 1 > j { LexLeTrans(Key(x), Key(r[j]), Key(r[b - 1])); }
        } else {
          assert LexLe(Key(r[a]), Key(x));
          if b - 1 > j { LexLeTrans(Key(x), Key(r[j]), Key(r[b - 1])); }
          LexLeTrans(Key(r[a]), Key(x), Key(r[b - 1]));
        }
      }
    }
  }

  lemma InsertKeepsDistinct(r: seq<ModRecord>, j: nat, x: ModRecord)
    requires j <= |r|
    requires DistinctNames(r)
    requires forall k | 0 <= k < |r| :: r[k].name != x.name
    ensures DistinctNames(r[..j] + [x] + r[j..])
  {
    var t := r[..j] + [x] + r[j..];
    forall a, b | 0 <= a < b < |t|
      ensures t[a].name != t[b].name
    {
      var ia := if a < j then a else if a == j then -1 else a - 1;
      var ib := if b < j then b else if b == j then -1 else b - 1;
      assert ia != -1 ==> t[a] == r[ia];
      assert ib != -1 ==> t[b] == r[ib];
    }
  }

  /** Keying a list by name keeps exactly the names it holds. */
  lemma {:induction false} KeyedKeys(s: seq<ModRecord>)
    ensures Keyed(s).Keys == NameSet(s)
  {
    if s != [] {
      var p := s[..|s| - 1];
      KeyedKeys(p);
      assert s == p + [s[|s| - 1]];
      assert NameSet(s) == NameSet(p) + {s[|s| - 1].name};
    }
  }

  /** Every key of a keyed snapshot is the `name` of the record it maps to:
      the snapshot invariant of the cache file. */
  lemma {:induction false} KeyedNamesMatch(s: seq<ModRecord>)
    ensures forall n | n in Keyed(s) :: Keyed(s)[n].name == n && Keyed(s)[n] in s
  {
    if s != [] {
      var p := s[..|s| - 1];
      KeyedNamesMatch(p);
      assert s == p + [s[|s| - 1]];
    }
  }

  /** With distinct names, keying loses nothing: each record is found under
      its own name. */
  lemma {:induction false} KeyedFindsEach(s: seq<ModRecord>)
    requires DistinctNames(s)
    ensures forall i | 0 <= i < |s| :: s[i].name in Keyed(s) && Keyed(s)[s[i].name] == s[i]
  {
    if s != [] {
      var p := s[..|s| - 1];
      assert DistinctNames(p);
      KeyedFindsEach(p);
    }
  }

  /** The snapshot saved after a scan is determined by the directory alone,
      whatever order the scan enumerated the files in. */
  lemma ScanKeyed(d: Dir, hasher: Bytes -> Digest, mods: seq<ModRecord>)
    requires IsScanOf(d, hasher, mods)
    ensures Keyed(mods) == ScanMap(d, hasher)
  {
    KeyedKeys(mods);
    KeyedNamesMatch(mods);
    var k := Keyed(mods);
    var m := ScanMap(d, hasher);
    assert k.Keys == m.Keys;
    forall n | n in k
      ensures k[n] == m[n]
    {
      assert k[n] in mods;
    }
  }

  lemma NameSetSnoc(p: seq<ModRecord>, x: ModRecord)
    ensures NameSet(p + [x]) == NameSet(p) + {x.name}
  {
    var s := p + [x];
    forall n | n in NameSet(s)
      ensures n in NameSet(p) + {x.name}
    {
      var r :| r in s && r.name == n;
      if r != x { assert r in p; }
    }
  }

  lemma NotInNameSet(p: seq<ModRecord>, n: string)
    requires forall i | 0 <= i < |p| :: p[i].name != n
    ensures n !in NameSet(p)
  {
  }

  /** Distinct names: the list is as long as its set of names. */
  lemma {:induction false} DistinctNamesCount(s: seq<ModRecord>)
    requires DistinctNames(s)
    ensures |NameSet(s)| == |s|
  {
    if s != [] {
      var p := s[..|s| - 1];
      var x := s[|s| - 1];
      assert DistinctNames(p);
      DistinctNamesCount(p);
      NotInNameSet(p, x.name);
      NameSetSnoc(p, x);
      assert s == p + [x];
    }
  }

  /** A scan holds exactly as many records as there are `.jar` entries. */
  lemma ScanCount(d: Dir, hasher: Bytes -> Digest, mods: seq<ModRecord>)
    requires IsScanOf(d, hasher, mods)
    ensures |mods| == |JarNames(d)|
  {
    DistinctNamesCount(mods);
    assert NameSet(mods) == JarNames(d);
  }

  /** When no two `.jar` names of the directory differ only in letter case,
      the scan's list is fully determined: two scans of the same directory
      give the same list, whatever order the directory was enumerated in. */
  lemma ScanUnique(d: Dir, hasher: Bytes -> Digest, a: seq<ModRecord>, b: seq<ModRecord>)
    requires forall m, n | m in d && n in d && IsJar(m) && IsJar(n) && Lower(m) == Lower(n) :: m == n
    requires IsScanOf(d, hasher, a) && IsScanOf(d, hasher, b)
    ensures a == b
  {
    forall r
      ensures r in a <==> r in b
    {
      if r in a { assert r.name in NameSet(b); }
      if r in b { assert r.name in NameSet(a); }
    }
    forall r, q | r in a && q in a && Key(r) == Key(q)
      ensures r == q
    {
      assert r.name in d && q.name in d;
    }
    SortedSameElementsEqual(a, b);
  }

  /** Two sorted lists without repeated names, holding the same records,
      whose records' lower-cased names are pairwise distinct, are equal. */
  lemma {:induction false} SortedSameElementsEqual(a: seq<ModRecord>, b: seq<ModRecord>)
    requires SortedByLowerName(a) && SortedByLowerName(b)
    requires DistinctNames(a) && DistinctNames(b)
    requires forall r :: r in a <==> r in b
    requires forall r, q | r in a && q in a && Key(r) == Key(q) :: r == q
    ensures a == b
  {
    if a == [] {
    } else {
      assert a[0] in b;
      var x := a[0];
      var y := b[0];
      assert y in a;
      var i :| 0 <= i < |a| && a[i] == y;
      var k :| 0 <= k < |b| && b[k] == x;
      if i > 0 { assert LexLe(Key(x), Key(y)); } else { LexLeRefl(Key(x)); }
      if k > 0 { assert LexLe(Key(y), Key(x)); } else { LexLeRefl(Key(y)); }
      LexLeAntisym(Key(x), Key(y));
      assert x == y;
      TailsSameElements(a, b);
      SortedSameElementsEqual(a[1..], b[1..]);
      assert a == [x] + a[1..] && b == [y] + b[1..];
    }
  }

  lemma TailsSameElements(a: seq<ModRecord>, b: seq<ModRecord>)
    requires a != [] && b != [] && a[0] == b[0]
    requires DistinctNames(a) && DistinctNames(b)
    requires forall r :: r in a <==> r in b
    ensures forall r :: r in a[1..] <==> r in b[1..]
  {
    forall r
      ensures r in a[1..] ==> r in b[1..]
    {
      if r in a[1..] {
        var p :| 0 <= p < |a| - 1 && a[1..][p] == r;
        assert a[0].name != a[p + 1].name;
        assert r in b;
        var q :| 0 <= q < |b| && b[q] == r;
        assert b[q] == b[1..][q - 1];
      }
    }
    forall r
      ensures r in b[1..] ==> r in a[1..]
    {
      if r in b[1..] {
        var p :| 0 <= p < |b| - 1 && b[1..][p] == r;
        assert b[0].name != b[p + 1].name;
        assert r in a;
        var q :| 0 <= q < |a| && a[q] == r;
        assert a[q] == a[1..][q - 1];
      }
    }
  }
}
