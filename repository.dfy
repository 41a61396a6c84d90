/**
 * The id-keyed repository with deferred writes (CarRepository): an index
 * rebuilt from the backend, mutations that mark it dirty, and a flush that
 * persists the full, id-ordered snapshot only when something changed.
 */
module Repository {
  import opened Wrappers
  import opened CarRecords
  import opened FileSystem
  import opened Pipeline
  import opened Storage

  /**
   * `std::string::operator<`: lexicographic by character, a proper prefix
   * first. (Byte order of UTF-8 text and code-point order agree.)
   */
  predicate Less(a: string, b: string)
  {
    if a == [] then b != []
    else if b == [] then false
    else if a[0] == b[0] then Less(a[1..], b[1..])
    else a[0] < b[0]
  }

  lemma {:induction false} LessIrreflexive(a: string)
    ensures !Less(a, a)
  {
    if a != [] {
      LessIrreflexive(a[1..]);
    }
  }

  lemma {:induction false} LessTransitive(a: string, b: string, c: string)
    requires Less(a, b) && Less(b, c)
    ensures Less(a, c)
  {
    if a != [] && b != [] && c != [] && a[0] == b[0] && b[0] == c[0] {
      LessTransitive(a[1..], b[1..], c[1..]);
    }
  }

  lemma {:induction false} LessTotal(a: string, b: string)
    requires a != b
    ensures Less(a, b) || Less(b, a)
  {
    if a != [] && b != [] && a[0] == b[0] {
      assert a == [a[0]] + a[1..] && b == [b[0]] + b[1..];
      LessTotal(a[1..], b[1..]);
    }
  }

  lemma {:induction false} LessAsymmetric(a: string, b: string)
    requires Less(a, b)
    ensures !Less(b, a)
  {
    if a != [] && b != [] && a[0] == b[0] {
      LessAsymmetric(a[1..], b[1..]);
    }
  }

  /** Every key of the map is the id of its record. */
  ghost predicate KeyedById(m: map<string, CarRecord>)
  {
    forall k :: k in m ==> m[k].id == k
  }

  /** `records_[record.id] = record` for every record in order: the last record with an id wins. */
  function Index(s: seq<CarRecord>): (m: map<string, CarRecord>)
    ensures KeyedById(m)
  {
    if s == [] then map[]
    else Index(s[..|s| - 1])[s[|s| - 1].id := s[|s| - 1]]
  }

  /** The index holds exactly the ids that occur in the sequence. */
  lemma {:induction false} IndexKeys(s: seq<CarRecord>)
    ensures Index(s).Keys == Ids(s)
  {
    if s != [] {
      var init := s[..|s| - 1];
      IndexKeys(init);
      assert s == init + [s[|s| - 1]];
      IdsSnoc(init, s[|s| - 1]);
    }
  }

  /** Last write wins: the record an id maps to is the last one in the sequence with that id. */
  lemma {:induction false} IndexLastWins(s: seq<CarRecord>, i: nat)
    requires i < |s|
    requires forall j :: i < j < |s| ==> s[j].id != s[i].id
    ensures s[i].id in Index(s) && Index(s)[s[i].id] == s[i]
  {
    if i < |s| - 1 {
      var init := s[..|s| - 1];
      IndexLastWins(init, i);
    }
  }

  /** Merging two batches one after the other is merging their concatenation. */
  lemma {:induction false} IndexAppend(a: seq<CarRecord>, b: seq<CarRecord>)
    ensures Index(a + b) == Index(a) + Index(b)
  {
    if b == [] {
      assert a + b == a;
    } else {
      var b', r := b[..|b| - 1], b[|b| - 1];
      assert (a + b)[..|a + b| - 1] == a + b' && (a + b)[|a + b| - 1] == r;
      IndexAppend(a, b');
      UnionUpdate(Index(a), Index(b'), r.id, r);
    }
  }

  lemma UnionUpdate(m: map<string, CarRecord>, n: map<string, CarRecord>, k: string, v: CarRecord)
    ensures (m + n)[k := v] == m + n[k := v]
  {
  }

  /** Records strictly ascending by id. */
  ghost predicate StrictlySorted(s: seq<CarRecord>)
  {
    forall i, j :: 0 <= i < j < |s| ==> Less(s[i].id, s[j].id)
  }

  function Ids(s: seq<CarRecord>): set<string>
  {
    set i | 0 <= i < |s| :: s[i].id
  }

  /** `s` is what `all()` returns for the map `m`: its values, strictly ascending by id. */
  ghost predicate IsSnapshot(s: seq<CarRecord>, m: map<string, CarRecord>)
  {
    && StrictlySorted(s)
    && Ids(s) == m.Keys
    && forall i :: 0 <= i < |s| ==> s[i].id in m && m[s[i].id] == s[i]
  }

  predicate IsLeast(k: string, keys: set<string>)
  {
    k in keys && forall o :: o in keys && o != k ==> Less(k, o)
  }

  lemma {:induction false} LeastExists(keys: set<string>)
    requires keys != {}
    ensures exists k :: IsLeast(k, keys)
    decreases |keys|
  {
    var x :| x in keys;
    var rest := keys - {x};
    if rest == {} {
      assert keys == {x};
      assert IsLeast(x, keys);
    } else {
      LeastExists(rest);
      var y :| IsLeast(y, rest);
      if Less(x, y) {
        forall o | o in keys && o != x
          ensures Less(x, o)
        {
          if o != y {
            LessTransitive(x, y, o);
          }
        }
        assert IsLeast(x, keys);
      } else {
        LessTotal(x, y);
        assert IsLeast(y, keys);
      }
    }
  }

  lemma LeastUnique(a: string, b: string, keys: set<string>)
    requires IsLeast(a, keys) && IsLeast(b, keys)
    ensures a == b
  {
    if a != b {
      LessAsymmetric(a, b);
    }
  }

  /** The values of a map keyed by id, in ascending id order. */
  ghost function SortedValues(m: map<string, CarRecord>): (s: seq<CarRecord>)
    requires KeyedById(m)
    ensures IsSnapshot(s, m)
    decreases |m|
  {
    if m == map[] then []
    else
      LeastExists(m.Keys);
      var k :| IsLeast(k, m.Keys);
      var tail := SortedValues(m - {k});
      SnapshotCons(k, m, tail);
      [m[k]] + tail
  }

  /** The least key's record followed by a snapshot of the rest is a snapshot. */
  lemma SnapshotCons(k: string, m: map<string, CarRecord>, tail: seq<CarRecord>)
    requires KeyedById(m) && IsLeast(k, m.Keys)
    requires IsSnapshot(tail, m - {k})
    ensures IsSnapshot([m[k]] + tail, m)
  {
    var s := [m[k]] + tail;
    assert forall i :: 1 <= i < |s| ==> s[i] == tail[i - 1];
    assert (m - {k}).Keys == m.Keys - {k};
    forall j | 0 < j < |s|
      ensures Less(s[0].id, s[j].id)
    {
      assert s[j].id in Ids(tail);
    }
    IdsCons(m[k], tail);
  }

  lemma IdsCons(r: CarRecord, t: seq<CarRecord>)
    ensures Ids([r] + t) == {r.id} + Ids(t)
  {
    var s := [r] + t;
    forall x | x in Ids(s)
      ensures x in {r.id} + Ids(t)
    {
      var i :| 0 <= i < |s| && s[i].id == x;
      if i > 0 {
        assert t[i - 1] == s[i];
      }
    }
    forall x | x in Ids(t)
      ensures x in Ids(s)
    {
      var i :| 0 <= i < |t| && t[i].id == x;
      assert s[i + 1] == t[i];
    }
    assert s[0] == r;
  }

  lemma IdsSnoc(t: seq<CarRecord>, r: CarRecord)
    ensures Ids(t + [r]) == Ids(t) + {r.id}
  {
    var s := t + [r];
    forall x | x in Ids(s)
      ensures x in Ids(t) + {r.id}
    {
      var i :| 0 <= i < |s| && s[i].id == x;
      if i < |t| {
        assert t[i] == s[i];
      }
    }
    forall x | x in Ids(t)
      ensures x in Ids(s)
    {
      var i :| 0 <= i < |t| && t[i].id == x;
      assert s[i] == t[i];
    }
    assert s[|t|] == r;
  }

  /** Two snapshots of one map are the same sequence. */
  lemma {:induction false} SnapshotUnique(s: seq<CarRecord>, t: seq<CarRecord>, m: map<string, CarRecord>)
    requires IsSnapshot(s, m) && IsSnapshot(t, m)
    ensures s == t
    decreases |s|
  {
    if s == [] {
    } else {
      assert s[0].id in Ids(s) && t != [] && t[0].id in Ids(t);
      FirstIsLeast(s, m);
      FirstIsLeast(t, m);
      LeastUnique(s[0].id, t[0].id, m.Keys);
      var k := s[0].id;
      var rest := m - {k};
      SnapshotTail(s, m);
      SnapshotTail(t, m);
      SnapshotUnique(s[1..], t[1..], rest);
      assert s == [s[0]] + s[1..] && t == [t[0]] + t[1..];
    }
  }

  lemma FirstIsLeast(s: seq<CarRecord>, m: map<string, CarRecord>)
    requires IsSnapshot(s, m) && s != []
    ensures IsLeast(s[0].id, m.Keys)
  {
    forall o | o in m.Keys && o != s[0].id
      ensures Less(s[0].id, o)
    {
      assert o in Ids(s);
      var j :| 0 <= j < |s| && s[j].id == o;
    }
  }

  lemma SnapshotTail(s: seq<CarRecord>, m: map<string, CarRecord>)
    requires IsSnapshot(s, m) && s != []
    ensures IsSnapshot(s[1..], m - {s[0].id})
  {
    var t := s[1..];
    forall i | 0 <= i < |t|
      ensures t[i].id != s[0].id
    {
      assert Less(s[0].id, s[i + 1].id);
      LessIrreflexive(s[0].id);
    }
    assert s == [s[0]] + t;
    IdsCons(s[0], t);
  }

  /** Ids in a strictly sorted sequence are distinct, so the snapshot has one entry per key. */
  lemma {:induction false} SnapshotLength(s: seq<CarRecord>, m: map<string, CarRecord>)
    requires IsSnapshot(s, m)
    ensures |s| == |m|
    decreases |s|
  {
    if s != [] {
      SnapshotTail(s, m);
      SnapshotLength(s[1..], m - {s[0].id});
      assert (m - {s[0].id}).Keys == m.Keys - {s[0].id};
    }
  }

  /** Indexing a snapshot rebuilds the map it was taken of. */
  lemma {:induction false} IndexOfSnapshot(s: seq<CarRecord>, m: map<string, CarRecord>)
    requires IsSnapshot(s, m)
    ensures Index(s) == m
  {
    IndexKeys(s);
    forall k | k in m
      ensures k in Index(s) && Index(s)[k] == m[k]
    {
      assert k in Ids(s);
      var i :| 0 <= i < |s| && s[i].id == k;
      forall j | i < j < |s|
        ensures s[j].id != s[i].id
      {
        LessIrreflexive(s[i].id);
      }
      IndexLastWins(s, i);
    }
  }

  /** The records whose status is exactly "Available". */
  function AvailableOf(m: map<string, CarRecord>): (a: map<string, CarRecord>)
    ensures a.Keys <= m.Keys
    ensures forall k :: k in a ==> a[k] == m[k] && a[k].status == "Available"
    ensures forall k :: k in m && m[k].status == "Available" ==> k in a
  {
    map k | k in m && m[k].status == "Available" :: m[k]
  }

  function FilterAvailable(s: seq<CarRecord>): seq<CarRecord>
  {
    if s == [] then []
    else (if s[0].status == "Available" then [s[0]] else []) + FilterAvailable(s[1..])
  }

  /** The available records in id order are the subsequence of the snapshot with status "Available". */
  lemma {:induction false} AvailableIsFilterOfAll(s: seq<CarRecord>, m: map<string, CarRecord>)
    requires KeyedById(m) && IsSnapshot(s, m)
    ensures IsSnapshot(FilterAvailable(s), AvailableOf(m))
    decreases |s|
  {
    if s != [] {
      var k := s[0].id;
      var a := AvailableOf(m);
      SnapshotTail(s, m);
      AvailableIsFilterOfAll(s[1..], m - {k});
      var tail := FilterAvailable(s[1..]);
      AvailableRemove(m, k);
      if s[0].status == "Available" {
        FirstIsLeast(s, m);
        LeastOfSubset(k, m.Keys, a.Keys);
        SnapshotCons(k, a, tail);
        assert FilterAvailable(s) == [a[k]] + tail;
      } else {
        assert k !in a;
        assert a - {k} == a;
        assert FilterAvailable(s) == tail;
      }
    }
  }

  lemma AvailableRemove(m: map<string, CarRecord>, k: string)
    ensures AvailableOf(m - {k}) == AvailableOf(m) - {k}
  {
  }

  lemma LeastOfSubset(k: string, keys: set<string>, sub: set<string>)
    requires IsLeast(k, keys) && sub <= keys && k in sub
    ensures IsLeast(k, sub)
  {
  }

  /** The values of an id-keyed map in ascending id order: copying them out and sorting them by id. */
  method SortedSnapshot(m: map<string, CarRecord>) returns (s: seq<CarRecord>)
    requires KeyedById(m)
    ensures IsSnapshot(s, m)
    ensures s == SortedValues(m)
  {
    s := [];
    var rest := m.Keys;
    while rest != {}
      invariant rest <= m.Keys
      invariant SelectedSoFar(s, m, rest)
      decreases |rest|
    {
      LeastExists(rest);
      var k :| IsLeast(k, rest);
      SelectLeast(s, m, rest, k);
      s := s + [m[k]];
      rest := rest - {k};
    }
    assert m.Keys - {} == m.Keys;
    SnapshotUnique(s, SortedValues(m), m);
  }

  /** The selection loop's invariant: `s` is a snapshot of the keys outside `rest`, all below those in `rest`. */
  ghost predicate SelectedSoFar(s: seq<CarRecord>, m: map<string, CarRecord>, rest: set<string>)
  {
    && StrictlySorted(s)
    && Ids(s) == m.Keys - rest
    && (forall i :: 0 <= i < |s| ==> s[i].id in m && m[s[i].id] == s[i])
    && (forall i, k :: 0 <= i < |s| && k in rest ==> Less(s[i].id, k))
  }

  /** Moving the least remaining key to the end of the selection keeps the invariant. */
  lemma SelectLeast(s: seq<CarRecord>, m: map<string, CarRecord>, rest: set<string>, k: string)
    requires KeyedById(m) && rest <= m.Keys
    requires SelectedSoFar(s, m, rest) && IsLeast(k, rest)
    ensures SelectedSoFar(s + [m[k]], m, rest - {k})
  {
    var s' := s + [m[k]];
    assert forall i :: 0 <= i < |s| ==> s'[i] == s[i];
    assert s'[|s|] == m[k];
    IdsSnoc(s, m[k]);
    forall i, o | 0 <= i < |s'| && o in rest - {k}
      ensures Less(s'[i].id, o)
    {
      if i == |s| {
        assert IsLeast(k, rest);
      }
    }
  }

  /** CarRepository over one backend. */
  class CarRepository {
    const backend: Backend
    var records: map<string, CarRecord>
    var dirty: bool
    /** How many times this repository has called the backend's persist. */
    ghost var persistCalls: nat

    ghost predicate Valid()
      reads this
    {
      KeyedById(records)
    }

    /** Construction loads the backend's records. */
    constructor (backend: Backend)
      ensures Valid() && this.backend == backend
      ensures records == Index(backend.Load()) && !dirty && persistCalls == 0
    {
      this.backend := backend;
      records := map[];
      dirty := false;
      persistCalls := 0;
      new;
      Reload();
    }

    /** `reload`: the index rebuilt from `loadCars`, last write winning, and nothing pending. */
    method Reload()
      modifies this
      ensures Valid()
      ensures records == Index(backend.Load()) && !dirty
      ensures persistCalls == old(persistCalls)
    {
      var loaded := backend.Load();
      records := map[];
      var i := 0;
      while i < |loaded|
        invariant 0 <= i <= |loaded|
        invariant records == Index(loaded[..i])
        invariant persistCalls == old(persistCalls)
      {
        assert loaded[..i + 1][..i] == loaded[..i];
        records := records[loaded[i].id := loaded[i]];
        i := i + 1;
      }
      assert loaded[..i] == loaded;
      dirty := false;
    }

    function TotalRecords(): nat
      reads this
    {
      |records|
    }

    function PendingChanges(): bool
      reads this
    {
      dirty
    }

    /** `all`: every record, strictly ascending by id, one per key. */
    method All() returns (s: seq<CarRecord>)
      requires Valid()
      ensures IsSnapshot(s, records) && s == SortedValues(records)
      ensures |s| == TotalRecords()
    {
      s := SortedSnapshot(records);
      SnapshotLength(s, records);
    }

    /** `available`: the records with status "Available" in id order, the matching subsequence of `all`. */
    method Available() returns (s: seq<CarRecord>)
      requires Valid()
      ensures IsSnapshot(s, AvailableOf(records)) && s == SortedValues(AvailableOf(records))
      ensures s == FilterAvailable(SortedValues(records))
      ensures forall i :: 0 <= i < |s| ==> s[i].status == "Available" && s[i].id in records
    {
      s := SortedSnapshot(AvailableOf(records));
      AvailableIsFilterOfAll(SortedValues(records), records);
      SnapshotUnique(s, FilterAvailable(SortedValues(records)), AvailableOf(records));
      SnapshotMembers(s, AvailableOf(records));
    }

    /** `find`: the record stored under `id`, if any. */
    function Find(id: string): (r: Option<CarRecord>)
      reads this
      ensures r.Some? <==> id in records
      ensures r.Some? ==> r.value == records[id]
      ensures r.Some? && Valid() ==> r.value.id == id
    {
      if id in records then Some(records[id]) else None
    }

    /** `upsert`: insert or overwrite by id; always succeeds and marks the repository dirty. */
    method Upsert(r: CarRecord) returns (ok: bool)
      requires Valid()
      modifies this
      ensures Valid()
      ensures ok && records == old(records)[r.id := r] && dirty
      ensures persistCalls == old(persistCalls)
    {
      records := records[r.id := r];
      dirty := true;
      ok := true;
    }

    /**
     * `update`: apply `mutator` to the record under `id`. An absent id
     * changes nothing; otherwise only that key changes and the repository
     * is dirty. The mutator must keep the record's id.
     */
    method Update(id: string, mutator: CarRecord -> CarRecord) returns (ok: bool)
      requires Valid()
      requires id in records ==> mutator(records[id]).id == id
      modifies this
      ensures Valid()
      ensures ok <==> id in old(records)
      ensures ok ==> records == old(records)[id := mutator(old(records)[id])] && dirty
      ensures !ok ==> records == old(records) && dirty == old(dirty) && unchanged(this)
      ensures persistCalls == old(persistCalls)
    {
      if id !in records {
        return false;
      }
      records := records[id := mutator(records[id])];
      dirty := true;
      ok := true;
    }

    /** `bulkUpsert`: upsert every record in order; dirty when anything was given. */
    method BulkUpsert(batch: seq<CarRecord>)
      requires Valid()
      modifies this
      ensures Valid()
      ensures records == old(records) + Index(batch)
      ensures dirty == (old(dirty) || |batch| > 0)
      ensures persistCalls == old(persistCalls)
    {
      var i := 0;
      while i < |batch|
        invariant 0 <= i <= |batch|
        invariant records == old(records) + Index(batch[..i])
        invariant KeyedById(records)
        invariant persistCalls == old(persistCalls) && dirty == old(dirty)
      {
        MergeStep(old(records), batch, i);
        records := records[batch[i].id := batch[i]];
        i := i + 1;
      }
      assert batch[..i] == batch;
      dirty := dirty || |batch| > 0;
    }

    /**
     * Whether a persist of `all()` that passes leaves the backend holding
     * it in full: every record is storable, and the device has room for
     * the whole dataset file.
     */
    ghost predicate KeptWhole()
      requires Valid()
      reads this, backend.Footprint()
    {
      && AllStorable(SortedValues(records))
      && (backend.FileBackend? ==> FitsOnDevice(SortedValues(records), backend.disk.fault))
    }

    /**
     * `flush`: nothing happens unless dirty; otherwise the backend is asked
     * once to persist `all()`, and dirty clears only when that succeeds.
     */
    method Flush() returns (res: Outcome)
      requires Valid()
      modifies this, backend.Footprint()
      ensures Valid() && records == old(records)
      ensures !old(dirty) ==>
        res == Pass && !dirty && persistCalls == old(persistCalls) && unchanged(backend.Footprint())
      ensures old(dirty) ==> persistCalls == old(persistCalls) + 1 && (res.Pass? <==> !dirty)
      ensures old(dirty) && backend.MemoryBackend? ==> res == Pass && backend.store.records == SortedValues(records)
      ensures old(dirty) && backend.FileBackend? ==>
        Written(res, backend.disk.files)
          == WriteAllEffect(old(backend.disk.files), backend.path, SortedValues(records), backend.disk.fault)
      ensures backend.FileBackend? ==> backend.disk.fault == old(backend.disk.fault)
      ensures old(dirty) && res.Pass? && KeptWhole() ==> backend.Load() == SortedValues(records) && Index(backend.Load()) == records
    {
      if !dirty {
        return Pass;
      }
      persistCalls := persistCalls + 1;
      assert this !in backend.Footprint();
      res := PersistAll();
      if res.Pass? {
        dirty := false;
      }
    }

    /** `persistCars(all())`: hand the sorted snapshot to the backend. */
    method PersistAll() returns (res: Outcome)
      requires Valid()
      modifies backend.Footprint()
      ensures backend.MemoryBackend? ==> res == Pass && backend.store.records == SortedValues(records)
      ensures backend.FileBackend? ==>
        Written(res, backend.disk.files)
          == WriteAllEffect(old(backend.disk.files), backend.path, SortedValues(records), backend.disk.fault)
      ensures backend.FileBackend? ==> backend.disk.fault == old(backend.disk.fault)
      ensures res.Pass? && KeptWhole() ==> backend.Load() == SortedValues(records) && Index(backend.Load()) == records
    {
      var snapshot := All();
      IndexOfSnapshot(snapshot, records);
      assert this !in backend.Footprint();
      res := backend.Persist(snapshot);
    }
  }

  /** Every record of a snapshot is the map's record under its own id. */
  lemma SnapshotMembers(s: seq<CarRecord>, m: map<string, CarRecord>)
    requires IsSnapshot(s, m)
    ensures forall i :: 0 <= i < |s| ==> s[i].id in m && s[i] == m[s[i].id]
  {
  }

  /** One more upsert extends the merged prefix by one record. */
  lemma MergeStep(base: map<string, CarRecord>, batch: seq<CarRecord>, i: nat)
    requires i < |batch|
    ensures (base + Index(batch[..i]))[batch[i].id := batch[i]] == base + Index(batch[..i + 1])
  {
    assert batch[..i + 1][..i] == batch[..i];
  }
}
