/**
 * Chunked ingestion (BatchProcessor::ingest): stream a dataset file,
 * commit every `chunkSize` records to the repository with one flush each,
 * and commit the partial chunk left at the end.
 *
 * As written, the commit inside the stream's consumer runs under the
 * stream's per-line handler, so a flush that fails there is logged as a
 * skipped line and streaming goes on with the chunk still buffered. The
 * loop's counters are therefore a function of the outcomes of the flushes
 * it attempted (`TallyAfter`, `IngestAccount`); `IngestStrict` is the
 * loop with that failure surfaced instead.
 */
module Batch {
  import opened Wrappers
  import opened CarRecords
  import opened FileSystem
  import opened Pipeline
  import opened Storage
  import opened Repository

  datatype Metrics = Metrics(processedRecords: nat, batches: nat)

  /** The number of chunks of size `d` that `n` records fill, the last one possibly partial. */
  function CeilDiv(n: nat, d: nat): (r: nat)
    requires d > 0
    ensures n == 0 <==> r == 0
    ensures n > 0 ==> (r - 1) * d < n <= r * d
    decreases n
  {
    if n == 0 then 0
    else if n <= d then 1
    else
      var r' := CeilDiv(n - d, d);
      MulSucc(r', d);
      r' + 1
  }

  /** Proof helper of `CeilDiv`: one more chunk adds one chunk size. */
  lemma MulSucc(b: nat, d: nat)
    ensures (b + 1) * d == b * d + d
  {
  }

  /** Proof helper of `CeilDivOf`: a positive number of chunks holds at least one chunk size. */
  lemma MulAtLeast(b: nat, d: nat)
    ensures b * d >= 0
    ensures b > 0 ==> b * d >= d
  {
  }

  /** `b` full chunks and `k` records more take `b` chunks, or `b + 1` when `k > 0`. */
  lemma {:induction false} CeilDivOf(b: nat, d: nat, k: nat)
    requires 0 < d && k < d
    ensures CeilDiv(b * d + k, d) == b + (if k > 0 then 1 else 0)
  {
    if b > 0 {
      var m := (b - 1) * d;
      MulSucc(b - 1, d);
      MulAtLeast(b - 1, d);
      if m + k > 0 {
        assert b * d + k - d == m + k;
        CeilDivOf(b - 1, d, k);
      } else {
        assert b - 1 == 0 && k == 0;
      }
    }
  }

  /** The loop's counters after some records: records buffered, chunks committed, flushes attempted. */
  datatype Tally = Tally(buffered: nat, batches: nat, attempts: nat)

  /** Whether the flush attempt numbered `j` succeeds; an attempt beyond the outcomes given is taken to succeed. */
  predicate Succeeds(flushes: seq<bool>, j: nat)
  {
    j >= |flushes| || flushes[j]
  }

  /** Whether every flush attempt of `flushes` succeeded. */
  predicate AllSucceed(flushes: seq<bool>)
  {
    forall j :: 0 <= j < |flushes| ==> flushes[j]
  }

  /**
   * The counters of the as-written loop after `k` records, when its
   * flush attempts have the outcomes `flushes` in order: a full buffer is
   * committed, and cleared and counted only when the flush succeeds.
   */
  function TallyAfter(k: nat, chunk: nat, flushes: seq<bool>): Tally
    requires chunk > 0
  {
    if k == 0 then Tally(0, 0, 0)
    else
      var t := TallyAfter(k - 1, chunk, flushes);
      if t.buffered + 1 < chunk then t.(buffered := t.buffered + 1)
      else if Succeeds(flushes, t.attempts) then Tally(0, t.batches + 1, t.attempts + 1)
      else Tally(t.buffered + 1, t.batches, t.attempts + 1)
  }

  /** What an ingestion accounts for: the metrics it returns (None when a failure escapes) and the flushes it attempts. */
  datatype Account = Account(metrics: Option<Metrics>, attempts: nat)

  /** The as-written ingestion of `n` records: the loop, then the commit of a non-empty final buffer outside the handler. */
  function IngestAccount(n: nat, chunk: nat, flushes: seq<bool>): (a: Account)
    requires chunk > 0
    ensures a.metrics.Some? ==> a.metrics.value.processedRecords == n
  {
    var t := TallyAfter(n, chunk, flushes);
    if t.buffered == 0 then Account(Some(Metrics(n, t.batches)), t.attempts)
    else if Succeeds(flushes, t.attempts) then Account(Some(Metrics(n, t.batches + 1)), t.attempts + 1)
    else Account(None, t.attempts + 1)
  }

  /** The loop's counters after `k` records, when its flushes have the outcomes `flushes`, are `t`. */
  ghost predicate Counted(k: nat, chunk: nat, flushes: seq<bool>, t: Tally)
  {
    chunk > 0 && TallyAfter(k, chunk, flushes) == t
  }

  /** The counters only ever look at the outcomes of the attempts already made. */
  lemma {:induction false} TallyPrefix(k: nat, chunk: nat, flushes: seq<bool>, more: seq<bool>)
    requires chunk > 0
    requires TallyAfter(k, chunk, flushes).attempts <= |flushes|
    ensures TallyAfter(k, chunk, flushes + more) == TallyAfter(k, chunk, flushes)
  {
    if k > 0 {
      var t := TallyAfter(k - 1, chunk, flushes);
      assert t.attempts <= TallyAfter(k, chunk, flushes).attempts;
      TallyPrefix(k - 1, chunk, flushes, more);
      if t.attempts < |flushes| {
        assert (flushes + more)[t.attempts] == flushes[t.attempts];
      }
    }
  }

  /** When every flush succeeds, `k` records are whole chunks committed plus a partial buffer. */
  lemma {:induction false} TallyAllSucceed(k: nat, chunk: nat, flushes: seq<bool>)
    requires chunk > 0
    requires forall j :: 0 <= j < |flushes| ==> flushes[j]
    ensures var t := TallyAfter(k, chunk, flushes);
      t.buffered < chunk && t.attempts == t.batches && k == t.batches * chunk + t.buffered
  {
    if k > 0 {
      TallyAllSucceed(k - 1, chunk, flushes);
      var t := TallyAfter(k - 1, chunk, flushes);
      assert (t.batches + 1) * chunk == t.batches * chunk + chunk;
    }
  }

  /** When no commit fails, ingestion reports every record and one batch per chunk, the partial one included. */
  lemma ChunkingConservation(n: nat, chunk: nat, flushes: seq<bool>)
    requires chunk > 0
    requires forall j :: 0 <= j < |flushes| ==> flushes[j]
    ensures IngestAccount(n, chunk, flushes).metrics == Some(Metrics(n, CeilDiv(n, chunk)))
    ensures IngestAccount(n, chunk, flushes).attempts == CeilDiv(n, chunk)
  {
    TallyAllSucceed(n, chunk, flushes);
    var t := TallyAfter(n, chunk, flushes);
    CeilDivOf(t.batches, chunk, t.buffered);
  }

  /**
   * As written, one swallowed commit failure breaks the accounting: with
   * chunks of one record, a failed first flush followed by a successful
   * second one reports one batch for two records.
   */
  lemma SwallowedFlushMiscounts()
    ensures IngestAccount(2, 1, [false, true]) == Account(Some(Metrics(2, 1)), 2)
    ensures CeilDiv(2, 1) == 2
  {
    var f := [false, true];
    assert !Succeeds(f, 0) && Succeeds(f, 1);
    assert TallyAfter(0, 1, f) == Tally(0, 0, 0);
    assert TallyAfter(1, 1, f) == Tally(1, 0, 1);
    assert TallyAfter(2, 1, f) == Tally(0, 1, 2);
  }

  /** As written, after a swallowed failure the buffer outgrows the chunk size. */
  lemma SwallowedFlushGrowsBuffer()
    ensures TallyAfter(3, 1, [false, false, false]).buffered == 3
  {
    var f := [false, false, false];
    assert !Succeeds(f, 0) && !Succeeds(f, 1) && !Succeeds(f, 2);
    assert TallyAfter(0, 1, f) == Tally(0, 0, 0);
    assert TallyAfter(1, 1, f) == Tally(1, 0, 1);
    assert TallyAfter(2, 1, f) == Tally(2, 0, 2);
  }

  /** What the final commit, with outcome `ok`, makes of the loop's counters. */
  lemma FinishAccount(n: nat, chunk: nat, flushes: seq<bool>, buffered: nat, batches: nat, ok: bool)
    requires chunk > 0
    requires TallyAfter(n, chunk, flushes) == Tally(buffered, batches, |flushes|)
    ensures buffered == 0 ==> IngestAccount(n, chunk, flushes) == Account(Some(Metrics(n, batches)), |flushes|)
    ensures buffered > 0 ==>
      IngestAccount(n, chunk, flushes + [ok]) == Account(if ok then Some(Metrics(n, batches + 1)) else None, |flushes| + 1)
  {
    TallyPrefix(n, chunk, flushes, [ok]);
    var t := TallyAfter(n, chunk, flushes + [ok]);
    assert t == Tally(buffered, batches, |flushes|);
    assert Succeeds(flushes + [ok], t.attempts) == ok;
  }

  /** One more record: buffered, or committed with the outcome `ok` of a new flush attempt. */
  lemma TallyStep(i: nat, chunk: nat, flushes: seq<bool>, buffered: nat, batches: nat, ok: bool)
    requires chunk > 0
    requires TallyAfter(i, chunk, flushes) == Tally(buffered, batches, |flushes|)
    ensures buffered + 1 < chunk ==> TallyAfter(i + 1, chunk, flushes) == Tally(buffered + 1, batches, |flushes|)
    ensures buffered + 1 >= chunk ==>
      TallyAfter(i + 1, chunk, flushes + [ok])
        == (if ok then Tally(0, batches + 1, |flushes| + 1) else Tally(buffered + 1, batches, |flushes| + 1))
  {
    TallyPrefix(i, chunk, flushes, [ok]);
    assert (flushes + [ok])[|flushes|] == ok;
  }

  /** One more record, when every flush succeeds. */
  lemma StrictStep(i: nat, chunk: nat, buffered: nat, batches: nat)
    requires chunk > 0
    requires TallyAfter(i, chunk, []) == Tally(buffered, batches, batches)
    ensures TallyAfter(i + 1, chunk, []) ==
      if buffered + 1 < chunk then Tally(buffered + 1, batches, batches) else Tally(0, batches + 1, batches + 1)
  {
  }

  /** Merging a chunk after its prefix is merging the longer prefix. */
  lemma MergeChunk(base: map<string, CarRecord>, recs: seq<CarRecord>, s: nat, j: nat)
    requires s <= j <= |recs|
    ensures base + Index(recs[..s]) + Index(recs[s..j]) == base + Index(recs[..j])
  {
    assert recs[..j] == recs[..s] + recs[s..j];
    IndexAppend(recs[..s], recs[s..j]);
  }

  /** Merging a buffer again after its records were already merged changes nothing more than merging it once. */
  lemma MergeAgain(base: map<string, CarRecord>, recs: seq<CarRecord>, s: nat, i: nat, j: nat)
    requires s <= i <= j <= |recs|
    ensures base + Index(recs[..i]) + Index(recs[s..j]) == base + Index(recs[..j])
  {
    IndexSplit(recs, 0, s, i);
    IndexSplit(recs, s, i, j);
    IndexSplit(recs, 0, i, j);
    assert recs[0..i] == recs[..i] && recs[0..s] == recs[..s] && recs[0..j] == recs[..j];
    MergeTwice(base, Index(recs[..s]), Index(recs[s..i]), Index(recs[i..j]),
      Index(recs[..i]), Index(recs[s..j]), Index(recs[..j]));
  }

  lemma MergeTwice<K, V>(base: map<K, V>, a: map<K, V>, b: map<K, V>, c: map<K, V>,
                         ab: map<K, V>, bc: map<K, V>, abc: map<K, V>)
    requires ab == a + b && bc == b + c && abc == ab + c
    ensures base + ab + bc == base + abc
  {
    UnionAbsorbs(base + a, b, c);
    UnionAbsorbs(base, a, b);
    UnionAbsorbs(base, ab, c);
  }

  /** Indexing a slice is indexing its two halves one after the other. */
  lemma IndexSplit(recs: seq<CarRecord>, x: nat, y: nat, z: nat)
    requires x <= y <= z <= |recs|
    ensures Index(recs[x..z]) == Index(recs[x..y]) + Index(recs[y..z])
  {
    assert recs[x..z] == recs[x..y] + recs[y..z];
    IndexAppend(recs[x..y], recs[y..z]);
  }

  /** Proof helper of the merge accounting: map union is associative, and merging `b` a second time is absorbed. */
  lemma UnionAbsorbs<K, V>(a: map<K, V>, b: map<K, V>, c: map<K, V>)
    ensures a + b + (b + c) == a + b + c
    ensures a + (b + c) == a + b + c
  {
  }

  class BatchProcessor {
    const repo: CarRepository

    constructor (repo: CarRepository)
      ensures this.repo == repo
    {
      this.repo := repo;
    }

    /** Committing a chunk: `bulkUpsert` it, then `flush`, which persists because the chunk is not empty. */
    method Commit(chunk: seq<CarRecord>) returns (r: Outcome)
      requires repo.Valid() && chunk != []
      modifies repo, repo.backend.Footprint()
      ensures repo.Valid()
      ensures repo.records == old(repo.records) + Index(chunk)
      ensures repo.persistCalls == old(repo.persistCalls) + 1
      ensures r.Pass? <==> !repo.dirty
      ensures repo.backend.MemoryBackend? ==> r == Pass
    {
      repo.BulkUpsert(chunk);
      r := repo.Flush();
    }

    /** Committing the records `recs[s..j]` held in `chunk` when those before `s` are merged already. */
    method CommitPrefix(ghost base: map<string, CarRecord>, ghost recs: seq<CarRecord>, ghost s: nat, ghost j: nat,
                        chunk: seq<CarRecord>) returns (r: Outcome)
      requires repo.Valid() && s < j <= |recs| && chunk == recs[s..j]
      requires repo.records == base + Index(recs[..s])
      modifies repo, repo.backend.Footprint()
      ensures repo.Valid()
      ensures repo.records == base + Index(recs[..j])
      ensures repo.persistCalls == old(repo.persistCalls) + 1
      ensures r.Pass? <==> !repo.dirty
      ensures repo.backend.MemoryBackend? ==> r == Pass
    {
      MergeChunk(base, recs, s, j);
      r := Commit(chunk);
    }

    /**
     * `ingest` as written. The records streamed are those of the file when
     * ingestion starts; what happens to them is `CommitAsStreamed`.
     */
    method Ingest(disk: Disk, path: string, chunkSize: nat) returns (res: Result<Metrics>, ghost flushes: seq<bool>)
      requires repo.Valid()
      modifies repo, repo.backend.Footprint()
      ensures repo.Valid()
      ensures chunkSize == 0 ==>
        && res == Err(InvalidArgument("chunkSize must be greater than zero"))
        && flushes == [] && unchanged(repo) && unchanged(repo.backend.Footprint())
      ensures chunkSize > 0 ==>
        var recs := Streamed(old(disk.files), path);
        && IngestAccount(|recs|, chunkSize, flushes) == Account(if res.Ok? then Some(res.value) else None, |flushes|)
        && repo.records == old(repo.records) + Index(recs)
        && repo.persistCalls == old(repo.persistCalls) + |flushes|
        && (res.Err? ==> repo.dirty)
        && (res.Ok? && recs != [] ==> !repo.dirty)
        && (recs == [] ==> res == Ok(Metrics(0, 0)) && flushes == [] && repo.dirty == old(repo.dirty))
        && (repo.backend.MemoryBackend? ==>
              && AllSucceed(flushes)
              && res == Ok(Metrics(|recs|, CeilDiv(|recs|, chunkSize)))
              && repo.persistCalls == old(repo.persistCalls) + CeilDiv(|recs|, chunkSize))
    {
      if chunkSize == 0 {
        return Err(InvalidArgument("chunkSize must be greater than zero")), [];
      }
      var recs := Streamed(disk.files, path);
      res, flushes := CommitAsStreamed(recs, chunkSize);
      if repo.backend.MemoryBackend? {
        ChunkingConservation(|recs|, chunkSize, flushes);
      }
    }

    /**
     * The as-written `ingest` after the stream is open: the consumer run
     * over the streamed records, then the commit of what is left, now
     * outside the per-line handler. `flushes` are the outcomes of the
     * flushes it attempted, in order: the counters it returns, whether a
     * failure escapes, and the number of persists are the ones
     * `IngestAccount` gives for them, and every record ends up merged.
     */
    method CommitAsStreamed(recs: seq<CarRecord>, chunkSize: nat) returns (res: Result<Metrics>, ghost flushes: seq<bool>)
      requires repo.Valid() && chunkSize > 0
      modifies repo, repo.backend.Footprint()
      ensures repo.Valid()
      ensures IngestAccount(|recs|, chunkSize, flushes) == Account(if res.Ok? then Some(res.value) else None, |flushes|)
      ensures repo.records == old(repo.records) + Index(recs)
      ensures repo.persistCalls == old(repo.persistCalls) + |flushes|
      ensures res.Err? ==> repo.dirty
      ensures res.Ok? && recs != [] ==> !repo.dirty
      ensures recs == [] ==> res == Ok(Metrics(0, 0)) && flushes == [] && repo.dirty == old(repo.dirty)
      ensures repo.backend.MemoryBackend? ==> AllSucceed(flushes)
    {
      ghost var base, calls0, dirty0 := repo.records, repo.persistCalls, repo.dirty;
      ghost var upTo := 0;
      flushes := [];
      var buffer: seq<CarRecord> := [];
      var processed := 0;
      var batches := 0;
      var i := 0;
      while i < |recs|
        invariant repo.Valid() && Consumed(recs, chunkSize, base, calls0, dirty0, i, buffer, batches, flushes, upTo, repo.records, repo.persistCalls, repo.dirty)
        invariant processed == i
        invariant repo.backend.MemoryBackend? ==> AllSucceed(flushes)
      {
        buffer, processed, batches, flushes, upTo :=
          Consume(recs, chunkSize, base, calls0, dirty0, i, recs[i], buffer, processed, batches, flushes, upTo);
        i := i + 1;
      }
      assert recs[..i] == recs;
      res, flushes := FinishStream(recs, chunkSize, base, calls0, dirty0, buffer, processed, batches, flushes, upTo);
    }

    /**
     * The end of the as-written `ingest`: a non-empty buffer is committed
     * once more, outside the per-line handler, so its failure escapes.
     */
    method FinishStream(ghost recs: seq<CarRecord>, chunkSize: nat, ghost base: map<string, CarRecord>,
                        ghost calls0: nat, ghost dirty0: bool, buffer: seq<CarRecord>, processed: nat, batches: nat,
                        ghost flushes: seq<bool>, ghost upTo: nat)
      returns (res: Result<Metrics>, ghost flushes': seq<bool>)
      requires repo.Valid() && Consumed(recs, chunkSize, base, calls0, dirty0, |recs|, buffer, batches, flushes, upTo, repo.records, repo.persistCalls, repo.dirty)
      requires processed == |recs|
      modifies repo, repo.backend.Footprint()
      ensures repo.Valid()
      ensures IngestAccount(|recs|, chunkSize, flushes') == Account(if res.Ok? then Some(res.value) else None, |flushes'|)
      ensures repo.records == base + Index(recs)
      ensures repo.persistCalls == calls0 + |flushes'|
      ensures res.Err? ==> repo.dirty
      ensures res.Ok? && recs != [] ==> !repo.dirty
      ensures recs == [] ==> res == Ok(Metrics(0, 0)) && flushes' == [] && repo.dirty == dirty0
      ensures repo.backend.MemoryBackend? && AllSucceed(flushes) ==> AllSucceed(flushes')
    {
      assert recs[..|recs|] == recs;
      FinishAccount(|recs|, chunkSize, flushes, |buffer|, batches, true);
      FinishAccount(|recs|, chunkSize, flushes, |buffer|, batches, false);
      flushes' := flushes;
      if |buffer| > 0 {
        var r := CommitPrefixAgain(base, recs, |recs| - |buffer|, upTo, |recs|, buffer);
        flushes' := flushes + [r.Pass?];
        if r.Fail? {
          return Err(r.error), flushes';
        }
        return Ok(Metrics(processed, batches + 1)), flushes';
      }
      res := Ok(Metrics(processed, batches));
    }

    /** The consumer's state after the first `i` records of `recs`, from the repository state `base`, `calls0`, `dirty0`. */
    ghost predicate Consumed(recs: seq<CarRecord>, chunk: nat, base: map<string, CarRecord>, calls0: nat, dirty0: bool,
                             i: nat, buffer: seq<CarRecord>, batches: nat, flushes: seq<bool>, upTo: nat,
                             records: map<string, CarRecord>, calls: nat, dirty: bool)
    {
      && Progress(recs, chunk, i, buffer, batches, flushes, upTo)
      && records == base + Index(recs[..upTo])
      && calls == calls0 + |flushes|
      && (flushes == [] ==> dirty == dirty0)
      && (flushes != [] ==> (dirty <==> !flushes[|flushes| - 1]))
    }

    /**
     * The consumer's counters after the first `i` records: the buffer
     * holds the records after the last successful commit, `upTo` records
     * have been merged, and the last flush attempt failed exactly when the
     * buffer is still full.
     */
    ghost predicate Progress(recs: seq<CarRecord>, chunk: nat, i: nat, buffer: seq<CarRecord>, batches: nat,
                             flushes: seq<bool>, upTo: nat)
    {
      && Counted(i, chunk, flushes, Tally(|buffer|, batches, |flushes|))
      && i <= |recs| && |buffer| <= i && buffer == recs[i - |buffer|..i]
      && upTo == (if |buffer| >= chunk then i else i - |buffer|)
      && (flushes == [] ==> |buffer| == i)
      && (flushes != [] ==> (flushes[|flushes| - 1] <==> |buffer| < chunk))
    }

    /**
     * The consumer the as-written `ingest` hands to the stream, called with
     * the record `recs[i]`: buffer it, count it, and commit the buffer once
     * it is full. A failed commit is caught by the stream's per-line
     * handler, so the buffer is kept and streaming goes on.
     */
    method Consume(ghost recs: seq<CarRecord>, chunkSize: nat, ghost base: map<string, CarRecord>,
                   ghost calls0: nat, ghost dirty0: bool, ghost i: nat, record: CarRecord,
                   buffer: seq<CarRecord>, processed: nat, batches: nat, ghost flushes: seq<bool>, ghost upTo: nat)
      returns (buffer': seq<CarRecord>, processed': nat, batches': nat, ghost flushes': seq<bool>, ghost upTo': nat)
      requires repo.Valid() && Consumed(recs, chunkSize, base, calls0, dirty0, i, buffer, batches, flushes, upTo, repo.records, repo.persistCalls, repo.dirty)
      requires i < |recs| && record == recs[i]
      modifies repo, repo.backend.Footprint()
      ensures repo.Valid() && Consumed(recs, chunkSize, base, calls0, dirty0, i + 1, buffer', batches', flushes', upTo', repo.records, repo.persistCalls, repo.dirty)
      ensures processed' == processed + 1
      ensures repo.backend.MemoryBackend? && AllSucceed(flushes) ==> AllSucceed(flushes')
    {
      processed' := processed + 1;
      if |buffer| + 1 < chunkSize {
        BufferOne(recs, chunkSize, i, buffer, batches, flushes, upTo);
        buffer', batches', flushes', upTo' := buffer + [record], batches, flushes, upTo;
      } else {
        buffer', batches', flushes', upTo' := CommitFull(recs, chunkSize, base, calls0, dirty0, i, record, buffer, batches, flushes, upTo);
      }
    }

    /** A record that does not fill the buffer is only buffered. */
    lemma BufferOne(recs: seq<CarRecord>, chunk: nat, i: nat, buffer: seq<CarRecord>, batches: nat,
                    flushes: seq<bool>, upTo: nat)
      requires Progress(recs, chunk, i, buffer, batches, flushes, upTo)
      requires i < |recs| && |buffer| + 1 < chunk
      ensures Progress(recs, chunk, i + 1, buffer + [recs[i]], batches, flushes, upTo)
    {
      TallyStep(i, chunk, flushes, |buffer|, batches, true);
      assert buffer + [recs[i]] == recs[i - |buffer|..i + 1];
    }

    /** A record that fills the buffer: the buffer is committed, and kept when the commit fails. */
    method CommitFull(ghost recs: seq<CarRecord>, chunkSize: nat, ghost base: map<string, CarRecord>,
                      ghost calls0: nat, ghost dirty0: bool, ghost i: nat, record: CarRecord,
                      buffer: seq<CarRecord>, batches: nat, ghost flushes: seq<bool>, ghost upTo: nat)
      returns (buffer': seq<CarRecord>, batches': nat, ghost flushes': seq<bool>, ghost upTo': nat)
      requires repo.Valid() && Consumed(recs, chunkSize, base, calls0, dirty0, i, buffer, batches, flushes, upTo, repo.records, repo.persistCalls, repo.dirty)
      requires i < |recs| && record == recs[i] && |buffer| + 1 >= chunkSize
      modifies repo, repo.backend.Footprint()
      ensures repo.Valid() && Consumed(recs, chunkSize, base, calls0, dirty0, i + 1, buffer', batches', flushes', upTo', repo.records, repo.persistCalls, repo.dirty)
      ensures repo.backend.MemoryBackend? && AllSucceed(flushes) ==> AllSucceed(flushes')
    {
      var full := buffer + [record];
      FullWindow(recs, chunkSize, i, buffer, batches, flushes, upTo);
      var r := CommitPrefixAgain(base, recs, i - |buffer|, upTo, i + 1, full);
      buffer' := if r.Pass? then [] else full;
      batches' := if r.Pass? then batches + 1 else batches;
      flushes', upTo' := flushes + [r.Pass?], i + 1;
      CommitStep(recs, chunkSize, base, calls0, dirty0, i, record, buffer, batches, flushes, upTo, r.Pass?,
                 buffer', batches', flushes', upTo', repo.records, repo.persistCalls, repo.dirty);
    }

    /** The consumer's state after a commit, with outcome `ok`, of the buffer the record `recs[i]` fills. */
    lemma CommitStep(recs: seq<CarRecord>, chunk: nat, base: map<string, CarRecord>, calls0: nat, dirty0: bool,
                     i: nat, record: CarRecord, buffer: seq<CarRecord>, batches: nat, flushes: seq<bool>, upTo: nat,
                     ok: bool, buffer': seq<CarRecord>, batches': nat, flushes': seq<bool>, upTo': nat,
                     records: map<string, CarRecord>, calls: nat, dirty: bool)
      requires Progress(recs, chunk, i, buffer, batches, flushes, upTo)
      requires i < |recs| && record == recs[i] && |buffer| + 1 >= chunk
      requires buffer' == (if ok then [] else buffer + [record])
      requires batches' == (if ok then batches + 1 else batches) && flushes' == flushes + [ok] && upTo' == i + 1
      requires records == base + Index(recs[..i + 1]) && calls == calls0 + |flushes| + 1 && (dirty <==> !ok)
      ensures Consumed(recs, chunk, base, calls0, dirty0, i + 1, buffer', batches', flushes', upTo', records, calls, dirty)
    {
      FillProgress(recs, chunk, i, buffer, batches, flushes, upTo, ok);
    }

    /** The buffer and the record that fills it are the records after the last commit, none of them merged yet. */
    lemma FullWindow(recs: seq<CarRecord>, chunk: nat, i: nat, buffer: seq<CarRecord>, batches: nat,
                     flushes: seq<bool>, upTo: nat)
      requires Progress(recs, chunk, i, buffer, batches, flushes, upTo)
      requires i < |recs| && |buffer| + 1 >= chunk
      ensures i - |buffer| <= upTo && buffer + [recs[i]] == recs[i - |buffer|..i + 1]
    {
      FillProgress(recs, chunk, i, buffer, batches, flushes, upTo, true);
    }

    /** The counters after a record that fills the buffer, for either outcome `ok` of the commit. */
    lemma FillProgress(recs: seq<CarRecord>, chunk: nat, i: nat, buffer: seq<CarRecord>, batches: nat,
                       flushes: seq<bool>, upTo: nat, ok: bool)
      requires Progress(recs, chunk, i, buffer, batches, flushes, upTo)
      requires i < |recs| && |buffer| + 1 >= chunk
      ensures i - |buffer| <= upTo && buffer + [recs[i]] == recs[i - |buffer|..i + 1]
      ensures Progress(recs, chunk, i + 1, if ok then [] else buffer + [recs[i]],
                       if ok then batches + 1 else batches, flushes + [ok], i + 1)
    {
      TallyStep(i, chunk, flushes, |buffer|, batches, ok);
      assert buffer + [recs[i]] == recs[i - |buffer|..i + 1];
    }

    /**
     * Committing `recs[s..j]` held in `chunk` when the records before
     * `upTo` are merged already, `upTo` lying between `s` and `j`.
     */
    method CommitPrefixAgain(ghost base: map<string, CarRecord>, ghost recs: seq<CarRecord>, ghost s: nat,
                             ghost upTo: nat, ghost j: nat, chunk: seq<CarRecord>) returns (r: Outcome)
      requires repo.Valid() && s <= upTo <= j <= |recs| && s < j && chunk == recs[s..j]
      requires repo.records == base + Index(recs[..upTo])
      modifies repo, repo.backend.Footprint()
      ensures repo.Valid()
      ensures repo.records == base + Index(recs[..j])
      ensures repo.persistCalls == old(repo.persistCalls) + 1
      ensures r.Pass? <==> !repo.dirty
      ensures repo.backend.MemoryBackend? ==> r == Pass
    {
      MergeAgain(base, recs, s, upTo, j);
      r := Commit(chunk);
    }

    /**
     * `ingest` with a failed commit surfaced at once instead of swallowed;
     * what happens to the streamed records is `CommitInChunks`.
     */
    method IngestStrict(disk: Disk, path: string, chunkSize: nat) returns (res: Result<Metrics>, ghost merged: nat)
      requires repo.Valid()
      modifies repo, repo.backend.Footprint()
      ensures repo.Valid()
      ensures chunkSize == 0 ==>
        res == Err(InvalidArgument("chunkSize must be greater than zero")) && unchanged(repo) && unchanged(repo.backend.Footprint())
      ensures chunkSize > 0 ==>
        var recs := Streamed(old(disk.files), path);
        && merged <= |recs|
        && repo.records == old(repo.records) + Index(recs[..merged])
        && (res.Ok? ==>
              && merged == |recs|
              && res.value == Metrics(|recs|, CeilDiv(|recs|, chunkSize))
              && repo.persistCalls == old(repo.persistCalls) + CeilDiv(|recs|, chunkSize)
              && (recs != [] ==> !repo.dirty))
        && (res.Err? ==> repo.dirty)
        && (repo.backend.MemoryBackend? ==> res == Ok(Metrics(|recs|, CeilDiv(|recs|, chunkSize))))
    {
      if chunkSize == 0 {
        return Err(InvalidArgument("chunkSize must be greater than zero")), 0;
      }
      var recs := Streamed(disk.files, path);
      res, merged := CommitInChunks(recs, chunkSize);
    }

    /**
     * Committing records in chunks, stopping at the first failed commit.
     * On success every record is merged, the counters report every record
     * and one batch per chunk, and there is one persist per batch; on
     * failure the records merged are a prefix of the input, and they stay
     * pending.
     */
    method CommitInChunks(recs: seq<CarRecord>, chunkSize: nat) returns (res: Result<Metrics>, ghost merged: nat)
      requires repo.Valid() && chunkSize > 0
      modifies repo, repo.backend.Footprint()
      ensures repo.Valid()
      ensures merged <= |recs|
      ensures repo.records == old(repo.records) + Index(recs[..merged])
      ensures res.Ok? ==>
        && merged == |recs|
        && res.value == Metrics(|recs|, CeilDiv(|recs|, chunkSize))
        && repo.persistCalls == old(repo.persistCalls) + CeilDiv(|recs|, chunkSize)
        && (recs != [] ==> !repo.dirty)
      ensures res.Err? ==> repo.dirty
      ensures repo.backend.MemoryBackend? ==> res.Ok?
    {
      ghost var base, calls0, dirty0 := repo.records, repo.persistCalls, repo.dirty;
      var buffer: seq<CarRecord> := [];
      var processed := 0;
      var batches := 0;
      var i := 0;
      while i < |recs|
        invariant repo.Valid() && ChunksCommitted(recs, chunkSize, base, calls0, dirty0, i, buffer, batches, repo.records, repo.persistCalls, repo.dirty)
        invariant processed == i
      {
        var r;
        r, buffer, processed, batches := ConsumeStrict(recs, chunkSize, base, calls0, dirty0, i, recs[i], buffer, processed, batches);
        if r.Fail? {
          return Err(r.error), i + 1;
        }
        i := i + 1;
      }
      assert recs[..i] == recs;
      res := FinishChunks(recs, chunkSize, base, calls0, dirty0, buffer, processed, batches);
      merged := |recs|;
    }

    /** The end of the strict `ingest`: a non-empty buffer is committed as the last, partial chunk. */
    method FinishChunks(ghost recs: seq<CarRecord>, chunkSize: nat, ghost base: map<string, CarRecord>,
                        ghost calls0: nat, ghost dirty0: bool, buffer: seq<CarRecord>, processed: nat, batches: nat)
      returns (res: Result<Metrics>)
      requires repo.Valid() && ChunksCommitted(recs, chunkSize, base, calls0, dirty0, |recs|, buffer, batches, repo.records, repo.persistCalls, repo.dirty)
      requires processed == |recs|
      modifies repo, repo.backend.Footprint()
      ensures repo.Valid()
      ensures repo.records == base + Index(recs)
      ensures res.Ok? ==>
        && res.value == Metrics(|recs|, CeilDiv(|recs|, chunkSize))
        && repo.persistCalls == calls0 + CeilDiv(|recs|, chunkSize)
        && (recs != [] ==> !repo.dirty)
      ensures res.Err? ==> repo.dirty
      ensures repo.backend.MemoryBackend? ==> res.Ok?
    {
      assert recs[..|recs|] == recs;
      ChunkingConservation(|recs|, chunkSize, []);
      if |buffer| > 0 {
        var r := CommitPrefix(base, recs, |recs| - |buffer|, |recs|, buffer);
        if r.Fail? {
          return Err(r.error);
        }
        return Ok(Metrics(processed, batches + 1));
      }
      res := Ok(Metrics(processed, batches));
    }

    /** The strict consumer's state after the first `i` records of `recs`: every full chunk committed and persisted. */
    ghost predicate ChunksCommitted(recs: seq<CarRecord>, chunk: nat, base: map<string, CarRecord>, calls0: nat, dirty0: bool,
                                    i: nat, buffer: seq<CarRecord>, batches: nat,
                                    records: map<string, CarRecord>, calls: nat, dirty: bool)
    {
      && StrictProgress(recs, chunk, i, buffer, batches)
      && records == base + Index(recs[..i - |buffer|])
      && calls == calls0 + batches
      && (batches == 0 ==> dirty == dirty0)
      && (batches > 0 ==> !dirty)
    }

    /** The strict consumer's counters: whole chunks committed, and the records after them buffered. */
    ghost predicate StrictProgress(recs: seq<CarRecord>, chunk: nat, i: nat, buffer: seq<CarRecord>, batches: nat)
    {
      && Counted(i, chunk, [], Tally(|buffer|, batches, batches))
      && i <= |recs| && |buffer| <= i && |buffer| < chunk
      && buffer == recs[i - |buffer|..i]
    }

    /** One more record for the strict consumer: buffered, or completing a chunk. */
    lemma StrictAdvance(recs: seq<CarRecord>, chunk: nat, i: nat, buffer: seq<CarRecord>, batches: nat)
      requires StrictProgress(recs, chunk, i, buffer, batches) && i < |recs|
      ensures buffer + [recs[i]] == recs[i - |buffer|..i + 1]
      ensures |buffer| + 1 < chunk ==> StrictProgress(recs, chunk, i + 1, buffer + [recs[i]], batches)
      ensures |buffer| + 1 >= chunk ==> StrictProgress(recs, chunk, i + 1, [], batches + 1)
    {
      StrictStep(i, chunk, |buffer|, batches);
      assert buffer + [recs[i]] == recs[i - |buffer|..i + 1];
    }

    /** The consumer with a failed commit reported to the caller instead of to the per-line handler. */
    method ConsumeStrict(ghost recs: seq<CarRecord>, chunkSize: nat, ghost base: map<string, CarRecord>,
                         ghost calls0: nat, ghost dirty0: bool, ghost i: nat, record: CarRecord,
                         buffer: seq<CarRecord>, processed: nat, batches: nat)
      returns (r: Outcome, buffer': seq<CarRecord>, processed': nat, batches': nat)
      requires repo.Valid() && ChunksCommitted(recs, chunkSize, base, calls0, dirty0, i, buffer, batches, repo.records, repo.persistCalls, repo.dirty)
      requires i < |recs| && record == recs[i]
      modifies repo, repo.backend.Footprint()
      ensures r.Pass? ==> (repo.Valid() && ChunksCommitted(recs, chunkSize, base, calls0, dirty0, i + 1, buffer', batches', repo.records, repo.persistCalls, repo.dirty))
      ensures r.Pass? ==> processed' == processed + 1
      ensures r.Fail? ==> repo.Valid() && repo.records == base + Index(recs[..i + 1]) && repo.dirty
      ensures repo.backend.MemoryBackend? ==> r == Pass
    {
      StrictAdvance(recs, chunkSize, i, buffer, batches);
      processed' := processed + 1;
      if |buffer| + 1 < chunkSize {
        buffer', batches' := buffer + [record], batches;
        r := Pass;
      } else {
        r := CommitPrefix(base, recs, i - |buffer|, i + 1, buffer + [record]);
        buffer', batches' := [], batches + 1;
      }
    }
  }
}
