/**
 * The dataset file pipeline (CarFilePipeline): a line-by-line read that
 * quarantines bad lines, and a bulk write that validates every record
 * before the writer runs.
 */
module Pipeline {
  import opened Wrappers
  import opened Text
  import opened CarRecords
  import opened FileSystem

  /** The lines `std::getline(input, line)` delivers for a file's content. */
  function Lines(content: string): seq<string>
  {
    Split(content, '\n')
  }

  /**
   * The records a stream over `lines` hands to its consumer, in order: a
   * line that parses to a record is delivered, an empty, malformed or
   * invalid line is skipped and reading goes on.
   */
  function ParsedRecords(lines: seq<string>): (records: seq<CarRecord>)
    ensures |records| <= |lines|
    ensures forall k :: 0 <= k < |records| ==> Validate(records[k])
  {
    if lines == [] then []
    else
      Contribution(lines[0]) + ParsedRecords(lines[1..])
  }

  /** What `stream` delivers (and `readAll` collects) for the file at `path`; a missing file yields nothing. */
  function Streamed(files: map<string, string>, path: string): seq<CarRecord>
  {
    if path in files then ParsedRecords(Lines(files[path])) else []
  }

  /** The stream is a homomorphism: each line contributes on its own, whatever surrounds it. */
  lemma {:induction false} ParsedRecordsAppend(a: seq<string>, b: seq<string>)
    ensures ParsedRecords(a + b) == ParsedRecords(a) + ParsedRecords(b)
  {
    if a == [] {
      assert a + b == b;
    } else {
      assert (a + b)[0] == a[0];
      assert (a + b)[1..] == a[1..] + b;
      ParsedRecordsAppend(a[1..], b);
    }
  }

  /** What a single line contributes. */
  function Contribution(line: string): seq<CarRecord>
  {
    match Parse(line) case Ok(Some(r)) => [r] case _ => []
  }

  lemma ParsedOne(line: string)
    ensures ParsedRecords([line]) == Contribution(line)
  {
    assert [line][1..] == [];
  }

  /** Quarantine: a line that yields no record is skipped without stopping the lines after it. */
  lemma Quarantine(before: seq<string>, bad: string, after: seq<string>)
    requires !Parse(bad).Ok? || Parse(bad).value.None?
    ensures ParsedRecords(before + [bad] + after) == ParsedRecords(before) + ParsedRecords(after)
  {
    ParsedRecordsAppend(before + [bad], after);
    ParsedRecordsAppend(before, [bad]);
    ParsedOne(bad);
  }

  /** A line that parses contributes exactly its record. */
  lemma Delivered(before: seq<string>, good: string, after: seq<string>, r: CarRecord)
    requires Parse(good) == Ok(Some(r))
    ensures ParsedRecords(before + [good] + after) == ParsedRecords(before) + [r] + ParsedRecords(after)
  {
    ParsedRecordsAppend(before + [good], after);
    ParsedRecordsAppend(before, [good]);
    ParsedOne(good);
  }

  /**
   * The effect of `writeAll`: serialise everything first, then hand the
   * lines to the transactional writer as the source runs it.
   */
  function WriteAllEffect(files: map<string, string>, path: string, records: seq<CarRecord>, fault: Fault): (w: Written)
    ensures (exists k :: 0 <= k < |records| && !Validate(records[k])) ==> w.outcome.Fail? && w.files == files
    ensures w.outcome.Pass? <==>
      SerializeAll(records).Ok? && fault != OpenTempFails && fault != RenameFails && !(fault == RemoveFails && path in files)
    ensures w.outcome.Pass? ==> path in w.files && w.files[path] == Stored(Render(SerializeAll(records).value), fault)
    ensures w.outcome.Fail? && fault != RenameFails ==> SameEntry(files, w.files, path)
    ensures SerializeAll(records).Ok? && fault == RenameFails ==> path !in w.files
    ensures forall p :: p != path && p != TempPath(path) ==> SameEntry(files, w.files, p)
  {
    match SerializeAll(records)
    case Err(e) => Written(Fail(e), files)
    case Ok(lines) => TransactionalWrite(files, path, lines, fault)
  }

  /** Whether the device keeps the whole dataset file that `writeAll` renders for `records`. */
  predicate FitsOnDevice(records: seq<CarRecord>, fault: Fault)
  {
    SerializeAll(records).Ok? ==> Stored(Render(SerializeAll(records).value), fault) == Render(SerializeAll(records).value)
  }

  /**
   * The short write reaches `writeAll`: on a device too small for the
   * dataset file the write still passes and the file is cut short.
   */
  lemma WriteAllTruncates(files: map<string, string>, path: string, records: seq<CarRecord>, capacity: nat)
    requires SerializeAll(records).Ok? && capacity < |Render(SerializeAll(records).value)|
    ensures var w := WriteAllEffect(files, path, records, DiskFull(capacity));
      && w.outcome == Pass
      && w.files[path] == Render(SerializeAll(records).value)[..capacity]
      && !FitsOnDevice(records, DiskFull(capacity))
  {
    TransactionalShortWrite(files, path, SerializeAll(records).value, capacity);
  }

  /** The serialised line of a storable record contributes exactly that record. */
  lemma SerializedContributes(r: CarRecord, line: string)
    requires Storable(r) && Serialize(r) == Ok(line)
    ensures Contribution(line) == [r]
  {
    ParseSerialize(r);
  }

  /** Parsing the serialised lines of storable records gives the records back. */
  lemma {:induction false} ParsedSerialized(records: seq<CarRecord>, lines: seq<string>)
    requires AllStorable(records)
    requires |lines| == |records|
    requires forall k :: 0 <= k < |records| ==> Serialize(records[k]) == Ok(lines[k])
    ensures ParsedRecords(lines) == records
  {
    if records != [] {
      var rest, restLines := records[1..], lines[1..];
      SerializedContributes(records[0], lines[0]);
      assert forall k :: 0 <= k < |rest| ==> rest[k] == records[k + 1] && restLines[k] == lines[k + 1];
      ParsedSerialized(rest, restLines);
      assert records == [records[0]] + rest;
    }
  }

  /**
   * Writing storable records and streaming the file back delivers the same
   * records in the same order, when the device kept the whole file.
   */
  lemma WriteAllThenStream(files: map<string, string>, path: string, records: seq<CarRecord>, fault: Fault)
    requires AllStorable(records)
    requires WriteAllEffect(files, path, records, fault).outcome.Pass?
    requires FitsOnDevice(records, fault)
    ensures Streamed(WriteAllEffect(files, path, records, fault).files, path) == records
  {
    var lines := SerializeAll(records).value;
    forall k | 0 <= k < |lines|
      ensures '\n' !in lines[k]
    {
      SerializedIsOneLine(records[k]);
    }
    SplitRender(lines);
    ParsedSerialized(records, lines);
  }

  /** `writeAll` on the disk, through the transactional writer as written. */
  method WriteAll(disk: Disk, path: string, records: seq<CarRecord>) returns (res: Outcome)
    modifies disk`files
    ensures Written(res, disk.files) == WriteAllEffect(old(disk.files), path, records, disk.fault)
  {
    var lines := SerializeAll(records);
    if lines.Err? {
      return Fail(lines.error);
    }
    ghost var window;
    res, window := disk.WriteTransactional(path, lines.value);
  }
}
