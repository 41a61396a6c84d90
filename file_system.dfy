/**
 * An abstract file system (path to content) and the transactional writer
 * that replaces a file through a temporary sibling (TransactionalFileWriter).
 *
 * `Disk.WriteTransactional` is the writer as the source runs it: it never
 * looks at the stream's state after writing, and it removes the target
 * before renaming; the file pipeline uses it. `Disk.WriteAtomic` is the
 * writer with both defects corrected.
 */
module FileSystem {
  import opened Wrappers
  import opened Text

  /** The step at which a write runs into trouble: the injectable failure point. */
  datatype Fault =
    | NoFault
    | OpenTempFails            // the temporary file cannot be created
    | DiskFull(capacity: nat)  // the device stores only the first `capacity` characters of the temporary file
    | RemoveFails              // the old target cannot be removed
    | RenameFails              // the temporary file cannot be renamed onto the target

  /** The sibling a write stages its data in. */
  function TempPath(target: string): (tmp: string)
    ensures tmp != target
  {
    target + ".tmp"
  }

  /** What the temporary file holds after `text` was written to it. */
  function Stored(text: string, fault: Fault): (kept: string)
    ensures |kept| <= |text| && kept == text[..|kept|]
    ensures kept == text <==> !(fault.DiskFull? && fault.capacity < |text|)
  {
    if fault.DiskFull? && fault.capacity < |text| then text[..fault.capacity] else text
  }

  /** Writing more text to a file that is already full stores nothing more. */
  lemma StoredAppend(x: string, y: string, fault: Fault)
    ensures Stored(Stored(x, fault) + y, fault) == Stored(x + y, fault)
  {
    if fault.DiskFull? && fault.capacity < |x| {
      assert (x[..fault.capacity] + y)[..fault.capacity] == (x + y)[..fault.capacity];
    }
  }

  /** The result of a write together with the file system it leaves behind. */
  datatype Written = Written(outcome: Outcome, files: map<string, string>)

  /** Whether `path` is in the same state in both file systems. */
  predicate SameEntry(before: map<string, string>, after: map<string, string>, path: string)
  {
    (path in before <==> path in after) && (path in before ==> before[path] == after[path])
  }

  /**
   * TransactionalFileWriter::write as the source runs it: create the
   * temporary file, write every line, remove the target, rename.
   */
  function TransactionalWrite(files: map<string, string>, target: string, lines: seq<string>, fault: Fault): (w: Written)
    ensures w.outcome.Pass? <==> fault != OpenTempFails && fault != RenameFails && !(fault == RemoveFails && target in files)
    ensures w.outcome.Pass? ==> w.files == (files - {TempPath(target)})[target := Stored(Render(lines), fault)]
    ensures fault == OpenTempFails ==> w.files == files
    ensures w.outcome.Fail? && fault != RenameFails ==> SameEntry(files, w.files, target)
    ensures fault == RenameFails ==> w.outcome.Fail? && target !in w.files && TempPath(target) in w.files
    ensures forall p :: p != target && p != TempPath(target) ==> SameEntry(files, w.files, p)
  {
    var tmp := TempPath(target);
    if fault == OpenTempFails then Written(Fail(IOError("Unable to open temporary file for transactional write")), files)
    else
      var staged := files[tmp := Stored(Render(lines), fault)];
      if target in staged && fault == RemoveFails then Written(Fail(IOError("cannot remove " + target)), staged)
      else
        var removed := staged - {target};
        if fault == RenameFails then Written(Fail(IOError("cannot rename onto " + target)), removed)
        else Written(Pass, (removed - {tmp})[target := staged[tmp]])
  }

  /**
   * The legacy TransactionalFileWriter::write: create the temporary file,
   * write every line, rename it onto the target. Like the current writer it
   * never looks at the stream's state; unlike it, it removes nothing first.
   */
  function RenamingWrite(files: map<string, string>, target: string, lines: seq<string>, fault: Fault): (w: Written)
    ensures w.outcome.Pass? <==> fault != OpenTempFails && fault != RenameFails
    ensures w.outcome.Pass? ==> w.files == (files - {TempPath(target)})[target := Stored(Render(lines), fault)]
    ensures w.outcome.Fail? ==> SameEntry(files, w.files, target)
    ensures forall p :: p != target && p != TempPath(target) ==> SameEntry(files, w.files, p)
  {
    var tmp := TempPath(target);
    if fault == OpenTempFails then Written(Fail(IOError("Unable to open temporary file for transactional write")), files)
    else
      var staged := files[tmp := Stored(Render(lines), fault)];
      if fault == RenameFails then Written(Fail(IOError("cannot rename onto " + target)), staged)
      else Written(Pass, (staged - {tmp})[target := staged[tmp]])
  }

  /** The legacy writer shares the short-write defect: a full device truncates the target and reports success. */
  lemma RenamingShortWrite(files: map<string, string>, target: string, lines: seq<string>, capacity: nat)
    requires capacity < |Render(lines)|
    ensures var w := RenamingWrite(files, target, lines, DiskFull(capacity));
      && w.outcome == Pass
      && w.files[target] == Render(lines)[..capacity]
      && w.files[target] != Render(lines)
  {
    var text := Render(lines);
    assert |text[..capacity]| < |text|;
  }

  /** A legacy write that succeeds on a device that kept every line leaves the rendered lines at the target. */
  lemma RenamingStores(files: map<string, string>, target: string, lines: seq<string>, fault: Fault)
    requires Stored(Render(lines), fault) == Render(lines)
    requires RenamingWrite(files, target, lines, fault).outcome.Pass?
    ensures var w := RenamingWrite(files, target, lines, fault);
      target in w.files && w.files[target] == Render(lines)
  {
  }

  /** Without a full device the legacy writer and the corrected writer are the same function. */
  lemma RenamingIsAtomicWhenStored(files: map<string, string>, target: string, lines: seq<string>, fault: Fault)
    requires Stored(Render(lines), fault) == Render(lines)
    ensures RenamingWrite(files, target, lines, fault) == AtomicWrite(files, target, lines, fault)
  {
  }

  /**
   * The writer with its two defects corrected: a write the stream reports as
   * failed aborts before the target is touched, and the rename replaces the
   * target in one step instead of following a separate remove.
   */
  function AtomicWrite(files: map<string, string>, target: string, lines: seq<string>, fault: Fault): (w: Written)
    ensures w.outcome.Pass? ==> w.files == (files - {TempPath(target)})[target := Render(lines)]
    ensures w.outcome.Fail? ==> SameEntry(files, w.files, target)
    ensures forall p :: p != target && p != TempPath(target) ==> SameEntry(files, w.files, p)
    ensures w.outcome.Pass? <==> fault != OpenTempFails && fault != RenameFails && Stored(Render(lines), fault) == Render(lines)
  {
    var tmp := TempPath(target);
    if fault == OpenTempFails then Written(Fail(IOError("Unable to open temporary file for transactional write")), files)
    else
      var text := Render(lines);
      var staged := files[tmp := Stored(text, fault)];
      if Stored(text, fault) != text then Written(Fail(IOError("write to temporary file failed")), staged)
      else if fault == RenameFails then Written(Fail(IOError("cannot rename onto " + target)), staged)
      else Written(Pass, (staged - {tmp})[target := text])
  }

  /**
   * As written, a full device goes unnoticed: the write reports success
   * and the target is replaced by a strict prefix of the data.
   */
  lemma TransactionalShortWrite(files: map<string, string>, target: string, lines: seq<string>, capacity: nat)
    requires capacity < |Render(lines)|
    ensures var w := TransactionalWrite(files, target, lines, DiskFull(capacity));
      && w.outcome == Pass
      && target in w.files
      && w.files[target] == Render(lines)[..capacity]
      && w.files[target] != Render(lines)
  {
    var text := Render(lines);
    assert |text[..capacity]| < |text|;
  }

  /** As written, a failed rename leaves the target removed: the old content is gone. */
  lemma TransactionalRenameFailure(files: map<string, string>, target: string, lines: seq<string>)
    requires target in files
    ensures var w := TransactionalWrite(files, target, lines, RenameFails);
      w.outcome.Fail? && target !in w.files
  {
  }

  /** The two writers agree whenever nothing goes wrong. */
  lemma WritersAgreeWithoutFault(files: map<string, string>, target: string, lines: seq<string>)
    ensures TransactionalWrite(files, target, lines, NoFault) == AtomicWrite(files, target, lines, NoFault)
  {
  }

  /** A concrete instance of the short-write defect: an inventory file emptied by a full device. */
  lemma ShortWriteExample()
    ensures var before := map["cars.csv" := "car-1,Sedan,good,2000,Available\n"];
      var w := TransactionalWrite(before, "cars.csv", ["car-2,Truck,excellent,5000,Available"], DiskFull(0));
      w.outcome == Pass && w.files["cars.csv"] == ""
  {
    TransactionalShortWrite(map["cars.csv" := "car-1,Sedan,good,2000,Available\n"], "cars.csv",
      ["car-2,Truck,excellent,5000,Available"], 0);
  }

  /** The file system, with the failure the next writes run into. */
  class Disk {
    var files: map<string, string>
    var fault: Fault

    constructor (files: map<string, string>, fault: Fault)
      ensures this.files == files && this.fault == fault
    {
      this.files := files;
      this.fault := fault;
    }

    /**
     * The writer as the source runs it, step by step. `window` is the file
     * system between the remove and the rename: when the write gets that
     * far, the target is absent from it.
     */
    method WriteTransactional(target: string, lines: seq<string>) returns (res: Outcome, ghost window: map<string, string>)
      modifies this`files
      ensures Written(res, files) == TransactionalWrite(old(files), target, lines, fault)
      ensures (res.Pass? || fault == RenameFails) ==>
        window == old(files)[TempPath(target) := Stored(Render(lines), fault)] - {target}
    {
      var tmp := target + ".tmp";
      window := files;
      if fault == OpenTempFails {
        return Fail(IOError("Unable to open temporary file for transactional write")), window;
      }
      Stage(tmp, lines);
      if target in files {
        if fault == RemoveFails {
          return Fail(IOError("cannot remove " + target)), window;
        }
        files := files - {target};
      }
      window := files;
      if fault == RenameFails {
        return Fail(IOError("cannot rename onto " + target)), window;
      }
      files := (files - {tmp})[target := files[tmp]];
      res := Pass;
    }

    /** The legacy writer, step by step: stage the lines, then rename onto the target. */
    method WriteRenaming(target: string, lines: seq<string>) returns (res: Outcome)
      modifies this`files
      ensures Written(res, files) == RenamingWrite(old(files), target, lines, fault)
    {
      var tmp := target + ".tmp";
      if fault == OpenTempFails {
        return Fail(IOError("Unable to open temporary file for transactional write"));
      }
      Stage(tmp, lines);
      if fault == RenameFails {
        return Fail(IOError("cannot rename onto " + target));
      }
      files := (files - {tmp})[target := files[tmp]];
      res := Pass;
    }

    /** The corrected writer, step by step: it checks the stream before it renames. */
    method WriteAtomic(target: string, lines: seq<string>) returns (res: Outcome)
      modifies this`files
      ensures Written(res, files) == AtomicWrite(old(files), target, lines, fault)
    {
      var tmp := target + ".tmp";
      if fault == OpenTempFails {
        return Fail(IOError("Unable to open temporary file for transactional write"));
      }
      Stage(tmp, lines);
      if files[tmp] != Render(lines) {
        return Fail(IOError("write to temporary file failed"));
      }
      if fault == RenameFails {
        return Fail(IOError("cannot rename onto " + target));
      }
      files := (files - {tmp})[target := files[tmp]];
      res := Pass;
    }

    /**
     * Opening `tmp` truncated and writing every line to it, each followed
     * by a newline: it holds what the device keeps of the rendered lines.
     */
    method Stage(tmp: string, lines: seq<string>)
      modifies this`files
      ensures files == old(files)[tmp := Stored(Render(lines), fault)]
    {
      files := files[tmp := []];
      var i := 0;
      while i < |lines|
        invariant 0 <= i <= |lines|
        invariant files == old(files)[tmp := Stored(Render(lines[..i]), fault)]
      {
        StoredAppend(Render(lines[..i]), lines[i] + "\n", fault);
        RenderSnoc(lines, i);
        files := files[tmp := Stored(files[tmp] + (lines[i] + "\n"), fault)];
        i := i + 1;
      }
      assert lines[..i] == lines;
    }
  }

  lemma RenderSnoc(lines: seq<string>, i: nat)
    requires i < |lines|
    ensures Render(lines[..i + 1]) == Render(lines[..i]) + (lines[i] + "\n")
  {
    assert lines[..i + 1] == lines[..i] + [lines[i]];
    RenderAppend(lines[..i], [lines[i]]);
    assert Render([lines[i]]) == lines[i] + "\n" + Render([]);
  }
}
