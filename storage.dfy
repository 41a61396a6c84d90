/**
 * Storage backends (StorageBackend, FileStorageBackend,
 * MemoryStorageBackend, StorageBackendFactory): load all records,
 * persist all records, report an identity. The two variants are the
 * constructors of one datatype; the factory picks one by kind.
 */
module Storage {
  import opened Wrappers
  import opened CarRecords
  import opened FileSystem
  import opened Pipeline

  /** The process memory of the memory backend: the sequence persisted last. */
  class MemoryStorage {
    var records: seq<CarRecord>

    constructor (seed: seq<CarRecord>)
      ensures records == seed
    {
      records := seed;
    }
  }

  datatype BackendKind = FileKind | MemoryKind

  datatype Backend =
    | FileBackend(path: string, disk: Disk)
    | MemoryBackend(store: MemoryStorage)
  {
    /** The objects a persist may change. */
    function Footprint(): set<object>
    {
      match this
      case FileBackend(_, d) => {d}
      case MemoryBackend(s) => {s}
    }

    /** The diagnostic identity; the file variant is recognisable by its `file:` prefix. */
    function Name(): (n: string)
      ensures FileBackend? <==> |n| >= 5 && n[..5] == "file:"
      ensures FileBackend? ==> n[5..] == path
      ensures MemoryBackend? ==> n == "in-memory"
    {
      match this
      case FileBackend(path, _) => "file:" + path
      case MemoryBackend(_) =>
        assert "in-memory"[..5] == "in-me";
        "in-memory"
    }

    /** What `loadCars` returns now. */
    function Load(): seq<CarRecord>
      reads Footprint()
    {
      match this
      case FileBackend(path, disk) => Streamed(disk.files, path)
      case MemoryBackend(store) => store.records
    }

    /**
     * `persistCars`. The memory variant replaces its sequence; the file
     * variant writes the dataset file through the pipeline, and what it
     * stores loads back unchanged when every record is storable and the
     * device kept the whole file.
     */
    method Persist(records: seq<CarRecord>) returns (res: Outcome)
      modifies Footprint()
      ensures MemoryBackend? ==> res == Pass && store.records == records
      ensures FileBackend? ==>
        && disk.fault == old(disk.fault)
        && Written(res, disk.files) == WriteAllEffect(old(disk.files), path, records, disk.fault)
      ensures res.Pass? && AllStorable(records) && (FileBackend? ==> FitsOnDevice(records, disk.fault)) ==> Load() == records
    {
      match this
      case MemoryBackend(store) =>
        store.records := records;
        res := Pass;
      case FileBackend(path, disk) =>
        res := WriteAll(disk, path, records);
        if res.Pass? && AllStorable(records) && FitsOnDevice(records, disk.fault) {
          WriteAllThenStream(old(disk.files), path, records, disk.fault);
        }
    }
  }

  /** StorageBackendFactory::create: the file variant over `path`, or a fresh empty memory variant. */
  method CreateBackend(kind: BackendKind, path: string, disk: Disk) returns (b: Backend)
    ensures kind == FileKind ==> b == FileBackend(path, disk)
    ensures kind == MemoryKind ==> b.MemoryBackend? && fresh(b.store) && b.store.records == []
  {
    match kind
    case FileKind =>
      b := FileBackend(path, disk);
    case MemoryKind =>
      var store := new MemoryStorage([]);
      b := MemoryBackend(store);
  }
}
