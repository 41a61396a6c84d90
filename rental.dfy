/**
 * The business layer (RentalService): adding a car, listing what can be
 * rented, renting and returning, ingesting a batch and saving. Every
 * change goes through the repository and is flushed to the backend at
 * once; an exception the flush throws becomes an `Err`/`Fail` result.
 */
module Rental {
  import opened Wrappers
  import opened CarRecords
  import opened FileSystem
  import opened Pipeline
  import opened Storage
  import opened Repository

  const RentedPrefix: string := "Rented by the user ID: "

  /** The status a rented car carries: the fixed prefix followed by the renter's id. */
  function RentedStatus(userId: string): (s: string)
    ensures |s| == |RentedPrefix| + |userId|
    ensures s[..|RentedPrefix|] == RentedPrefix && s[|RentedPrefix|..] == userId
    ensures s != "Available"
  {
    RentedPrefix + userId
  }

  /** The flush's own outcome behind a `Result<bool>` of the service: `Ok` passed, `Err(e)` failed with `e`. */
  function FlushOutcome(res: Result<bool>): Outcome
  {
    if res.Ok? then Pass else Fail(res.error)
  }

  function Min(a: nat, b: nat): nat
  {
    if a <= b then a else b
  }

  class RentalService {
    const repo: CarRepository

    constructor (repo: CarRepository)
      ensures this.repo == repo
    {
      this.repo := repo;
    }

    /**
     * `addCar`: an id already present is rejected and nothing changes;
     * otherwise the record is stored without further checks and flushed.
     */
    method AddCar(r: CarRecord) returns (res: Outcome)
      requires repo.Valid()
      modifies repo, repo.backend.Footprint()
      ensures repo.Valid()
      ensures r.id in old(repo.records) ==>
        res == Fail(Duplicate(r.id)) && unchanged(repo) && unchanged(repo.backend.Footprint())
      ensures r.id !in old(repo.records) ==>
        && repo.records == old(repo.records)[r.id := r]
        && repo.persistCalls == old(repo.persistCalls) + 1
        && (res.Pass? <==> !repo.dirty)
      ensures repo.backend.FileBackend? ==> repo.backend.disk.fault == old(repo.backend.disk.fault)
      ensures r.id !in old(repo.records) && repo.backend.MemoryBackend? ==> res == Pass && repo.backend.store.records == SortedValues(repo.records)
      ensures r.id !in old(repo.records) && repo.backend.FileBackend? ==>
        Written(res, repo.backend.disk.files)
          == WriteAllEffect(old(repo.backend.disk.files), repo.backend.path, SortedValues(repo.records), repo.backend.disk.fault)
      ensures r.id !in old(repo.records) && res.Pass? && repo.KeptWhole() ==> repo.backend.Load() == SortedValues(repo.records)
    {
      if repo.Find(r.id).Some? {
        return Fail(Duplicate(r.id));
      }
      var _ := repo.Upsert(r);
      res := repo.Flush();
    }

    /** `listAvailable`: the first `limit` available cars in id order. */
    method ListAvailable(limit: nat) returns (cars: seq<CarRecord>)
      requires repo.Valid()
      ensures var avail := SortedValues(AvailableOf(repo.records));
        |cars| == Min(limit, |avail|) && cars == avail[..|cars|]
      ensures forall i :: 0 <= i < |cars| ==> cars[i].status == "Available" && cars[i].id in repo.records
    {
      var avail := repo.Available();
      cars := if |avail| > limit then avail[..limit] else avail;
      assert forall i :: 0 <= i < |cars| ==> cars[i] == avail[i];
    }

    /**
     * `rentCar`: a car that is missing or not "Available" is refused with
     * nothing changed and no amount due. Otherwise the amount due is the
     * daily price, the status becomes the renter tag, and the change is
     * flushed at once.
     */
    method RentCar(carId: string, userId: string) returns (res: Result<bool>, amountDue: Option<int>)
      requires repo.Valid()
      modifies repo, repo.backend.Footprint()
      ensures repo.Valid()
      ensures !(carId in old(repo.records) && old(repo.records)[carId].status == "Available") ==>
        res == Ok(false) && amountDue == None && unchanged(repo) && unchanged(repo.backend.Footprint())
      ensures carId in old(repo.records) && old(repo.records)[carId].status == "Available" ==>
        && amountDue == Some(old(repo.records)[carId].pricePerDay)
        && repo.records == old(repo.records)[carId := old(repo.records)[carId].(status := RentedStatus(userId))]
        && repo.persistCalls == old(repo.persistCalls) + 1
        && (res == Ok(true) <==> !repo.dirty)
        && (res.Err? <==> repo.dirty)
      ensures repo.backend.FileBackend? ==> repo.backend.disk.fault == old(repo.backend.disk.fault)
      ensures carId in old(repo.records) && old(repo.records)[carId].status == "Available" && repo.backend.MemoryBackend? ==> res == Ok(true) && repo.backend.store.records == SortedValues(repo.records)
      ensures carId in old(repo.records) && old(repo.records)[carId].status == "Available" && repo.backend.FileBackend? ==>
        Written(FlushOutcome(res), repo.backend.disk.files)
          == WriteAllEffect(old(repo.backend.disk.files), repo.backend.path, SortedValues(repo.records), repo.backend.disk.fault)
      ensures carId in old(repo.records) && old(repo.records)[carId].status == "Available" && res.Ok? && repo.KeptWhole() ==> repo.backend.Load() == SortedValues(repo.records)
    {
      var existing := repo.Find(carId);
      if existing.None? || existing.value.status != "Available" {
        return Ok(false), None;
      }
      amountDue := Some(existing.value.pricePerDay);
      var updated := repo.Update(carId, (c: CarRecord) => c.(status := RentedStatus(userId)));
      var flushed := repo.Flush();
      res := if flushed.Pass? then Ok(true) else Err(flushed.error);
    }

    /**
     * `returnCar`: an unknown id is refused with nothing changed; a known
     * car becomes "Available", whatever its status was, and is flushed.
     */
    method ReturnCar(carId: string) returns (res: Result<bool>)
      requires repo.Valid()
      modifies repo, repo.backend.Footprint()
      ensures repo.Valid()
      ensures carId !in old(repo.records) ==>
        res == Ok(false) && unchanged(repo) && unchanged(repo.backend.Footprint())
      ensures carId in old(repo.records) ==>
        && repo.records == old(repo.records)[carId := old(repo.records)[carId].(status := "Available")]
        && repo.persistCalls == old(repo.persistCalls) + 1
        && (res == Ok(true) <==> !repo.dirty)
        && (res.Err? <==> repo.dirty)
      ensures repo.backend.FileBackend? ==> repo.backend.disk.fault == old(repo.backend.disk.fault)
      ensures carId in old(repo.records) && repo.backend.MemoryBackend? ==> res == Ok(true) && repo.backend.store.records == SortedValues(repo.records)
      ensures carId in old(repo.records) && repo.backend.FileBackend? ==>
        Written(FlushOutcome(res), repo.backend.disk.files)
          == WriteAllEffect(old(repo.backend.disk.files), repo.backend.path, SortedValues(repo.records), repo.backend.disk.fault)
      ensures carId in old(repo.records) && res.Ok? && repo.KeptWhole() ==> repo.backend.Load() == SortedValues(repo.records)
    {
      var updated := repo.Update(carId, (c: CarRecord) => c.(status := "Available"));
      if !updated {
        return Ok(false);
      }
      var flushed := repo.Flush();
      res := if flushed.Pass? then Ok(true) else Err(flushed.error);
    }

    /** `ingest`: merge the records by id, last one winning, then flush if anything is pending. */
    method Ingest(batch: seq<CarRecord>) returns (res: Outcome)
      requires repo.Valid()
      modifies repo, repo.backend.Footprint()
      ensures repo.Valid()
      ensures repo.records == old(repo.records) + Index(batch)
      ensures batch == [] && !old(repo.dirty) ==>
        res == Pass && !repo.dirty && repo.persistCalls == old(repo.persistCalls) && unchanged(repo.backend.Footprint())
      ensures batch != [] || old(repo.dirty) ==>
        repo.persistCalls == old(repo.persistCalls) + 1 && (res.Pass? <==> !repo.dirty)
      ensures repo.backend.FileBackend? ==> repo.backend.disk.fault == old(repo.backend.disk.fault)
      ensures (batch != [] || old(repo.dirty)) && repo.backend.MemoryBackend? ==> res == Pass && repo.backend.store.records == SortedValues(repo.records)
      ensures (batch != [] || old(repo.dirty)) && repo.backend.FileBackend? ==>
        Written(res, repo.backend.disk.files)
          == WriteAllEffect(old(repo.backend.disk.files), repo.backend.path, SortedValues(repo.records), repo.backend.disk.fault)
      ensures (batch != [] || old(repo.dirty)) && res.Pass? && repo.KeptWhole() ==> repo.backend.Load() == SortedValues(repo.records)
    {
      repo.BulkUpsert(batch);
      res := repo.Flush();
    }

    /** `save`: flush whatever is pending. */
    method Save() returns (res: Outcome)
      requires repo.Valid()
      modifies repo, repo.backend.Footprint()
      ensures repo.Valid() && repo.records == old(repo.records)
      ensures !old(repo.dirty) ==>
        res == Pass && !repo.dirty && repo.persistCalls == old(repo.persistCalls) && unchanged(repo.backend.Footprint())
      ensures old(repo.dirty) ==> repo.persistCalls == old(repo.persistCalls) + 1 && (res.Pass? <==> !repo.dirty)
      ensures repo.backend.FileBackend? ==> repo.backend.disk.fault == old(repo.backend.disk.fault)
      ensures old(repo.dirty) && repo.backend.MemoryBackend? ==> res == Pass && repo.backend.store.records == SortedValues(repo.records)
      ensures old(repo.dirty) && repo.backend.FileBackend? ==>
        Written(res, repo.backend.disk.files)
          == WriteAllEffect(old(repo.backend.disk.files), repo.backend.path, SortedValues(repo.records), repo.backend.disk.fault)
      ensures old(repo.dirty) && res.Pass? && repo.KeptWhole() ==> repo.backend.Load() == SortedValues(repo.records)
    {
      res := repo.Flush();
    }

    function TotalRecords(): nat
      reads this, repo
    {
      repo.TotalRecords()
    }
  }

  /** A rented car drops out of the available listing. */
  lemma RentedNotAvailable(m: map<string, CarRecord>, carId: string, userId: string)
    requires carId in m
    ensures carId !in AvailableOf(m[carId := m[carId].(status := RentedStatus(userId))])
  {
  }

  /** Returning a car that was rented from "Available" restores the inventory exactly. */
  lemma ReturnUndoesRent(m: map<string, CarRecord>, carId: string, userId: string)
    requires carId in m && m[carId].status == "Available"
    ensures var rented := m[carId := m[carId].(status := RentedStatus(userId))];
      rented[carId := rented[carId].(status := "Available")] == m
  {
    var rented := m[carId := m[carId].(status := RentedStatus(userId))];
    assert rented[carId].(status := "Available") == m[carId];
  }
}
