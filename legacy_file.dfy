/**
 * The legacy inventory file (namespace legacy_file): a five-field record
 * identified by its model, its line codec, loading and saving the whole
 * file, and the load-edit-save transaction `mutateCars` together with the
 * three edits the menu code runs through it (add, delete, return).
 */
module LegacyFile {
  import opened Wrappers
  import opened Text
  import opened FileSystem
  import opened Pipeline

  /** One car of the legacy file. The price is a whole number, as for the current record. */
  datatype LegacyCar = LegacyCar(model: string, condition: string, price: int, availability: string, dueDate: string)

  const LegacyConditions: seq<string> := ["excellent", "good", "fair", "minordamages", "majordamages"]

  /** `isValidCondition`: a search of the fixed list of five conditions. */
  function IsValidCondition(condition: string): (ok: bool)
    ensures ok <==> condition in {"excellent", "good", "fair", "minordamages", "majordamages"}
    ensures ok ==> condition != [] && DelimiterFree(condition)
  {
    condition in LegacyConditions
  }

  /**
   * `parseCarLine`. Tokens are taken by position: model, condition, price,
   * then an optional availability and due date, each defaulted when absent
   * or empty. A line with fewer than three tokens, an unreadable price, an
   * invalid condition or a price that is not positive gives no record.
   */
  function ParseCarLine(line: string): (r: Option<LegacyCar>)
    ensures line == [] ==> r == None
    ensures r.None? <==>
      var t := Split(line, ',');
      |t| < 3 || ParseNat(t[2]).None? || !IsValidCondition(t[1]) || ParseNat(t[2]).value <= 0
    ensures r.Some? ==>
      var t, c := Split(line, ','), r.value;
      && c.model == t[0]
      && c.condition == t[1]
      && ParseNat(t[2]) == Some(c.price)
      && c.availability == (if |t| > 3 && t[3] != [] then t[3] else "Available")
      && c.dueDate == (if |t| > 4 && t[4] != [] then t[4] else "None")
  {
    if line == [] then None
    else
      var t := Split(line, ',');
      if |t| < 3 then None
      else
        match ParseNat(t[2])
        case None => None
        case Some(price) =>
          var availability := if |t| > 3 then t[3] else [];
          var dueDate := if |t| > 4 then t[4] else [];
          var c := LegacyCar(t[0], t[1], price,
            if availability == [] then "Available" else availability,
            if dueDate == [] then "None" else dueDate);
          if !IsValidCondition(c.condition) || c.price <= 0 then None else Some(c)
  }

  /** `serialize`: the five fields joined by commas, with no validation. */
  function Serialize(c: LegacyCar): (line: string)
    ensures line == Join([c.model, c.condition, IntToString(c.price), c.availability, c.dueDate], ',')
  {
    JoinFive(c.model, c.condition, IntToString(c.price), c.availability, c.dueDate, ',');
    c.model + "," + c.condition + "," + IntToString(c.price) + "," + c.availability + "," + c.dueDate
  }

  /** `makeRecord`: a new car is available and has no due date. */
  function MakeRecord(model: string, condition: string, price: int): (c: LegacyCar)
  {
    LegacyCar(model, condition, price, "Available", "None")
  }

  /**
   * A car that the codec writes and reads back unchanged; as for the
   * dataset file, the price stays below 10^6, which `ostream`'s default
   * precision prints exactly.
   */
  predicate LegacyStorable(c: LegacyCar)
  {
    && IsValidCondition(c.condition)
    && 0 < c.price < 1000000
    && DelimiterFree(c.model)
    && DelimiterFree(c.availability) && c.availability != []
    && DelimiterFree(c.dueDate) && c.dueDate != []
  }

  /** Every car of the list is storable. */
  predicate AllLegacyStorable(cars: seq<LegacyCar>)
  {
    forall k :: 0 <= k < |cars| ==> LegacyStorable(cars[k])
  }

  /** Round trip: parsing the serialised line of a storable car gives the car. */
  lemma LegacyRoundTrip(c: LegacyCar)
    requires LegacyStorable(c)
    ensures ParseCarLine(Serialize(c)) == Some(c)
  {
    var price := IntToString(c.price);
    NoCommaInDigits(price);
    SplitJoin([c.model, c.condition, price, c.availability, c.dueDate], ',');
    ParseNatToString(c.price);
  }

  /** The line of a storable car is a single line. */
  lemma LegacyOneLine(c: LegacyCar)
    requires LegacyStorable(c)
    ensures '\n' !in Serialize(c)
  {
    NoCommaInDigits(IntToString(c.price));
    var line := c.model + "," + c.condition + "," + IntToString(c.price) + "," + c.availability + "," + c.dueDate;
    assert Serialize(c) == line;
  }

  /** A record made from a valid condition, a positive price and a delimiter-free model survives the file. */
  lemma MadeRecordRoundTrip(model: string, condition: string, price: int)
    requires IsValidCondition(condition) && 0 < price < 1000000 && DelimiterFree(model)
    ensures var c := MakeRecord(model, condition, price);
      && c.availability == "Available" && c.dueDate == "None"
      && ParseCarLine(Serialize(c)) == Some(c)
  {
    LegacyRoundTrip(MakeRecord(model, condition, price));
  }

  /** The lines `writeAll` hands to the writer: one serialised line per car, in order. */
  function SerializeLines(cars: seq<LegacyCar>): (lines: seq<string>)
    ensures |lines| == |cars|
  {
    if cars == [] then [] else [Serialize(cars[0])] + SerializeLines(cars[1..])
  }

  /** The cars `readAll` collects from `lines`: every line that parses, in order. */
  function ParsedCars(lines: seq<string>): (cars: seq<LegacyCar>)
    ensures |cars| <= |lines|
    ensures forall k :: 0 <= k < |cars| ==> IsValidCondition(cars[k].condition) && cars[k].price > 0
  {
    if lines == [] then []
    else
      match ParseCarLine(lines[0])
      case Some(c) => [c] + ParsedCars(lines[1..])
      case None => ParsedCars(lines[1..])
  }

  /** `loadCars` for the file at `path`; a file that cannot be opened yields no cars. */
  function ReadCars(files: map<string, string>, path: string): seq<LegacyCar>
  {
    if path in files then ParsedCars(Lines(files[path])) else []
  }

  /** The save writes what the load reads: reading the lines of storable cars gives the cars. */
  lemma {:induction false} ParsedSerializedCars(cars: seq<LegacyCar>)
    requires AllLegacyStorable(cars)
    ensures ParsedCars(SerializeLines(cars)) == cars
  {
    if cars != [] {
      LegacyRoundTrip(cars[0]);
      assert SerializeLines(cars)[1..] == SerializeLines(cars[1..]);
      ParsedSerializedCars(cars[1..]);
    }
  }

  /** `saveCars` followed by `loadCars` gives back the storable cars when the device kept every line. */
  lemma SaveThenLoad(files: map<string, string>, path: string, cars: seq<LegacyCar>, fault: Fault)
    requires AllLegacyStorable(cars)
    requires Stored(Render(SerializeLines(cars)), fault) == Render(SerializeLines(cars))
    requires RenamingWrite(files, path, SerializeLines(cars), fault).outcome.Pass?
    ensures ReadCars(RenamingWrite(files, path, SerializeLines(cars), fault).files, path) == cars
  {
    WrittenFileReads(files, path, SerializeLines(cars), fault);
    LoadSerialized(cars);
  }

  /** After a passing legacy write that kept every line, the file reads as the rendered lines. */
  lemma WrittenFileReads(files: map<string, string>, path: string, lines: seq<string>, fault: Fault)
    requires Stored(Render(lines), fault) == Render(lines)
    requires RenamingWrite(files, path, lines, fault).outcome.Pass?
    ensures ReadCars(RenamingWrite(files, path, lines, fault).files, path) == ParsedCars(Lines(Render(lines)))
  {
    RenamingStores(files, path, lines, fault);
  }

  /** Reading back the rendered lines of storable cars gives the cars. */
  lemma LoadSerialized(cars: seq<LegacyCar>)
    requires AllLegacyStorable(cars)
    ensures ParsedCars(Lines(Render(SerializeLines(cars)))) == cars
  {
    LinesOfSerialized(cars);
    ParsedSerializedCars(cars);
  }

  /** The file of storable cars splits back into their lines. */
  lemma {:induction false} LinesOfSerialized(cars: seq<LegacyCar>)
    requires AllLegacyStorable(cars)
    ensures Lines(Render(SerializeLines(cars))) == SerializeLines(cars)
  {
    if cars != [] {
      var line, rest := Serialize(cars[0]), SerializeLines(cars[1..]);
      LegacyOneLine(cars[0]);
      LinesOfSerialized(cars[1..]);
      assert Render([line] + rest) == line + ['\n'] + Render(rest);
      SplitCons(line, '\n', Render(rest));
    }
  }

  /** Whether some car has the model. */
  predicate HasModel(cars: seq<LegacyCar>, model: string)
  {
    exists k :: 0 <= k < |cars| && cars[k].model == model
  }

  /** `erase(remove_if(...))` on the model: the cars with another model, in their order. */
  function Without(cars: seq<LegacyCar>, model: string): (kept: seq<LegacyCar>)
    ensures |kept| <= |cars|
    ensures forall k :: 0 <= k < |kept| ==> kept[k].model != model
  {
    if cars == [] then []
    else
      var last := cars[|cars| - 1];
      Without(cars[..|cars| - 1], model) + (if last.model == model then [] else [last])
  }

  /** Removal works car by car: each part of the list is filtered on its own. */
  lemma {:induction false} WithoutAppend(a: seq<LegacyCar>, b: seq<LegacyCar>, model: string)
    ensures Without(a + b, model) == Without(a, model) + Without(b, model)
    decreases |b|
  {
    if b == [] {
      assert a + b == a;
    } else {
      var b' := b[..|b| - 1];
      assert (a + b)[..|a + b| - 1] == a + b';
      WithoutAppend(a, b', model);
    }
  }

  lemma HasModelSnoc(init: seq<LegacyCar>, last: LegacyCar, model: string)
    ensures HasModel(init + [last], model) <==> HasModel(init, model) || last.model == model
  {
    var cars := init + [last];
    if HasModel(init, model) {
      var k :| 0 <= k < |init| && init[k].model == model;
      assert cars[k] == init[k];
    }
    if HasModel(cars, model) && last.model != model {
      var k :| 0 <= k < |cars| && cars[k].model == model;
      assert k < |init| && init[k] == cars[k];
    }
    assert cars[|init|] == last;
  }

  /** Removal keeps every car with another model as often as it occurs. */
  lemma {:induction false} WithoutKeeps(cars: seq<LegacyCar>, model: string)
    ensures forall c: LegacyCar :: c.model != model ==> multiset(Without(cars, model))[c] == multiset(cars)[c]
  {
    if cars != [] {
      var init, last := cars[..|cars| - 1], cars[|cars| - 1];
      WithoutKeeps(init, model);
      assert cars == init + [last];
    }
  }

  /** The length changes exactly when the model is present; without it the list is untouched. */
  lemma {:induction false} WithoutShrinks(cars: seq<LegacyCar>, model: string)
    ensures |Without(cars, model)| == |cars| <==> !HasModel(cars, model)
    ensures !HasModel(cars, model) ==> Without(cars, model) == cars
  {
    if cars != [] {
      var init, last := cars[..|cars| - 1], cars[|cars| - 1];
      WithoutShrinks(init, model);
      assert cars == init + [last];
      HasModelSnoc(init, last, model);
    }
  }

  /** Removal keeps only cars that were in the list, so it keeps a list of storable cars storable. */
  lemma {:induction false} WithoutStorable(cars: seq<LegacyCar>, model: string)
    requires AllLegacyStorable(cars)
    ensures AllLegacyStorable(Without(cars, model))
  {
    if cars != [] {
      WithoutStorable(cars[..|cars| - 1], model);
    }
  }

  /** The renter tag `"Rented by the user ID: " + std::to_string(id)` of the legacy status field. */
  function RentedTag(id: int): (tag: string)
    ensures tag != "Available"
  {
    "Rented by the user ID: " + IntToString(id)
  }

  /** Whether the car is the one `returnCar` looks for. */
  predicate RentedModel(c: LegacyCar, model: string, tag: string)
  {
    c.model == model && c.availability == tag
  }

  /** The position of the first car of that model rented under `tag`, or the length when there is none. */
  function FirstRented(cars: seq<LegacyCar>, model: string, tag: string): (k: nat)
    ensures k <= |cars|
    ensures k < |cars| ==> RentedModel(cars[k], model, tag)
    ensures forall j :: 0 <= j < k ==> !RentedModel(cars[j], model, tag)
  {
    if cars == [] then 0
    else if RentedModel(cars[0], model, tag) then 0
    else 1 + FirstRented(cars[1..], model, tag)
  }

  /** The return menu's choices "1" to "5" name the five conditions; anything else is refused. */
  function ConditionChoice(choice: string): (condition: Option<string>)
    ensures condition.Some? <==> choice in {"1", "2", "3", "4", "5"}
    ensures condition.Some? ==> IsValidCondition(condition.value)
  {
    if choice == "1" then Some("excellent")
    else if choice == "2" then Some("good")
    else if choice == "3" then Some("fair")
    else if choice == "4" then Some("minordamages")
    else if choice == "5" then Some("majordamages")
    else None
  }

  /** A returned car: the new condition, available again, no due date. */
  function Returned(c: LegacyCar, condition: string): (r: LegacyCar)
    ensures r.model == c.model && r.price == c.price
  {
    c.(condition := condition, availability := "Available", dueDate := "None")
  }

  /** The edits the menu code hands to `mutateCars`. */
  datatype Edit =
    | AddCar(model: string, condition: string, price: int)
    | DeleteCar(model: string)
    | ReturnCar(model: string, userId: int, choice: string)

  /** What an edit reports and the list it leaves. */
  datatype Edited = Edited(changed: bool, cars: seq<LegacyCar>)

  /** The effect of each edit on the loaded list. */
  function Apply(edit: Edit, cars: seq<LegacyCar>): (e: Edited)
    ensures !e.changed ==> e.cars == cars
  {
    match edit
    case AddCar(model, condition, price) =>
      if HasModel(cars, model) then Edited(false, cars) else Edited(true, cars + [MakeRecord(model, condition, price)])
    case DeleteCar(model) =>
      var kept := Without(cars, model);
      WithoutShrinks(cars, model);
      Edited(|kept| != |cars|, kept)
    case ReturnCar(model, userId, choice) =>
      var k := FirstRented(cars, model, RentedTag(userId));
      if k == |cars| || ConditionChoice(choice).None? then Edited(false, cars)
      else Edited(true, cars[k := Returned(cars[k], ConditionChoice(choice).value)])
  }

  /** Adding a model that is absent and then deleting it restores the list. */
  lemma AddThenDelete(cars: seq<LegacyCar>, model: string, condition: string, price: int)
    requires !HasModel(cars, model)
    ensures var added := Apply(AddCar(model, condition, price), cars);
      added.changed && Apply(DeleteCar(model), added.cars) == Edited(true, cars)
  {
    var added := cars + [MakeRecord(model, condition, price)];
    WithoutShrinks(cars, model);
    assert added[..|added| - 1] == cars;
    assert Without(added, model) == cars;
  }

  /** Every edit keeps a file of storable cars storable, given a storable new record. */
  lemma ApplyKeepsStorable(edit: Edit, cars: seq<LegacyCar>)
    requires AllLegacyStorable(cars)
    requires edit.AddCar? ==> LegacyStorable(MakeRecord(edit.model, edit.condition, edit.price))
    ensures var after := Apply(edit, cars).cars;
      AllLegacyStorable(after)
  {
    match edit
    case AddCar(model, condition, price) =>
      AppendStorable(cars, MakeRecord(model, condition, price));
    case DeleteCar(model) =>
      WithoutStorable(cars, model);
    case ReturnCar(model, userId, choice) =>
      var k := FirstRented(cars, model, RentedTag(userId));
      if k < |cars| && ConditionChoice(choice).Some? {
        ReturnedStorable(cars, k, ConditionChoice(choice).value);
      }
  }

  lemma AppendStorable(cars: seq<LegacyCar>, c: LegacyCar)
    requires AllLegacyStorable(cars) && LegacyStorable(c)
    ensures AllLegacyStorable(cars + [c])
  {
  }

  lemma ReturnedStorable(cars: seq<LegacyCar>, k: nat, condition: string)
    requires AllLegacyStorable(cars) && k < |cars| && IsValidCondition(condition)
    ensures AllLegacyStorable(cars[k := Returned(cars[k], condition)])
  {
  }

  /** The vector a `mutateCars` callback edits in place. */
  class CarList {
    var cars: seq<LegacyCar>

    constructor (cars: seq<LegacyCar>)
      ensures this.cars == cars
    {
      this.cars := cars;
    }

    /** The add edit of `addCar`: a model already present is refused, otherwise the new record is appended. */
    method Add(model: string, condition: string, price: int) returns (added: bool)
      modifies this
      ensures HasModel(old(cars), model) ==> !added && cars == old(cars)
      ensures !HasModel(old(cars), model) ==> added && cars == old(cars) + [MakeRecord(model, condition, price)]
    {
      var i := 0;
      while i < |cars|
        invariant 0 <= i <= |cars|
        invariant forall j :: 0 <= j < i ==> cars[j].model != model
      {
        if cars[i].model == model {
          return false;
        }
        i := i + 1;
      }
      cars := cars + [MakeRecord(model, condition, price)];
      added := true;
    }

    /** The delete edit of `deleteCar`: every car of the model goes; it reports whether the size changed. */
    method Delete(model: string) returns (deleted: bool)
      modifies this
      ensures cars == Without(old(cars), model)
      ensures deleted <==> |cars| != |old(cars)|
    {
      var oldSize := |cars|;
      var kept: seq<LegacyCar> := [];
      var i := 0;
      while i < |cars|
        invariant 0 <= i <= |cars|
        invariant kept == Without(cars[..i], model)
      {
        assert cars[..i + 1][..i] == cars[..i];
        if cars[i].model != model {
          kept := kept + [cars[i]];
        }
        i := i + 1;
      }
      assert cars[..i] == cars;
      cars := kept;
      deleted := |cars| != oldSize;
    }

    /**
     * The return edit of `returnCar`: the first car of the model rented by
     * `userId` takes the chosen condition and becomes available; an invalid
     * choice refuses the edit and changes nothing.
     */
    method Return(model: string, userId: int, choice: string) returns (found: bool, updated: bool)
      modifies this
      ensures var k := FirstRented(old(cars), model, RentedTag(userId));
        && (found <==> k < |old(cars)|)
        && (updated <==> found && ConditionChoice(choice).Some?)
        && (updated ==> cars == old(cars)[k := Returned(old(cars)[k], ConditionChoice(choice).value)])
        && (!updated ==> cars == old(cars))
    {
      var tag := RentedTag(userId);
      var i := 0;
      while i < |cars|
        invariant 0 <= i <= |cars| && cars == old(cars)
        invariant forall j :: 0 <= j < i ==> !RentedModel(cars[j], model, tag)
      {
        if cars[i].model == model && cars[i].availability == tag {
          var condition := ConditionChoice(choice);
          if condition.None? {
            return true, false;
          }
          cars := cars[i := cars[i].(condition := condition.value, availability := "Available", dueDate := "None")];
          return true, true;
        }
        i := i + 1;
      }
      return false, false;
    }
  }

  /**
   * `mutateCars`: load the file, run the edit on the list, and save the
   * list through the legacy writer only when the edit reports a change.
   * A writer that throws is a `Fail` outcome.
   */
  method MutateCars(disk: Disk, path: string, edit: Edit) returns (changed: bool, res: Outcome)
    modifies disk`files
    ensures changed == Apply(edit, ReadCars(old(disk.files), path)).changed
    ensures !changed ==> res == Pass && disk.files == old(disk.files)
    ensures changed ==>
      Written(res, disk.files)
        == RenamingWrite(old(disk.files), path, SerializeLines(Apply(edit, ReadCars(old(disk.files), path)).cars), disk.fault)
  {
    var loaded := ReadCars(disk.files, path);
    var list := new CarList(loaded);
    match edit {
      case AddCar(model, condition, price) =>
        changed := list.Add(model, condition, price);
      case DeleteCar(model) =>
        changed := list.Delete(model);
        WithoutShrinks(loaded, model);
      case ReturnCar(model, userId, choice) =>
        var found;
        found, changed := list.Return(model, userId, choice);
    }
    assert Edited(changed, list.cars) == Apply(edit, loaded);
    if changed {
      res := disk.WriteRenaming(path, SerializeLines(list.cars));
    } else {
      res := Pass;
    }
  }
}
