/**
 * The inventory record, its validator and its line codec
 * (CarRecord, CarRecordValidator and CarRecordParser of the car_rental namespace).
 */
module CarRecords {
  import opened Wrappers
  import opened Text

  /**
   * One inventory unit. The price is a whole number of currency units: the
   * source holds a double, and the model keeps only the integer prices that
   * the codec prints and reads back exactly.
   */
  datatype CarRecord = CarRecord(id: string, model: string, condition: string, pricePerDay: int, status: string)

  /** The condition strings the validator accepts, in the order it lists them. */
  const AllowedConditions: seq<string> := ["excellent", "good", "fair", "minordamages", "majordamages"]

  /** A record may be persisted only when it passes this check. */
  function Validate(r: CarRecord): (ok: bool)
    ensures ok <==>
      && r.id != []
      && r.model != []
      && r.condition in {"excellent", "good", "fair", "minordamages", "majordamages"}
      && r.pricePerDay > 0
  {
    if r.id == [] || r.model == [] then false
    else if r.condition !in AllowedConditions then false
    else if r.pricePerDay <= 0 then false
    else true
  }

  /** `std::stod` on a price token; the model reads exactly the digit strings. */
  function ParsePrice(token: string): (p: Option<int>)
    ensures p.Some? <==> IsDigits(token)
    ensures p.Some? ==> p.value >= 0
  {
    match ParseNat(token)
    case None => None
    case Some(n) => Some(n)
  }

  /**
   * One dataset line. `Ok(None)` is the empty line (no record, no error);
   * `Err` is a line with fewer than four tokens, an unreadable price or a
   * record the validator rejects. Four tokens are the legacy shape
   * `id,condition,price,status` whose model is the id; five or more are
   * `id,model,condition,price,status` and any further token is ignored.
   */
  function Parse(line: string): (res: Result<Option<CarRecord>>)
    ensures line == [] <==> res == Ok(None)
    ensures line != [] && |Split(line, ',')| < 4 ==> res == Err(ParseError(line))
    ensures res.Ok? && res.value.Some? ==>
      var t, c := Split(line, ','), res.value.value;
      && Validate(c)
      && |t| >= 4
      && c.id == t[0]
      && (|t| == 4 ==>
            c.model == t[0] && c.condition == t[1] && ParsePrice(t[2]) == Some(c.pricePerDay) && c.status == t[3])
      && (|t| > 4 ==>
            c.model == t[1] && c.condition == t[2] && ParsePrice(t[3]) == Some(c.pricePerDay) && c.status == t[4])
  {
    if line == [] then Ok(None)
    else
      var t := Split(line, ',');
      if |t| < 4 then Err(ParseError(line))
      else
        var full := |t| > 4;
        match ParsePrice(if full then t[3] else t[2])
        case None => Err(ParseError(line))
        case Some(price) =>
          var c := CarRecord(
            t[0],
            if full then t[1] else t[0],
            if full then t[2] else t[1],
            price,
            if full then t[4] else t[3]);
          if Validate(c) then Ok(Some(c)) else Err(ValidationError(line))
  }

  /** The line for a record: re-validated, then `id,model,condition,price,status`. */
  function Serialize(r: CarRecord): (res: Result<string>)
    ensures res.Ok? <==> Validate(r)
    ensures res.Ok? ==> res.value == Join([r.id, r.model, r.condition, NatToString(r.pricePerDay), r.status], ',')
  {
    if !Validate(r) then Err(ValidationError(r.id))
    else
      JoinFive(r.id, r.model, r.condition, NatToString(r.pricePerDay), r.status, ',');
      Ok(r.id + "," + r.model + "," + r.condition + "," + NatToString(r.pricePerDay) + "," + r.status)
  }

  /** Serialising every record in order; the first invalid one aborts the whole batch. */
  function SerializeAll(records: seq<CarRecord>): (res: Result<seq<string>>)
    ensures res.Ok? <==> forall i :: 0 <= i < |records| ==> Validate(records[i])
    ensures res.Ok? ==>
      && |res.value| == |records|
      && forall i :: 0 <= i < |records| ==> Serialize(records[i]) == Ok(res.value[i])
  {
    if records == [] then Ok([])
    else
      match Serialize(records[0])
      case Err(e) => Err(e)
      case Ok(line) =>
        match SerializeAll(records[1..])
        case Err(e) => Err(e)
        case Ok(rest) =>
          assert forall i :: 1 <= i < |records| ==> records[i] == records[1..][i - 1];
          Ok([line] + rest)
  }

  /**
   * A record that survives a write to a dataset file and a read back
   * unchanged: it validates, its text fields hold no delimiter, and its
   * price is below 10^6, the range that default six-digit `ostream`
   * precision prints exactly (larger prices are written in scientific form
   * and read back rounded).
   */
  predicate Storable(r: CarRecord)
  {
    && Validate(r)
    && DelimiterFree(r.id) && DelimiterFree(r.model) && DelimiterFree(r.status) && r.status != []
    && r.pricePerDay < 1000000
  }

  /** Every record of the list is storable. */
  predicate AllStorable(records: seq<CarRecord>)
  {
    forall k :: 0 <= k < |records| ==> Storable(records[k])
  }

  /** Round trip: parsing the serialised line of a storable record gives the record. */
  lemma ParseSerialize(r: CarRecord)
    requires Storable(r)
    ensures Serialize(r).Ok? && Parse(Serialize(r).value) == Ok(Some(r))
  {
    var price := NatToString(r.pricePerDay);
    var toks := [r.id, r.model, r.condition, price, r.status];
    NoCommaInDigits(price);
    SplitJoin(toks, ',');
    ParseNatToString(r.pricePerDay);
  }

  /**
   * When a line of four or more tokens parses: exactly when its id, its
   * model (in the five-token shape), its condition and its price pass.
   */
  lemma ParseAccepts(line: string)
    requires line != [] && |Split(line, ',')| >= 4
    ensures var t := Split(line, ',');
      var full := |t| > 4;
      var price := ParsePrice(if full then t[3] else t[2]);
      Parse(line).Ok? <==>
        && t[0] != []
        && (full ==> t[1] != [])
        && (if full then t[2] else t[1]) in {"excellent", "good", "fair", "minordamages", "majordamages"}
        && price.Some? && price.value > 0
  {
  }

  /**
   * The legacy four-token shape is still read: `id,condition,price,status`
   * of a storable record whose model is its id parses to that record.
   */
  lemma ParseLegacyShape(r: CarRecord)
    requires Storable(r) && r.model == r.id
    ensures Parse(Join([r.id, r.condition, NatToString(r.pricePerDay), r.status], ',')) == Ok(Some(r))
  {
    var price := NatToString(r.pricePerDay);
    var toks := [r.id, r.condition, price, r.status];
    NoCommaInDigits(price);
    SplitJoin(toks, ',');
    ParseNatToString(r.pricePerDay);
  }

  /** A serialised storable record is a single line. */
  lemma SerializedIsOneLine(r: CarRecord)
    requires Storable(r)
    ensures Serialize(r).Ok? && '\n' !in Serialize(r).value
  {
    var price := NatToString(r.pricePerDay);
    NoCommaInDigits(price);
    var line := r.id + "," + r.model + "," + r.condition + "," + price + "," + r.status;
    assert Serialize(r).value == line;
    assert '\n' !in r.condition;
  }

  /** Tokens after the fifth are ignored: appending more of them changes neither the verdict nor the record. */
  lemma ParseIgnoresTrailingTokens(line: string, extra: string)
    requires |Split(line, ',')| >= 5
    requires line[|line| - 1] != ','
    ensures Parse(line + [','] + extra).Ok? <==> Parse(line).Ok?
    ensures Parse(line).Ok? ==> Parse(line + [','] + extra) == Parse(line)
  {
    SplitAppend(line, ',', extra);
    var t, t' := Split(line, ','), Split(line + [','] + extra, ',');
    assert t' == t + Split(extra, ',');
    assert t'[..5] == t[..5];
  }
}
