/**
 * The rules the legacy menu code embeds between its prompts: how many
 * cars a customer or employee may still rent, given the rating in the
 * user file and the cars rented under their id, and how a return moves
 * that rating up or down according to the condition the car came back in.
 */
module LegacyRules {
  import opened Wrappers
  import opened LegacyFile

  /** The eight rating letters, from worst to best. */
  const Ratings: seq<string> := ["D", "D+", "C", "C+", "B", "B+", "A", "A+"]

  /** How many cars a rating allows at once; an unknown rating allows none. */
  function RatingLimit(rating: string): (limit: nat)
    ensures limit <= 4
    ensures limit == 0 <==> rating !in Ratings
  {
    if rating == "A+" || rating == "A" then 4
    else if rating == "B+" || rating == "B" then 3
    else if rating == "C+" || rating == "C" then 2
    else if rating == "D+" || rating == "D" then 1
    else 0
  }

  /** The numeric value the rating update works on; an unknown letter has none. */
  function RatingValue(rating: string): (v: Option<int>)
    ensures v.Some? <==> rating in Ratings
    ensures v.Some? ==> 2 <= v.value <= 9
  {
    if rating == "A" then Some(8)
    else if rating == "A+" then Some(9)
    else if rating == "B+" then Some(7)
    else if rating == "B" then Some(6)
    else if rating == "C+" then Some(5)
    else if rating == "C" then Some(4)
    else if rating == "D+" then Some(3)
    else if rating == "D" then Some(2)
    else None
  }

  /** The letter the update writes back for a value; a value outside 2..9 has none. */
  function ValueRating(value: int): (r: Option<string>)
    ensures r.Some? <==> 2 <= value <= 9
    ensures r.Some? ==> r.value in Ratings
  {
    match value
    case 8 => Some("A")
    case 9 => Some("A+")
    case 7 => Some("B+")
    case 6 => Some("B")
    case 5 => Some("C+")
    case 4 => Some("C")
    case 3 => Some("D+")
    case 2 => Some("D")
    case _ => None
  }

  /** Letters to values and back is the identity on the eight letters. */
  lemma RatingRoundTrip(rating: string)
    requires rating in Ratings
    ensures ValueRating(RatingValue(rating).value) == Some(rating)
  {
  }

  /** Values to letters and back is the identity on 2..9. */
  lemma ValueRoundTrip(value: int)
    requires 2 <= value <= 9
    ensures RatingValue(ValueRating(value).value) == Some(value)
  {
  }

  /** The limit table agrees with the value scale: the limit is half the value, rounded down. */
  lemma LimitIsHalfValue(rating: string)
    requires rating in Ratings
    ensures RatingLimit(rating) == RatingValue(rating).value / 2
  {
  }

  /** `std::max(2, std::min(9, v))`. */
  function Clamp(v: int): (c: int)
    ensures 2 <= c <= 9
    ensures 2 <= v <= 9 ==> c == v
    ensures v < 2 ==> c == 2
    ensures v > 9 ==> c == 9
  {
    if v < 2 then 2 else if v > 9 then 9 else v
  }

  /** The change a return makes: "1" (excellent) adds 2, "4" and "5" (damages) take 1 away. */
  function Delta(choice: string): (d: int)
    ensures d == 2 <==> choice == "1"
    ensures d == -1 <==> choice == "4" || choice == "5"
    ensures d == 0 <==> choice != "1" && choice != "4" && choice != "5"
  {
    if choice == "1" then 2 else if choice == "4" || choice == "5" then -1 else 0
  }

  /**
   * The new rating after a return with the given condition choice: the
   * letter's value moved by the choice and clamped to 2..9, written back
   * as a letter. An unknown letter aborts the update.
   */
  function AdjustRating(rating: string, choice: string): (r: Option<string>)
    ensures r.None? <==> rating !in Ratings
    ensures r.Some? ==>
      r.value in Ratings && RatingValue(r.value) == Some(Clamp(RatingValue(rating).value + Delta(choice)))
  {
    match RatingValue(rating)
    case None => None
    case Some(v) =>
      ValueRoundTrip(Clamp(v + Delta(choice)));
      ValueRating(Clamp(v + Delta(choice)))
  }

  /** An excellent return never lowers the rating, and raises every rating below "A+". */
  lemma ExcellentRaises(rating: string)
    requires rating in Ratings
    ensures var r := AdjustRating(rating, "1");
      && RatingValue(r.value).value >= RatingValue(rating).value
      && (r.value == rating <==> rating == "A+")
  {
    var r := AdjustRating(rating, "1").value;
    RatingRoundTrip(rating);
    RatingRoundTrip(r);
  }

  /** A damaged return never raises the rating, and lowers every rating above "D". */
  lemma DamageLowers(rating: string, choice: string)
    requires rating in Ratings && (choice == "4" || choice == "5")
    ensures var r := AdjustRating(rating, choice);
      && RatingValue(r.value).value <= RatingValue(rating).value
      && (r.value == rating <==> rating == "D")
  {
    var r := AdjustRating(rating, choice).value;
    RatingRoundTrip(rating);
    RatingRoundTrip(r);
  }

  /** Any other choice leaves a known rating as it was. */
  lemma OtherChoiceKeeps(rating: string, choice: string)
    requires rating in Ratings && choice != "1" && choice != "4" && choice != "5"
    ensures AdjustRating(rating, choice) == Some(rating)
  {
    RatingRoundTrip(rating);
    RatingRoundTrip(AdjustRating(rating, choice).value);
  }

  /** The cars rented under a renter tag: those whose status is that tag. */
  function RentedCount(cars: seq<LegacyCar>, tag: string): (n: nat)
    ensures n <= |cars|
  {
    if cars == [] then 0
    else RentedCount(cars[..|cars| - 1], tag) + (if cars[|cars| - 1].availability == tag then 1 else 0)
  }

  /** Counting one more car of the list adds what that car contributes. */
  lemma RentedCountStep(cars: seq<LegacyCar>, k: nat, tag: string)
    requires k < |cars|
    ensures RentedCount(cars[..k + 1], tag) == RentedCount(cars[..k], tag) + (if cars[k].availability == tag then 1 else 0)
  {
    assert cars[..k + 1][..k] == cars[..k];
  }

  /** Replacing one car changes the count by what the two cars contribute. */
  lemma {:induction false} RentedCountUpdate(cars: seq<LegacyCar>, k: nat, c: LegacyCar, tag: string)
    requires k < |cars|
    ensures RentedCount(cars[k := c], tag) + (if cars[k].availability == tag then 1 else 0)
      == RentedCount(cars, tag) + (if c.availability == tag then 1 else 0)
  {
    var updated := cars[k := c];
    var n := |cars| - 1;
    if k < n {
      assert updated[..n] == cars[..n][k := c] && updated[n] == cars[n];
      RentedCountUpdate(cars[..n], k, c, tag);
    } else {
      assert updated[..n] == cars[..n] && updated[n] == c;
    }
  }

  /** A return that goes through frees exactly one of the renter's slots. */
  lemma ReturnFreesSlot(cars: seq<LegacyCar>, model: string, id: int, choice: string)
    requires Apply(ReturnCar(model, id, choice), cars).changed
    ensures RentedCount(Apply(ReturnCar(model, id, choice), cars).cars, RentedTag(id)) == RentedCount(cars, RentedTag(id)) - 1
  {
    var k := FirstRented(cars, model, RentedTag(id));
    RentedCountUpdate(cars, k, Returned(cars[k], ConditionChoice(choice).value), RentedTag(id));
  }

  /** One line of the user file as far as the limit is concerned: the user's id and rating. */
  datatype UserLine = UserLine(id: int, rating: string)

  /** The position of the first line for `id`, or the length when there is none. */
  function UserPos(users: seq<UserLine>, id: int): (k: nat)
    ensures k <= |users|
    ensures k < |users| ==> users[k].id == id
    ensures forall j :: 0 <= j < k ==> users[j].id != id
  {
    if users == [] then 0
    else if users[0].id == id then 0
    else 1 + UserPos(users[1..], id)
  }

  /** A position before which no line has the id, and which is the end or a line with it, is the user's position. */
  lemma {:induction false} UserPosIs(users: seq<UserLine>, id: int, i: nat)
    requires i <= |users|
    requires forall j :: 0 <= j < i ==> users[j].id != id
    requires i < |users| ==> users[i].id == id
    ensures UserPos(users, id) == i
  {
    if i > 0 {
      assert users[0].id != id;
      UserPosIs(users[1..], id, i - 1);
    }
  }

  /**
   * The limit the lookup ends with: that of the user's own line when there
   * is one; otherwise that of the last line read, or 0 for an empty file.
   */
  function LimitRead(users: seq<UserLine>, id: int): (limit: nat)
    ensures limit <= 4
  {
    if UserPos(users, id) < |users| then RatingLimit(users[UserPos(users, id)].rating)
    else if users == [] then 0
    else RatingLimit(users[|users| - 1].rating)
  }

  /**
   * `rentable_cars`: read the user file up to the user's line, taking the
   * limit of each line read; count the cars rented under the id; the
   * answer is the limit less that count when the user or any such car was
   * found, and 0 otherwise (also when the user file cannot be opened).
   */
  method RentableCars(userFile: Option<seq<UserLine>>, cars: seq<LegacyCar>, id: int) returns (remaining: int)
    ensures userFile.None? ==> remaining == 0
    ensures userFile.Some? ==>
      var users := userFile.value;
      remaining == if UserPos(users, id) < |users| || RentedCount(cars, RentedTag(id)) > 0
        then LimitRead(users, id) - RentedCount(cars, RentedTag(id))
        else 0
    ensures remaining <= 4
  {
    if userFile.None? {
      return 0;
    }
    var users := userFile.value;
    var limit: int := 0;
    var found := false;
    var i := 0;
    while i < |users|
      invariant 0 <= i <= |users|
      invariant forall j :: 0 <= j < i ==> users[j].id != id
      invariant limit == if i == 0 then 0 else RatingLimit(users[i - 1].rating)
      invariant !found
    {
      limit := RatingLimit(users[i].rating);
      if users[i].id == id {
        found := true;
        break;
      }
      i := i + 1;
    }
    UserPosIs(users, id, i);
    var userFound := found;
    var rented: int := 0;
    var tag := RentedTag(id);
    var k := 0;
    while k < |cars|
      invariant 0 <= k <= |cars|
      invariant rented == RentedCount(cars[..k], tag)
      invariant found <==> userFound || rented > 0
    {
      RentedCountStep(cars, k, tag);
      if cars[k].availability == tag {
        found := true;
        rented := rented + 1;
      }
      k := k + 1;
    }
    assert cars[..k] == cars;
    var rentingLimit := limit - rented;
    remaining := if found then rentingLimit else 0;
  }
}
