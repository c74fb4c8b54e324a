/**
 * The fleet query service: a fleet fixed at construction and three read-only
 * queries over it. The service's only field is the fleet, so every query is a
 * function of the fleet sequence.
 */
module AircraftService {

  import opened Wrappers
  import opened AircraftEntity
  import opened SeatOrder

  /** Load requirements: minimum seats, minimum checked bags and minimum range in km. */
  datatype Load = Load(minSeats: int, minBags: int, minRangeKm: real)

  /** The default fleet of five aircraft. */
  function Init(): (fleet: seq<Aircraft>)
    ensures |fleet| == 5 && WellFormedFleet(fleet)
  {
    [ Aircraft("Cessna Citation M2", 6, 12, 400.0, 0.5),
      Aircraft("Gulfstream G200", 18, 36, 2000.0, 0.8),
      Aircraft("Embraer Brasilia", 14, 28, 2400.0, 0.65),
      Aircraft("Beechcraft 1900D", 18, 36, 3800.0, 1.0),
      Aircraft("Bombardier CRJ900", 36, 72, 8800.0, 3.47) ]
  }

  /** The filter predicate: all three minimums are met (no minimum is validated, so a negative one always is). */
  predicate Meets(a: Aircraft, load: Load)
    requires HasPositiveBurnRate(a)
    ensures Meets(a, load) <==>
      && a.seatingCapacity >= load.minSeats
      && a.checkedBagCapacity >= load.minBags
      && a.maxFuelCapacityKg >= load.minRangeKm * a.fuelBurnRateKgKm
  {
    RangeReachesIff(a, load.minRangeKm);
    a.seatingCapacity >= load.minSeats
    && a.checkedBagCapacity >= load.minBags
    && MaxRange(a) >= load.minRangeKm
  }

  /** The aircraft of the fleet that meet the load, in fleet order. */
  function MeetsRequirements(fleet: seq<Aircraft>, load: Load): (r: seq<Aircraft>)
    requires WellFormedFleet(fleet)
    ensures |r| <= |fleet|
    ensures forall a :: a in r <==> a in fleet && Meets(a, load)
  {
    if |fleet| == 0 then []
    else
      assert fleet == [fleet[0]] + fleet[1..];
      (if Meets(fleet[0], load) then [fleet[0]] else []) + MeetsRequirements(fleet[1..], load)
  }

  /** The filter keeps fleet order: filtering two fleets one after the other is filtering their concatenation. */
  lemma {:induction false} MeetsRequirementsAppend(front: seq<Aircraft>, back: seq<Aircraft>, load: Load)
    requires WellFormedFleet(front + back)
    ensures MeetsRequirements(front + back, load) == MeetsRequirements(front, load) + MeetsRequirements(back, load)
  {
    if |front| > 0 {
      assert (front + back)[0] == front[0];
      assert (front + back)[1..] == front[1..] + back;
      MeetsRequirementsAppend(front[1..], back, load);
      MeetsRequirementsCons(front + back, load);
      MeetsRequirementsCons(front, load);
    } else {
      assert front + back == back;
    }
  }

  /** The position of the first aircraft with the fewest seats. */
  function FewestSeatsIndex(s: seq<Aircraft>): (k: nat)
    requires |s| > 0
    ensures k < |s|
    ensures forall j :: 0 <= j < |s| ==> s[k].seatingCapacity <= s[j].seatingCapacity
    ensures forall j :: 0 <= j < k ==> s[k].seatingCapacity < s[j].seatingCapacity
  {
    if |s| == 1 then 0
    else
      var k := FewestSeatsIndex(s[1..]);
      if s[0].seatingCapacity <= s[k + 1].seatingCapacity then 0 else k + 1
  }

  /** The first aircraft with the fewest seats, or none for no candidates. */
  function FirstOfFewestSeats(candidates: seq<Aircraft>): (r: Option<Aircraft>)
    ensures r.None? <==> |candidates| == 0
    ensures r.Some? ==> r.value in candidates
    ensures r.Some? ==> forall c :: c in candidates ==> r.value.seatingCapacity <= c.seatingCapacity
    ensures r.Some? ==> exists k :: (0 <= k < |candidates| && r.value == candidates[k]
      && forall j :: 0 <= j < k ==> candidates[j].seatingCapacity > candidates[k].seatingCapacity)
  {
    if |candidates| == 0 then None else Some(candidates[FewestSeatsIndex(candidates)])
  }

  /** getAircraftForLoad: the smallest aircraft, by seats, that meets every minimum. */
  function GetAircraftForLoad(fleet: seq<Aircraft>, minSeats: int, minBags: int, minRangeKm: real): (r: Option<Aircraft>)
    requires WellFormedFleet(fleet)
    ensures r.None? <==> forall a :: a in fleet ==> !Meets(a, Load(minSeats, minBags, minRangeKm))
    ensures r.Some? ==> r.value in fleet && Meets(r.value, Load(minSeats, minBags, minRangeKm))
    ensures r.Some? ==> forall a :: a in fleet && Meets(a, Load(minSeats, minBags, minRangeKm)) ==>
      r.value.seatingCapacity <= a.seatingCapacity
  {
    FirstOfFewestSeats(MeetsRequirements(fleet, Load(minSeats, minBags, minRangeKm)))
  }

  /**
   * Reference definition of the selection on fleet positions: position `i` meets
   * the load, no qualifying aircraft has fewer seats, and every qualifying
   * aircraft before it has strictly more seats.
   */
  ghost predicate IsFirstFewestQualifying(fleet: seq<Aircraft>, load: Load, i: int)
    requires WellFormedFleet(fleet)
  {
    && 0 <= i < |fleet|
    && Meets(fleet[i], load)
    && (forall j :: 0 <= j < |fleet| && Meets(fleet[j], load) ==>
          fleet[i].seatingCapacity <= fleet[j].seatingCapacity)
    && (forall j :: 0 <= j < i && Meets(fleet[j], load) ==>
          fleet[i].seatingCapacity < fleet[j].seatingCapacity)
  }

  /** At most one position satisfies the reference definition. */
  lemma FirstFewestQualifyingUnique(fleet: seq<Aircraft>, load: Load, i: int, i': int)
    requires WellFormedFleet(fleet)
    requires IsFirstFewestQualifying(fleet, load, i) && IsFirstFewestQualifying(fleet, load, i')
    ensures i == i'
  {
  }

  /** Selecting from a candidate list with one more candidate in front. */
  lemma FirstOfFewestSeatsCons(x: Aircraft, t: seq<Aircraft>)
    ensures FirstOfFewestSeats([x] + t) ==
      if FirstOfFewestSeats(t).None? || x.seatingCapacity <= FirstOfFewestSeats(t).value.seatingCapacity
      then Some(x) else FirstOfFewestSeats(t)
  {
  }

  /** The candidates of a fleet with one more aircraft in front. */
  lemma MeetsRequirementsCons(fleet: seq<Aircraft>, load: Load)
    requires |fleet| > 0 && WellFormedFleet(fleet)
    ensures MeetsRequirements(fleet, load) ==
      if Meets(fleet[0], load) then [fleet[0]] + MeetsRequirements(fleet[1..], load)
      else MeetsRequirements(fleet[1..], load)
  {
  }

  /** The selection over the candidates of a fleet is the fleet's first aircraft with the fewest qualifying seats. */
  lemma {:induction false} SelectionIsFirstFewest(fleet: seq<Aircraft>, load: Load)
    requires WellFormedFleet(fleet)
    ensures FirstOfFewestSeats(MeetsRequirements(fleet, load)).Some? ==>
      exists i :: IsFirstFewestQualifying(fleet, load, i) && Some(fleet[i]) == FirstOfFewestSeats(MeetsRequirements(fleet, load))
  {
    if |fleet| > 0 {
      var tail := fleet[1..];
      var r := FirstOfFewestSeats(MeetsRequirements(fleet, load));
      var r' := FirstOfFewestSeats(MeetsRequirements(tail, load));
      SelectionIsFirstFewest(tail, load);
      MeetsRequirementsCons(fleet, load);
      if Meets(fleet[0], load) {
        FirstOfFewestSeatsCons(fleet[0], MeetsRequirements(tail, load));
      }
      if r.Some? {
        if r == r' && !(Meets(fleet[0], load) && fleet[0].seatingCapacity <= r'.value.seatingCapacity) {
          // the winner comes from the tail and the front aircraft does not beat it
          var i' :| IsFirstFewestQualifying(tail, load, i') && tail[i'] == r'.value;
          assert fleet[i' + 1] == r.value;
          forall j | 0 <= j < |fleet| && Meets(fleet[j], load)
            ensures fleet[i' + 1].seatingCapacity <= fleet[j].seatingCapacity
          {
            if j > 0 { assert fleet[j] == tail[j - 1]; }
          }
          forall j | 0 <= j < i' + 1 && Meets(fleet[j], load)
            ensures fleet[i' + 1].seatingCapacity < fleet[j].seatingCapacity
          {
            if j > 0 { assert fleet[j] == tail[j - 1]; }
          }
          assert IsFirstFewestQualifying(fleet, load, i' + 1);
        } else {
          // the front aircraft qualifies and has no more seats than any qualifying tail aircraft
          assert r == Some(fleet[0]);
          forall j | 0 <= j < |fleet| && Meets(fleet[j], load)
            ensures fleet[0].seatingCapacity <= fleet[j].seatingCapacity
          {
            if j > 0 {
              assert fleet[j] in MeetsRequirements(tail, load);
            }
          }
          assert IsFirstFewestQualifying(fleet, load, 0);
        }
      }
    }
  }

  /** getAircraftForLoad returns exactly the aircraft at the position the reference definition picks. */
  lemma GetAircraftForLoadIsFirstFewest(fleet: seq<Aircraft>, minSeats: int, minBags: int, minRangeKm: real, i: int)
    requires WellFormedFleet(fleet)
    requires IsFirstFewestQualifying(fleet, Load(minSeats, minBags, minRangeKm), i)
    ensures GetAircraftForLoad(fleet, minSeats, minBags, minRangeKm) == Some(fleet[i])
  {
    var load := Load(minSeats, minBags, minRangeKm);
    SelectionIsFirstFewest(fleet, load);
    var r := GetAircraftForLoad(fleet, minSeats, minBags, minRangeKm);
    assert fleet[i] in fleet;
    var i' :| IsFirstFewestQualifying(fleet, load, i') && fleet[i'] == r.value;
    FirstFewestQualifyingUnique(fleet, load, i, i');
  }

  /** Whenever getAircraftForLoad returns an aircraft, some position satisfies the reference definition for it. */
  lemma GetAircraftForLoadFirstWins(fleet: seq<Aircraft>, minSeats: int, minBags: int, minRangeKm: real)
    requires WellFormedFleet(fleet)
    ensures GetAircraftForLoad(fleet, minSeats, minBags, minRangeKm).Some? ==>
      exists i :: IsFirstFewestQualifying(fleet, Load(minSeats, minBags, minRangeKm), i)
        && Some(fleet[i]) == GetAircraftForLoad(fleet, minSeats, minBags, minRangeKm)
  {
    SelectionIsFirstFewest(fleet, Load(minSeats, minBags, minRangeKm));
  }

  /** The head of the stably sorted candidates is the first candidate with the fewest seats. */
  lemma {:induction false} SortedHeadIsFirstFewest(s: seq<Aircraft>)
    requires |s| > 0
    ensures SortBySeats(s)[0] == s[FewestSeatsIndex(s)]
  {
    if |s| > 1 {
      SortedHeadIsFirstFewest(s[1..]);
    }
  }

  /**
   * The stream form of the query: filter, sort stably by seats, take the head if any.
   * The selection by FewestSeatsIndex gives the same answer.
   */
  lemma GetAircraftForLoadIsHeadOfSorted(fleet: seq<Aircraft>, minSeats: int, minBags: int, minRangeKm: real)
    requires WellFormedFleet(fleet)
    ensures MeetsRequirements(fleet, Load(minSeats, minBags, minRangeKm)) == [] ==>
      GetAircraftForLoad(fleet, minSeats, minBags, minRangeKm) == None
    ensures MeetsRequirements(fleet, Load(minSeats, minBags, minRangeKm)) != [] ==>
      GetAircraftForLoad(fleet, minSeats, minBags, minRangeKm)
        == Some(SortBySeats(MeetsRequirements(fleet, Load(minSeats, minBags, minRangeKm)))[0])
  {
    var candidates := MeetsRequirements(fleet, Load(minSeats, minBags, minRangeKm));
    if |candidates| > 0 {
      SortedHeadIsFirstFewest(candidates);
    }
  }

  /** When every aircraft meets the load, the filter keeps the whole fleet. */
  lemma {:induction false} MeetsRequirementsAll(fleet: seq<Aircraft>, load: Load)
    requires WellFormedFleet(fleet)
    requires forall a :: a in fleet ==> Meets(a, load)
    ensures MeetsRequirements(fleet, load) == fleet
  {
    if |fleet| > 0 {
      MeetsRequirementsAll(fleet[1..], load);
      MeetsRequirementsCons(fleet, load);
    }
  }

  /**
   * Minimums are not validated: minimums no larger than every aircraft's values,
   * negative ones included, select the fleet-wide first aircraft with the fewest seats.
   */
  lemma LowMinimumsSelectFewestInFleet(fleet: seq<Aircraft>, minSeats: int, minBags: int, minRangeKm: real)
    requires |fleet| > 0 && WellFormedFleet(fleet)
    requires forall a :: a in fleet ==>
      minSeats <= a.seatingCapacity && minBags <= a.checkedBagCapacity && minRangeKm <= MaxRange(a)
    ensures GetAircraftForLoad(fleet, minSeats, minBags, minRangeKm) == Some(fleet[FewestSeatsIndex(fleet)])
  {
    MeetsRequirementsAll(fleet, Load(minSeats, minBags, minRangeKm));
  }

  /** Seat minimum above every aircraft's seats: no aircraft qualifies. */
  lemma TooManySeatsSelectsNone(fleet: seq<Aircraft>, minSeats: int, minBags: int, minRangeKm: real)
    requires WellFormedFleet(fleet)
    requires forall a :: a in fleet ==> a.seatingCapacity < minSeats
    ensures GetAircraftForLoad(fleet, minSeats, minBags, minRangeKm) == None
  {
  }

  /**
   * The maximum by a key, folding from the left and keeping the earlier aircraft
   * on ties.
   */
  function MaxBy(s: seq<Aircraft>, key: Aircraft -> int): (m: Aircraft)
    requires |s| > 0
    ensures m in s
    ensures forall a :: a in s ==> key(a) <= key(m)
  {
    if |s| == 1 then s[0]
    else
      var init, last := s[..|s| - 1], s[|s| - 1];
      assert s == init + [last];
      var acc := MaxBy(init, key);
      if key(acc) >= key(last) then acc else last
  }

  /** getMaximumSeatingCapacity: 0 for an empty fleet, otherwise the largest seat count. */
  function MaximumSeatingCapacity(fleet: seq<Aircraft>): (m: int)
    ensures |fleet| == 0 ==> m == 0
    ensures forall a :: a in fleet ==> a.seatingCapacity <= m
    ensures |fleet| > 0 ==> exists a :: a in fleet && a.seatingCapacity == m
  {
    if |fleet| == 0 then 0 else MaxBy(fleet, (a: Aircraft) => a.seatingCapacity).seatingCapacity
  }

  /** getMaximumCheckedBagCapacity: 0 for an empty fleet, otherwise the largest bag capacity. */
  function MaximumCheckedBagCapacity(fleet: seq<Aircraft>): (m: int)
    ensures |fleet| == 0 ==> m == 0
    ensures forall a :: a in fleet ==> a.checkedBagCapacity <= m
    ensures |fleet| > 0 ==> exists a :: a in fleet && a.checkedBagCapacity == m
  {
    if |fleet| == 0 then 0 else MaxBy(fleet, (a: Aircraft) => a.checkedBagCapacity).checkedBagCapacity
  }
}
