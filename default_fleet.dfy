/** The queries evaluated on the default fleet. */
module DefaultFleet {

  import opened Wrappers
  import opened AircraftEntity
  import opened AircraftService

  /** The largest seat count of the default fleet is the CRJ900's 36. */
  lemma DefaultMaximumSeatingCapacity()
    ensures MaximumSeatingCapacity(Init()) == 36
  {
  }

  /** The largest bag capacity of the default fleet is the CRJ900's 72. */
  lemma DefaultMaximumCheckedBagCapacity()
    ensures MaximumCheckedBagCapacity(Init()) == 72
  {
  }

  /** Six seats, twelve bags, 700 km: the Citation M2 (range 800 km) is the smallest that qualifies. */
  lemma DefaultLightLoad()
    ensures GetAircraftForLoad(Init(), 6, 12, 700.0) == Some(Init()[0])
    ensures Init()[0].name == "Cessna Citation M2"
  {
    var fleet := Init();
    assert fleet[0] in fleet;
    assert MaxRange(fleet[0]) == 800.0;
  }

  /**
   * Eighteen seats, 36 bags, 3000 km: the G200 (2500 km) and the CRJ900 (about
   * 2536 km) fall short, so only the Beechcraft 1900D (3800 km) qualifies.
   */
  lemma DefaultLongRangeLoad()
    ensures GetAircraftForLoad(Init(), 18, 36, 3000.0) == Some(Init()[3])
    ensures Init()[3].name == "Beechcraft 1900D"
    ensures MaxRange(Init()[1]) < 3000.0 && MaxRange(Init()[4]) < 3000.0
  {
  }

  /**
   * Eighteen seats, 36 bags, no range minimum: the G200 and the 1900D tie at 18
   * seats and the G200, earlier in the fleet, wins.
   */
  lemma DefaultTieGoesToFirst()
    ensures GetAircraftForLoad(Init(), 18, 36, 0.0) == Some(Init()[1])
    ensures Init()[1].name == "Gulfstream G200"
  {
  }

  /** Forty seats: no aircraft of the default fleet has that many. */
  lemma DefaultTooManySeats()
    ensures GetAircraftForLoad(Init(), 40, 0, 0.0) == None
  {
  }
}
