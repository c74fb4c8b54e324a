/**
 * The aircraft record of the fleet. Its class body is not part of this model;
 * the fields are those the service constructs and reads.
 */
module AircraftEntity {

  /** One airframe: name, passenger seats, checked bags, fuel capacity (kg), burn rate (kg per km). */
  datatype Aircraft = Aircraft(
    name: string,
    seatingCapacity: int,
    checkedBagCapacity: int,
    maxFuelCapacityKg: real,
    fuelBurnRateKgKm: real)

  /** The range of an aircraft is defined only when it burns a positive amount of fuel per km. */
  predicate HasPositiveBurnRate(a: Aircraft) {
    a.fuelBurnRateKgKm > 0.0
  }

  /** Every aircraft of the fleet has a defined range. */
  predicate WellFormedFleet(fleet: seq<Aircraft>) {
    forall a :: a in fleet ==> HasPositiveBurnRate(a)
  }

  /** Maximum range in km: the distance the full tank lasts at the aircraft's burn rate. */
  function MaxRange(a: Aircraft): (r: real)
    requires HasPositiveBurnRate(a)
    ensures r * a.fuelBurnRateKgKm == a.maxFuelCapacityKg
    ensures a.maxFuelCapacityKg >= 0.0 ==> r >= 0.0
  {
    a.maxFuelCapacityKg / a.fuelBurnRateKgKm
  }

  /** The range test needs no division: the range reaches a distance exactly when the tank holds the fuel for it. */
  lemma RangeReachesIff(a: Aircraft, minRangeKm: real)
    requires HasPositiveBurnRate(a)
    ensures MaxRange(a) >= minRangeKm <==> a.maxFuelCapacityKg >= minRangeKm * a.fuelBurnRateKgKm
  {
  }
}
