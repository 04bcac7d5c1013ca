/** The parking lot object: three capacities fixed at construction and the
    list of parked vehicles, which park and unpark change in place. */
module Lot {
  import opened Registry

  class ParkingLot {
    const twoWheelerCapacity: int
    const fourWheelerCapacity: int
    const heavyVehicleCapacity: int
    var parkedVehicles: seq<Vehicle>

    /** For each known type, its entries in `vs` hold distinct slots within its capacity. */
    ghost predicate Allocated(vs: seq<Vehicle>)
    {
      && WellAllocated(vs, TwoWheeler, twoWheelerCapacity)
      && WellAllocated(vs, FourWheeler, fourWheelerCapacity)
      && WellAllocated(vs, HeavyVehicle, heavyVehicleCapacity)
    }

    ghost predicate Valid()
      reads this
    {
      Allocated(parkedVehicles)
    }

    constructor (twoWheelerCapacity: int, fourWheelerCapacity: int, heavyVehicleCapacity: int)
      ensures this.twoWheelerCapacity == twoWheelerCapacity
      ensures this.fourWheelerCapacity == fourWheelerCapacity
      ensures this.heavyVehicleCapacity == heavyVehicleCapacity
      ensures parkedVehicles == []
      ensures Valid()
    {
      this.twoWheelerCapacity := twoWheelerCapacity;
      this.fourWheelerCapacity := fourWheelerCapacity;
      this.heavyVehicleCapacity := heavyVehicleCapacity;
      parkedVehicles := [];
    }

    /** The configured capacity of a known type; every other code has none. */
    function GetCapacity(vehicleType: int): (capacity: int)
      ensures vehicleType == TwoWheeler ==> capacity == twoWheelerCapacity
      ensures vehicleType == FourWheeler ==> capacity == fourWheelerCapacity
      ensures vehicleType == HeavyVehicle ==> capacity == heavyVehicleCapacity
      ensures !IsKnownType(vehicleType) ==> capacity == 0
    {
      if vehicleType == TwoWheeler then twoWheelerCapacity
      else if vehicleType == FourWheeler then fourWheelerCapacity
      else if vehicleType == HeavyVehicle then heavyVehicleCapacity
      else 0
    }

    /** How many parked vehicles classify, by their number, as `vehicleType`. */
    function CountOccupiedSlots(vehicleType: int): (occupied: nat)
      reads this
      ensures occupied == |IndicesOfType(parkedVehicles, vehicleType)|
      ensures vehicleType != Unclassified && !IsKnownType(vehicleType) ==> occupied == 0
    {
      CountIsNumberOfEntries(parkedVehicles, vehicleType);
      CountOfUnknownType(parkedVehicles, vehicleType);
      CountOfType(parkedVehicles, vehicleType)
    }

    /** Whether a vehicle declared as `vehicleType` may park; when it may, the
        slot search is sure to find a slot within the capacity. */
    function IsSlotAvailable(vehicleType: int): (available: bool)
      reads this
      ensures available == HasRoom(parkedVehicles, vehicleType, GetCapacity(vehicleType))
      ensures available ==> 1 <= NextAvailableSlot(parkedVehicles, vehicleType, GetCapacity(vehicleType)) <= GetCapacity(vehicleType)
    {
      var occupied := CountOccupiedSlots(vehicleType);
      var available :=
        if vehicleType == TwoWheeler then occupied < twoWheelerCapacity
        else if vehicleType == FourWheeler then occupied < fourWheelerCapacity
        else if vehicleType == HeavyVehicle then occupied < heavyVehicleCapacity
        else false;
      if available then
        FreeSlotUnderCapacity(parkedVehicles, vehicleType, GetCapacity(vehicleType));
        true
      else
        false
    }

    /** Scans slots 1, 2, ... up to the capacity for the first one that no
        vehicle of this type holds; -1 when every one is held. */
    method GetNextAvailableSlot(vehicleType: int) returns (slot: int)
      ensures slot == NextAvailableSlot(parkedVehicles, vehicleType, GetCapacity(vehicleType))
      ensures slot == -1 <==> forall i :: 1 <= i <= GetCapacity(vehicleType) ==> SlotTaken(parkedVehicles, vehicleType, i)
    {
      var i := 1;
      while i <= GetCapacity(vehicleType)
        invariant 1 <= i
        invariant FreeSlotFrom(parkedVehicles, vehicleType, i, GetCapacity(vehicleType))
                  == NextAvailableSlot(parkedVehicles, vehicleType, GetCapacity(vehicleType))
        decreases GetCapacity(vehicleType) - i
      {
        if !SlotTaken(parkedVehicles, vehicleType, i) {
          return i;
        }
        i := i + 1;
      }
      return -1;
    }

    /** The (occupied, capacity) pair of each known type. */
    function OccupancyDetails(): (report: OccupancyReport)
      reads this
      ensures report.twoWheeler == Occupancy(|IndicesOfType(parkedVehicles, TwoWheeler)|, twoWheelerCapacity)
      ensures report.fourWheeler == Occupancy(|IndicesOfType(parkedVehicles, FourWheeler)|, fourWheelerCapacity)
      ensures report.heavyVehicle == Occupancy(|IndicesOfType(parkedVehicles, HeavyVehicle)|, heavyVehicleCapacity)
    {
      OccupancyReport(
        Occupancy(CountOccupiedSlots(TwoWheeler), twoWheelerCapacity),
        Occupancy(CountOccupiedSlots(FourWheeler), fourWheelerCapacity),
        Occupancy(CountOccupiedSlots(HeavyVehicle), heavyVehicleCapacity))
    }

    /** Under the invariant no reported type is over its capacity. */
    lemma OccupancyWithinCapacity()
      requires Valid()
      ensures var report := OccupancyDetails();
              && report.twoWheeler.occupied <= (if twoWheelerCapacity < 0 then 0 else twoWheelerCapacity)
              && report.fourWheeler.occupied <= (if fourWheelerCapacity < 0 then 0 else fourWheelerCapacity)
              && report.heavyVehicle.occupied <= (if heavyVehicleCapacity < 0 then 0 else heavyVehicleCapacity)
    {
      WellAllocatedBoundsCount(parkedVehicles, TwoWheeler, twoWheelerCapacity);
      WellAllocatedBoundsCount(parkedVehicles, FourWheeler, fourWheelerCapacity);
      WellAllocatedBoundsCount(parkedVehicles, HeavyVehicle, heavyVehicleCapacity);
    }

    /** Parks `vehicleNumber` under the declared `vehicleType` at time `now`. */
    method ParkVehicle(vehicleNumber: string, vehicleType: int, now: int) returns (result: ParkResult)
      requires IsKnownType(vehicleType)
      modifies this
      ensures Step(result, parkedVehicles) == Park(old(parkedVehicles), vehicleType, GetCapacity(vehicleType), vehicleNumber, now)
      ensures old(Valid()) && VehicleType(vehicleNumber) in {vehicleType, Unclassified} ==> Valid()
    {
      if !IsSlotAvailable(vehicleType) {
        return NoSlotAvailable;
      }
      var slotNumber := GetNextAvailableSlot(vehicleType);
      var vehicle := Vehicle(vehicleNumber, slotNumber, now, None);
      ghost var before := parkedVehicles;
      parkedVehicles := parkedVehicles + [vehicle];
      result := Parked(vehicle);
      if Allocated(before) && VehicleType(vehicleNumber) in {vehicleType, Unclassified} {
        ParkKeepsAllocation(before, vehicleType, GetCapacity(vehicleType), vehicleNumber, now, TwoWheeler, twoWheelerCapacity);
        ParkKeepsAllocation(before, vehicleType, GetCapacity(vehicleType), vehicleNumber, now, FourWheeler, fourWheelerCapacity);
        ParkKeepsAllocation(before, vehicleType, GetCapacity(vehicleType), vehicleNumber, now, HeavyVehicle, heavyVehicleCapacity);
      }
    }

    /** Unparks the first vehicle, of any type, holding slot `slotNumber`, stamping it with `now`. */
    method UnparkVehicle(slotNumber: int, now: int) returns (result: UnparkResult)
      requires slotNumber >= 1
      modifies this
      ensures Step(result, parkedVehicles) == Unpark(old(parkedVehicles), slotNumber, now)
      ensures old(Valid()) ==> Valid()
    {
      ghost var before := parkedVehicles;
      var found := FindBySlot(parkedVehicles, slotNumber);
      match found {
        case None =>
          result := NotFound;
        case Some(k) =>
          var vehicle := parkedVehicles[k].(outTime := Some(now));
          parkedVehicles := parkedVehicles[..k] + parkedVehicles[k + 1..];
          result := Unparked(vehicle);
      }
      if Allocated(before) {
        UnparkKeepsAllocation(before, slotNumber, now, TwoWheeler, twoWheelerCapacity);
        UnparkKeepsAllocation(before, slotNumber, now, FourWheeler, fourWheelerCapacity);
        UnparkKeepsAllocation(before, slotNumber, now, HeavyVehicle, heavyVehicleCapacity);
      }
    }
  }
}
