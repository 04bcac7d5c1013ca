/** Concrete traces of the registry's transitions, showing slot reuse and the
    two places where the type a vehicle was declared under and the type read
    off its number part ways. */
module Scenarios {
  import opened Registry

  /** Two-wheeler capacity 2: two parks fill slots 1 and 2, a third is refused,
      unparking slot 1 frees it, and the next park gets slot 1 again. */
  lemma TwoWheelerScenario()
    ensures
      var v1 := Vehicle("2001", 1, 10, None);
      var v2 := Vehicle("2002", 2, 11, None);
      var v4 := Vehicle("2004", 1, 14, None);
      && Park([], TwoWheeler, 2, "2001", 10) == Step(Parked(v1), [v1])
      && Park([v1], TwoWheeler, 2, "2002", 11) == Step(Parked(v2), [v1, v2])
      && Park([v1, v2], TwoWheeler, 2, "2003", 12) == Step(NoSlotAvailable, [v1, v2])
      && Unpark([v1, v2], 1, 13) == Step(Unparked(v1.(outTime := Some(13))), [v2])
      && Park([v2], TwoWheeler, 2, "2004", 14) == Step(Parked(v4), [v2, v4])
  {
    var v1 := Vehicle("2001", 1, 10, None);
    var v2 := Vehicle("2002", 2, 11, None);
    var v4 := Vehicle("2004", 1, 14, None);
    assert !SlotTaken([], TwoWheeler, 1);
    SecondTwoWheelerTakesSlotTwo(v1, v2);
    FullTypeRefuses(v1, v2);
    assert FindBySlot([v1, v2], 1) == Some(0);
    FreedSlotIsReused(v2, v4);
  }

  lemma SecondTwoWheelerTakesSlotTwo(v1: Vehicle, v2: Vehicle)
    requires v1 == Vehicle("2001", 1, 10, None) && v2 == Vehicle("2002", 2, 11, None)
    ensures Park([v1], TwoWheeler, 2, "2002", 11) == Step(Parked(v2), [v1, v2])
  {
  }

  lemma FullTypeRefuses(v1: Vehicle, v2: Vehicle)
    requires v1 == Vehicle("2001", 1, 10, None) && v2 == Vehicle("2002", 2, 11, None)
    ensures Park([v1, v2], TwoWheeler, 2, "2003", 12) == Step(NoSlotAvailable, [v1, v2])
  {
    VehicleTypeByFirstCharacter(v1.vehicleNumber);
    VehicleTypeByFirstCharacter(v2.vehicleNumber);
    assert [v1, v2][..1] == [v1];
    assert CountOfType([v1, v2], TwoWheeler) == 2;
  }

  lemma FreedSlotIsReused(v2: Vehicle, v4: Vehicle)
    requires v2 == Vehicle("2002", 2, 11, None) && v4 == Vehicle("2004", 1, 14, None)
    ensures Park([v2], TwoWheeler, 2, "2004", 14) == Step(Parked(v4), [v2, v4])
  {
    VehicleTypeByFirstCharacter(v2.vehicleNumber);
    assert CountOfType([v2], TwoWheeler) == 1;
    assert !SlotTaken([v2], TwoWheeler, 1);
  }

  /** Unpark matches on the slot number alone: a two-wheeler and a four-wheeler
      both get slot 1, and unparking the four-wheeler's slot removes the
      two-wheeler, which was parked first. */
  lemma UnparkMatchesSlotAcrossTypes()
    ensures
      var bike := Vehicle("2001", 1, 10, None);
      var car := Vehicle("4001", 1, 11, None);
      && Park([], TwoWheeler, 1, "2001", 10) == Step(Parked(bike), [bike])
      && Park([bike], FourWheeler, 1, "4001", 11) == Step(Parked(car), [bike, car])
      && Unpark([bike, car], car.slotNumber, 12) == Step(Unparked(bike.(outTime := Some(12))), [car])
  {
  }

  /** A number declared as a two-wheeler but starting with "4" takes a
      two-wheeler slot and counts as a four-wheeler: two of them overfill a
      four-wheeler capacity of 1, both at slot 1. */
  lemma MisdeclaredTypeOverfills()
    ensures
      var first := Vehicle("4001", 1, 10, None);
      var second := Vehicle("4002", 1, 11, None);
      && Park([], TwoWheeler, 1, "4001", 10) == Step(Parked(first), [first])
      && Park([first], TwoWheeler, 1, "4002", 11) == Step(Parked(second), [first, second])
      && CountOfType([first, second], FourWheeler) == 2
      && !WellAllocated([first, second], FourWheeler, 1)
  {
    var first := Vehicle("4001", 1, 10, None);
    var second := Vehicle("4002", 1, 11, None);
    VehicleTypeByFirstCharacter(first.vehicleNumber);
    assert !SlotTaken([], TwoWheeler, 1);
    MisdeclaredSecondPark(first, second);
  }

  lemma MisdeclaredSecondPark(first: Vehicle, second: Vehicle)
    requires first == Vehicle("4001", 1, 10, None) && second == Vehicle("4002", 1, 11, None)
    ensures Park([first], TwoWheeler, 1, "4002", 11) == Step(Parked(second), [first, second])
    ensures CountOfType([first, second], FourWheeler) == 2
    ensures !WellAllocated([first, second], FourWheeler, 1)
  {
    VehicleTypeByFirstCharacter(first.vehicleNumber);
    VehicleTypeByFirstCharacter(second.vehicleNumber);
    assert CountOfType([first], TwoWheeler) == 0;
    assert [first, second][..1] == [first];
    assert CountOfType([first], FourWheeler) == 1;
  }
}
