/** The parking registry's data and rules, stated over values: the ticket
    record, classification of a vehicle number, occupancy counts, the
    lowest-free-slot search, and the park/unpark transitions of the list of
    parked vehicles. The class in module Lot performs these in place. */
module Registry {

  datatype Option<T> = None | Some(value: T)

  /** One ticket record. Times are abstract clock readings; `outTime` is
      None until the vehicle is unparked (the record's default time). */
  datatype Vehicle = Vehicle(vehicleNumber: string, slotNumber: int, inTime: int, outTime: Option<int>)

  datatype ParkResult = Parked(ticket: Vehicle) | NoSlotAvailable

  datatype UnparkResult = Unparked(ticket: Vehicle) | NotFound

  /** The result of an operation together with the list of parked vehicles after it. */
  datatype Step<R> = Step(result: R, parked: seq<Vehicle>)

  /** One line of the occupancy report: how many slots of a type are taken, out of how many. */
  datatype Occupancy = Occupancy(occupied: nat, capacity: int)

  datatype OccupancyReport = OccupancyReport(twoWheeler: Occupancy, fourWheeler: Occupancy, heavyVehicle: Occupancy)

  const Unclassified: int := 0
  const TwoWheeler: int := 2
  const FourWheeler: int := 4
  const HeavyVehicle: int := 6

  predicate IsKnownType(t: int)
  {
    t == TwoWheeler || t == FourWheeler || t == HeavyVehicle
  }

  predicate StartsWith(s: string, prefix: string)
  {
    |prefix| <= |s| && s[..|prefix|] == prefix
  }

  // ---------------------------------------------------------------------
  // Classification

  /** The vehicle type is read off the number's prefix. */
  function VehicleType(vehicleNumber: string): (t: int)
    ensures t == Unclassified || IsKnownType(t)
  {
    if StartsWith(vehicleNumber, "2") then TwoWheeler
    else if StartsWith(vehicleNumber, "4") then FourWheeler
    else if StartsWith(vehicleNumber, "6") then HeavyVehicle
    else Unclassified
  }

  /** Type 2, 4 or 6 exactly when the first character is '2', '4' or '6'; type 0 otherwise. */
  lemma VehicleTypeByFirstCharacter(vehicleNumber: string)
    ensures VehicleType(vehicleNumber) == TwoWheeler <==> |vehicleNumber| > 0 && vehicleNumber[0] == '2'
    ensures VehicleType(vehicleNumber) == FourWheeler <==> |vehicleNumber| > 0 && vehicleNumber[0] == '4'
    ensures VehicleType(vehicleNumber) == HeavyVehicle <==> |vehicleNumber| > 0 && vehicleNumber[0] == '6'
    ensures VehicleType(vehicleNumber) == Unclassified <==> |vehicleNumber| == 0 || !(vehicleNumber[0] in "246")
  {
  }

  // ---------------------------------------------------------------------
  // Occupancy

  /** The number of list entries whose number classifies as type `t`. */
  function CountOfType(vs: seq<Vehicle>, t: int): (n: nat)
    ensures n <= |vs|
  {
    if vs == [] then 0
    else CountOfType(vs[..|vs| - 1], t) + (if VehicleType(vs[|vs| - 1].vehicleNumber) == t then 1 else 0)
  }

  /** The positions in the list of the entries of type `t`. */
  ghost function IndicesOfType(vs: seq<Vehicle>, t: int): set<int>
  {
    set k | 0 <= k < |vs| && VehicleType(vs[k].vehicleNumber) == t
  }

  lemma {:induction false} CountIsNumberOfEntries(vs: seq<Vehicle>, t: int)
    ensures CountOfType(vs, t) == |IndicesOfType(vs, t)|
  {
    if vs == [] {
      assert IndicesOfType(vs, t) == {};
    } else {
      var n := |vs| - 1;
      var init := vs[..n];
      CountIsNumberOfEntries(init, t);
      var last: set<int> := if VehicleType(vs[n].vehicleNumber) == t then {n} else {};
      forall k
        ensures k in IndicesOfType(vs, t) <==> k in IndicesOfType(init, t) + last
      {
        if 0 <= k < n {
          assert init[k] == vs[k];
        }
      }
      assert IndicesOfType(vs, t) == IndicesOfType(init, t) + last;
      assert n !in IndicesOfType(init, t);
    }
  }

  /** Only the codes 0, 2, 4 and 6 can ever be counted. */
  lemma CountOfUnknownType(vs: seq<Vehicle>, t: int)
    ensures t != Unclassified && !IsKnownType(t) ==> CountOfType(vs, t) == 0
  {
  }

  /** Removing the entry at `k` lowers the count of its own type by one and leaves the others. */
  lemma {:induction false} CountAfterRemoval(vs: seq<Vehicle>, k: int, t: int)
    requires 0 <= k < |vs|
    ensures CountOfType(vs[..k] + vs[k + 1..], t)
            == CountOfType(vs, t) - (if VehicleType(vs[k].vehicleNumber) == t then 1 else 0)
  {
    var n := |vs| - 1;
    var rest := vs[..k] + vs[k + 1..];
    if k == n {
      assert rest == vs[..n];
    } else {
      var init := vs[..n];
      CountAfterRemoval(init, k, t);
      assert rest[..|rest| - 1] == init[..k] + init[k + 1..];
      assert rest[|rest| - 1] == vs[n];
    }
  }

  // ---------------------------------------------------------------------
  // Slot search

  /** Some entry of type `t` holds slot `slot`. */
  predicate SlotTaken(vs: seq<Vehicle>, t: int, slot: int)
  {
    exists k :: 0 <= k < |vs| && vs[k].slotNumber == slot && VehicleType(vs[k].vehicleNumber) == t
  }

  /** The lowest slot in [from, cap] not held by an entry of type `t`, or -1 if there is none. */
  function FreeSlotFrom(vs: seq<Vehicle>, t: int, from: int, cap: int): (slot: int)
    requires from >= 1
    ensures slot == -1 <==> forall i :: from <= i <= cap ==> SlotTaken(vs, t, i)
    ensures slot != -1 ==> from <= slot <= cap && !SlotTaken(vs, t, slot)
    ensures forall i :: from <= i < slot ==> SlotTaken(vs, t, i)
    decreases cap - from
  {
    if from > cap then -1
    else if !SlotTaken(vs, t, from) then from
    else FreeSlotFrom(vs, t, from + 1, cap)
  }

  function NextAvailableSlot(vs: seq<Vehicle>, t: int, cap: int): int
  {
    FreeSlotFrom(vs, t, 1, cap)
  }

  /** The slot numbers held by entries of type `t`. */
  ghost function SlotsOfType(vs: seq<Vehicle>, t: int): set<int>
  {
    if vs == [] then {}
    else
      var last := vs[|vs| - 1];
      SlotsOfType(vs[..|vs| - 1], t) + (if VehicleType(last.vehicleNumber) == t then {last.slotNumber} else {})
  }

  /** The slot numbers 1 to `cap`. */
  ghost function SlotRange(cap: int): set<int>
    decreases if cap < 0 then 0 else cap
  {
    if cap <= 0 then {} else SlotRange(cap - 1) + {cap}
  }

  lemma SubsetCardinality<T>(a: set<T>, b: set<T>)
    requires a <= b
    ensures |a| <= |b|
  {
    var c := b - a;
    assert b == a + c;
    assert a * c == {};
  }

  /** A slot is listed in `SlotsOfType(vs, t)` exactly when some entry of type `t` holds it. */
  lemma {:induction false} SlotTakenIffListed(vs: seq<Vehicle>, t: int, slot: int)
    ensures slot in SlotsOfType(vs, t) <==> SlotTaken(vs, t, slot)
  {
    if vs != [] {
      var n := |vs| - 1;
      var init := vs[..n];
      SlotTakenIffListed(init, t, slot);
      if SlotTaken(vs, t, slot) {
        var k :| 0 <= k < |vs| && vs[k].slotNumber == slot && VehicleType(vs[k].vehicleNumber) == t;
        if k < n {
          assert init[k] == vs[k];
        }
      }
      if SlotTaken(init, t, slot) {
        var k :| 0 <= k < |init| && init[k].slotNumber == slot && VehicleType(init[k].vehicleNumber) == t;
        assert vs[k] == init[k];
      }
    }
  }

  lemma {:induction false} SlotsOfTypeAtMostCount(vs: seq<Vehicle>, t: int)
    ensures |SlotsOfType(vs, t)| <= CountOfType(vs, t)
  {
    if vs != [] {
      SlotsOfTypeAtMostCount(vs[..|vs| - 1], t);
    }
  }

  lemma {:induction false} SlotRangeSize(cap: int)
    ensures |SlotRange(cap)| == if cap < 0 then 0 else cap
    ensures forall i :: i in SlotRange(cap) <==> 1 <= i <= cap
    decreases if cap < 0 then 0 else cap
  {
    if cap > 0 {
      SlotRangeSize(cap - 1);
    }
  }

  /** Pigeonhole: fewer than `cap` entries of type `t` cannot hold every slot
      of [1, cap], so the search finds a slot and never answers -1. */
  lemma FreeSlotUnderCapacity(vs: seq<Vehicle>, t: int, cap: int)
    requires CountOfType(vs, t) < cap
    ensures 1 <= NextAvailableSlot(vs, t, cap) <= cap
  {
    SlotRangeSize(cap);
    SlotsOfTypeAtMostCount(vs, t);
    if NextAvailableSlot(vs, t, cap) == -1 {
      forall i | i in SlotRange(cap)
        ensures i in SlotsOfType(vs, t)
      {
        SlotTakenIffListed(vs, t, i);
      }
      SubsetCardinality(SlotRange(cap), SlotsOfType(vs, t));
      assert false;
    }
  }

  // ---------------------------------------------------------------------
  // The allocation invariant of one type

  /** Every entry of type `t` holds a slot in [1, cap], and no two of them share a slot. */
  ghost predicate WellAllocated(vs: seq<Vehicle>, t: int, cap: int)
  {
    (forall k :: 0 <= k < |vs| && VehicleType(vs[k].vehicleNumber) == t ==> 1 <= vs[k].slotNumber <= cap)
    && (forall k, l ::
          (0 <= k < l < |vs| && VehicleType(vs[k].vehicleNumber) == t && VehicleType(vs[l].vehicleNumber) == t)
          ==> vs[k].slotNumber != vs[l].slotNumber)
  }

  lemma {:induction false} DistinctSlotsCount(vs: seq<Vehicle>, t: int, cap: int)
    requires WellAllocated(vs, t, cap)
    ensures |SlotsOfType(vs, t)| == CountOfType(vs, t)
  {
    if vs != [] {
      var n := |vs| - 1;
      var init := vs[..n];
      assert forall k :: 0 <= k < n ==> init[k] == vs[k];
      DistinctSlotsCount(init, t, cap);
      if VehicleType(vs[n].vehicleNumber) == t {
        forall k | 0 <= k < n && VehicleType(init[k].vehicleNumber) == t
          ensures init[k].slotNumber != vs[n].slotNumber
        {
          assert init[k] == vs[k];
        }
        SlotTakenIffListed(init, t, vs[n].slotNumber);
      }
    }
  }

  /** Under the invariant a type never holds more entries than its capacity. */
  lemma WellAllocatedBoundsCount(vs: seq<Vehicle>, t: int, cap: int)
    requires WellAllocated(vs, t, cap)
    ensures CountOfType(vs, t) <= if cap < 0 then 0 else cap
  {
    DistinctSlotsCount(vs, t, cap);
    SlotRangeSize(cap);
    forall s | s in SlotsOfType(vs, t)
      ensures s in SlotRange(cap)
    {
      SlotTakenIffListed(vs, t, s);
    }
    SubsetCardinality(SlotsOfType(vs, t), SlotRange(cap));
  }

  /** A subset at least as large as its superset is the whole superset. */
  lemma SubsetOfEqualSize(a: set<int>, b: set<int>)
    requires a <= b && |a| >= |b|
    ensures a == b
  {
    var c := b - a;
    assert b == a + c;
    assert a * c == {};
    assert |c| == 0;
  }

  /** The converse of the pigeonhole: under the invariant, a type with `cap` or
      more entries holds every slot of [1, cap], so the search answers -1. */
  lemma FullTypeHasNoFreeSlot(vs: seq<Vehicle>, t: int, cap: int)
    requires WellAllocated(vs, t, cap) && CountOfType(vs, t) >= cap
    ensures NextAvailableSlot(vs, t, cap) == -1
  {
    if cap >= 1 {
      DistinctSlotsCount(vs, t, cap);
      SlotRangeSize(cap);
      forall s | s in SlotsOfType(vs, t)
        ensures s in SlotRange(cap)
      {
        SlotTakenIffListed(vs, t, s);
      }
      SubsetOfEqualSize(SlotsOfType(vs, t), SlotRange(cap));
      forall i | 1 <= i <= cap
        ensures SlotTaken(vs, t, i)
      {
        SlotTakenIffListed(vs, t, i);
      }
    }
  }

  // ---------------------------------------------------------------------
  // Park

  /** The declared type `t` has room: it is a known type with fewer than `cap` entries. */
  predicate HasRoom(vs: seq<Vehicle>, t: int, cap: int)
  {
    IsKnownType(t) && CountOfType(vs, t) < cap
  }

  /** Park under declared type `t`, whose capacity is `cap`. */
  function Park(vs: seq<Vehicle>, t: int, cap: int, vehicleNumber: string, now: int): (s: Step<ParkResult>)
    ensures !HasRoom(vs, t, cap) <==> s == Step(NoSlotAvailable, vs)
    ensures s.result.Parked? <==> HasRoom(vs, t, cap)
    ensures s.result.Parked? ==>
              var ticket := s.result.ticket;
              && s.parked == vs + [ticket]
              && ticket.vehicleNumber == vehicleNumber
              && ticket.inTime == now
              && ticket.outTime == None
              && 1 <= ticket.slotNumber <= cap
              && !SlotTaken(vs, t, ticket.slotNumber)
              && (forall i :: 1 <= i < ticket.slotNumber ==> SlotTaken(vs, t, i))
  {
    if !HasRoom(vs, t, cap) then Step(NoSlotAvailable, vs)
    else
      FreeSlotUnderCapacity(vs, t, cap);
      var ticket := Vehicle(vehicleNumber, NextAvailableSlot(vs, t, cap), now, None);
      Step(Parked(ticket), vs + [ticket])
  }

  /** A park adds one to the count of the number's own type, and nothing to any other. */
  lemma ParkOccupancy(vs: seq<Vehicle>, t: int, cap: int, vehicleNumber: string, now: int, u: int)
    ensures var s := Park(vs, t, cap, vehicleNumber, now);
            CountOfType(s.parked, u)
            == CountOfType(vs, u) + (if s.result.Parked? && VehicleType(vehicleNumber) == u then 1 else 0)
  {
  }

  /** A number whose own type differs from the declared one (in particular an
      unclassified number) parks without using up the declared type's room. */
  lemma ParkMisdeclaredKeepsRoom(vs: seq<Vehicle>, t: int, cap: int, vehicleNumber: string, now: int)
    requires HasRoom(vs, t, cap)
    requires VehicleType(vehicleNumber) != t
    ensures var s := Park(vs, t, cap, vehicleNumber, now);
            s.result.Parked? && HasRoom(s.parked, t, cap)
  {
  }

  /** Park keeps the invariant of type `u` unless the number's own type is `u`
      while the slot was chosen under another declared type or capacity. */
  lemma ParkKeepsAllocation(vs: seq<Vehicle>, t: int, cap: int, vehicleNumber: string, now: int, u: int, capU: int)
    requires WellAllocated(vs, u, capU)
    requires VehicleType(vehicleNumber) == u ==> u == t && capU == cap
    ensures WellAllocated(Park(vs, t, cap, vehicleNumber, now).parked, u, capU)
  {
  }

  // ---------------------------------------------------------------------
  // Unpark

  /** Entry `k` is the first in list order whose slot number is `slot`. */
  predicate FirstAtSlot(vs: seq<Vehicle>, slot: int, k: int)
  {
    0 <= k < |vs| && vs[k].slotNumber == slot && forall j :: 0 <= j < k ==> vs[j].slotNumber != slot
  }

  /** The position of the first entry holding slot `slot`, whatever its type. */
  function FindBySlot(vs: seq<Vehicle>, slot: int): (found: Option<nat>)
    ensures found.None? <==> forall k :: 0 <= k < |vs| ==> vs[k].slotNumber != slot
    ensures found.Some? ==> FirstAtSlot(vs, slot, found.value)
  {
    if vs == [] then None
    else if vs[0].slotNumber == slot then Some(0)
    else match FindBySlot(vs[1..], slot)
      case None => None
      case Some(k) => Some(k + 1)
  }

  /** Unpark slot `slotNumber`: the first entry holding it, of any type, leaves with out-time `now`. */
  function Unpark(vs: seq<Vehicle>, slotNumber: int, now: int): (s: Step<UnparkResult>)
    ensures s.result.NotFound? <==> forall k :: 0 <= k < |vs| ==> vs[k].slotNumber != slotNumber
    ensures s.result.NotFound? ==> s.parked == vs
    ensures s.result.Unparked? ==>
              exists k :: FirstAtSlot(vs, slotNumber, k)
                          && s.result.ticket == vs[k].(outTime := Some(now))
                          && s.parked == vs[..k] + vs[k + 1..]
  {
    match FindBySlot(vs, slotNumber)
    case None => Step(NotFound, vs)
    case Some(k) => Step(Unparked(vs[k].(outTime := Some(now))), vs[..k] + vs[k + 1..])
  }

  /** An unpark lowers the count of the removed number's type by one and leaves the others. */
  lemma UnparkOccupancy(vs: seq<Vehicle>, slotNumber: int, now: int, u: int)
    ensures var s := Unpark(vs, slotNumber, now);
            CountOfType(s.parked, u)
            == CountOfType(vs, u) - (if s.result.Unparked? && VehicleType(s.result.ticket.vehicleNumber) == u then 1 else 0)
  {
    match FindBySlot(vs, slotNumber)
    case None =>
    case Some(k) => CountAfterRemoval(vs, k, u);
  }

  /** Unpark keeps the invariant of every type. */
  lemma UnparkKeepsAllocation(vs: seq<Vehicle>, slotNumber: int, now: int, u: int, capU: int)
    requires WellAllocated(vs, u, capU)
    ensures WellAllocated(Unpark(vs, slotNumber, now).parked, u, capU)
  {
    match FindBySlot(vs, slotNumber)
    case None =>
    case Some(k) =>
      var ws := vs[..k] + vs[k + 1..];
      assert forall j :: 0 <= j < |ws| ==> ws[j] == vs[if j < k then j else j + 1];
  }

  /** Parking and then unparking the slot just handed out gives back the ticket
      and the list as it was, provided no entry already held that slot number. */
  lemma ParkThenUnpark(vs: seq<Vehicle>, t: int, cap: int, vehicleNumber: string, now: int, later: int)
    requires HasRoom(vs, t, cap)
    requires forall k :: 0 <= k < |vs| ==> vs[k].slotNumber != Park(vs, t, cap, vehicleNumber, now).result.ticket.slotNumber
    ensures var p := Park(vs, t, cap, vehicleNumber, now);
            var ticket := p.result.ticket;
            Unpark(p.parked, ticket.slotNumber, later) == Step(Unparked(ticket.(outTime := Some(later))), vs)
  {
    var p := Park(vs, t, cap, vehicleNumber, now);
    var ticket := p.result.ticket;
    var found := FindBySlot(p.parked, ticket.slotNumber);
    assert p.parked[|vs|] == ticket;
    assert found == Some(|vs|);
    assert p.parked[..|vs|] + p.parked[|vs| + 1..] == vs;
  }
}
