# Parking lot registry — a Dafny model

This project models the `ParkingLot` registry of the ConsoleApp6 parking lot
simulation. The registry keeps three capacities, for two-wheelers, four-wheelers
and heavy vehicles. It also keeps one list of parked `Vehicle` records. It
supports three things:

- reporting how many slots of each type are occupied;
- parking a vehicle in the lowest free slot of its declared type;
- unparking whatever vehicle holds a given slot number.

A vehicle's type is never stored. Every count reads it again from the first
character of the vehicle number: `2`, `4` or `6`, and `0` for anything else.

Files:

- `registry.dfy` (module `Registry`) covers the value-level rules:
  - the ticket record and classification;
  - the occupancy count, with its equivalent as a set of list positions;
  - the lowest-free-slot search, the pigeonhole argument that it succeeds whenever the type has room, and its converse under the allocation invariant;
  - the allocation invariant (slots within capacity and distinct per type);
  - the pure park and unpark transitions of the list, with lemmas about occupancy, invariant preservation and the park-then-unpark round trip.
- `parking_lot.dfy` (module `Lot`) holds the class `ParkingLot`:
  - the three capacities are `const` fields, set by the constructor and never changed;
  - the list is a `seq<Vehicle>` field;
  - `GetNextAvailableSlot` is the source's counting loop, proved against the functional search;
  - `ParkVehicle` and `UnparkVehicle` change the list in place, and their postconditions tie the new list and the result to `Registry.Park` and `Registry.Unpark`.
- `scenarios.dfy` (module `Scenarios`) holds concrete traces:
  - slot reuse after an unpark;
  - unpark matching a slot number across types;
  - a vehicle declared under one type whose number makes it count under another, which overfills that other type.

Console input is replaced by parameters. The vehicle number is a string. The
vehicle type is already validated to 2, 4 or 6, as the loop at
`ConsoleApp6/Program.cs:40` does. The slot number is already validated to be at
least 1, as line 68 does. `DateTime.Now` becomes an integer `now`. Printed
tickets and messages become result values (`Parked`/`NoSlotAvailable`,
`Unparked`/`NotFound`).

Behaviour as the code has it, where a design reading differs:

- Unpark looks up the slot number alone, across all types (line 73). A two-wheeler and a four-wheeler can both hold slot 1, and then unparking slot 1 removes whichever was parked first (`Scenarios.UnparkMatchesSlotAcrossTypes`).
- The declared type picks the capacity check and the slot numbering. The stored record keeps only the number.
  - If the number's own type matches the declared type, or the number is unclassified, parking keeps the invariant.
  - Otherwise a type can end up over capacity, with duplicate slots (`Scenarios.MisdeclaredTypeOverfills`).
- An unclassified number (type 0) still gets a slot under its declared type, but never counts toward that type. So such numbers are never refused while the declared type has room (`Registry.ParkMisdeclaredKeepsRoom`).
- The count for code 0 is the number of unclassified entries, not zero. Only codes other than 0, 2, 4 and 6 always count 0 (`Registry.CountOfUnknownType`). The source only asks for codes 2, 4 and 6.
- The constructor does not check its capacities; only the caller's input loop demands at least 1. So the occupancy bound is stated as at most `max(capacity, 0)`.

## Model

| member | source | states |
|---|---|---|
| `Registry.VehicleType` | ConsoleApp6/Program.cs:137-142 | a vehicle number always classifies as 0, 2, 4 or 6, never as any other code |
| `Registry.VehicleTypeByFirstCharacter` | ConsoleApp6/Program.cs:137-142 | type 2, 4 or 6 exactly when the number's first character is '2', '4' or '6'; type 0 exactly when the number is empty or starts with anything else |
| `Registry.CountOfType` | ConsoleApp6/Program.cs:105-108 | the count of a type never exceeds the number of parked records |
| `Registry.CountIsNumberOfEntries` | ConsoleApp6/Program.cs:105-108 | the occupancy count equals the number of list positions whose number classifies as the asked type |
| `Registry.CountOfUnknownType` | ConsoleApp6/Program.cs:105-108 | a type code other than 0, 2, 4, 6 always counts zero vehicles |
| `Registry.CountAfterRemoval` | ConsoleApp6/Program.cs:80 | removing one record lowers the count of its own type by one and leaves every other type's count unchanged |
| `Registry.FreeSlotFrom` | ConsoleApp6/Program.cs:110-120 | the scan answers the lowest slot in range that no vehicle of the type holds, and -1 exactly when every slot in range is held |
| `Registry.FreeSlotUnderCapacity` | ConsoleApp6/Program.cs:45-51 | pigeonhole: when fewer than `cap` vehicles have the type, the next available slot lies in [1, cap] and is never -1 |
| `Registry.FullTypeHasNoFreeSlot` | ConsoleApp6/Program.cs:110-120 | when a type's vehicles hold distinct slots within [1, cap] and number at least `cap`, every slot is held and the search answers -1 |
| `Registry.WellAllocatedBoundsCount` | ConsoleApp6/Program.cs:105-120 | when a type's vehicles hold distinct slots within [1, cap], there are at most max(cap, 0) of them |
| `Registry.Park` | ConsoleApp6/Program.cs:45-59 | refuses and leaves the list unchanged exactly when the declared type is unknown or full, and parks exactly when it is known with room; on success appends one record with the given number, in-time `now`, no out-time, and the lowest slot in [1, cap] not held by the declared type |
| `Registry.ParkOccupancy` | ConsoleApp6/Program.cs:45-59 | a park adds one to the count of the number's own type only, and only on success |
| `Registry.ParkMisdeclaredKeepsRoom` | ConsoleApp6/Program.cs:40-59 | a number whose own type differs from the declared type (an unclassified one included) parks without using up the declared type's room |
| `Registry.ParkKeepsAllocation` | ConsoleApp6/Program.cs:45-59 | park keeps a type's slots distinct and within capacity unless the number's own type is that type while it was declared as another |
| `Registry.FindBySlot` | ConsoleApp6/Program.cs:73 | finds the first record in list order with the given slot number, whatever its type, and nothing exactly when no record has that slot |
| `Registry.Unpark` | ConsoleApp6/Program.cs:73-85 | not found, with the list unchanged, exactly when no record has the slot; otherwise removes the first record with that slot, returns it with out-time `now`, and keeps the others in order |
| `Registry.UnparkOccupancy` | ConsoleApp6/Program.cs:73-81 | an unpark lowers the count of the removed record's type by one and leaves every other type's count unchanged |
| `Registry.UnparkKeepsAllocation` | ConsoleApp6/Program.cs:73-81 | unpark keeps every type's slots distinct and within capacity |
| `Registry.ParkThenUnpark` | ConsoleApp6/Program.cs:45-81 | parking, then unparking the slot just handed out, returns the ticket with its out-time and restores the list, when no other record held that slot number |
| `Lot.ParkingLot.constructor` | ConsoleApp6/Program.cs:18-24 | the three capacities are the given ones and the list starts empty; the capacities are constants no method can change |
| `Lot.ParkingLot.GetCapacity` | ConsoleApp6/Program.cs:122-135 | each known type's configured capacity, and 0 for any other code |
| `Lot.ParkingLot.CountOccupiedSlots` | ConsoleApp6/Program.cs:105-108 | the number of parked vehicles whose number classifies as the type; 0 for codes outside 0, 2, 4, 6 |
| `Lot.ParkingLot.IsSlotAvailable` | ConsoleApp6/Program.cs:88-103 | true exactly when the type is 2, 4 or 6 and its count is below its capacity; when true, the slot search will find a slot within the capacity |
| `Lot.ParkingLot.GetNextAvailableSlot` | ConsoleApp6/Program.cs:110-120 | the loop returns the lowest free slot of the type in [1, capacity], and -1 exactly when all are held |
| `Lot.ParkingLot.OccupancyDetails` | ConsoleApp6/Program.cs:26-31 | each type's reported occupancy is the number of its parked vehicles, and its capacity is the configured one |
| `Lot.ParkingLot.OccupancyWithinCapacity` | ConsoleApp6/Program.cs:26-31 | under the allocation invariant no reported occupancy exceeds its capacity |
| `Lot.ParkingLot.ParkVehicle` | ConsoleApp6/Program.cs:33-62 | the new list and the result are those of `Registry.Park` on the old list; the invariant is kept when the number's type is the declared one or unclassified |
| `Lot.ParkingLot.UnparkVehicle` | ConsoleApp6/Program.cs:64-86 | the new list and the result are those of `Registry.Unpark` on the old list; the invariant is always kept |
| `Scenarios.TwoWheelerScenario` | ConsoleApp6/Program.cs:45-81 | with two-wheeler capacity 2: parks get slots 1 and 2, a third park is refused, unparking slot 1 returns the first ticket, and the next park reuses slot 1 |
| `Scenarios.UnparkMatchesSlotAcrossTypes` | ConsoleApp6/Program.cs:73 | a two-wheeler and a four-wheeler both at slot 1: unparking the four-wheeler's slot removes the two-wheeler |
| `Scenarios.MisdeclaredTypeOverfills` | ConsoleApp6/Program.cs:40-59 | two numbers starting with '4' declared as two-wheelers both park at slot 1 and count as two four-wheelers, over a four-wheeler capacity of 1 |

## Left out

- Console prompts, messages and the retry-until-valid input loops (Program.cs:35-43, 66-71, 161-178, 194-197) are I/O. The model takes the validated values as parameters and preconditions.
- `Program.Main`'s menu loop (Program.cs:155-217) only dispatches to the registry's operations.
- `DateTime.Now` is a clock read. It is an integer parameter `now`. The default `OutTime` of a parked record is modelled as `None`.
- `DisplayTicketDetails` and the text of `DisplayOccupancyDetails` only render strings. The model returns the ticket record and the (occupied, capacity) pairs.
- A null vehicle number from `ReadLine` at the end of input is an I/O artefact. The model's numbers are always strings.
- `StartsWith` in .NET compares with the current culture. The model compares the first character exactly, with no culture-specific ignorable characters.
- `Vehicle` is a reference type in the source. The model treats records as values. Unpark's setting of `OutTime` on the found object is modelled as returning a copy with the out-time. That object is removed from the list at once, and each parked record is a distinct object, so `Remove` removes exactly the record `Find` returned.
- C# `int` is 32 bits. Capacities and slot numbers are unbounded integers, so the overflow of the slot loop's counter at `int.MaxValue` is not modelled.
- Mutual exclusion between concurrent operators is not modelled. The source has one sequential operator.
