# Open-space seating, modelled in Dafny

This project models the seating core of a small open-space organiser. An
open space holds a number of tables, all built with the same capacity. A
table holds a fixed row of seats. A seat is either free or taken by a person's
name. The organiser can:

- clear every seat;
- seat a roster in table order (`organize`);
- seat a roster trying to avoid anyone sitting alone (`organize_no_alone`); this is
  guaranteed only with at least two names per table and at least two seats per table;
- add a single person at the first free seat;
- add an empty table;
- report total, free and occupied seat counts.

The model keeps the organiser's own shape:

- `Tables.Seat` and `Tables.Table` (table.dfy) are classes whose seats are
  changed in place.
- `Openspaces.Openspace` (openspace.dfy) is a class holding the table
  sequence, the table count and the common capacity.
- Each class has a value view: `Seat.View()`, `Table.Row()` and
  `Openspace.Layout()`, the arrangement as a sequence of rows.
- Every method is specified against pure functions on those values:
  - seat-level and space-level first-fit, and in-order filling, in `Layouts`
    (layouts.dfy);
  - the even pass and the overflow pass of the no-alone policy in
    `Allocation` (allocation.dfy).
- The lemmas beside those functions prove what the organiser promises:
  - how many people are seated, and who;
  - in which order;
  - that seat counts add up;
  - that with enough people no one sits alone.

The shuffle that both organising methods apply to the roster is not
modelled as randomness. They take the shuffled roster as an extra argument
`shuffled`, with the precondition that it is a permutation of `names`. Every
result is stated about that sequence.

The class invariant `Openspace.Valid()` holds that:

- the table count is the length of the table sequence;
- every table was built with the common capacity;
- every table has one seat per unit of capacity;
- a free seat has an empty occupant;
- no seat belongs to two tables.

Every method keeps this invariant.

## Model

| member | source | states |
|---|---|---|
| Tables.Seat.constructor | utils/table.py:9-12 | A new seat is free and has an empty occupant. |
| Tables.Seat.SetOccupant | utils/table.py:18-29 | On a free seat: stores the name, marks the seat taken, returns true. On a taken seat: returns false and leaves flag and occupant unchanged, so no one is overwritten. |
| Tables.Seat.RemoveOccupant | utils/table.py:31-40 | Returns the previous occupant. Leaves the seat free with an empty occupant, whatever its prior state. |
| Tables.Table.constructor | utils/table.py:48-55 | A new table has exactly `capacity` distinct seats, all free with empty occupants (its row is `EmptyRow(capacity)`). |
| Tables.Table.HasFreeSpot | utils/table.py:62-68 | True exactly when some seat is free, and exactly when `LeftCapacity() > 0`. |
| Tables.Table.AssignSeat | utils/table.py:70-81 | The new row is `Assigned` of the old row: the lowest-index free seat taken by the name. The result is true iff there was a free seat; a full table is unchanged. |
| Tables.Table.LeftCapacity | utils/table.py:83-89 | The number of free seats: never more than the number of seats, and together with the taken seats' occupants it accounts for every seat. |
| Tables.Table.GetOccupants | utils/table.py:91-97 | The names of the taken seats in seat order. Its length is `capacity - LeftCapacity()`. |
| Layouts.Assigned | utils/table.py:77-81 | First-fit on a row as a value: the row keeps its length, and when it has a free seat the lowest-index one holds the name; `AssignedEffect` states that nothing else changes. |
| Layouts.AssignedEffect | utils/table.py:70-81 | First-fit on a row with a free seat: fills exactly the lowest-index free seat (all earlier seats are taken) and changes no other seat. It removes exactly one free seat and adds exactly the name to the occupants. On a full row it changes nothing. |
| Layouts.HasFreeIffFreeCount | utils/table.py:62-68 | A row has a free seat iff its free count is positive. |
| Layouts.FilledAssign | utils/table.py:77-80 | First-fit on a table whose first seats hold `xs` and whose rest are free puts the name right after `xs`. |
| Layouts.OccupantsFilled | utils/table.py:91-97 | A table filled with `xs` from seat 0 has `xs` as its occupants, in order, and `c - \|xs\|` free seats. |
| Openspaces.NewTables | utils/openspace.py:27-28 | Builds the requested number of new empty tables of the given capacity; no two share a seat. |
| Openspaces.Openspace.constructor | utils/openspace.py:18-28 | The space has `number_of_tables` tables of `capacity_per_table` free seats each. Total seats are `number_of_tables * capacity_per_table`, and all are free. Every seat is newly allocated, so the caller may change the space afterwards. |
| Openspaces.SumCapacityUniform | utils/openspace.py:163 | Summing the capacities of tables that share one capacity gives table count times capacity. |
| Openspaces.Openspace.TotalSeats | utils/openspace.py:157-163 | The sum of the table capacities equals the number of seats in the space, and equals `number_of_tables * capacity_per_table`. |
| Openspaces.Openspace.TotalSeatsLeft | utils/openspace.py:165-171 | The sum of the tables' free counts equals the number of free seats in the space, between 0 and `TotalSeats()`. |
| Openspaces.Openspace.OccupiedSeats | utils/openspace.py:173-179 | Total minus free seats is exactly the number of people seated, between 0 and `TotalSeats()`. |
| Layouts.SpaceCounts | utils/openspace.py:173-179 | Over the whole space, free seats never exceed seats, and seated people plus free seats make up all seats. |
| Openspaces.Openspace.ClearTable | utils/openspace.py:103-106 | Frees every seat of one table; every other table is unchanged. |
| Openspaces.Openspace.ClearAllSeats | utils/openspace.py:101-106 | Afterwards every table is an empty row: `TotalSeatsLeft() == TotalSeats()` and `OccupiedSeats() == 0`. |
| Layouts.BlankCounts | utils/openspace.py:101-106 | A space of empty tables has all its seats free and nobody seated. |
| Openspaces.SeatInOrder | utils/openspace.py:54-58 | An empty table that comes i-th gets, seat by seat, the roster entries from position `i * capacity` onwards while names remain. The running index advances to `min(\|names\|, (i + 1) * capacity)`. |
| Openspaces.Openspace.FillTableInOrder | utils/openspace.py:53-58 | The same for table `ti` of the space; no other table changes. |
| Layouts.ReachedIsMin | utils/openspace.py:52-58 | The running name index after `i` tables equals `min(\|names\|, i * capacity)`. |
| Openspaces.Openspace.SeatAllInOrder | utils/openspace.py:52-58 | Starting from empty tables, table `i` ends up holding the roster slice from flat position `i * capacity`, in seat order. |
| Openspaces.Openspace.Organize | utils/openspace.py:39-58 | The seats in table-major, seat-minor order hold the shuffled roster's prefix, and every later seat is free. Those seated are exactly the first `min(\|names\|, TotalSeats())` shuffled names, and `OccupiedSeats()` is that number. |
| Layouts.InOrderLayout | utils/openspace.py:52-58 | For in-order tables: each seat holds the name at its flat position. The flattened space is the roster prefix followed by free seats. The seated people are the first `min(\|names\|, seats)` names, and the free seats are the remainder. |
| Layouts.FilledInOrderFlatten | utils/openspace.py:53-57 | Filling table by table, seat by seat, with consecutive names is filling the flattened seat sequence in order. |
| Layouts.PrefilledCounts | utils/openspace.py:55-57 | Filling `n` seats in order seats exactly the first `min(n, \|names\|)` names, in order, and leaves the rest free. |
| Allocation.Truncate | utils/openspace.py:75-77 | The roster cut to the seat count: its length is `min(\|roster\|, seats)` and it is a prefix of the roster. |
| Allocation.TruncateIsPrefix | utils/openspace.py:74-77 | The roster cut to the seat count is its prefix of length `min(\|roster\|, seats)`. |
| Allocation.Target | utils/openspace.py:83-84 | The common fill target `min(capacity_per_table, max(2, len // number_of_tables))`: never above the capacity, and at least 2 whenever the capacity is at least 2. |
| Allocation.TargetBounds | utils/openspace.py:83-84 | With at least two people and two seats per table, the common target is at least 2, and targets for all tables fit in the roster. |
| Openspaces.Openspace.FillTableUpTo | utils/openspace.py:86-89 | Table `ti` receives, by first-fit, the names from position `from` onwards, up to `target` of them. The index advances to `min(\|roster\|, from + target)`; no other table changes. |
| Openspaces.Openspace.FillEvenTable | utils/openspace.py:81-89 | One table's turn in the even pass: the target is recomputed from the roster size and table count. The table receives its even share (`EvenRow`, the row of `EvenFill` for that table) and the running index advances by that share. |
| Openspaces.Openspace.FillEvenly | utils/openspace.py:79-89 | The even pass over empty tables yields `EvenFill` of the roster. The returned index is the number of people it seated. |
| Allocation.EvenFill | utils/openspace.py:79-89 | The even pass as a layout: table `i` holds the roster slice `Reached(i)..Reached(i + 1)` for the common target, from seat 0. Its contract: one row per table, each of the capacity; `EvenFillSeats` states whom it seats. |
| Allocation.EvenFillSeats | utils/openspace.py:79-89 | The even pass seats the first `EvenCount` names, in roster order, table after table. Each table gets at most the target; the other seats stay free. |
| Allocation.EvenPassNoSingles | utils/openspace.py:81-89 | With at least two people per table and two seats per table, every table gets exactly the target, which is at least 2. |
| Allocation.FirstMaxIndex | utils/openspace.py:94 | The chosen table has the most free seats, and every table before it has strictly fewer. This is the first maximum, as a key-based maximum returns it. |
| Openspaces.Openspace.MostFreeTable | utils/openspace.py:94 | The index of the first table whose free count is maximal. |
| Openspaces.Openspace.AssignAt | utils/openspace.py:96 | Seats the name at table `b` by first-fit; every other table is unchanged. |
| Allocation.SeatOneEffect | utils/openspace.py:94-96 | One overflow step on a table with a free seat: table sizes stay, one free seat fewer, one more person seated (the name), and no table loses anyone. |
| Allocation.MostFreeFull | utils/openspace.py:94-99 | If the table with the most free seats is full, the whole space is full, so the early stop drops no one who could have been seated. |
| Openspaces.Openspace.SeatRemaining | utils/openspace.py:91-99 | The overflow loop ends in `Distribute` of the layout before it and the remaining names, and it terminates. |
| Allocation.Distribute | utils/openspace.py:91-99 | The overflow pass as a layout: each remaining name goes by first-fit to the first table with the most free seats, until the names run out or the space is full. Its contract: every table keeps its size; `DistributeFree` and `DistributeSeats` state whom it seats. |
| Allocation.DistributeFree | utils/openspace.py:91-99 | The overflow pass fills exactly `min(\|rest\|, free seats)` more seats. |
| Allocation.DistributeSeats | utils/openspace.py:91-99 | Those newly seated are exactly the first `min(\|rest\|, free seats)` remaining names, each once. |
| Allocation.DistributeMonotone | utils/openspace.py:91-99 | The overflow pass keeps table sizes and never takes anyone away from a table. |
| Allocation.EvenFillRoom | utils/openspace.py:74-89 | Once the roster is cut to the seat count, the seats left free by the even pass can take everyone it did not seat. |
| Allocation.NoAloneSeatsEveryone | utils/openspace.py:74-99 | For a roster that fits, the two passes seat all of it, each person exactly once, and keep the table sizes. |
| Allocation.NoAloneNoSingles | utils/openspace.py:60-63 | With at least two people per table and at least two seats per table, every table ends with at least two people. |
| Allocation.NoAloneNeedsTwoPerTable | utils/openspace.py:81-89 | The two-per-table condition is needed: three people at two tables of four end with two at the first table and one person alone at the second. |
| Allocation.NoAloneLayout | utils/openspace.py:79-99 | The even pass followed by the overflow pass of the names it left. Its contract: one row per table, each of the capacity; `NoAloneSeatsEveryone` and `NoAloneNoSingles` state whom it seats. |
| Openspaces.Openspace.SeatNoAlone | utils/openspace.py:79-99 | On empty tables, the even pass and then the overflow pass yield `NoAloneLayout` of the roster. |
| Openspaces.Openspace.OrganizeNoAlone | utils/openspace.py:60-99 | The space ends in `NoAloneLayout` of the shuffled roster cut to the seat count (`Truncate`). Those seated are, as a multiset, that prefix, so `OccupiedSeats() == min(\|names\|, TotalSeats())`. With `capacity_per_table >= 2` and at least two names per table, every table has at least two occupants. |
| Layouts.AddedFirstFit | utils/openspace.py:188-194 | Adding one person as a value: first-fit at the first table with a free seat. The space keeps its table count, and it changes exactly when some table had a free seat. |
| Layouts.AnyFreeIffFreeSeats | utils/openspace.py:188-194 | Some table has a free spot iff the space has a free seat. |
| Layouts.AddedFirstFitFlatten | utils/openspace.py:188-192 | Seating at the first free seat of the first table with one is first-fit over all seats in table-major order. |
| Layouts.AddedFirstFitCounts | utils/openspace.py:181-194 | If a seat is free: one free seat fewer and the name joins the seated people. Otherwise the space is full and nothing changes. |
| Openspaces.Openspace.AddPerson | utils/openspace.py:181-194 | Returns true iff some table had a free spot. The new arrangement is `AddedFirstFit` of the old one: the name at the first free seat of the first such table; otherwise nothing changes. |
| Openspaces.Openspace.AddTable | utils/openspace.py:196-200 | Appends one empty table of the common capacity and increments the table count. Existing tables are untouched and `TotalSeats()` grows by the capacity. The new table's seats are newly allocated. |

## Left out

- Console output is not modelled. This covers `display`, both `__str__` methods and the printed messages in `organize_no_alone`, `add_person` and `add_table`.
- `store`, `save_config` and `load_config` are not modelled. They read and write CSV/JSON files and catch I/O exceptions.
- main.py is not part of this model. It holds the interactive menu, input parsing and screen clearing.
- utils/file_utils.py is not part of this model. It holds CSV wrappers over the file system.
- `random.shuffle` is replaced by the caller-supplied permutation `shuffled`. The uniformity of the shuffle is not modelled.
- The default arguments are not modelled: both constructors take every value explicitly. A space built with `Openspace()` (as main.py:40 and main.py:77 and the loader at openspace.py:237 and openspace.py:240 do) corresponds to `new Openspace(6, 4)`. `Table`'s default capacity of 4 is never relied on, since openspace.py:27 and openspace.py:198 always pass one.
- Tables.Table.constructor: requires a non-negative capacity. In Python a negative capacity stores the negative number and builds no seats; the model does not cover that.
- Openspaces.Openspace.constructor: requires non-negative counts, for the same reason.
- Openspaces.Openspace.OrganizeNoAlone: states its no-singles guarantee over `Occupants(Layout()[i])`, the occupant list of table `i`'s row, which `GetOccupants` returns. It does not state it through `GetOccupants` directly.
- Callers that reassign `number_of_tables` or `tables` directly from outside the class are not modelled. The invariant assumes only the class's own methods change them.
- That `organize` and `organize_no_alone` leave the caller's list unchanged needs no proof here, since sequences are values.
- The `max` over an empty table list in the overflow loop (openspace.py:94) cannot happen. With no tables the roster is cut to nothing, so the loop never runs, and `SeatRemaining` requires tables whenever names remain.
