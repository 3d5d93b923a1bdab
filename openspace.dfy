/**
 The open space: a sequence of tables built with a common capacity, the two
 ways of seating a roster, and the aggregate seat counts. Seats are changed
 in place; Layout() reads the whole arrangement back as a value.
 */
module Openspaces {
  import opened Layouts
  import opened Allocation
  import opened Tables

  /** Sum of the tables' capacities. */
  function SumCapacity(ts: seq<Table>): int
  {
    if ts == [] then 0 else ts[0].capacity + SumCapacity(ts[1..])
  }

  lemma {:induction false} SumCapacityUniform(ts: seq<Table>, cap: nat)
    requires forall i :: 0 <= i < |ts| ==> ts[i].capacity == cap
    ensures SumCapacity(ts) == Span(|ts|, cap)
  {
    if ts != [] {
      SumCapacityUniform(ts[1..], cap);
    }
  }

  /**
   The inner loop of the in-order seating: the empty table that comes ti-th
   takes, seat by seat, the names from flat position Span(ti, capacity) onwards.
   */
  method SeatInOrder(table: Table, names: seq<string>, ti: nat, from: nat) returns (next: nat)
    requires table.Valid() && table.capacity >= 0
    requires table.Row() == EmptyRow(table.capacity)
    requires from == Min(|names|, Span(ti, table.capacity))
    modifies table.seats
    ensures table.Valid()
    ensures next == Min(|names|, Span(ti + 1, table.capacity))
    ensures table.Row() == InOrderRow(names, table.capacity, ti)
  {
    ghost var base := Span(ti, table.capacity);
    next := from;
    for si := 0 to |table.seats|
      invariant table.Valid()
      invariant next == Min(|names|, base + si)
      invariant forall k :: 0 <= k < |table.seats| ==>
        table.seats[k].View() == if k < si then SlotFor(names, base + k) else Free
    {
      if next < |names| {
        var ok := table.seats[si].SetOccupant(names[next]);
        next := next + 1;
      }
    }
  }

  /** Builds count new empty tables of the given capacity that share no seat. */
  method NewTables(count: nat, capacity: nat) returns (made: seq<Table>)
    ensures |made| == count
    ensures forall i :: 0 <= i < |made| ==>
      made[i].capacity == capacity && made[i].Valid() && made[i].Row() == EmptyRow(capacity)
    ensures forall i, k :: 0 <= i < |made| && 0 <= k < |made[i].seats| ==> fresh(made[i].seats[k])
    ensures forall i, j, k, l ::
      0 <= i < |made| && 0 <= j < |made| && i != j &&
      0 <= k < |made[i].seats| && 0 <= l < |made[j].seats| ==>
      made[i].seats[k] != made[j].seats[l]
  {
    made := [];
    while |made| < count
      invariant |made| <= count
      invariant forall i :: 0 <= i < |made| ==>
        made[i].capacity == capacity && made[i].Valid() && made[i].Row() == EmptyRow(capacity)
      invariant forall i, k :: 0 <= i < |made| && 0 <= k < |made[i].seats| ==> fresh(made[i].seats[k])
      invariant forall i, j, k, l ::
        0 <= i < |made| && 0 <= j < |made| && i != j &&
        0 <= k < |made[i].seats| && 0 <= l < |made[j].seats| ==>
        made[i].seats[k] != made[j].seats[l]
    {
      var table := new Table(capacity);
      made := made + [table];
    }
  }

  class Openspace {
    var numberOfTables: int
    const capacityPerTable: int
    var tables: seq<Table>

    /** Every seat of every table. */
    ghost function Repr(): set<Seat>
      reads this
    {
      set i, k | 0 <= i < |tables| && 0 <= k < |tables[i].seats| :: tables[i].seats[k]
    }

    /**
     The table count is the length of the table sequence, every table was
     built with the common capacity and is itself consistent, and no seat
     belongs to two tables.
     */
    ghost predicate Valid()
      reads this, Repr()
    {
      && |tables| == numberOfTables
      && capacityPerTable >= 0
      && (forall i :: 0 <= i < |tables| ==> tables[i].capacity == capacityPerTable)
      && (forall i :: 0 <= i < |tables| ==> tables[i].Valid())
      && (forall i, j, k, l ::
            0 <= i < |tables| && 0 <= j < |tables| && i != j &&
            0 <= k < |tables[i].seats| && 0 <= l < |tables[j].seats| ==>
            tables[i].seats[k] != tables[j].seats[l])
    }

    /** The whole arrangement as a value, table by table. */
    function Layout(): (L: seq<seq<Slot>>)
      reads this, Repr()
      ensures |L| == |tables|
    {
      seq(|tables|, i requires 0 <= i < |tables| reads this, Repr() => tables[i].Row())
    }

    constructor (numberOfTables: int, capacityPerTable: int)
      requires numberOfTables >= 0 && capacityPerTable >= 0
      ensures Valid()
      ensures this.numberOfTables == numberOfTables && this.capacityPerTable == capacityPerTable
      ensures Layout() == Blank(numberOfTables, capacityPerTable)
      ensures TotalSeats() == numberOfTables * capacityPerTable && TotalSeatsLeft() == TotalSeats()
      ensures fresh(Repr())
    {
      var made := NewTables(numberOfTables, capacityPerTable);
      this.numberOfTables := numberOfTables;
      this.capacityPerTable := capacityPerTable;
      tables := made;
      new;
      SpanProduct(numberOfTables, capacityPerTable);
      assert Layout() == Blank(numberOfTables, capacityPerTable);
      BlankCounts(numberOfTables, capacityPerTable);
    }

    // -------------------------------------------------------------------
    // Aggregate queries
    // -------------------------------------------------------------------

    /** The number of seats in the space. */
    function TotalSeats(): (n: int)
      reads this, Repr()
      requires Valid()
      ensures n == |Flatten(Layout())|
      ensures n == Span(numberOfTables, capacityPerTable)
    {
      SumCapacityUniform(tables, capacityPerTable);
      ConstantShapeSum(Layout(), capacityPerTable);
      FlattenSize(Layout());
      SumCapacity(tables)
    }

    /** The number of free seats in the space. */
    function TotalSeatsLeft(): (n: int)
      reads this, Repr()
      requires Valid()
      ensures n == FreeCount(Flatten(Layout()))
      ensures 0 <= n <= TotalSeats()
    {
      TotalFreeFlatten(Layout());
      SpaceCounts(Layout());
      FlattenSize(Layout());
      TotalFree(Layout())
    }

    /** The number of taken seats in the space. */
    function OccupiedSeats(): (n: int)
      reads this, Repr()
      requires Valid()
      ensures n == |Seated(Layout())|
      ensures 0 <= n <= TotalSeats()
    {
      SpaceCounts(Layout());
      FlattenSize(Layout());
      TotalSeats() - TotalSeatsLeft()
    }

    /** The first table, in table order, among those with the most free seats. */
    function MostFreeTable(): (b: nat)
      reads this, Repr()
      requires |tables| > 0
      ensures b < |tables|
      ensures forall i :: 0 <= i < |tables| ==> tables[i].LeftCapacity() <= tables[b].LeftCapacity()
      ensures forall i :: 0 <= i < b ==> tables[i].LeftCapacity() < tables[b].LeftCapacity()
    {
      var counts := FreeCounts(Layout());
      assert forall i :: 0 <= i < |tables| ==> counts[i] == tables[i].LeftCapacity();
      FirstMaxIndex(counts)
    }

    // -------------------------------------------------------------------
    // Changing the arrangement
    // -------------------------------------------------------------------

    /** Seats name at table b through the table's own first-fit assignment. */
    method AssignAt(b: nat, name: string) returns (ok: bool)
      requires Valid() && b < |tables|
      modifies tables[b].seats
      ensures Valid()
      ensures ok == HasFree(old(Layout())[b])
      ensures Layout() == old(Layout())[b := Assigned(old(Layout())[b], name)]
    {
      ok := tables[b].AssignSeat(name);
      forall i | 0 <= i < |tables| && i != b
        ensures tables[i].Row() == old(tables[i].Row())
        ensures tables[i].Valid()
      {
        forall k | 0 <= k < |tables[i].seats|
          ensures tables[i].seats[k] !in tables[b].seats
        {
        }
      }
    }

    /** Frees every seat of table ti; the other tables are untouched. */
    method ClearTable(ti: nat)
      requires Valid() && ti < |tables|
      modifies tables[ti].seats
      ensures Valid()
      ensures Layout() == old(Layout())[ti := EmptyRow(capacityPerTable)]
    {
      var table := tables[ti];
      for si := 0 to |table.seats|
        invariant table.Valid()
        invariant forall k :: 0 <= k < |table.seats| ==>
          table.seats[k].View() == if k < si then Free else old(table.seats[k].View())
      {
        var seat := table.seats[si];
        if !seat.free {
          var previous := seat.RemoveOccupant();
        }
      }
      assert table.Row() == EmptyRow(capacityPerTable);
      forall i | 0 <= i < |tables| && i != ti
        ensures tables[i].Row() == old(tables[i].Row())
        ensures tables[i].Valid()
      {
        forall k | 0 <= k < |tables[i].seats|
          ensures tables[i].seats[k] !in table.seats
        {
        }
      }
    }

    /** Frees every seat of every table. */
    method ClearAllSeats()
      requires Valid()
      modifies Repr()
      ensures Valid()
      ensures Layout() == Blank(|tables|, capacityPerTable)
      ensures TotalSeatsLeft() == TotalSeats() && OccupiedSeats() == 0
    {
      for ti := 0 to |tables|
        invariant Valid()
        invariant Layout() == Blank(ti, capacityPerTable) + old(Layout())[ti..]
      {
        ClearNext(old(Layout()), ti, capacityPerTable);
        ClearTable(ti);
      }
      ClearDone(old(Layout()), capacityPerTable);
      BlankCounts(|tables|, capacityPerTable);
    }

    /**
     Seats the names from flat position Span(ti, capacityPerTable) onwards at
     table ti, one per seat in seat order, while names remain; from is the
     roster position reached so far.
     */
    method FillTableInOrder(ti: nat, names: seq<string>, from: nat) returns (next: nat)
      requires Valid() && ti < |tables|
      requires Layout()[ti] == EmptyRow(capacityPerTable)
      requires from == Reached(|names|, ti, capacityPerTable)
      modifies tables[ti].seats
      ensures Valid()
      ensures next == Reached(|names|, ti + 1, capacityPerTable)
      ensures Layout() == old(Layout())[ti := InOrderRow(names, capacityPerTable, ti)]
    {
      var table := tables[ti];
      ReachedIsMin(|names|, ti, capacityPerTable);
      ReachedIsMin(|names|, ti + 1, capacityPerTable);
      next := SeatInOrder(table, names, ti, from);
      forall i | 0 <= i < |tables| && i != ti
        ensures tables[i].Row() == old(tables[i].Row())
        ensures tables[i].Valid()
      {
        forall k | 0 <= k < |tables[i].seats|
          ensures tables[i].seats[k] !in table.seats
        {
        }
      }
    }

    /**
     Seats the roster in table-major order, each table in seat order, until
     the roster or the seats run out; the tables start empty.
     */
    method SeatAllInOrder(names: seq<string>)
      requires Valid()
      requires Layout() == Blank(|tables|, capacityPerTable)
      modifies Repr()
      ensures Valid()
      ensures Layout() == InOrderRows(names, capacityPerTable, |tables|)
    {
      var nameIndex := 0;
      for ti := 0 to |tables|
        invariant Valid()
        invariant Layout() == InOrderRows(names, capacityPerTable, ti) + Blank(|tables| - ti, capacityPerTable)
        invariant nameIndex == Reached(|names|, ti, capacityPerTable)
      {
        InOrderNext(names, capacityPerTable, ti, |tables|);
        nameIndex := FillTableInOrder(ti, names, nameIndex);
      }
      BlankNone(InOrderRows(names, capacityPerTable, |tables|), capacityPerTable);
    }

    /**
     Clears the space and seats the roster in table-major order, each table
     in seat order, until the roster or the seats run out. shuffled is the
     roster in the order the shuffle produced.
     */
    method Organize(names: seq<string>, shuffled: seq<string>)
      requires Valid()
      requires multiset(shuffled) == multiset(names)
      modifies Repr()
      ensures Valid()
      ensures Flatten(Layout()) == Prefilled(shuffled, TotalSeats())
      ensures Seated(Layout()) == shuffled[..Min(|shuffled|, TotalSeats())]
      ensures OccupiedSeats() == Min(|names|, TotalSeats())
    {
      ClearAllSeats();
      SeatAllInOrder(shuffled);
      assert |multiset(shuffled)| == |multiset(names)|;
      InOrderLayout(shuffled, capacityPerTable, |tables|);
    }

    /**
     Seats up to target names from position from onwards at table ti through
     the table's first-fit assignment, while names remain.
     */
    method FillTableUpTo(ti: nat, kept: seq<string>, target: nat, from: nat) returns (next: nat)
      requires Valid() && ti < |tables|
      requires Layout()[ti] == EmptyRow(capacityPerTable)
      requires target <= capacityPerTable && from <= |kept|
      modifies tables[ti].seats
      ensures Valid()
      ensures next == Min(|kept|, from + target)
      ensures Layout() == old(Layout())[ti := Filled(capacityPerTable, kept[from..next])]
    {
      next := from;
      EmptyRowIsFilled(capacityPerTable);
      for j := 0 to target
        invariant Valid()
        invariant next == Min(|kept|, from + j)
        invariant Layout() == old(Layout())[ti := Filled(capacityPerTable, kept[from..next])]
      {
        if next < |kept| {
          FilledNext(capacityPerTable, kept, from, next);
          var ok := AssignAt(ti, kept[next]);
          next := next + 1;
        }
      }
    }

    /**
     Table ti's turn in the even pass: the common target is worked out from
     the roster size and the table count, and that many names, or what is
     left of the roster, are seated from position from onwards.
     */
    method FillEvenTable(ti: nat, kept: seq<string>, from: nat) returns (next: nat)
      requires Valid() && ti < |tables|
      requires Layout()[ti] == EmptyRow(capacityPerTable)
      requires from == Reached(|kept|, ti, Target(capacityPerTable, |kept|, |tables|))
      modifies tables[ti].seats
      ensures Valid()
      ensures next == Reached(|kept|, ti + 1, Target(capacityPerTable, |kept|, |tables|))
      ensures Layout() == old(Layout())[ti := EvenRow(capacityPerTable, kept, Target(capacityPerTable, |kept|, |tables|), ti)]
    {
      var target := Target(capacityPerTable, |kept|, numberOfTables);
      EvenRowNext(capacityPerTable, kept, target, ti);
      next := FillTableUpTo(ti, kept, target, from);
    }

    /**
     The even pass: table after table, seats up to the common target of names
     from the roster.
     */
    method FillEvenly(kept: seq<string>) returns (nameIndex: nat)
      requires Valid()
      requires Layout() == Blank(|tables|, capacityPerTable)
      modifies Repr()
      ensures Valid()
      ensures nameIndex == EvenCount(|tables|, capacityPerTable, |kept|)
      ensures Layout() == EvenFill(|tables|, capacityPerTable, kept)
    {
      nameIndex := 0;
      if |tables| == 0 {
        return;
      }
      ghost var t: nat := Target(capacityPerTable, |kept|, |tables|);
      for ti := 0 to |tables|
        invariant Valid()
        invariant Layout() == EvenFillWith(ti, capacityPerTable, kept, t) + Blank(|tables| - ti, capacityPerTable)
        invariant nameIndex == Reached(|kept|, ti, t)
      {
        EvenNext(ti, capacityPerTable, kept, t, |tables|);
        nameIndex := FillEvenTable(ti, kept, nameIndex);
      }
      BlankNone(EvenFillWith(|tables|, capacityPerTable, kept, t), capacityPerTable);
    }

    /**
     The overflow pass: while names remain, seats the next one at the first
     table with the most free seats, and stops early when that table is full.
     */
    method SeatRemaining(kept: seq<string>, from: nat)
      requires Valid() && from <= |kept|
      requires from == |kept| || |tables| > 0
      modifies Repr()
      ensures Valid()
      ensures Layout() == Distribute(old(Layout()), kept[from..])
    {
      var nameIndex := from;
      while nameIndex < |kept|
        invariant Valid() && from <= nameIndex <= |kept|
        invariant Distribute(Layout(), kept[nameIndex..]) == Distribute(old(Layout()), kept[from..])
        decreases |kept| - nameIndex
      {
        var best := MostFreeTable();
        if tables[best].LeftCapacity() > 0 {
          assert kept[nameIndex..][1..] == kept[nameIndex + 1..];
          var ok := AssignAt(best, kept[nameIndex]);
          nameIndex := nameIndex + 1;
        } else {
          break;
        }
      }
    }

    /** The even pass followed by the overflow pass, on an empty space. */
    method SeatNoAlone(kept: seq<string>)
      requires Valid()
      requires Layout() == Blank(|tables|, capacityPerTable)
      requires |tables| > 0 || kept == []
      modifies Repr()
      ensures Valid()
      ensures Layout() == NoAloneLayout(|tables|, capacityPerTable, kept)
    {
      var nameIndex := FillEvenly(kept);
      SeatRemaining(kept, nameIndex);
    }

    /**
     Clears the space and seats the roster so that, when there are enough
     people and seats per table, nobody sits alone: the roster is cut to the
     number of seats, the even pass runs, then the overflow pass.
     */
    method OrganizeNoAlone(names: seq<string>, shuffled: seq<string>)
      requires Valid()
      requires multiset(shuffled) == multiset(names)
      modifies Repr()
      ensures Valid()
      ensures Layout() == NoAloneLayout(numberOfTables, capacityPerTable, Truncate(shuffled, TotalSeats()))
      ensures multiset(Seated(Layout())) == multiset(shuffled[..Min(|shuffled|, TotalSeats())])
      ensures OccupiedSeats() == Min(|names|, TotalSeats())
      ensures capacityPerTable >= 2 && |names| >= 2 * numberOfTables ==>
        forall i :: 0 <= i < |tables| ==> |Occupants(Layout()[i])| >= 2
    {
      ClearAllSeats();
      var totalSeats := TotalSeats();
      var kept := shuffled;
      if |kept| > totalSeats {
        kept := kept[..totalSeats];
      }
      assert kept == Truncate(shuffled, totalSeats);
      NoAloneSeatsEveryone(numberOfTables, capacityPerTable, kept);
      SeatNoAlone(kept);
      assert |multiset(shuffled)| == |multiset(names)|;
      TruncateIsPrefix(shuffled, totalSeats);
      if capacityPerTable >= 2 && |names| >= 2 * numberOfTables {
        SpanAtLeastTwice(numberOfTables, capacityPerTable);
        NoAloneNoSingles(numberOfTables, capacityPerTable, kept);
      }
    }

    /**
     Seats name at the first free seat of the first table that has one and
     reports whether there was such a table.
     */
    method AddPerson(name: string) returns (ok: bool)
      requires Valid()
      modifies Repr()
      ensures Valid()
      ensures ok == AnyFree(old(Layout()))
      ensures Layout() == AddedFirstFit(old(Layout()), name)
    {
      for ti := 0 to |tables|
        invariant Valid()
        invariant Layout() == old(Layout())
        invariant forall j :: 0 <= j < ti ==> !HasFree(Layout()[j])
      {
        if tables[ti].HasFreeSpot() {
          ok := AssignAt(ti, name);
          assert FirstOpenTable(old(Layout())) == ti;
          return true;
        }
      }
      return false;
    }

    /** Appends one empty table of the common capacity. */
    method AddTable()
      requires Valid()
      modifies this
      ensures Valid()
      ensures numberOfTables == old(numberOfTables) + 1
      ensures Layout() == old(Layout()) + [EmptyRow(capacityPerTable)]
      ensures TotalSeats() == old(TotalSeats()) + capacityPerTable
      ensures fresh(Repr() - old(Repr()))
    {
      var table := new Table(capacityPerTable);
      tables := tables + [table];
      numberOfTables := numberOfTables + 1;
    }
  }
}
