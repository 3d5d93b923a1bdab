/**
 Seats and tables, changed in place. A seat has a free flag and an occupant
 name; a table has a capacity and a fixed sequence of seats, both set once
 at construction.
 */
module Tables {
  import opened Layouts

  class Seat {
    var free: bool
    var occupant: string

    /** A free seat never keeps a stale name. */
    ghost predicate Valid()
      reads this
    {
      free ==> occupant == ""
    }

    /** The seat as a value. */
    function View(): (s: Slot)
      reads this
      ensures s.Free? <==> free
    {
      if free then Free else Taken(occupant)
    }

    constructor ()
      ensures Valid() && free && occupant == ""
    {
      free := true;
      occupant := "";
    }

    /** Takes the seat for name if it is free; never overwrites an occupant. */
    method SetOccupant(name: string) returns (ok: bool)
      modifies this
      ensures Valid()
      ensures ok == old(free)
      ensures ok ==> !free && occupant == name
      ensures !ok ==> free == old(free) && occupant == old(occupant)
      ensures View() == if old(free) then Taken(name) else old(View())
    {
      if free {
        occupant := name;
        free := false;
        return true;
      }
      return false;
    }

    /** Frees the seat, whatever its state, and returns who was sitting there. */
    method RemoveOccupant() returns (previous: string)
      modifies this
      ensures previous == old(occupant)
      ensures free && occupant == ""
      ensures Valid() && View() == Free
    {
      previous := occupant;
      occupant := "";
      free := true;
    }
  }

  class Table {
    const capacity: int
    const seats: seq<Seat>

    /** The seat sequence has one distinct, consistent seat per unit of capacity. */
    ghost predicate Valid()
      reads seats
    {
      && |seats| == capacity
      && (forall i, j :: 0 <= i < j < |seats| ==> seats[i] != seats[j])
      && (forall i :: 0 <= i < |seats| ==> seats[i].Valid())
    }

    /** The table's seats as values, in seat order. */
    function Row(): (r: seq<Slot>)
      reads seats
      ensures |r| == |seats|
      ensures forall i :: 0 <= i < |seats| ==> r[i] == seats[i].View()
    {
      seq(|seats|, i requires 0 <= i < |seats| reads seats => seats[i].View())
    }

    constructor (capacity: int)
      requires capacity >= 0
      ensures this.capacity == capacity && Valid()
      ensures Row() == EmptyRow(capacity)
      ensures forall i :: 0 <= i < |seats| ==> fresh(seats[i])
    {
      var made: seq<Seat> := [];
      while |made| < capacity
        invariant |made| <= capacity
        invariant forall i, j :: 0 <= i < j < |made| ==> made[i] != made[j]
        invariant forall i :: 0 <= i < |made| ==> fresh(made[i]) && made[i].Valid() && made[i].free
      {
        var seat := new Seat();
        made := made + [seat];
      }
      this.capacity := capacity;
      seats := made;
    }

    /** Whether any seat is free. */
    function HasFreeSpot(): (b: bool)
      reads seats
      ensures b <==> HasFree(Row())
      ensures b <==> LeftCapacity() > 0
    {
      HasFreeIffFreeCount(Row());
      exists i :: 0 <= i < |seats| && seats[i].free
    }

    /** The number of free seats. */
    function LeftCapacity(): (n: nat)
      reads seats
      ensures n <= |seats|
      ensures n + |Occupants(Row())| == |seats|
    {
      FreeCount(Row())
    }

    /** The occupants of the taken seats, in seat order. */
    function GetOccupants(): (names: seq<string>)
      reads seats
      requires Valid()
      ensures |names| == capacity - LeftCapacity()
    {
      Occupants(Row())
    }

    /**
     Seats name at the first free seat, in seat order, and reports whether
     there was one; a full table is left as it is.
     */
    method AssignSeat(name: string) returns (ok: bool)
      requires Valid()
      modifies seats
      ensures Valid()
      ensures ok == HasFree(old(Row()))
      ensures Row() == Assigned(old(Row()), name)
    {
      var i := 0;
      while i < |seats|
        invariant 0 <= i <= |seats|
        invariant forall j :: 0 <= j < i ==> !seats[j].free
        invariant Row() == old(Row())
      {
        if seats[i].free {
          ghost var before := Row();
          var taken := seats[i].SetOccupant(name);
          assert FirstFree(before) == i;
          assert Row() == before[i := Taken(name)];
          return true;
        }
        i := i + 1;
      }
      return false;
    }
  }
}
