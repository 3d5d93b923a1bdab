/**
 A value view of a seating arrangement. A seat is either free or taken by a
 name; a table is the row of its seats in seat order; the open space is the
 sequence of its tables' rows in table order. The classes in table.dfy and
 openspace.dfy are specified against these functions.
 */
module Layouts {

  /** The state of one seat. A free seat has no occupant. */
  datatype Slot = Free | Taken(name: string)

  function Min(a: int, b: int): int { if a <= b then a else b }

  function Max(a: int, b: int): int { if a >= b then a else b }

  function Sum(s: seq<int>): int
  {
    if s == [] then 0 else s[0] + Sum(s[1..])
  }

  /** The number of seats at i tables of c seats each. */
  function Span(i: nat, c: nat): nat
  {
    if i == 0 then 0 else Span(i - 1, c) + c
  }

  lemma {:induction false} SpanProduct(i: nat, c: nat)
    ensures Span(i, c) == i * c
  {
    if i > 0 {
      SpanProduct(i - 1, c);
    }
  }

  /**
   The roster position reached after i tables that each take up to c names,
   in table order, from a roster of n names (c is the capacity when seating
   in order, the common target in the even pass).
   */
  function Reached(n: nat, i: nat, c: nat): (r: nat)
    ensures r <= n
  {
    if i == 0 then 0 else Min(n, Reached(n, i - 1, c) + c)
  }

  lemma {:induction false} ReachedIsMin(n: nat, i: nat, c: nat)
    ensures Reached(n, i, c) == Min(n, Span(i, c))
  {
    if i > 0 {
      ReachedIsMin(n, i - 1, c);
    }
  }

  lemma {:induction false} SpanAtLeastTwice(i: nat, c: nat)
    requires c >= 2
    ensures Span(i, c) >= 2 * i
  {
    if i > 0 {
      SpanAtLeastTwice(i - 1, c);
    }
  }

  // ---------------------------------------------------------------------
  // Rows: the seats of one table
  // ---------------------------------------------------------------------

  /** Number of free seats in a row. */
  function FreeCount(r: seq<Slot>): (n: nat)
    ensures n <= |r|
  {
    if r == [] then 0 else (if r[0].Free? then 1 else 0) + FreeCount(r[1..])
  }

  /** Names of the taken seats of a row, in seat order. */
  function Occupants(r: seq<Slot>): (names: seq<string>)
    ensures |names| == |r| - FreeCount(r)
  {
    if r == [] then []
    else (if r[0].Taken? then [r[0].name] else []) + Occupants(r[1..])
  }

  predicate HasFree(r: seq<Slot>)
  {
    exists i :: 0 <= i < |r| && r[i].Free?
  }

  /** A row has a free seat exactly when its free count is positive. */
  lemma {:induction false} HasFreeIffFreeCount(r: seq<Slot>)
    ensures HasFree(r) <==> FreeCount(r) > 0
  {
    if r != [] {
      HasFreeIffFreeCount(r[1..]);
      if HasFree(r) && r[0].Taken? {
        var i :| 0 <= i < |r| && r[i].Free?;
        assert r[1..][i - 1].Free?;
      }
      if HasFree(r[1..]) {
        var i :| 0 <= i < |r| - 1 && r[1..][i].Free?;
        assert r[i + 1].Free?;
      }
    }
  }

  /** The lowest-index free seat of a row. */
  function FirstFree(r: seq<Slot>): (j: nat)
    requires HasFree(r)
    ensures j < |r| && r[j].Free?
    ensures forall i :: 0 <= i < j ==> r[i].Taken?
  {
    if r[0].Free? then 0
    else
      assert HasFree(r[1..]) by {
        var i :| 0 <= i < |r| && r[i].Free?;
        assert r[1..][i - 1].Free?;
      }
      1 + FirstFree(r[1..])
  }

  /**
   Seating one person at a table: the lowest-index free seat takes the name,
   and a full row stays as it is.
   */
  function Assigned(r: seq<Slot>, name: string): (r': seq<Slot>)
    ensures |r'| == |r|
    ensures HasFree(r) ==> r'[FirstFree(r)] == Taken(name)
  {
    if HasFree(r) then r[FirstFree(r) := Taken(name)] else r
  }

  lemma {:induction false} FreeCountUpdate(r: seq<Slot>, j: nat, s: Slot)
    requires j < |r|
    ensures FreeCount(r[j := s]) + (if r[j].Free? then 1 else 0)
         == FreeCount(r) + (if s.Free? then 1 else 0)
  {
    if j == 0 {
      assert r[j := s][1..] == r[1..];
    } else {
      assert r[j := s][1..] == r[1..][j - 1 := s];
      FreeCountUpdate(r[1..], j - 1, s);
    }
  }

  lemma {:induction false} OccupantsTake(r: seq<Slot>, j: nat, name: string)
    requires j < |r| && r[j].Free?
    ensures multiset(Occupants(r[j := Taken(name)])) == multiset(Occupants(r)) + multiset{name}
  {
    var s := r[j := Taken(name)];
    if j == 0 {
      assert s[1..] == r[1..];
      assert Occupants(s) == [name] + Occupants(r[1..]);
      assert Occupants(r) == Occupants(r[1..]);
    } else {
      assert s[1..] == r[1..][j - 1 := Taken(name)];
      OccupantsTake(r[1..], j - 1, name);
      var head := if r[0].Taken? then [r[0].name] else [];
      assert Occupants(s) == head + Occupants(s[1..]);
      assert Occupants(r) == head + Occupants(r[1..]);
    }
  }

  /**
   What seating one person does to a row: on a row with a free seat it fills
   exactly the lowest-index free seat with the name, leaves every other seat
   as it was, removes one free seat and adds the name to the occupants; a full
   row is left unchanged.
   */
  lemma AssignedEffect(r: seq<Slot>, name: string)
    ensures |Assigned(r, name)| == |r|
    ensures HasFree(r) ==>
      var j := FirstFree(r);
      && Assigned(r, name)[j] == Taken(name)
      && (forall i :: 0 <= i < j ==> r[i].Taken?)
      && (forall i :: 0 <= i < |r| && i != j ==> Assigned(r, name)[i] == r[i])
      && FreeCount(Assigned(r, name)) == FreeCount(r) - 1
      && multiset(Occupants(Assigned(r, name))) == multiset(Occupants(r)) + multiset{name}
    ensures !HasFree(r) ==> Assigned(r, name) == r && FreeCount(r) == 0
  {
    HasFreeIffFreeCount(r);
    if HasFree(r) {
      FreeCountUpdate(r, FirstFree(r), Taken(name));
      OccupantsTake(r, FirstFree(r), name);
    }
  }

  /** The free-seat count drops by exactly one when a free seat exists, and stays zero otherwise. */
  lemma AssignedFreeCount(r: seq<Slot>, name: string)
    ensures FreeCount(Assigned(r, name)) == if FreeCount(r) > 0 then FreeCount(r) - 1 else 0
    ensures |Occupants(Assigned(r, name))| == if FreeCount(r) > 0 then |Occupants(r)| + 1 else |Occupants(r)|
  {
    AssignedEffect(r, name);
    HasFreeIffFreeCount(r);
  }

  /** A row of capacity c whose first |xs| seats hold xs, in order, and whose other seats are free. */
  function Filled(c: nat, xs: seq<string>): (r: seq<Slot>)
    requires |xs| <= c
  {
    seq(c, k requires 0 <= k < c => if k < |xs| then Taken(xs[k]) else Free)
  }

  /** A freshly built table of capacity c. */
  function EmptyRow(c: nat): (r: seq<Slot>)
  {
    seq(c, k => Free)
  }

  lemma EmptyRowIsFilled(c: nat)
    ensures EmptyRow(c) == Filled(c, [])
  {
  }

  /** Seating one person at a partly filled row extends its occupants in seat order. */
  lemma FilledAssign(c: nat, xs: seq<string>, x: string)
    requires |xs| < c
    ensures Assigned(Filled(c, xs), x) == Filled(c, xs + [x])
  {
    var r := Filled(c, xs);
    assert r[|xs|].Free?;
    var j := FirstFree(r);
    assert j == |xs|;
  }

  /** Seating the next roster entry extends a table filled from a roster slice by that entry. */
  lemma FilledNext(c: nat, names: seq<string>, from: nat, next: nat)
    requires from <= next < |names| && next - from < c
    ensures Assigned(Filled(c, names[from..next]), names[next]) == Filled(c, names[from..next + 1])
  {
    FilledAssign(c, names[from..next], names[next]);
    assert names[from..next] + [names[next]] == names[from..next + 1];
  }

  lemma {:induction false} OccupantsFilled(c: nat, xs: seq<string>)
    requires |xs| <= c
    ensures Occupants(Filled(c, xs)) == xs
    ensures FreeCount(Filled(c, xs)) == c - |xs|
  {
    if c > 0 {
      if xs == [] {
        assert Filled(c, xs)[1..] == Filled(c - 1, []);
      } else {
        assert Filled(c, xs)[1..] == Filled(c - 1, xs[1..]);
      }
      OccupantsFilled(c - 1, if xs == [] then [] else xs[1..]);
      if xs != [] {
        assert xs == [xs[0]] + xs[1..];
      }
    }
  }

  lemma {:induction false} FreeCountConcat(a: seq<Slot>, b: seq<Slot>)
    ensures FreeCount(a + b) == FreeCount(a) + FreeCount(b)
  {
    if a == [] {
      assert a + b == b;
    } else {
      assert (a + b)[1..] == a[1..] + b;
      FreeCountConcat(a[1..], b);
    }
  }

  lemma {:induction false} OccupantsConcat(a: seq<Slot>, b: seq<Slot>)
    ensures Occupants(a + b) == Occupants(a) + Occupants(b)
  {
    if a == [] {
      assert a + b == b;
    } else {
      assert (a + b)[1..] == a[1..] + b;
      OccupantsConcat(a[1..], b);
    }
  }

  // ---------------------------------------------------------------------
  // Layouts: the rows of all tables, in table order
  // ---------------------------------------------------------------------

  /** All seats in table-major, seat-minor order. */
  function Flatten(L: seq<seq<Slot>>): (flat: seq<Slot>)
  {
    if L == [] then [] else L[0] + Flatten(L[1..])
  }

  /** Seat count of each table. */
  function Shape(L: seq<seq<Slot>>): (caps: seq<nat>)
    ensures |caps| == |L|
  {
    seq(|L|, i requires 0 <= i < |L| => |L[i]|)
  }

  /** Position in the flattened layout of seat 0 of table i. */
  function Offset(L: seq<seq<Slot>>, i: nat): int
    requires i <= |L|
  {
    Sum(Shape(L)[..i])
  }

  /** Everyone seated, table by table, in seat order. */
  function Seated(L: seq<seq<Slot>>): seq<string>
  {
    Occupants(Flatten(L))
  }

  /** Sum of the free counts of all tables. */
  function TotalFree(L: seq<seq<Slot>>): (n: nat)
  {
    if L == [] then 0 else FreeCount(L[0]) + TotalFree(L[1..])
  }

  /** n tables of c free seats each. */
  function Blank(n: nat, c: nat): (L: seq<seq<Slot>>)
    ensures |L| == n
  {
    seq(n, i requires 0 <= i < n => EmptyRow(c))
  }

  lemma {:induction false} FlattenConcat(A: seq<seq<Slot>>, B: seq<seq<Slot>>)
    ensures Flatten(A + B) == Flatten(A) + Flatten(B)
  {
    if A == [] {
      assert A + B == B;
    } else {
      assert (A + B)[1..] == A[1..] + B;
      FlattenConcat(A[1..], B);
    }
  }

  /** The flattened layout has one slot per seat. */
  lemma {:induction false} FlattenSize(L: seq<seq<Slot>>)
    ensures |Flatten(L)| == Sum(Shape(L))
  {
    if L != [] {
      assert Shape(L)[1..] == Shape(L[1..]);
      FlattenSize(L[1..]);
    }
  }

  /** The free seats of the whole space are the free slots of the flattened layout. */
  lemma {:induction false} TotalFreeFlatten(L: seq<seq<Slot>>)
    ensures TotalFree(L) == FreeCount(Flatten(L))
  {
    if L != [] {
      FreeCountConcat(L[0], Flatten(L[1..]));
      TotalFreeFlatten(L[1..]);
    }
  }

  /** Counting the whole space: free seats never exceed seats, and seats are free or taken. */
  lemma SpaceCounts(L: seq<seq<Slot>>)
    ensures TotalFree(L) <= Sum(Shape(L))
    ensures |Seated(L)| == Sum(Shape(L)) - TotalFree(L)
  {
    FlattenSize(L);
    TotalFreeFlatten(L);
  }

  /** Replacing one row changes the flattened layout only inside that row's range. */
  lemma FlattenUpdate(L: seq<seq<Slot>>, b: nat, r: seq<Slot>)
    requires b < |L|
    ensures Flatten(L) == Flatten(L[..b]) + L[b] + Flatten(L[b + 1..])
    ensures Flatten(L[b := r]) == Flatten(L[..b]) + r + Flatten(L[b + 1..])
  {
    assert L == L[..b] + [L[b]] + L[b + 1..];
    assert L[b := r] == L[..b] + [r] + L[b + 1..];
    FlattenConcat(L[..b] + [L[b]], L[b + 1..]);
    FlattenConcat(L[..b], [L[b]]);
    FlattenConcat(L[..b] + [r], L[b + 1..]);
    FlattenConcat(L[..b], [r]);
    assert Flatten([L[b]]) == L[b] + Flatten([]);
    assert Flatten([r]) == r + Flatten([]);
  }

  /** Replacing one row changes the free seats and the seated people of the space by that row's change. */
  lemma RowUpdateCounts(L: seq<seq<Slot>>, b: nat, r: seq<Slot>)
    requires b < |L|
    ensures TotalFree(L[b := r]) + FreeCount(L[b]) == TotalFree(L) + FreeCount(r)
  {
    FlattenUpdate(L, b, r);
    var pre, post := Flatten(L[..b]), Flatten(L[b + 1..]);
    FreeCountConcat(pre + L[b], post);
    FreeCountConcat(pre, L[b]);
    FreeCountConcat(pre + r, post);
    FreeCountConcat(pre, r);
    TotalFreeFlatten(L);
    TotalFreeFlatten(L[b := r]);
  }

  /** A row that gains some people makes the space gain exactly those people. */
  lemma RowUpdateSeated(L: seq<seq<Slot>>, b: nat, r: seq<Slot>, extra: multiset<string>)
    requires b < |L|
    requires multiset(Occupants(r)) == multiset(Occupants(L[b])) + extra
    ensures multiset(Seated(L[b := r])) == multiset(Seated(L)) + extra
  {
    SeatedUpdate(L, b, r);
    var pre, post := Seated(L[..b]), Seated(L[b + 1..]);
    calc {
      multiset(Seated(L[b := r]));
      multiset(pre) + multiset(Occupants(r)) + multiset(post);
      multiset(pre) + multiset(Occupants(L[b])) + multiset(post) + extra;
      multiset(Seated(L)) + extra;
    }
  }

  lemma SeatedUpdate(L: seq<seq<Slot>>, b: nat, r: seq<Slot>)
    requires b < |L|
    ensures Seated(L) == Seated(L[..b]) + Occupants(L[b]) + Seated(L[b + 1..])
    ensures Seated(L[b := r]) == Seated(L[..b]) + Occupants(r) + Seated(L[b + 1..])
  {
    FlattenUpdate(L, b, r);
    var pre, post := Flatten(L[..b]), Flatten(L[b + 1..]);
    OccupantsConcat(pre + L[b], post);
    OccupantsConcat(pre, L[b]);
    OccupantsConcat(pre + r, post);
    OccupantsConcat(pre, r);
  }

  /** Reading the first i tables is reading the first i - 1 and then table i - 1. */
  lemma SeatedPrefix(L: seq<seq<Slot>>, i: nat)
    requires 0 < i <= |L|
    ensures Seated(L[..i]) == Seated(L[..i - 1]) + Occupants(L[i - 1])
  {
    var P := L[..i];
    SeatedUpdate(P, i - 1, P[i - 1]);
    assert P[..i - 1] == L[..i - 1] && P[i..] == [];
  }

  /** A space of free tables offers every one of its seats and seats nobody. */
  lemma {:induction false} BlankCounts(n: nat, c: nat)
    ensures TotalFree(Blank(n, c)) == Span(n, c)
    ensures Seated(Blank(n, c)) == []
  {
    if n > 0 {
      var B := Blank(n, c);
      BlankCounts(n - 1, c);
      assert B[1..] == Blank(n - 1, c);
      OccupantsFilled(c, []);
      EmptyRowIsFilled(c);
      OccupantsConcat(B[0], Flatten(B[1..]));
    }
  }

  /**
   Writing row r over the first free table after the tables A already
   written: that table was empty, and the written part grows by r.
   */
  lemma FillNext(A: seq<seq<Slot>>, r: seq<Slot>, k: nat, c: nat)
    requires k > 0
    ensures (A + Blank(k, c))[|A|] == EmptyRow(c)
    ensures (A + Blank(k, c))[|A| := r] == (A + [r]) + Blank(k - 1, c)
  {
    assert (A + Blank(k, c))[|A| := r] == (A + [r]) + Blank(k - 1, c);
  }

  /** Clearing the first not yet cleared row extends the cleared prefix by one. */
  lemma ClearNext(O: seq<seq<Slot>>, i: nat, c: nat)
    requires i < |O|
    ensures (Blank(i, c) + O[i..])[i := EmptyRow(c)] == Blank(i + 1, c) + O[i + 1..]
  {
    assert (Blank(i, c) + O[i..])[i := EmptyRow(c)] == Blank(i + 1, c) + O[i + 1..];
  }

  lemma ClearDone(O: seq<seq<Slot>>, c: nat)
    ensures Blank(|O|, c) + O[|O|..] == Blank(|O|, c)
  {
  }

  lemma BlankNone(A: seq<seq<Slot>>, c: nat)
    ensures A + Blank(0, c) == A
  {
  }

  // ---------------------------------------------------------------------
  // Filling in table-major order
  // ---------------------------------------------------------------------

  /** The slot at flat position p when seats are filled in order from names. */
  function SlotFor(names: seq<string>, p: int): Slot
  {
    if 0 <= p < |names| then Taken(names[p]) else Free
  }

  /** n seats filled in order with the prefix of names; the remaining seats free. */
  function Prefilled(names: seq<string>, n: nat): (flat: seq<Slot>)
  {
    seq(n, p requires 0 <= p < n => SlotFor(names, p))
  }

  /** Every seat of table i at seat k holds the name at flat position Offset(L, i) + k. */
  ghost predicate FilledInOrder(L: seq<seq<Slot>>, names: seq<string>)
  {
    forall i, k :: 0 <= i < |L| && 0 <= k < |L[i]| ==> L[i][k] == SlotFor(names, Offset(L, i) + k)
  }

  lemma OffsetShift(L: seq<seq<Slot>>, i: nat)
    requires 0 < |L| && i < |L|
    ensures Offset(L, i + 1) == |L[0]| + Offset(L[1..], i)
  {
    assert Shape(L)[..i + 1] == [|L[0]|] + Shape(L[1..])[..i];
  }

  lemma {:induction false} FilledInOrderFrom(L: seq<seq<Slot>>, names: seq<string>, base: nat)
    requires forall i, k :: 0 <= i < |L| && 0 <= k < |L[i]| ==>
      L[i][k] == SlotFor(names, base + Offset(L, i) + k)
    ensures forall p :: 0 <= p < |Flatten(L)| ==> Flatten(L)[p] == SlotFor(names, base + p)
  {
    if L != [] {
      var tail := L[1..];
      forall i, k | 0 <= i < |tail| && 0 <= k < |tail[i]|
        ensures tail[i][k] == SlotFor(names, base + |L[0]| + Offset(tail, i) + k)
      {
        OffsetShift(L, i);
        assert tail[i] == L[i + 1];
      }
      FilledInOrderFrom(tail, names, base + |L[0]|);
      assert Offset(L, 0) == 0;
      assert forall k :: 0 <= k < |L[0]| ==> L[0][k] == SlotFor(names, base + k);
    }
  }

  /** Filling in table-major, seat-minor order is filling the flattened layout in order. */
  lemma FilledInOrderFlatten(L: seq<seq<Slot>>, names: seq<string>)
    requires FilledInOrder(L, names)
    ensures Flatten(L) == Prefilled(names, |Flatten(L)|)
  {
    FilledInOrderFrom(L, names, 0);
  }

  /** Filling n seats in order seats exactly the first min(n, |names|) names, in order. */
  lemma {:induction false} PrefilledCounts(names: seq<string>, n: nat)
    ensures Occupants(Prefilled(names, n)) == names[..Min(n, |names|)]
    ensures FreeCount(Prefilled(names, n)) == n - Min(n, |names|)
  {
    if n > 0 {
      PrefilledCounts(names, n - 1);
      assert Prefilled(names, n) == Prefilled(names, n - 1) + [SlotFor(names, n - 1)];
      OccupantsConcat(Prefilled(names, n - 1), [SlotFor(names, n - 1)]);
      FreeCountConcat(Prefilled(names, n - 1), [SlotFor(names, n - 1)]);
      if n - 1 < |names| {
        assert names[..n] == names[..n - 1] + [names[n - 1]];
      }
    }
  }

  // ---------------------------------------------------------------------
  // First-fit over the whole space
  // ---------------------------------------------------------------------

  predicate AnyFree(L: seq<seq<Slot>>)
  {
    exists i :: 0 <= i < |L| && HasFree(L[i])
  }

  /** The first table, in table order, that has a free seat. */
  function FirstOpenTable(L: seq<seq<Slot>>): (i: nat)
    requires AnyFree(L)
    ensures i < |L| && HasFree(L[i])
    ensures forall j :: 0 <= j < i ==> !HasFree(L[j])
  {
    if HasFree(L[0]) then 0
    else
      assert AnyFree(L[1..]) by {
        var i :| 0 <= i < |L| && HasFree(L[i]);
        assert L[1..][i - 1] == L[i];
      }
      1 + FirstOpenTable(L[1..])
  }

  /** Seating one person at the first table with a free seat; a full space is unchanged. */
  function AddedFirstFit(L: seq<seq<Slot>>, name: string): (L': seq<seq<Slot>>)
    ensures |L'| == |L|
    ensures L' == L <==> !AnyFree(L)
  {
    if AnyFree(L) then L[FirstOpenTable(L) := Assigned(L[FirstOpenTable(L)], name)] else L
  }

  lemma {:induction false} NoFreeFlatten(L: seq<seq<Slot>>)
    requires forall j :: 0 <= j < |L| ==> !HasFree(L[j])
    ensures !HasFree(Flatten(L))
  {
    if L != [] {
      NoFreeFlatten(L[1..]);
      HasFreeIffFreeCount(L[0]);
      HasFreeIffFreeCount(Flatten(L[1..]));
      HasFreeIffFreeCount(Flatten(L));
      FreeCountConcat(L[0], Flatten(L[1..]));
    }
  }

  /** Some table has a free seat exactly when the whole space has one. */
  lemma AnyFreeIffFreeSeats(L: seq<seq<Slot>>)
    ensures AnyFree(L) <==> TotalFree(L) > 0
  {
    TotalFreeFlatten(L);
    HasFreeIffFreeCount(Flatten(L));
    if AnyFree(L) {
      var i := FirstOpenTable(L);
      FlattenUpdate(L, i, L[i]);
      HasFreeIffFreeCount(L[i]);
      FreeCountConcat(Flatten(L[..i]) + L[i], Flatten(L[i + 1..]));
      FreeCountConcat(Flatten(L[..i]), L[i]);
    } else {
      NoFreeFlatten(L);
    }
  }

  /** A free seat after only full seats is the first free seat of the whole sequence. */
  lemma FirstFreeAfterFull(pre: seq<Slot>, r: seq<Slot>, post: seq<Slot>, name: string)
    requires !HasFree(pre) && HasFree(r)
    ensures HasFree(pre + r + post)
    ensures FirstFree(pre + r + post) == |pre| + FirstFree(r)
    ensures Assigned(pre + r + post, name) == pre + Assigned(r, name) + post
  {
    var flat := pre + r + post;
    var j := FirstFree(r);
    assert flat[|pre| + j] == r[j];
    var f := FirstFree(flat);
  }

  /**
   Taking the first free seat of the first table with a free seat is taking
   the first free seat of the whole space in table-major, seat-minor order.
   */
  lemma AddedFirstFitFlatten(L: seq<seq<Slot>>, name: string)
    ensures Flatten(AddedFirstFit(L, name)) == Assigned(Flatten(L), name)
  {
    if AnyFree(L) {
      var i := FirstOpenTable(L);
      FlattenUpdate(L, i, Assigned(L[i], name));
      NoFreeFlatten(L[..i]);
      FirstFreeAfterFull(Flatten(L[..i]), L[i], Flatten(L[i + 1..]), name);
    } else {
      NoFreeFlatten(L);
    }
  }

  /**
   Counting after a first-fit seating: when some table has a free seat the
   space has one free seat fewer and name joins the seated people; when none
   has, the space is full and nothing changes.
   */
  lemma AddedFirstFitCounts(L: seq<seq<Slot>>, name: string)
    ensures AnyFree(L) <==> TotalFree(L) > 0
    ensures AnyFree(L) ==> TotalFree(AddedFirstFit(L, name)) == TotalFree(L) - 1
    ensures AnyFree(L) ==> multiset(Seated(AddedFirstFit(L, name))) == multiset(Seated(L)) + multiset{name}
    ensures !AnyFree(L) ==> AddedFirstFit(L, name) == L && TotalFree(L) == 0
  {
    AnyFreeIffFreeSeats(L);
    AddedFirstFitFlatten(L, name);
    TotalFreeFlatten(L);
    TotalFreeFlatten(AddedFirstFit(L, name));
    HasFreeIffFreeCount(Flatten(L));
    AssignedEffect(Flatten(L), name);
  }

  /** Tables of equal capacity cap hold |L| * cap seats. */
  lemma {:induction false} ConstantShapeSum(L: seq<seq<Slot>>, cap: nat)
    requires forall i :: 0 <= i < |L| ==> |L[i]| == cap
    ensures Sum(Shape(L)) == Span(|L|, cap)
  {
    if L != [] {
      assert Shape(L)[1..] == Shape(L[1..]);
      ConstantShapeSum(L[1..], cap);
    }
  }

  /** Table i of a space of tables with c seats each, filled in order from names. */
  function InOrderRow(names: seq<string>, c: nat, i: nat): (r: seq<Slot>)
    ensures |r| == c
  {
    seq(c, k requires 0 <= k < c => SlotFor(names, Span(i, c) + k))
  }

  /** The first table of equal capacity c to come i-th starts at flat position i * c. */
  lemma UniformOffset(L: seq<seq<Slot>>, c: nat, i: nat)
    requires i <= |L|
    requires forall j :: 0 <= j < |L| ==> |L[j]| == c
    ensures Offset(L, i) == Span(i, c)
  {
    assert Shape(L)[..i] == Shape(L[..i]);
    ConstantShapeSum(L[..i], c);
  }

  /** The first m tables of a space of c-seat tables filled in order from names. */
  function InOrderRows(names: seq<string>, c: nat, m: nat): (L: seq<seq<Slot>>)
    ensures |L| == m
  {
    seq(m, i requires 0 <= i < m => InOrderRow(names, c, i))
  }

  lemma InOrderRowsNext(names: seq<string>, c: nat, m: nat)
    ensures InOrderRows(names, c, m) + [InOrderRow(names, c, m)] == InOrderRows(names, c, m + 1)
  {
  }

  /** One more table seated in order turns the first blank row into the next in-order row. */
  lemma InOrderNext(names: seq<string>, c: nat, i: nat, n: nat)
    requires i < n
    ensures (InOrderRows(names, c, i) + Blank(n - i, c))[i] == EmptyRow(c)
    ensures (InOrderRows(names, c, i) + Blank(n - i, c))[i := InOrderRow(names, c, i)]
         == InOrderRows(names, c, i + 1) + Blank(n - (i + 1), c)
  {
    FillNext(InOrderRows(names, c, i), InOrderRow(names, c, i), n - i, c);
    InOrderRowsNext(names, c, i);
  }

  lemma InOrderFilled(names: seq<string>, c: nat, m: nat)
    ensures FilledInOrder(InOrderRows(names, c, m), names)
  {
    var L := InOrderRows(names, c, m);
    forall i, k | 0 <= i < |L| && 0 <= k < |L[i]|
      ensures L[i][k] == SlotFor(names, Offset(L, i) + k)
    {
      UniformOffset(L, c, i);
    }
  }

  /**
   Tables of equal capacity c, table i holding the names from flat position
   Span(i, c) onwards: the first seats in table-major order hold the roster's
   prefix and every other seat is free.
   */
  lemma InOrderLayout(names: seq<string>, c: nat, m: nat)
    ensures FilledInOrder(InOrderRows(names, c, m), names)
    ensures Flatten(InOrderRows(names, c, m)) == Prefilled(names, Span(m, c))
    ensures Seated(InOrderRows(names, c, m)) == names[..Min(|names|, Span(m, c))]
    ensures TotalFree(InOrderRows(names, c, m)) == Span(m, c) - Min(|names|, Span(m, c))
  {
    var L := InOrderRows(names, c, m);
    InOrderFilled(names, c, m);
    FilledInOrderFlatten(L, names);
    ConstantShapeSum(L, c);
    FlattenSize(L);
    var n := Span(m, c);
    assert Flatten(L) == Prefilled(names, n);
    PrefilledCounts(names, n);
    TotalFreeFlatten(L);
  }
}
