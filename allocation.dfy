/**
 The "no one sits alone" allocation policy as functions on layouts. After the
 roster has been cut to the number of seats, an even pass gives every table,
 in table order, up to a common target of people, and an overflow pass seats
 the rest one at a time at the table with the most free seats.
 */
module Allocation {
  import opened Layouts

  /** The fill target of the even pass, the same for every table. */
  function Target(capacityPerTable: int, n: nat, tableCount: int): (t: int)
    requires tableCount > 0
    ensures t <= capacityPerTable && t <= Max(2, n / tableCount)
    ensures capacityPerTable >= 2 ==> t >= 2
  {
    Min(capacityPerTable, Max(2, n / tableCount))
  }

  /** The roster cut to at most n entries, dropping the tail. */
  function Truncate(names: seq<string>, n: int): (kept: seq<string>)
    ensures |kept| == Min(|names|, Max(n, 0))
    ensures kept == names[..|kept|]
  {
    if |names| > n then names[..Max(n, 0)] else names
  }

  lemma TruncateIsPrefix(names: seq<string>, n: nat)
    ensures Truncate(names, n) == names[..Min(|names|, n)]
  {
  }

  /** Table i after the even pass with target t: its share of the roster, in seat order. */
  function EvenRow(cap: nat, names: seq<string>, t: nat, i: nat): (r: seq<Slot>)
    requires t <= cap
    ensures |r| == cap
  {
    Filled(cap, names[Reached(|names|, i, t)..Reached(|names|, i + 1, t)])
  }

  /** The layout after the even pass with target t, starting from empty tables of capacity cap. */
  function EvenFillWith(tableCount: nat, cap: nat, names: seq<string>, t: nat): (L: seq<seq<Slot>>)
    requires t <= cap
    ensures |L| == tableCount
  {
    seq(tableCount, i requires 0 <= i < tableCount => EvenRow(cap, names, t, i))
  }

  lemma EvenFillNext(tableCount: nat, cap: nat, names: seq<string>, t: nat)
    requires t <= cap
    ensures EvenFillWith(tableCount, cap, names, t) + [EvenRow(cap, names, t, tableCount)]
         == EvenFillWith(tableCount + 1, cap, names, t)
  {
  }

  /** Table i's even row is the next t names from where the earlier tables stopped, or fewer at the end. */
  lemma EvenRowNext(cap: nat, names: seq<string>, t: nat, i: nat)
    requires t <= cap
    ensures Reached(|names|, i + 1, t) == Min(|names|, Reached(|names|, i, t) + t)
    ensures EvenRow(cap, names, t, i)
         == Filled(cap, names[Reached(|names|, i, t)..Min(|names|, Reached(|names|, i, t) + t)])
  {
  }

  /** One more table filled by the even pass turns the first blank row into its even row. */
  lemma EvenNext(i: nat, cap: nat, names: seq<string>, t: nat, n: nat)
    requires t <= cap && i < n
    ensures (EvenFillWith(i, cap, names, t) + Blank(n - i, cap))[i] == EmptyRow(cap)
    ensures (EvenFillWith(i, cap, names, t) + Blank(n - i, cap))[i := EvenRow(cap, names, t, i)]
         == EvenFillWith(i + 1, cap, names, t) + Blank(n - (i + 1), cap)
  {
    FillNext(EvenFillWith(i, cap, names, t), EvenRow(cap, names, t, i), n - i, cap);
    EvenFillNext(i, cap, names, t);
  }

  /** The layout after the even pass, starting from empty tables of capacity cap. */
  function EvenFill(tableCount: nat, cap: nat, names: seq<string>): (L: seq<seq<Slot>>)
    ensures |L| == tableCount
    ensures forall i :: 0 <= i < |L| ==> |L[i]| == cap
  {
    if tableCount == 0 then [] else EvenFillWith(tableCount, cap, names, Target(cap, |names|, tableCount))
  }

  /** How many people the even pass seats. */
  function EvenCount(tableCount: nat, cap: nat, n: nat): (c: nat)
    ensures c <= n
  {
    if tableCount == 0 then 0 else Reached(n, tableCount, Target(cap, n, tableCount))
  }

  lemma OccupantsEvenRow(cap: nat, names: seq<string>, t: nat, i: nat)
    requires t <= cap
    ensures Occupants(EvenRow(cap, names, t, i)) == names[Reached(|names|, i, t)..Reached(|names|, i + 1, t)]
  {
    OccupantsFilled(cap, names[Reached(|names|, i, t)..Reached(|names|, i + 1, t)]);
  }

  /**
   Tables that hold consecutive stretches of the roster, table j the names
   between Reached(j) and Reached(j + 1): reading the first i tables gives
   the roster up to Reached(i).
   */
  lemma {:induction false} ConsecutiveSeats(L: seq<seq<Slot>>, names: seq<string>, t: nat, i: nat)
    requires i <= |L|
    requires forall j {:trigger Occupants(L[j])} :: 0 <= j < |L| ==>
      Occupants(L[j]) == names[Reached(|names|, j, t)..Reached(|names|, j + 1, t)]
    ensures Seated(L[..i]) == names[..Reached(|names|, i, t)]
  {
    if i == 0 {
      assert L[..0] == [];
    } else {
      var lo, hi := Reached(|names|, i - 1, t), Reached(|names|, i, t);
      ConsecutiveSeats(L, names, t, i - 1);
      SeatedPrefix(L, i);
      assert Occupants(L[i - 1]) == names[lo..hi];
      SliceJoin(names, lo, hi);
    }
  }

  lemma SliceJoin(s: seq<string>, lo: nat, hi: nat)
    requires lo <= hi <= |s|
    ensures s[..lo] + s[lo..hi] == s[..hi]
  {
  }

  /**
   The even pass seats the tables in table order with consecutive stretches
   of the roster: reading its seats table by table gives the first
   EvenCount names, in roster order; every table receives at most the target,
   and the seats it does not fill stay free.
   */
  lemma EvenFillSeats(tableCount: nat, cap: nat, names: seq<string>)
    ensures Seated(EvenFill(tableCount, cap, names)) == names[..EvenCount(tableCount, cap, |names|)]
    ensures tableCount > 0 ==> forall i :: 0 <= i < tableCount ==>
      |Occupants(EvenFill(tableCount, cap, names)[i])| <= Target(cap, |names|, tableCount)
    ensures TotalFree(EvenFill(tableCount, cap, names)) == Sum(Shape(EvenFill(tableCount, cap, names))) - EvenCount(tableCount, cap, |names|)
  {
    var L := EvenFill(tableCount, cap, names);
    if tableCount > 0 {
      var t: nat := Target(cap, |names|, tableCount);
      forall j | 0 <= j < tableCount
        ensures Occupants(L[j]) == names[Reached(|names|, j, t)..Reached(|names|, j + 1, t)]
      {
        OccupantsEvenRow(cap, names, t, j);
      }
      ConsecutiveSeats(L, names, t, tableCount);
      assert L[..tableCount] == L;
      forall i | 0 <= i < tableCount ensures |Occupants(L[i])| <= t {
        OccupantsEvenRow(cap, names, t, i);
      }
    } else {
      assert Seated(L) == [];
    }
    SpaceCounts(L);
  }

  lemma {:induction false} MulMono(a: nat, b: nat, c: nat)
    requires a <= b
    ensures c * a <= c * b
  {
    if c > 0 {
      MulMono(a, b, c - 1);
      assert c * a == (c - 1) * a + a;
      assert c * b == (c - 1) * b + b;
    }
  }

  lemma {:induction false} ReachedExact(n: nat, t: nat, i: nat)
    requires i * t <= n
    ensures Reached(n, i, t) == i * t
  {
    if i > 0 {
      assert i * t == (i - 1) * t + t;
      ReachedExact(n, t, i - 1);
    }
  }

  lemma DivBounds(n: nat, d: nat, q: nat)
    requires d > 0
    ensures d * (n / d) <= n
    ensures n >= d * q ==> n / d >= q
  {
    assert n == d * (n / d) + n % d;
    if n >= d * q && n / d < q {
      MulMono(n / d + 1, q, d);
    }
  }

  /** With two people per table and two seats per table, the target is at least two and fits the roster. */
  lemma TargetBounds(cap: nat, n: nat, tableCount: nat)
    requires tableCount > 0 && cap >= 2 && n >= 2 * tableCount
    ensures 2 <= Target(cap, n, tableCount)
    ensures tableCount * Target(cap, n, tableCount) <= n
  {
    DivBounds(n, tableCount, 2);
    var t := Target(cap, n, tableCount);
    MulMono(t, n / tableCount, tableCount);
  }

  /**
   With at least two people per table and room for two at each, the even
   pass gives every table exactly the target, and the target is at least two.
   */
  lemma EvenPassNoSingles(tableCount: nat, cap: nat, names: seq<string>)
    requires tableCount > 0 && cap >= 2 && |names| >= 2 * tableCount
    ensures Target(cap, |names|, tableCount) >= 2
    ensures forall i :: 0 <= i < tableCount ==>
      |Occupants(EvenFill(tableCount, cap, names)[i])| == Target(cap, |names|, tableCount)
  {
    var n := |names|;
    TargetBounds(cap, n, tableCount);
    var t: nat := Target(cap, n, tableCount);
    forall i | 0 <= i < tableCount
      ensures |Occupants(EvenFill(tableCount, cap, names)[i])| == t
    {
      ReachedStep(n, t, i, tableCount);
      OccupantsEvenRow(cap, names, t, i);
    }
  }

  /** When every table's share fits, table i gets exactly t names. */
  lemma ReachedStep(n: nat, t: nat, i: nat, tableCount: nat)
    requires i < tableCount && tableCount * t <= n
    ensures Reached(n, i + 1, t) == Reached(n, i, t) + t
  {
    MulMono(i + 1, tableCount, t);
    MulMono(i, i + 1, t);
    ReachedExact(n, t, i);
    ReachedExact(n, t, i + 1);
    assert t * (i + 1) == t * i + t;
  }

  // ---------------------------------------------------------------------
  // The overflow pass
  // ---------------------------------------------------------------------

  /**
   The index of the first maximal element, as a left-to-right scan that
   replaces its candidate only on a strictly larger element finds it.
   */
  function FirstMaxIndex(s: seq<int>): (m: nat)
    requires |s| > 0
    ensures m < |s|
    ensures forall i :: 0 <= i < |s| ==> s[i] <= s[m]
    ensures forall i :: 0 <= i < m ==> s[i] < s[m]
  {
    if |s| == 1 then 0
    else
      var m' := FirstMaxIndex(s[..|s| - 1]);
      if s[|s| - 1] > s[m'] then |s| - 1 else m'
  }

  /** The free count of every table, in table order. */
  function FreeCounts(L: seq<seq<Slot>>): (counts: seq<int>)
  {
    seq(|L|, i requires 0 <= i < |L| => FreeCount(L[i]))
  }

  /**
   The overflow pass: while names remain, seat the next one at the first
   table with the most free seats; stop when the names run out or that table
   has no free seat. The pass is undefined on an empty space with names left.
   */
  function Distribute(L: seq<seq<Slot>>, rest: seq<string>): (L': seq<seq<Slot>>)
    requires rest == [] || L != []
    ensures |L'| == |L| && forall i :: 0 <= i < |L| ==> |L'[i]| == |L[i]|
    decreases |rest|
  {
    if rest == [] then L
    else
      var b := FirstMaxIndex(FreeCounts(L));
      if FreeCount(L[b]) > 0 then Distribute(L[b := Assigned(L[b], rest[0])], rest[1..])
      else L
  }

  lemma {:induction false} AllFullNoFree(L: seq<seq<Slot>>)
    requires forall i :: 0 <= i < |L| ==> FreeCount(L[i]) == 0
    ensures TotalFree(L) == 0
  {
    if L != [] {
      AllFullNoFree(L[1..]);
    }
  }

  /** One step of the overflow pass: the chosen table has a free seat and takes the name. */
  lemma SeatOneEffect(L: seq<seq<Slot>>, b: nat, x: string)
    requires b < |L| && FreeCount(L[b]) > 0
    ensures Shape(L[b := Assigned(L[b], x)]) == Shape(L)
    ensures TotalFree(L[b := Assigned(L[b], x)]) == TotalFree(L) - 1
    ensures multiset(Seated(L[b := Assigned(L[b], x)])) == multiset(Seated(L)) + multiset{x}
    ensures forall i :: 0 <= i < |L| ==> |Occupants(L[i])| <= |Occupants(L[b := Assigned(L[b], x)][i])|
  {
    var r := Assigned(L[b], x);
    assert |r| == |L[b]| by {
      AssignedEffect(L[b], x);
    }
    assert Shape(L[b := r]) == Shape(L);
    assert FreeCount(r) == FreeCount(L[b]) - 1 && |Occupants(r)| == |Occupants(L[b])| + 1 by {
      AssignedFreeCount(L[b], x);
    }
    assert multiset(Occupants(r)) == multiset(Occupants(L[b])) + multiset{x} by {
      HasFreeIffFreeCount(L[b]);
      AssignedEffect(L[b], x);
    }
    RowUpdateCounts(L, b, r);
    RowUpdateSeated(L, b, r, multiset{x});
  }

  /** When the table with the most free seats is full, so is the whole space. */
  lemma MostFreeFull(L: seq<seq<Slot>>)
    requires L != [] && FreeCount(L[FirstMaxIndex(FreeCounts(L))]) == 0
    ensures TotalFree(L) == 0
  {
    var b := FirstMaxIndex(FreeCounts(L));
    forall i | 0 <= i < |L| ensures FreeCount(L[i]) == 0 {
      assert FreeCounts(L)[i] <= FreeCounts(L)[b];
    }
    AllFullNoFree(L);
  }

  /** The overflow pass keeps every table's size and never takes anyone away from a table. */
  lemma {:induction false} DistributeMonotone(L: seq<seq<Slot>>, rest: seq<string>)
    requires rest == [] || L != []
    ensures Shape(Distribute(L, rest)) == Shape(L)
    ensures forall i :: 0 <= i < |L| ==> |Occupants(L[i])| <= |Occupants(Distribute(L, rest)[i])|
    decreases |rest|
  {
    if rest != [] {
      var b := FirstMaxIndex(FreeCounts(L));
      if FreeCount(L[b]) > 0 {
        SeatOneEffect(L, b, rest[0]);
        DistributeMonotone(L[b := Assigned(L[b], rest[0])], rest[1..]);
      }
    }
  }

  /** The overflow pass fills exactly min(|rest|, free seats) more seats. */
  lemma {:induction false} DistributeFree(L: seq<seq<Slot>>, rest: seq<string>)
    requires rest == [] || L != []
    ensures TotalFree(Distribute(L, rest)) == TotalFree(L) - Min(|rest|, TotalFree(L))
    decreases |rest|
  {
    if rest != [] {
      var b := FirstMaxIndex(FreeCounts(L));
      if FreeCount(L[b]) > 0 {
        var L1 := L[b := Assigned(L[b], rest[0])];
        SeatOneEffect(L, b, rest[0]);
        DistributeFree(L1, rest[1..]);
      } else {
        MostFreeFull(L);
      }
    }
  }

  /**
   The people the overflow pass seats are the first min(|rest|, free seats)
   entries of rest, each once.
   */
  lemma {:induction false} DistributeSeats(L: seq<seq<Slot>>, rest: seq<string>)
    requires rest == [] || L != []
    ensures multiset(Seated(Distribute(L, rest)))
         == multiset(Seated(L)) + multiset(rest[..Min(|rest|, TotalFree(L))])
    decreases |rest|
  {
    if rest == [] {
      assert rest[..0] == [];
    } else {
      var b := FirstMaxIndex(FreeCounts(L));
      if FreeCount(L[b]) > 0 {
        var x, tail := rest[0], rest[1..];
        var L1 := L[b := Assigned(L[b], x)];
        var k := Min(|rest|, TotalFree(L));
        SeatOneEffect(L, b, x);
        assert Min(|tail|, TotalFree(L1)) == k - 1;
        calc {
          multiset(Seated(Distribute(L, rest)));
          multiset(Seated(Distribute(L1, tail)));
        == { DistributeSeats(L1, tail); }
          multiset(Seated(L1)) + multiset(tail[..k - 1]);
          multiset(Seated(L)) + multiset{x} + multiset(tail[..k - 1]);
        == { assert 1 <= k; TakeFirst(rest, k); }
          multiset(Seated(L)) + multiset(rest[..k]);
        }
      } else {
        MostFreeFull(L);
        assert rest[..0] == [];
      }
    }
  }

  lemma TakeFirst(s: seq<string>, k: nat)
    requires 1 <= k <= |s|
    ensures multiset(s[..k]) == multiset{s[0]} + multiset(s[1..][..k - 1])
  {
    assert s[..k] == [s[0]] + s[1..][..k - 1];
  }

  /** The whole "no one sits alone" layout for a roster already cut to the seat count. */
  function NoAloneLayout(tableCount: nat, cap: nat, kept: seq<string>): (L: seq<seq<Slot>>)
    requires tableCount > 0 || kept == []
    ensures |L| == tableCount && forall i :: 0 <= i < |L| ==> |L[i]| == cap
  {
    Distribute(EvenFill(tableCount, cap, kept), kept[EvenCount(tableCount, cap, |kept|)..])
  }

  /** When the roster fits, the seats the even pass leaves free can take everyone it did not seat. */
  lemma EvenFillRoom(tableCount: nat, cap: nat, kept: seq<string>)
    requires |kept| <= Span(tableCount, cap)
    ensures tableCount > 0 || kept == []
    ensures |kept| - EvenCount(tableCount, cap, |kept|) <= TotalFree(EvenFill(tableCount, cap, kept))
  {
    if tableCount == 0 {
      assert |kept| <= 0;
    }
    EvenFillSeats(tableCount, cap, kept);
    ConstantShapeSum(EvenFill(tableCount, cap, kept), cap);
  }

  lemma SplitMultiset(s: seq<string>, m: nat)
    requires m <= |s|
    ensures multiset(s[..m]) + multiset(s[m..]) == multiset(s)
  {
    assert s == s[..m] + s[m..];
  }

  /**
   When the roster fits, the policy seats all of it, each person exactly
   once, and keeps the tables' sizes.
   */
  lemma NoAloneSeatsEveryone(tableCount: nat, cap: nat, kept: seq<string>)
    requires |kept| <= Span(tableCount, cap)
    ensures tableCount > 0 || kept == []
    ensures Shape(NoAloneLayout(tableCount, cap, kept)) == Shape(EvenFill(tableCount, cap, kept))
    ensures multiset(Seated(NoAloneLayout(tableCount, cap, kept))) == multiset(kept)
    ensures |Seated(NoAloneLayout(tableCount, cap, kept))| == |kept|
  {
    EvenFillRoom(tableCount, cap, kept);
    var E := EvenFill(tableCount, cap, kept);
    var m := EvenCount(tableCount, cap, |kept|);
    var rest := kept[m..];
    EvenFillSeats(tableCount, cap, kept);
    DistributeSeats(E, rest);
    DistributeMonotone(E, rest);
    assert rest[..Min(|rest|, TotalFree(E))] == rest;
    SplitMultiset(kept, m);
    var D := Distribute(E, rest);
    assert multiset(Seated(D)) == multiset(kept);
    assert |Seated(D)| == |multiset(Seated(D))|;
  }

  /**
   The policy's promise: when there are at least two people per table and
   every table seats at least two, no table ends with fewer than two people,
   so no one sits alone.
   */
  lemma NoAloneNoSingles(tableCount: nat, cap: nat, kept: seq<string>)
    requires cap >= 2 && |kept| >= 2 * tableCount && |kept| <= Span(tableCount, cap)
    ensures tableCount > 0 || kept == []
    ensures forall i :: 0 <= i < tableCount ==> |Occupants(NoAloneLayout(tableCount, cap, kept)[i])| >= 2
  {
    if tableCount == 0 {
      assert |kept| <= 0;
    } else {
      var E := EvenFill(tableCount, cap, kept);
      var m := EvenCount(tableCount, cap, |kept|);
      EvenPassNoSingles(tableCount, cap, kept);
      DistributeMonotone(E, kept[m..]);
      var D := Distribute(E, kept[m..]);
      assert D == NoAloneLayout(tableCount, cap, kept);
      forall i | 0 <= i < tableCount ensures |Occupants(D[i])| >= 2 {
        assert |Occupants(E[i])| >= 2;
      }
    }
  }

  /**
   The policy's promise needs two people per table: three people at two
   tables of four seats leave the third person alone at the second table.
   */
  lemma NoAloneNeedsTwoPerTable()
    ensures Occupants(NoAloneLayout(2, 4, ["a", "b", "c"])[0]) == ["a", "b"]
    ensures Occupants(NoAloneLayout(2, 4, ["a", "b", "c"])[1]) == ["c"]
  {
    var kept := ["a", "b", "c"];
    assert Target(4, 3, 2) == 2;
    assert EvenCount(2, 4, 3) == 3;
    assert kept[3..] == [];
    OccupantsEvenRow(4, kept, 2, 0);
    OccupantsEvenRow(4, kept, 2, 1);
    assert kept[0..2] == ["a", "b"] && kept[2..3] == ["c"];
  }
}
