/**
 * A stable sort of aircraft by seating capacity: the ordering the service asks
 * its stream for before it takes the first element.
 */
module SeatOrder {

  import opened AircraftEntity

  predicate SortedBySeats(s: seq<Aircraft>) {
    forall i, j :: 0 <= i < j < |s| ==> s[i].seatingCapacity <= s[j].seatingCapacity
  }

  /** The aircraft of `s` with exactly `k` seats, in the order of `s`. */
  function WithSeats(s: seq<Aircraft>, k: int): seq<Aircraft> {
    if |s| == 0 then []
    else (if s[0].seatingCapacity == k then [s[0]] else []) + WithSeats(s[1..], k)
  }

  /** Puts `x` in front of the first aircraft of `t` that has at least as many seats. */
  function Insert(x: Aircraft, t: seq<Aircraft>): (r: seq<Aircraft>)
    ensures |r| == |t| + 1
    ensures multiset(r) == multiset(t) + multiset{x}
  {
    if |t| == 0 then [x]
    else if x.seatingCapacity <= t[0].seatingCapacity then
      assert multiset([x] + t) == multiset{x} + multiset(t);
      [x] + t
    else
      assert t == [t[0]] + t[1..];
      [t[0]] + Insert(x, t[1..])
  }

  /** Inserting into a sorted sequence keeps it sorted. */
  lemma {:induction false} InsertSorted(x: Aircraft, t: seq<Aircraft>)
    requires SortedBySeats(t)
    ensures SortedBySeats(Insert(x, t))
  {
    if |t| > 0 && x.seatingCapacity > t[0].seatingCapacity {
      var tail := t[1..];
      var rest := Insert(x, tail);
      InsertSorted(x, tail);
      forall j | 0 <= j < |rest| ensures t[0].seatingCapacity <= rest[j].seatingCapacity {
        assert rest[j] in multiset(tail) + multiset{x};
        if rest[j] != x {
          var m :| 0 <= m < |tail| && tail[m] == rest[j];
          assert t[m + 1] == rest[j];
        }
      }
      var r := [t[0]] + rest;
      forall i, j | 0 <= i < j < |r| ensures r[i].seatingCapacity <= r[j].seatingCapacity {
        assert r[j] == rest[j - 1];
        if i > 0 {
          assert r[i] == rest[i - 1];
        }
      }
    }
  }

  /** Insertion sort by seating capacity. */
  function SortBySeats(s: seq<Aircraft>): (r: seq<Aircraft>)
    ensures |r| == |s|
    ensures multiset(r) == multiset(s)
    ensures SortedBySeats(r)
  {
    if |s| == 0 then []
    else
      assert s == [s[0]] + s[1..];
      InsertSorted(s[0], SortBySeats(s[1..]));
      Insert(s[0], SortBySeats(s[1..]))
  }

  lemma WithSeatsCons(x: Aircraft, t: seq<Aircraft>, k: int)
    ensures WithSeats([x] + t, k) == (if x.seatingCapacity == k then [x] else []) + WithSeats(t, k)
  {
  }

  /** Inserting never moves an aircraft past another with the same seat count. */
  lemma {:induction false} InsertStable(x: Aircraft, t: seq<Aircraft>, k: int)
    ensures WithSeats(Insert(x, t), k) == WithSeats([x] + t, k)
  {
    if |t| > 0 && x.seatingCapacity > t[0].seatingCapacity {
      var t0, tail := t[0], t[1..];
      assert t == [t0] + tail;
      var pick := (y: Aircraft) => if y.seatingCapacity == k then [y] else [];
      calc {
        WithSeats(Insert(x, t), k);
        WithSeats([t0] + Insert(x, tail), k);
        { WithSeatsCons(t0, Insert(x, tail), k); }
        pick(t0) + WithSeats(Insert(x, tail), k);
        { InsertStable(x, tail, k); }
        pick(t0) + WithSeats([x] + tail, k);
        { WithSeatsCons(x, tail, k); }
        pick(t0) + (pick(x) + WithSeats(tail, k));
        // t0 and x have different seat counts, so at most one of them is picked
        pick(x) + (pick(t0) + WithSeats(tail, k));
        { WithSeatsCons(t0, tail, k); }
        pick(x) + WithSeats(t, k);
        { WithSeatsCons(x, t, k); }
        WithSeats([x] + t, k);
      }
    }
  }

  /** Stability: for every seat count, the aircraft with that count keep their relative order. */
  lemma {:induction false} SortBySeatsStable(s: seq<Aircraft>, k: int)
    ensures WithSeats(SortBySeats(s), k) == WithSeats(s, k)
  {
    if |s| > 0 {
      SortBySeatsStable(s[1..], k);
      InsertStable(s[0], SortBySeats(s[1..]), k);
      WithSeatsCons(s[0], SortBySeats(s[1..]), k);
    }
  }
}
