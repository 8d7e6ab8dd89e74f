/** Tuning trouble: the first position in a datastream after four, and then
    fourteen, pairwise different bytes. */
module Day06 {
  import opened Common

  /** The `k` bytes from `i` on are pairwise different. */
  predicate Distinct(buf: seq<Byte>, i: nat, k: nat)
    requires i + k <= |buf|
  {
    forall p, q | i <= p < q < i + k :: buf[p] != buf[q]
  }

  /** The first index in `[from, to)` where `k` different bytes start. */
  function FirstMarker(buf: seq<Byte>, from: nat, to: nat, k: nat): (r: Option<nat>)
    requires to + k <= |buf| + 1
    decreases if to > from then to - from else 0
    ensures r.Some? ==> from <= r.value < to && Distinct(buf, r.value, k)
    ensures r.Some? ==> forall j | from <= j < r.value :: !Distinct(buf, j, k)
    ensures r.None? ==> forall j | from <= j < to :: !Distinct(buf, j, k)
  {
    if from >= to then None
    else if Distinct(buf, from, k) then Some(from)
    else FirstMarker(buf, from + 1, to, k)
  }

  /** Four bytes are different exactly when none of the six pairs match. */
  lemma DistinctFour(buf: seq<Byte>, i: nat)
    requires i + 4 <= |buf|
    ensures Distinct(buf, i, 4) <==>
      !(buf[i] == buf[i + 1] || buf[i] == buf[i + 2] || buf[i] == buf[i + 3] ||
        buf[i + 1] == buf[i + 2] || buf[i + 1] == buf[i + 3] || buf[i + 2] == buf[i + 3])
  {
  }

  /** A marker with none before it in the range is the one found. */
  lemma FirstMarkerAt(buf: seq<Byte>, from: nat, to: nat, k: nat, p: nat)
    requires to + k <= |buf| + 1 && from <= p < to && Distinct(buf, p, k)
    requires forall j | from <= j < p :: !Distinct(buf, j, k)
    ensures FirstMarker(buf, from, to, k) == Some(p)
  {
  }

  /** Fourteen different bytes begin with four different bytes. */
  lemma DistinctPrefix(buf: seq<Byte>, i: nat, k: nat, k': nat)
    requires k' <= k && i + k <= |buf| && Distinct(buf, i, k)
    ensures Distinct(buf, i, k')
  {
  }

  /** Starting the search for fourteen at the first four-marker `p1` misses
      nothing: no fourteen-marker starts before it. */
  lemma {:induction false} ScanFromFirstFour(buf: seq<Byte>, p1: nat, to: nat)
    requires p1 <= to && to + 14 <= |buf| + 1
    requires forall j | 0 <= j < p1 :: !Distinct(buf, j, 4)
    ensures FirstMarker(buf, p1, to, 14) == FirstMarker(buf, 0, to, 14)
    decreases p1
  {
    if p1 > 0 {
      if Distinct(buf, p1 - 1, 14) {
        DistinctPrefix(buf, p1 - 1, 14, 4);
      }
      ScanFromFirstFour(buf, p1 - 1, to);
    }
  }

  /** The part-2 answer from a search over `[p1, to)`: 14 past the marker,
      or 14 when there is none. */
  function Part2(buf: seq<Byte>, p1: nat, to: nat): int
    requires to + 14 <= |buf| + 1
  {
    var m := FirstMarker(buf, p1, to, 14);
    if m.Some? then m.value + 14 else 14
  }

  /** The search for fourteen as written stops before `|buf| - 14`, so the
      last window of the stream is never examined. */
  function Part2AsWritten(buf: seq<Byte>, p1: nat): int
    requires |buf| >= 14
  {
    Part2(buf, p1, |buf| - 14)
  }

  /** A stream whose only fourteen-marker is its last window: the search as
      written answers 14, while the marker ends at byte 15. */
  lemma LastWindowSkipped()
    ensures var buf: seq<Byte> := [0, 0, 1, 2, 3, 4, 5, 6, 7, 8, 9, 10, 11, 12, 13];
      FirstMarker(buf, 0, |buf| - 3, 4) == Some(1) &&
      Part2AsWritten(buf, 1) == 14 &&
      Distinct(buf, 1, 14) && Part2(buf, 1, |buf| - 13) == 15
  {
    var buf: seq<Byte> := [0, 0, 1, 2, 3, 4, 5, 6, 7, 8, 9, 10, 11, 12, 13];
    assert buf[0] == buf[1];
    assert forall p | 1 <= p < |buf| :: buf[p] as int == p - 1;
    assert Distinct(buf, 1, 14);
    DistinctPrefix(buf, 1, 14, 4);
  }

  /** With the last window included, part 2 is 14 past the first
      fourteen-marker of the whole stream. */
  lemma Part2Corrected(buf: seq<Byte>, p1: nat)
    requires |buf| >= 14 && p1 <= |buf| - 13
    requires forall j | 0 <= j < p1 :: !Distinct(buf, j, 4)
    requires exists j | 0 <= j && j + 14 <= |buf| :: Distinct(buf, j, 14)
    ensures Part2(buf, p1, |buf| - 13) - 14 == FirstMarker(buf, 0, |buf| - 13, 14).value
  {
    ScanFromFirstFour(buf, p1, |buf| - 13);
  }

  /** The first loop of `solve`: the first four different bytes, `None`
      where the source indexes past the end of the stream. */
  method FirstFour(buf: seq<Byte>) returns (r: Option<nat>)
    ensures |buf| >= 4 ==> r == FirstMarker(buf, 0, |buf| - 3, 4)
    ensures |buf| < 4 ==> r.None?
  {
    var i := 0;
    while i < |buf|
      invariant i <= |buf| && (i == 0 || i + 3 <= |buf|)
      invariant forall j | 0 <= j < i :: j + 4 <= |buf| && !Distinct(buf, j, 4)
    {
      if i + 3 >= |buf| {
        return None;
      }
      var a, b, c, d := buf[i], buf[i + 1], buf[i + 2], buf[i + 3];
      DistinctFour(buf, i);
      if a == b || a == c || a == d || b == c || b == d || c == d {
        i := i + 1;
      } else {
        FirstMarkerAt(buf, 0, |buf| - 3, 4, i);
        return Some(i);
      }
    }
    return None;
  }

  /** The end of the fourteen-byte search: `len - 14` as written, which
      skips the last window, or `len - 13` with that window included. */
  function SearchEnd(buf: seq<Byte>, fixed: bool): (to: nat)
    requires |buf| >= 14
    ensures to + 14 <= |buf| + 1
    ensures fixed ==> to + 13 == |buf|
    ensures !fixed ==> to + 14 == |buf|
  {
    if fixed then |buf| - 13 else |buf| - 14
  }

  /** `solve`: the first loop looks for four different bytes and indexes
      past the end when there are none; the subtraction `len - 14` fails on
      a stream shorter than 14; the second loop, from the first four-marker,
      looks for fourteen up to `SearchEnd`: `Solve(buf, false)` is the
      source as written, `Solve(buf, true)` tries the last window too. */
  method Solve(buf: seq<Byte>, fixed: bool) returns (r: Option<(int, int)>)
    ensures r.None? <==> |buf| < 14 || FirstMarker(buf, 0, |buf| - 3, 4).None?
    ensures r.Some? ==>
      var p1 := FirstMarker(buf, 0, |buf| - 3, 4).value;
      r.value == (p1 + 4, Part2(buf, p1, SearchEnd(buf, fixed)))
    ensures r.Some? && !fixed ==> r.value.1 == Part2AsWritten(buf, FirstMarker(buf, 0, |buf| - 3, 4).value)
  {
    var four := FirstFour(buf);
    if four.None? || |buf| < 14 {
      return None;
    }
    var p1 := four.value;
    var p2 := 0;
    var to := SearchEnd(buf, fixed);
    var i := p1;
    while i < to
      invariant p1 <= i
      invariant FirstMarker(buf, p1, to, 14) == FirstMarker(buf, i, to, 14)
    {
      if Distinct(buf, i, 14) {
        p2 := i;
        break;
      }
      i := i + 1;
    }
    r := Some((p1 + 4, p2 + 14));
  }
}
