/** Grove positioning: a ring of numbers tagged with their original index is
    "mixed" by moving each number, in the original order, as many places
    forward or backward as its value, with the moving number taken out of the
    ring while it travels. */
module Day20 {
  import opened Common

  const DECRYPT_KEY := 811589153

  /** A number tagged with its original index, as `(usize, i64)`. */
  type Entry = (nat, int)

  /** `iter().position(|r| r.0 == id)`: the first index holding `id`. */
  function IndexOfId(ring: seq<Entry>, id: nat): (r: Option<nat>)
    ensures r.Some? ==> r.value < |ring| && ring[r.value].0 == id
    ensures r.Some? ==> forall j | 0 <= j < r.value :: ring[j].0 != id
    ensures r.None? <==> forall j | 0 <= j < |ring| :: ring[j].0 != id
  {
    if ring == [] then None
    else if ring[0].0 == id then Some(0)
    else
      match IndexOfId(ring[1..], id)
      case None => None
      case Some(k) => Some(k + 1)
  }

  /** `iter().position(|r| r.1 == 0)`: the first index holding the value 0. */
  function IndexOfZero(ring: seq<Entry>): (r: Option<nat>)
    ensures r.Some? ==> r.value < |ring| && ring[r.value].1 == 0
    ensures r.Some? ==> forall j | 0 <= j < r.value :: ring[j].1 != 0
    ensures r.None? <==> forall j | 0 <= j < |ring| :: ring[j].1 != 0
  {
    if ring == [] then None
    else if ring[0].1 == 0 then Some(0)
    else
      match IndexOfZero(ring[1..])
      case None => None
      case Some(k) => Some(k + 1)
  }

  /** Where a number taken from `index` goes back in a ring of `len` others:
      Rust's remainder of `index + value`, moved into `[0, len)` when it is
      negative. It is the Euclidean remainder. */
  function InsertAt(len: int, index: int, value: int): (r: int)
    requires len > 0
    ensures 0 <= r < len
    ensures r == (index + value) % len
  {
    var pos := TruncRem(index + value, len);
    var q := TruncDiv(index + value, len);
    if pos < 0 then
      ModUnique(index + value, len, q - 1, len + pos);
      len + pos
    else
      ModUnique(index + value, len, q, pos);
      pos
  }

  lemma ModUnique(a: int, n: int, q: int, r: int)
    requires n > 0 && 0 <= r < n && a == n * q + r
    ensures a % n == r
  {
    var q', r' := a / n, a % n;
    var d := q' - q;
    assert n * d == r - r' by {
      MulSub(n, q', q);
    }
    if d > 0 {
      MulAtLeast(n, d);
    } else if d < 0 {
      MulAtLeast(n, -d);
    }
  }

  lemma MulAtLeast(n: int, d: int)
    requires n > 0 && d >= 1
    ensures n * d >= n && n * -d <= -n
  {
  }

  /** The ring without the element at `i`. */
  function Remove(s: seq<Entry>, i: nat): (r: seq<Entry>)
    requires i < |s|
    ensures |r| == |s| - 1
  {
    s[..i] + s[i + 1..]
  }

  /** The ring with `e` inserted before position `i`. */
  function Insert(s: seq<Entry>, i: nat, e: Entry): (r: seq<Entry>)
    requires i <= |s|
    ensures |r| == |s| + 1 && r[i] == e
  {
    s[..i] + [e] + s[i..]
  }

  /** One step of `mix`: find the entry with `id`, remove it, and insert it
      at its new place. `None` where the source panics: the id is missing,
      or the ring has only the one entry, so the remainder divides by 0. */
  function MixOne(ring: seq<Entry>, id: nat): (r: Option<seq<Entry>>)
    ensures r.Some? ==> |r.value| == |ring| && multiset(r.value) == multiset(ring)
  {
    match IndexOfId(ring, id)
    case None => None
    case Some(index) =>
      var removed := ring[index];
      var rest := Remove(ring, index);
      if |rest| == 0 then None
      else
        MovePermutes(ring, index, InsertAt(|rest|, index, removed.1));
        Some(Insert(rest, InsertAt(|rest|, index, removed.1), removed))
  }

  /** A step succeeds exactly when the id is present and the ring has at
      least two entries. */
  lemma MixOneSome(ring: seq<Entry>, id: nat)
    ensures MixOne(ring, id).Some? <==> |ring| >= 2 && exists j | 0 <= j < |ring| :: ring[j].0 == id
  {
  }

  /** Taking the entry at `index` out and putting it back at `at` keeps
      every entry. */
  lemma MovePermutes(ring: seq<Entry>, index: nat, at: nat)
    requires index < |ring| && at < |ring|
    ensures multiset(Insert(Remove(ring, index), at, ring[index])) == multiset(ring)
  {
    var rest, e := Remove(ring, index), ring[index];
    assert rest[..at] + rest[at..] == rest;
    assert ring == ring[..index] + [e] + ring[index + 1..];
    calc {
      multiset(Insert(rest, at, e));
      multiset(rest[..at]) + multiset{e} + multiset(rest[at..]);
      multiset(rest) + multiset{e};
      multiset(ring[..index]) + multiset(ring[index + 1..]) + multiset{e};
      multiset(ring);
    }
  }

  /** Taking out again the entry just put back at `at` gives the ring it was
      put into. */
  lemma InsertThenRemove(rest: seq<Entry>, at: nat, e: Entry)
    requires at <= |rest|
    ensures Remove(Insert(rest, at, e), at) == rest
  {
    var r := Insert(rest, at, e);
    assert r[..at] == rest[..at];
    assert r[at + 1..] == rest[at..];
    assert rest[..at] + rest[at..] == rest;
  }

  /** A step moves the entry with `id` from its first position to the
      normalised `index + value`: the ring keeps its entries and its length,
      and with the moved entry taken out again, the others are in the same
      order as before. */
  lemma MixOneMoves(ring: seq<Entry>, id: nat)
    requires MixOne(ring, id).Some?
    ensures var index := IndexOfId(ring, id).value;
      var r := MixOne(ring, id).value;
      var at := (index + ring[index].1) % (|ring| - 1);
      |r| == |ring| && multiset(r) == multiset(ring) &&
      r[at] == ring[index] && Remove(r, at) == Remove(ring, index)
  {
    var index := IndexOfId(ring, id).value;
    var rest := Remove(ring, index);
    var at := InsertAt(|rest|, index, ring[index].1);
    assert at == (index + ring[index].1) % (|ring| - 1);
    var r := Insert(rest, at, ring[index]);
    assert MixOne(ring, id) == Some(r);
    MovePermutes(ring, index, at);
    InsertThenRemove(rest, at, ring[index]);
  }

  /** `mix`: one step per entry of `numbers`, in their order. */
  function MixAll(numbers: seq<Entry>, ring: seq<Entry>): (r: Option<seq<Entry>>)
  {
    if numbers == [] then Some(ring)
    else
      match MixAll(numbers[..|numbers| - 1], ring)
      case None => None
      case Some(mixed) => MixOne(mixed, numbers[|numbers| - 1].0)
  }

  /** A failed step makes the whole round fail. */
  lemma {:induction false} MixAllFailsLater(numbers: seq<Entry>, ring: seq<Entry>, k: nat)
    requires k <= |numbers| && MixAll(numbers[..k], ring).None?
    ensures MixAll(numbers, ring).None?
    decreases |numbers| - k
  {
    if k < |numbers| {
      assert numbers[..k + 1][..k] == numbers[..k];
      MixAllFailsLater(numbers, ring, k + 1);
    } else {
      assert numbers[..k] == numbers;
    }
  }

  /** `mix`, moving the ring through the steps in a loop. */
  method Mix(numbers: seq<Entry>, ring: seq<Entry>) returns (r: Option<seq<Entry>>)
    ensures r == MixAll(numbers, ring)
  {
    var current := ring;
    assert numbers[..0] == [];
    for k := 0 to |numbers|
      invariant MixAll(numbers[..k], ring) == Some(current)
    {
      assert numbers[..k + 1][..k] == numbers[..k];
      var next := MixOne(current, numbers[k].0);
      if next.None? {
        MixAllFailsLater(numbers, ring, k + 1);
        return None;
      }
      current := next.value;
    }
    assert numbers[..|numbers|] == numbers;
    r := Some(current);
  }

  /** The ids in the ring. */
  function Ids(ring: seq<Entry>): (r: set<nat>)
    ensures forall j | 0 <= j < |ring| :: ring[j].0 in r
    ensures forall id | id in r :: exists j | 0 <= j < |ring| :: ring[j].0 == id
  {
    set j | 0 <= j < |ring| :: ring[j].0
  }

  /** Every id of `numbers` is somewhere in the ring. */
  predicate HoldsIds(ring: seq<Entry>, numbers: seq<Entry>)
  {
    forall k | 0 <= k < |numbers| :: numbers[k].0 in Ids(ring)
  }

  /** Rearranging entries keeps the ids. */
  lemma IdsPermuted(ring: seq<Entry>, r: seq<Entry>)
    requires multiset(r) == multiset(ring)
    ensures Ids(r) == Ids(ring)
  {
    forall id | id in Ids(ring)
      ensures id in Ids(r)
    {
      var j :| 0 <= j < |ring| && ring[j].0 == id;
      assert ring[j] in multiset(r);
      var j' :| 0 <= j' < |r| && r[j'] == ring[j];
    }
    forall id | id in Ids(r)
      ensures id in Ids(ring)
    {
      var j :| 0 <= j < |r| && r[j].0 == id;
      assert r[j] in multiset(ring);
      var j' :| 0 <= j' < |ring| && ring[j'] == r[j];
    }
  }

  /** A round over a ring of at least two entries that holds every id
      succeeds, and the mixed ring is a rearrangement of the original. */
  lemma {:induction false} MixAllPermutes(numbers: seq<Entry>, ring: seq<Entry>)
    requires |ring| >= 2 && HoldsIds(ring, numbers)
    ensures MixAll(numbers, ring).Some?
    ensures multiset(MixAll(numbers, ring).value) == multiset(ring)
  {
    if numbers != [] {
      var init := numbers[..|numbers| - 1];
      assert HoldsIds(ring, init) by {
        forall k | 0 <= k < |init|
          ensures init[k].0 in Ids(ring)
        {
          assert init[k] == numbers[k];
        }
      }
      MixAllPermutes(init, ring);
      var mixed := MixAll(init, ring).value;
      IdsPermuted(ring, mixed);
      var id := numbers[|numbers| - 1].0;
      assert |mixed| == |ring| by {
        assert |multiset(mixed)| == |multiset(ring)|;
      }
      MixOneSome(mixed, id);
      MixOneMoves(mixed, id);
    }
  }

  /** The numbers tagged with their original index and multiplied by the
      key: the ids are exactly the positions. */
  function Tagged(list: seq<int>, key: int): (r: seq<Entry>)
    ensures |r| == |list|
    ensures forall i | 0 <= i < |list| :: r[i] == (i, list[i] * key)
  {
    if list == [] then []
    else Tagged(list[..|list| - 1], key) + [(|list| - 1, list[|list| - 1] * key)]
  }

  /** `n` rounds, each over the original order. */
  function MixRounds(numbers: seq<Entry>, ring: seq<Entry>, n: nat): (r: Option<seq<Entry>>)
  {
    if n == 0 then Some(ring)
    else
      match MixRounds(numbers, ring, n - 1)
      case None => None
      case Some(mixed) => MixAll(numbers, mixed)
  }

  /** The sum of the values 1000, 2000 and 3000 places after the first zero,
      wrapping around the ring; `None` where there is no zero. */
  function Grove(ring: seq<Entry>): (r: Option<int>)
    ensures r.None? <==> forall j | 0 <= j < |ring| :: ring[j].1 != 0
  {
    match IndexOfZero(ring)
    case None => None
    case Some(i) =>
      var len := |ring|;
      Some(ring[(i + 1000) % len].1 + ring[(i + 2000) % len].1 + ring[(i + 3000) % len].1)
  }

  /** What `mix_n` computes: tag, mix `n` times, and read the grove
      coordinates. */
  function MixedGrove(list: seq<int>, n: nat, key: int): (r: Option<int>)
  {
    var numbers := Tagged(list, key);
    match MixRounds(numbers, numbers, n)
    case None => None
    case Some(ring) => Grove(ring)
  }

  /** Repeated rounds keep every entry, and so keep a ring of at least two
      entries mixable. */
  lemma {:induction false} MixRoundsPermutes(numbers: seq<Entry>, n: nat)
    requires |numbers| >= 2
    ensures MixRounds(numbers, numbers, n).Some?
    ensures multiset(MixRounds(numbers, numbers, n).value) == multiset(numbers)
  {
    if n > 0 {
      MixRoundsPermutes(numbers, n - 1);
      var mixed := MixRounds(numbers, numbers, n - 1).value;
      assert |mixed| == |numbers| by {
        assert |multiset(mixed)| == |multiset(numbers)|;
      }
      IdsPermuted(numbers, mixed);
      MixAllPermutes(numbers, mixed);
    }
  }

  /** With at least two numbers the mixing never fails, and the answer
      exists exactly when some scaled number is zero. */
  lemma MixedGroveSome(list: seq<int>, n: nat, key: int)
    requires |list| >= 2
    ensures MixedGrove(list, n, key).Some? <==> exists i | 0 <= i < |list| :: list[i] * key == 0
  {
    var numbers := Tagged(list, key);
    MixRoundsPermutes(numbers, n);
    var ring := MixRounds(numbers, numbers, n).value;
    if exists i | 0 <= i < |list| :: list[i] * key == 0 {
      var i :| 0 <= i < |list| && list[i] * key == 0;
      assert numbers[i] in multiset(ring);
      var j :| 0 <= j < |ring| && ring[j] == numbers[i];
    } else {
      forall j | 0 <= j < |ring|
        ensures ring[j].1 != 0
      {
        assert ring[j] in multiset(numbers);
        var i :| 0 <= i < |numbers| && numbers[i] == ring[j];
      }
    }
  }

  /** A round over a ring of fewer than two entries fails at its first
      step. */
  lemma MixAllTooShort(numbers: seq<Entry>, ring: seq<Entry>)
    requires numbers != [] && |ring| < 2
    ensures MixAll(numbers, ring).None?
  {
    assert numbers[..1][..0] == [];
    MixOneSome(ring, numbers[0].0);
    MixAllFailsLater(numbers, ring, 1);
  }

  /** With no number there is no zero, and a single number can not be
      mixed: taking it out leaves nothing to take the remainder by. */
  lemma MixedGroveShort(list: seq<int>, n: nat, key: int)
    requires |list| == 0 || (|list| == 1 && n >= 1)
    ensures MixedGrove(list, n, key).None?
  {
    var numbers := Tagged(list, key);
    if |list| == 1 {
      MixRoundsTooShort(numbers, n);
    } else {
      MixRoundsOfNothing(numbers, n);
    }
  }

  lemma {:induction false} MixRoundsOfNothing(numbers: seq<Entry>, n: nat)
    requires numbers == []
    ensures MixRounds(numbers, numbers, n) == Some([])
  {
    if n > 0 {
      MixRoundsOfNothing(numbers, n - 1);
    }
  }

  lemma {:induction false} MixRoundsTooShort(numbers: seq<Entry>, n: nat)
    requires |numbers| == 1 && n >= 1
    ensures MixRounds(numbers, numbers, n).None?
  {
    if n == 1 {
      MixAllTooShort(numbers, numbers);
    } else {
      MixRoundsTooShort(numbers, n - 1);
    }
  }

  lemma {:induction false} MixRoundsFailsLater(numbers: seq<Entry>, ring: seq<Entry>, k: nat, n: nat)
    requires k <= n && MixRounds(numbers, ring, k).None?
    ensures MixRounds(numbers, ring, n).None?
    decreases n - k
  {
    if k < n {
      MixRoundsFailsLater(numbers, ring, k + 1, n);
    }
  }

  /** `mix_n`: the rounds run in a loop, each over the original order. */
  method MixN(list: seq<int>, n: nat, key: int) returns (r: Option<int>)
    ensures r == MixedGrove(list, n, key)
  {
    var numbers := Tagged(list, key);
    var ring := numbers;
    for round := 0 to n
      invariant MixRounds(numbers, numbers, round) == Some(ring)
    {
      var mixed := Mix(numbers, ring);
      if mixed.None? {
        MixRoundsFailsLater(numbers, numbers, round + 1, n);
        return None;
      }
      ring := mixed.value;
    }
    r := Grove(ring);
  }

  /** `solve`: one round with no key, then ten rounds with the key. */
  method Solve(list: seq<int>) returns (p1: Option<int>, p2: Option<int>)
    ensures p1 == MixedGrove(list, 1, 1) && p2 == MixedGrove(list, 10, DECRYPT_KEY)
    ensures |list| >= 2 ==> (p1.Some? <==> exists i | 0 <= i < |list| :: list[i] == 0)
  {
    p1 := MixN(list, 1, 1);
    p2 := MixN(list, 10, DECRYPT_KEY);
    if |list| >= 2 {
      MixedGroveSome(list, 1, 1);
    }
  }
}
