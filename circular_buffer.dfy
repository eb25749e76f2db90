/**
 * The fixed-size ring of the last `n` inserted values (ets::CircularBuffer<T>).
 *
 * The storage is an array of length `n` that starts out holding `n` copies of
 * the value-initialised `T` (called `blank` here); a write counter `head`
 * counts every insertion ever made and the next value goes to slot
 * `head % n`.  The pure functions `Slots` and `Oldest` describe, in terms of
 * the whole insertion history, what the storage holds and what `back()`
 * answers; the class is proved against them.
 */
module CircularBuffers {

  /** The storage after inserting `hist` into a fresh ring of `n` blank slots. */
  function Slots<T>(blank: T, n: nat, hist: seq<T>): (s: seq<T>)
    requires n >= 1
    ensures |s| == n
    decreases |hist|
  {
    if hist == [] then seq(n, _ => blank)
    else Slots(blank, n, hist[..|hist| - 1])[(|hist| - 1) % n := hist[|hist| - 1]]
  }

  /**
   * The answer `back()` is meant to give after the insertions `hist`: the
   * oldest of the last `n` values once `n` values have gone in, and before
   * that the first value inserted (or `blank` when nothing has been).
   */
  function Oldest<T>(blank: T, n: nat, hist: seq<T>): (r: T)
    requires n >= 1
    ensures hist == [] ==> r == blank
    ensures hist != [] ==> r in hist
  {
    if |hist| < n then (if hist == [] then blank else hist[0])
    else hist[|hist| - n]
  }

  /**
   * Once `n` values have gone in, the answer depends only on the last `n`
   * of them: it is the first of those `n`, whatever came before.
   */
  lemma OldestForgetsEarlier<T>(blank: T, n: nat, earlier: seq<T>, recent: seq<T>)
    requires n >= 1 && |recent| == n
    ensures Oldest(blank, n, earlier + recent) == Oldest(blank, n, recent) == recent[0]
  {
    assert (earlier + recent)[|earlier + recent| - n] == recent[0];
  }

  lemma {:induction false} MulAtLeast(n: int, d: int)
    requires n >= 1 && d >= 1
    ensures n * d >= n
    decreases d
  {
    if d > 1 {
      assert n * d == n * (d - 1) + n;
      MulAtLeast(n, d - 1);
    }
  }

  /** Euclidean division has a unique quotient and remainder. */
  lemma ModUnique(x: int, n: int, q: int, r: int)
    requires n >= 1 && 0 <= r < n && x == n * q + r
    ensures x % n == r && x / n == q
  {
    var q0, r0 := x / n, x % n;
    assert x == n * q0 + r0;
    assert n * (q - q0) == r0 - r;
    if q > q0 {
      MulAtLeast(n, q - q0);
    } else if q < q0 {
      MulAtLeast(n, q0 - q);
    }
  }

  /** Two different counters less than `n` apart never share a slot. */
  lemma DistinctSlots(a: nat, b: nat, n: nat)
    requires n >= 1 && a < b < a + n
    ensures a % n != b % n
  {
    var q, r := a / n, a % n;
    if r + (b - a) < n {
      ModUnique(b, n, q, r + (b - a));
    } else {
      ModUnique(b, n, q + 1, r + (b - a) - n);
    }
  }

  /** Counters `n` apart share a slot. */
  lemma SameSlotAfterWrap(a: nat, n: nat)
    requires n >= 1 && a >= n
    ensures (a - n) % n == a % n
  {
    ModUnique(a - n, n, a / n - 1, a % n);
  }

  /**
   * Each of the last `min(|hist|, n)` values sits in the slot given by its
   * position in the history modulo `n`.
   */
  lemma {:induction false} SlotHoldsRecent<T>(blank: T, n: nat, hist: seq<T>, j: nat)
    requires n >= 1 && j < |hist| && |hist| - n <= j
    ensures Slots(blank, n, hist)[j % n] == hist[j]
    decreases |hist|
  {
    var k := |hist| - 1;
    if j < k {
      DistinctSlots(j, k, n);
      SlotHoldsRecent(blank, n, hist[..k], j);
    }
  }

  /** A slot not yet reached by the write counter still holds `blank`. */
  lemma {:induction false} SlotUnwrittenIsBlank<T>(blank: T, n: nat, hist: seq<T>, i: nat)
    requires n >= 1 && |hist| <= i < n
    ensures Slots(blank, n, hist)[i] == blank
    decreases |hist|
  {
    if hist != [] {
      var k := |hist| - 1;
      assert k % n == k;
      SlotUnwrittenIsBlank(blank, n, hist[..k], i);
    }
  }

  /**
   * The slot `back()` reads (slot 0 before the ring is full, slot
   * `head % n` after) holds the oldest retained value; once full, that is
   * also the slot the next insertion overwrites.
   */
  lemma BackSlotHoldsOldest<T>(blank: T, n: nat, hist: seq<T>)
    requires n >= 1
    ensures Slots(blank, n, hist)[if |hist| < n then 0 else |hist| % n] == Oldest(blank, n, hist)
  {
    if |hist| < n {
      if hist == [] {
        SlotUnwrittenIsBlank(blank, n, hist, 0);
      } else {
        SlotHoldsRecent(blank, n, hist, 0);
      }
    } else {
      SameSlotAfterWrap(|hist|, n);
      SlotHoldsRecent(blank, n, hist, |hist| - n);
    }
  }

  class CircularBuffer<T> {
    /** The `_buffer` vector, sized once by the constructor. */
    var buffer: array<T>
    /** The `_head` write counter: the number of insertions so far. */
    var head: nat
    /** The value-initialised `T` the storage starts out with. */
    ghost const Blank: T
    /** Every value inserted so far, oldest first. */
    ghost var Inserted: seq<T>

    ghost predicate Valid()
      reads this, buffer
    {
      buffer.Length >= 1 &&
      head == |Inserted| &&
      buffer[..] == Slots(Blank, buffer.Length, Inserted)
    }

    constructor (n: nat, blank: T)
      requires n >= 1
      ensures Valid() && fresh(buffer)
      ensures buffer.Length == n && Blank == blank && Inserted == []
      ensures buffer[..] == seq(n, _ => blank)
    {
      buffer := new T[n](_ => blank);
      head := 0;
      Blank := blank;
      Inserted := [];
    }

    /** Writes `item` over slot `head % n` and advances the counter. */
    method Insert(item: T)
      requires Valid()
      modifies this, buffer
      ensures Valid() && buffer == old(buffer)
      ensures Inserted == old(Inserted) + [item]
      ensures head == old(head) + 1
      ensures buffer[..] == old(buffer[..])[old(head) % buffer.Length := item]
      ensures old(IsFull()) ==> IsFull()
    {
      buffer[head % buffer.Length] := item;
      head := head + 1;
      Inserted := Inserted + [item];
      assert Inserted[..|Inserted| - 1] == old(Inserted);
    }

    /** The oldest retained value: `Oldest` of the insertion history. */
    function Back(): (r: T)
      reads this, buffer
      requires Valid()
      ensures r == Oldest(Blank, buffer.Length, Inserted)
    {
      BackSlotHoldsOldest(Blank, buffer.Length, Inserted);
      if head < buffer.Length then buffer[0] else buffer[head % buffer.Length]
    }

    /** True once at least `n` values have been inserted. */
    function IsFull(): (full: bool)
      reads this, buffer
      requires Valid()
      ensures full <==> |Inserted| >= buffer.Length
    {
      head >= buffer.Length
    }
  }
}
