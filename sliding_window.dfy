/**
 * The admission gate (ets::SlidingWindow): a ring of the timestamps of the
 * last `maxMessages` admitted requests and an interval.  A request at time
 * `now` is denied when the ring is full and the oldest retained timestamp is
 * at most `interval` before `now`; otherwise `now` is recorded.
 *
 * Time is an integer number of nanoseconds handed to `Request` by the caller
 * instead of being read from the steady clock.  The value `Window` and the
 * function `Step` give the meaning of one request; the class is proved
 * against them.
 */
module SlidingWindows {
  import CircularBuffers

  /** The settings of a window and every timestamp it has recorded, oldest first. */
  datatype Window = Window(maxMessages: nat, interval: int, granted: seq<int>)
  {
    predicate WellFormed() {
      maxMessages >= 1 && interval > 0
    }

    /** What the ring's `back()` answers: the steady clock's epoch (0) stands in for an empty slot. */
    function Oldest(): int
      requires maxMessages >= 1
    {
      CircularBuffers.Oldest(0, maxMessages, granted)
    }

    /** The ring is full and its oldest timestamp is still within `interval` of `now`. */
    predicate Denies(now: int)
      requires maxMessages >= 1
    {
      |granted| >= maxMessages && now - Oldest() <= interval
    }
  }

  /** The delay a request returns and the window it leaves behind. */
  datatype Answer = Answer(delay: int, window: Window)

  /** One request at time `now`, as the source computes it. */
  function Step(w: Window, now: int): (a: Answer)
    requires w.maxMessages >= 1
    ensures a.window.maxMessages == w.maxMessages && a.window.interval == w.interval
    ensures a.window == w || a.window.granted == w.granted + [now]
    ensures a.delay != 0 ==> a.window == w
  {
    if w.Denies(now) then Answer(w.interval - (now - w.Oldest()), w)
    else Answer(0, w.(granted := w.granted + [now]))
  }

  /** `now` is not earlier than any recorded timestamp (the clock never runs backwards). */
  predicate NotBefore(granted: seq<int>, now: int) {
    forall i :: 0 <= i < |granted| ==> granted[i] <= now
  }

  predicate Sorted(granted: seq<int>) {
    forall i, j :: 0 <= i <= j < |granted| ==> granted[i] <= granted[j]
  }

  /** Any two recorded grants `n` positions apart are more than `interval` apart in time. */
  predicate Spaced(n: nat, interval: int, granted: seq<int>) {
    forall j :: 0 <= j < |granted| - n ==> granted[j + n] - granted[j] > interval
  }

  /**
   * A request's delay: zero exactly when it is admitted or when it meets a
   * full window at exactly `interval` past the oldest timestamp; otherwise
   * the remaining wait, which never exceeds `interval`.  A denial records
   * nothing, an admission records `now` as the newest timestamp.
   */
  lemma StepOutcome(w: Window, now: int)
    requires w.WellFormed() && NotBefore(w.granted, now)
    ensures var a := Step(w, now);
      && 0 <= a.delay <= w.interval
      && (a.delay == 0 <==> !w.Denies(now) || now - w.Oldest() == w.interval)
      && (w.Denies(now) <==> a.window == w)
      && (!w.Denies(now) <==> a.window.granted == w.granted + [now])
      && a.window.maxMessages == w.maxMessages && a.window.interval == w.interval
  {
    if |w.granted| >= w.maxMessages {
      assert w.Oldest() == w.granted[|w.granted| - w.maxMessages];
    }
  }

  /**
   * A positive delay is the wait until the window reopens: every request
   * before `now + delay` is still refused with a positive delay, one at
   * exactly `now + delay` answers 0, and one just after is admitted and
   * recorded.
   */
  lemma DelayIsRemainingWait(w: Window, now: int)
    requires w.WellFormed()
    ensures var d := Step(w, now).delay;
      d > 0 ==>
        && (forall t :: now <= t < now + d ==> Step(w, t).delay > 0)
        && Step(w, now + d).delay == 0
        && Step(w, now + d + 1).window.granted == w.granted + [now + d + 1]
  {
  }

  /** Until `maxMessages` timestamps are recorded every request is admitted, whatever the time. */
  lemma BurstAllowance(w: Window, now: int)
    requires w.WellFormed() && |w.granted| < w.maxMessages
    ensures Step(w, now) == Answer(0, w.(granted := w.granted + [now]))
  {
  }

  /** A denied request changes nothing, so asking again at the same time gives the same answer. */
  lemma DenialIsIdempotent(w: Window, now: int)
    requires w.WellFormed() && w.Denies(now)
    ensures Step(w, now).window == w
    ensures Step(Step(w, now).window, now) == Step(w, now)
  {
  }

  /** Admissions keep the recorded timestamps in clock order. */
  lemma StepKeepsSorted(w: Window, now: int)
    requires w.WellFormed() && Sorted(w.granted) && NotBefore(w.granted, now)
    ensures Sorted(Step(w, now).window.granted)
  {
  }

  /** Admissions keep every pair of grants `maxMessages` apart more than `interval` apart. */
  lemma StepKeepsSpaced(w: Window, now: int)
    requires w.WellFormed() && Spaced(w.maxMessages, w.interval, w.granted)
    ensures Spaced(w.maxMessages, w.interval, Step(w, now).window.granted)
  {
    var n, g := w.maxMessages, w.granted;
    if !w.Denies(now) {
      var g' := g + [now];
      forall j | 0 <= j < |g'| - n
        ensures g'[j + n] - g'[j] > w.interval
      {
        if j + n < |g| {
          assert g'[j + n] == g[j + n] && g'[j] == g[j];
        } else {
          assert j == |g| - n && g'[j] == w.Oldest();
        }
      }
    }
  }

  /** The first position whose timestamp is at least `t` (|g| when there is none). */
  function FirstAtLeast(g: seq<int>, t: int): (k: nat)
    ensures k <= |g|
    ensures forall j :: 0 <= j < k ==> g[j] < t
    ensures k < |g| ==> g[k] >= t
  {
    if g == [] then 0
    else if g[0] >= t then 0
    else 1 + FirstAtLeast(g[1..], t)
  }

  /** A set of integers drawn from `a .. a + n - 1` has at most `n` members. */
  lemma {:induction false} AtMostNPositions(s: set<int>, a: int, n: nat)
    requires forall j :: j in s ==> a <= j < a + n
    ensures |s| <= n
    decreases n
  {
    if n > 0 {
      var last := a + n - 1;
      AtMostNPositions(s - {last}, a, n - 1);
      if last in s {
        assert s == (s - {last}) + {last};
      } else {
        assert s == s - {last};
      }
    } else {
      assert forall j :: j !in s;
      assert s == {};
    }
  }

  /**
   * The rate bound: with the timestamps in clock order and spaced as
   * `StepKeepsSpaced` keeps them, no closed span of length `interval` holds
   * more than `n` recorded grants.
   */
  lemma GrantsInSpanAtMost(n: nat, interval: int, g: seq<int>, t: int)
    requires n >= 1 && Sorted(g) && Spaced(n, interval, g)
    ensures |set j | 0 <= j < |g| && t <= g[j] <= t + interval| <= n
  {
    var lo := FirstAtLeast(g, t);
    var inSpan := set j | 0 <= j < |g| && t <= g[j] <= t + interval;
    if lo + n < |g| {
      assert g[lo + n] - g[lo] > interval;
    }
    forall j | j in inSpan
      ensures lo <= j < lo + n
    {
    }
    AtMostNPositions(inSpan, lo, n);
  }

  /**
   * The gate with a strict comparison: a full window admits (and records)
   * a request made exactly `interval` after its oldest timestamp.
   */
  function StrictStep(w: Window, now: int): (a: Answer)
    requires w.maxMessages >= 1
    ensures a.window.maxMessages == w.maxMessages && a.window.interval == w.interval
    ensures a.window == w || a.window.granted == w.granted + [now]
    ensures a.delay != 0 ==> a.window == w
    ensures |w.granted| >= w.maxMessages && now - w.Oldest() == w.interval ==> a.delay == 0 && a.window != w
  {
    if |w.granted| >= w.maxMessages && now - w.Oldest() < w.interval
    then Answer(w.interval - (now - w.Oldest()), w)
    else Answer(0, w.(granted := w.granted + [now]))
  }

  /**
   * With the strict comparison a zero delay means exactly that `now` was
   * recorded, and a denial carries a wait in (0, interval].
   */
  lemma StrictStepZeroMeansRecorded(w: Window, now: int)
    requires w.WellFormed() && NotBefore(w.granted, now)
    ensures var a := StrictStep(w, now);
      && (a.delay == 0 <==> a.window.granted == w.granted + [now])
      && (a.delay != 0 ==> 0 < a.delay <= w.interval && a.window == w)
  {
    if |w.granted| >= w.maxMessages {
      assert w.Oldest() == w.granted[|w.granted| - w.maxMessages];
    }
  }

  /**
   * The strict gate keeps the timestamps in clock order and keeps any two
   * grants `maxMessages` positions apart at least `interval` apart (on
   * integers: more than `interval - 1`); it can record two grants exactly
   * `interval` apart.
   */
  lemma StrictStepKeepsSpaced(w: Window, now: int)
    requires w.WellFormed() && Sorted(w.granted) && NotBefore(w.granted, now)
    requires Spaced(w.maxMessages, w.interval - 1, w.granted)
    ensures var g := StrictStep(w, now).window.granted;
      Sorted(g) && Spaced(w.maxMessages, w.interval - 1, g)
  {
    var n, g := w.maxMessages, w.granted;
    var a := StrictStep(w, now);
    if a.window != w {
      var g' := g + [now];
      forall j | 0 <= j < |g'| - n
        ensures g'[j + n] - g'[j] > w.interval - 1
      {
        if j + n < |g| {
          assert g'[j + n] == g[j + n] && g'[j] == g[j];
        } else {
          assert j == |g| - n && g'[j] == w.Oldest();
        }
      }
    }
  }

  /**
   * The strict gate's rate bound: no half-open span `[t, t + interval)`
   * holds more than `n` recorded grants.  A closed span of that length can
   * hold `n + 1`, as `StrictStep(Window(1, 10, [0]), 10)` shows.
   */
  lemma StrictGrantsInSpanAtMost(n: nat, interval: int, g: seq<int>, t: int)
    requires n >= 1 && Sorted(g) && Spaced(n, interval - 1, g)
    ensures |set j | 0 <= j < |g| && t <= g[j] < t + interval| <= n
  {
    GrantsInSpanAtMost(n, interval - 1, g, t);
    assert (set j | 0 <= j < |g| && t <= g[j] < t + interval)
        == (set j | 0 <= j < |g| && t <= g[j] <= t + (interval - 1));
  }

  /** Under the strict gate two grants can lie exactly `interval` apart in a window of one. */
  lemma StrictStepFillsClosedSpan()
    ensures var w := Window(1, 10, [0]);
      StrictStep(w, 10).window.granted == [0, 10]
      && |set j | 0 <= j < 2 && 0 <= [0, 10][j] <= 10| == 2
  {
    var s := set j | 0 <= j < 2 && 0 <= [0, 10][j] <= 10;
    assert 0 in s && 1 in s;
    assert s == {0, 1};
  }

  /** As written, a full window met exactly `interval` after its oldest timestamp answers 0 and records nothing. */
  lemma BoundaryAnswersZeroUnrecorded()
    ensures var w := Window(1, 10, [0]);
      Step(w, 10) == Answer(0, w) && w.Denies(10)
  {
  }

  class SlidingWindow {
    const maxMessages: nat
    const interval: int
    /** The `_buffer` ring of admitted timestamps. */
    const ring: CircularBuffers.CircularBuffer<int>

    ghost predicate Valid()
      reads this, ring, ring.buffer
    {
      ring.Valid() &&
      ring.buffer.Length == maxMessages &&
      ring.Blank == 0 &&
      interval > 0 &&
      Sorted(ring.Inserted) &&
      Spaced(maxMessages, interval, ring.Inserted)
    }

    ghost function Model(): Window
      reads this, ring
    {
      Window(maxMessages, interval, ring.Inserted)
    }

    constructor (maxMessages: nat, interval: int)
      requires maxMessages >= 1 && interval > 0
      ensures Valid() && fresh(ring) && fresh(ring.buffer)
      ensures Model() == Window(maxMessages, interval, [])
    {
      this.maxMessages := maxMessages;
      this.interval := interval;
      ring := new CircularBuffers.CircularBuffer(maxMessages, 0);
    }

    /** Asks to send at time `now`; answers 0 and records `now`, or answers the wait. */
    method Request(now: int) returns (delay: int)
      requires Valid() && NotBefore(ring.Inserted, now)
      modifies ring, ring.buffer
      ensures Valid() && ring.buffer == old(ring.buffer)
      ensures Answer(delay, Model()) == Step(old(Model()), now)
    {
      var difFromOldest := now - ring.Back();
      if difFromOldest <= interval && ring.IsFull() {
        return interval - difFromOldest;
      }
      StepKeepsSorted(Model(), now);
      StepKeepsSpaced(Model(), now);
      ring.Insert(now);
      return 0;
    }
  }
}
