/**
 * The doctest cases of the repository, replayed against the classes with
 * explicit timestamps (nanoseconds) in place of the sleeps: each method
 * builds the object, makes the calls the test makes, and its postcondition
 * states what the test checks.
 */
module Scenarios {
  import CircularBuffers
  import opened SlidingWindows
  import opened Throttlers

  const Second: int := 1_000_000_000

  /** Capacity 4, insert 1..8: `back()` after each insertion. */
  method InsertAndItems() returns (backs: seq<int>)
    ensures backs == [1, 1, 1, 1, 2, 3, 4, 5]
  {
    var b := new CircularBuffers.CircularBuffer<int>(4, 0);
    backs := [];
    var v := 1;
    while v <= 8
      invariant 1 <= v <= 9
      invariant b.Valid() && b.buffer.Length == 4
      invariant b.Inserted == seq(v - 1, j => j + 1)
      invariant |backs| == v - 1
      invariant forall j :: 0 <= j < v - 1 ==> backs[j] == if j < 4 then 1 else j - 2
      invariant fresh(b.buffer)
    {
      b.Insert(v);
      assert b.Inserted == seq(v, j => j + 1);
      backs := backs + [b.Back()];
      v := v + 1;
    }
  }

  /**
   * Capacity 4, insert 0..999: `back()` is 0 while the ring fills (the first
   * value inserted, which here equals the blank value) and `i - 3` after.
   */
  method InsertAndOverrideItems() returns (backs: seq<int>)
    ensures |backs| == 1000
    ensures forall i :: 0 <= i < 1000 ==> backs[i] == if i <= 3 then 0 else i - 3
  {
    var b := new CircularBuffers.CircularBuffer<int>(4, 0);
    backs := [];
    var i := 0;
    while i < 1000
      invariant 0 <= i <= 1000
      invariant b.Valid() && b.buffer.Length == 4
      invariant b.Inserted == seq(i, j => j)
      invariant |backs| == i
      invariant forall j :: 0 <= j < i ==> backs[j] == if j <= 3 then 0 else j - 3
      invariant fresh(b.buffer)
    {
      b.Insert(i);
      assert b.Inserted == seq(i + 1, j => j);
      backs := backs + [b.Back()];
      i := i + 1;
    }
  }

  /** Capacity 4, insert 1..6: `is_full()` after each insertion. */
  method CheckBufferIsFull() returns (fulls: seq<bool>)
    ensures fulls == [false, false, false, true, true, true]
  {
    var b := new CircularBuffers.CircularBuffer<int>(4, 0);
    fulls := [];
    var v := 1;
    while v <= 6
      invariant 1 <= v <= 7
      invariant b.Valid() && b.buffer.Length == 4 && |b.Inserted| == v - 1
      invariant fulls == seq(v - 1, j => j >= 3)
      invariant fresh(b.buffer)
    {
      b.Insert(v);
      fulls := fulls + [b.IsFull()];
      v := v + 1;
    }
  }

  const T0: int := 500_000_000
  const T1: int := 1_100_000_000
  const T2: int := 1_500_000_001

  /** The window of the throttler replay once full: 90 timestamps at 0.5 s, 10 at 1.1 s. */
  ghost function Full(): seq<int> {
    seq(90, _ => T0) + seq(10, _ => T1)
  }

  /** `count` requests at time `now` into a window with room for all of them: each is admitted. */
  method RequestMany(sw: SlidingWindow, now: int, count: nat) returns (delays: seq<int>)
    requires sw.Valid() && |sw.ring.Inserted| + count <= sw.maxMessages && NotBefore(sw.ring.Inserted, now)
    modifies sw.ring, sw.ring.buffer
    ensures sw.Valid() && sw.ring.buffer == old(sw.ring.buffer)
    ensures sw.Model() == old(sw.Model()).(granted := old(sw.ring.Inserted) + seq(count, _ => now))
    ensures delays == seq(count, _ => 0)
  {
    ghost var g := sw.ring.Inserted;
    delays := [];
    var i := 0;
    while i < count
      invariant 0 <= i <= count
      invariant sw.Valid() && sw.ring.buffer == old(sw.ring.buffer)
      invariant sw.Model() == old(sw.Model()).(granted := g + seq(i, _ => now))
      invariant delays == seq(i, _ => 0)
    {
      BurstAllowance(sw.Model(), now);
      var d := sw.Request(now);
      assert g + seq(i, _ => now) + [now] == g + seq(i + 1, _ => now);
      delays := delays + [d];
      i := i + 1;
    }
  }

  /**
   * 100 requests per second: 90 requests at 0.5 s and 10 at 1.1 s are all
   * admitted; 10 more at 1.1 s are denied with the 0.4 s left until the
   * first of the 90 ages out; one at 1.5 s + 1 ns is admitted again.
   */
  method RequestAndCheck() returns (admitted: seq<int>, denied: seq<int>, later: int)
    ensures |admitted| == 100 && forall i :: 0 <= i < 100 ==> admitted[i] == 0
    ensures |denied| == 10 && forall i :: 0 <= i < 10 ==> denied[i] == 400_000_000
    ensures later == 0
  {
    var sw := new SlidingWindow(100, Second);
    admitted := FillWindow(sw);
    denied := RequestDenied(sw);
    AdmittedAfterAging();
    later := sw.Request(T2);
  }

  /** Into a fresh window, 90 requests at 0.5 s and 10 at 1.1 s are all admitted. */
  method FillWindow(sw: SlidingWindow) returns (delays: seq<int>)
    requires sw.Valid() && sw.Model() == Window(100, Second, [])
    modifies sw.ring, sw.ring.buffer
    ensures sw.Valid() && sw.ring.buffer == old(sw.ring.buffer)
    ensures sw.Model() == Window(100, Second, Full())
    ensures delays == seq(100, _ => 0)
  {
    var first := RequestMany(sw, T0, 90);
    var second := RequestMany(sw, T1, 10);
    delays := first + second;
  }

  /** Ten more requests at 1.1 s into the full window are each denied with 0.4 s to wait. */
  method RequestDenied(sw: SlidingWindow) returns (delays: seq<int>)
    requires sw.Valid() && sw.Model() == Window(100, Second, Full())
    modifies sw.ring, sw.ring.buffer
    ensures sw.Valid() && sw.ring.buffer == old(sw.ring.buffer)
    ensures sw.Model() == Window(100, Second, Full())
    ensures delays == seq(10, _ => 400_000_000)
  {
    delays := [];
    var i := 0;
    while i < 10
      invariant 0 <= i <= 10
      invariant sw.Valid() && sw.ring.buffer == old(sw.ring.buffer)
      invariant sw.Model() == Window(100, Second, Full())
      invariant delays == seq(i, _ => 400_000_000)
    {
      DeniedAt();
      var d := sw.Request(T1);
      delays := delays + [d];
      i := i + 1;
    }
  }

  /** The full window of the replays denies at 1.1 s, with 0.4 s to wait. */
  lemma DeniedAt()
    ensures NotBefore(Full(), T1)
    ensures Step(Window(100, Second, Full()), T1) == Answer(400_000_000, Window(100, Second, Full()))
  {
    assert Full()[0] == T0;
  }

  /** At 1.5 s + 1 ns the first timestamp has aged out and the full window admits again. */
  lemma AdmittedAfterAging()
    ensures NotBefore(Full(), T2)
    ensures Step(Window(100, Second, Full()), T2).delay == 0
  {
    assert Full()[0] == T0;
  }

  datatype HighPrioMsg = HighPrioMsg
  datatype LowPrioMsg = LowPrioMsg

  /** The state after `count` messages `m` at time `now` all went out at once. */
  ghost function Filled<H, O>(s: State<H, O>, m: Message<H, O>, now: int, count: nat): State<H, O> {
    s.(window := s.window.(granted := s.window.granted + seq(count, _ => now)), sent := s.sent + seq(count, _ => m))
  }

  lemma FilledStep<H, O>(s: State<H, O>, m: Message<H, O>, now: int, i: nat)
    requires s.window.WellFormed() && |s.window.granted| + i < s.window.maxMessages
    ensures TrySend(Filled(s, m, now, i), m, now) == (0, Filled(s, m, now, i + 1))
  {
    var f := Filled(s, m, now, i);
    BurstAllowance(f.window, now);
    assert s.window.granted + seq(i, _ => now) + [now] == s.window.granted + seq(i + 1, _ => now);
    assert s.sent + seq(i, _ => m) + [m] == s.sent + seq(i + 1, _ => m);
  }

  /** `count` messages `m` at time `now` into a throttler whose window has room for all of them: each goes out at once. */
  method SendMany<H, O>(t: Throttler<H, O>, m: Message<H, O>, now: int, count: nat) returns (delays: seq<int>)
    requires t.Valid() && |t.window.ring.Inserted| + count <= t.window.maxMessages
    requires NotBefore(t.window.ring.Inserted, now)
    modifies t, t.window.ring, t.window.ring.buffer
    ensures t.Valid() && t.window.ring.buffer == old(t.window.ring.buffer)
    ensures t.Model() == Filled(old(t.Model()), m, now, count)
    ensures delays == seq(count, _ => 0)
  {
    ghost var s0 := t.Model();
    delays := [];
    var i := 0;
    while i < count
      invariant 0 <= i <= count
      invariant t.Valid() && t.window.ring.buffer == old(t.window.ring.buffer)
      invariant t.Model() == Filled(s0, m, now, i)
      invariant delays == seq(i, _ => 0)
    {
      FilledStep(s0, m, now, i);
      var d := t.TrySendMessage(m, now);
      delays := delays + [d];
      i := i + 1;
    }
  }

  /** The throttler replay after the 100 immediate sends and `i` queued (high, low) pairs. */
  ghost function Queued(i: nat): State<HighPrioMsg, LowPrioMsg> {
    State(Window(100, Second, Full()), seq(i, _ => HighPrioMsg), seq(i, _ => LowPrioMsg),
          seq(90, _ => Other(LowPrioMsg)) + seq(10, _ => High(HighPrioMsg)))
  }

  /** At 1.1 s both messages of a pair are denied with 0.4 s to wait and join their lanes. */
  lemma QueuedPair(i: nat)
    ensures var (d1, s1) := TrySend(Queued(i), High(HighPrioMsg), T1);
      var (d2, s2) := TrySend(s1, Other(LowPrioMsg), T1);
      d1 == 400_000_000 && d2 == 400_000_000 && s2 == Queued(i + 1)
  {
    DeniedAt();
    assert seq(i, _ => HighPrioMsg) + [HighPrioMsg] == seq(i + 1, _ => HighPrioMsg);
    assert seq(i, _ => LowPrioMsg) + [LowPrioMsg] == seq(i + 1, _ => LowPrioMsg);
  }

  /** At 1.5 s + 1 ns one drain sends the 10 queued high-priority messages, then the 10 others. */
  lemma FinalDrain()
    ensures SendQueued(Queued(10), T2) ==
      (0, State(Window(100, Second, Full() + seq(10, _ => T2) + seq(10, _ => T2)), [], [],
                seq(90, _ => Other(LowPrioMsg)) + seq(10, _ => High(HighPrioMsg))
                + seq(10, _ => High(HighPrioMsg)) + seq(10, _ => Other(LowPrioMsg))))
  {
    FirstTwentyAgedOut();
    QueuedLanesAsMessages();
    QueuesDrainWhenAgedOut(Queued(10), T2);
  }

  lemma FirstTwentyAgedOut()
    ensures forall i :: 0 <= i < 20 ==> T2 - Full()[i] > Second
  {
  }

  lemma QueuedLanesAsMessages()
    ensures Highs<HighPrioMsg, LowPrioMsg>(Queued(10).high) == seq(10, _ => High(HighPrioMsg))
    ensures Others<HighPrioMsg, LowPrioMsg>(Queued(10).rest) == seq(10, _ => Other(LowPrioMsg))
  {
  }

  /** Into a fresh throttler, 90 low-priority messages at 0.5 s and 10 high-priority ones at 1.1 s all go out at once. */
  method SendImmediate(t: Throttler<HighPrioMsg, LowPrioMsg>) returns (delays: seq<int>)
    requires t.Valid() && t.Model() == State(Window(100, Second, []), [], [], [])
    modifies t, t.window.ring, t.window.ring.buffer
    ensures t.Valid() && t.window.ring.buffer == old(t.window.ring.buffer)
    ensures t.Model() == Queued(0)
    ensures delays == seq(100, _ => 0)
  {
    var first := SendMany(t, Other(LowPrioMsg), T0, 90);
    var second := SendMany(t, High(HighPrioMsg), T1, 10);
    delays := first + second;
  }

  /** Submits 10 (high, low) pairs at 1.1 s into the full throttler; every one is queued. */
  method QueuePairs(t: Throttler<HighPrioMsg, LowPrioMsg>) returns (delays: seq<int>)
    requires t.Valid() && t.Model() == Queued(0)
    modifies t, t.window.ring, t.window.ring.buffer
    ensures t.Valid() && t.window.ring.buffer == old(t.window.ring.buffer)
    ensures t.Model() == Queued(10)
    ensures delays == seq(20, _ => 400_000_000)
  {
    delays := [];
    var i := 0;
    while i < 10
      invariant 0 <= i <= 10
      invariant t.Valid() && t.Model() == Queued(i)
      invariant t.window.ring.buffer == old(t.window.ring.buffer)
      invariant delays == seq(2 * i, _ => 400_000_000)
    {
      var d1, d2 := QueueOnePair(t, i);
      assert seq(2 * i, _ => 400_000_000) + [d1, d2] == seq(2 * (i + 1), _ => 400_000_000);
      delays := delays + [d1, d2];
      i := i + 1;
    }
  }

  /** One (high, low) pair at 1.1 s into the full throttler: both wait 0.4 s in their lanes. */
  method QueueOnePair(t: Throttler<HighPrioMsg, LowPrioMsg>, i: nat) returns (d1: int, d2: int)
    requires t.Valid() && t.Model() == Queued(i)
    modifies t, t.window.ring, t.window.ring.buffer
    ensures t.Valid() && t.window.ring.buffer == old(t.window.ring.buffer)
    ensures t.Model() == Queued(i + 1)
    ensures d1 == 400_000_000 && d2 == 400_000_000
  {
    QueuedPair(i);
    assert NotBefore(t.window.ring.Inserted, T1) by {
      assert t.window.ring.Inserted == Full();
    }
    d1 := t.TrySendMessage(High(HighPrioMsg), T1);
    d2 := t.TrySendMessage(Other(LowPrioMsg), T1);
  }

  /** At 1.5 s + 1 ns the queued pairs all go out, high-priority lane first. */
  method DrainQueued(t: Throttler<HighPrioMsg, LowPrioMsg>) returns (delay: int)
    requires t.Valid() && t.Model() == Queued(10)
    modifies t, t.window.ring, t.window.ring.buffer
    ensures delay == 0
    ensures t.Sent == seq(90, _ => Other(LowPrioMsg)) + seq(10, _ => High(HighPrioMsg))
                      + seq(10, _ => High(HighPrioMsg)) + seq(10, _ => Other(LowPrioMsg))
  {
    FinalDrain();
    assert t.window.ring.Inserted == Full();
    assert NotBefore(Full(), T2);
    delay := t.SendQueuedMessages(T2);
  }

  /**
   * 100 messages per second: 90 low-priority messages at 0.5 s and 10
   * high-priority ones at 1.1 s go out at once; then 10 pairs (high, low) at
   * 1.1 s are all queued with a positive delay; one drain at 1.5 s + 1 ns
   * sends all 10 queued high-priority messages before the 10 queued
   * low-priority ones and returns 0.
   */
  method SendMessageThrottleAndQueue() returns (immediate: seq<int>, queued: seq<int>, final: int,
                                                ghost sent: seq<Message<HighPrioMsg, LowPrioMsg>>)
    ensures |immediate| == 100 && forall i :: 0 <= i < 100 ==> immediate[i] == 0
    ensures |queued| == 20 && forall i :: 0 <= i < 20 ==> queued[i] > 0
    ensures final == 0
    ensures sent == seq(90, _ => Other(LowPrioMsg)) + seq(10, _ => High(HighPrioMsg))
                    + seq(10, _ => High(HighPrioMsg)) + seq(10, _ => Other(LowPrioMsg))
  {
    var t := new Throttler<HighPrioMsg, LowPrioMsg>(100, Second);
    immediate := SendImmediate(t);
    queued := QueuePairs(t);
    final := DrainQueued(t);
    sent := t.Sent;
  }
}
