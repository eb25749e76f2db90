/**
 * The message throttler (ets::Throttler<THighPriorityMessage, TOnSendCallback>).
 *
 * Every message first asks the sliding window for admission.  An admitted
 * message goes straight to the on-send callback; a throttled one is queued in
 * one of two FIFO lanes: the lane of the designated high-priority type, or
 * the lane that holds every other type behind a type-erasing wrapper.
 * `send_queued_messages` drains the high lane front to back and moves on to
 * the other lane only once the high lane is empty.
 *
 * Here a message is a tagged value (`High` for the designated type, `Other`
 * for the rest), the callback is a ghost log `Sent` of the messages handed
 * to it, and the time every request of one call sees is the `now` argument.
 * The functions `TrySend`, `Drain` and `SendQueued` give the meaning of the
 * operations on a `State` value; the class is proved against them.
 */
module Throttlers {
  import opened SlidingWindows

  /** A message of the designated high-priority type, or of any other type. */
  datatype Message<H, O> = High(high: H) | Other(other: O)

  /** The window, the two lanes, and the messages handed to the callback so far, in order. */
  datatype State<H, O> = State(window: Window, high: seq<H>, rest: seq<O>, sent: seq<Message<H, O>>)

  /** The lane elements `xs`, each turned into the message it sends. */
  function Tagged<M, H, O>(xs: seq<M>, tag: M -> Message<H, O>): (ms: seq<Message<H, O>>)
    ensures |ms| == |xs|
  {
    seq(|xs|, i requires 0 <= i < |xs| => tag(xs[i]))
  }

  /** Element `i` of a tagged lane is the tag of element `i` of the lane. */
  lemma TaggedAt<M, H, O>(xs: seq<M>, tag: M -> Message<H, O>)
    ensures forall i :: 0 <= i < |xs| ==> Tagged(xs, tag)[i] == tag(xs[i])
  {
  }

  /** The high lane as the messages it sends. */
  function Highs<H, O>(hs: seq<H>): (ms: seq<Message<H, O>>)
    ensures |ms| == |hs| && forall i :: 0 <= i < |hs| ==> ms[i] == High(hs[i])
  {
    TaggedAt(hs, (h: H) => Message<H, O>.High(h));
    Tagged(hs, (h: H) => Message<H, O>.High(h))
  }

  /** The other lane as the messages it sends. */
  function Others<H, O>(os: seq<O>): (ms: seq<Message<H, O>>)
    ensures |ms| == |os| && forall i :: 0 <= i < |os| ==> ms[i] == Other(os[i])
  {
    TaggedAt(os, (o: O) => Message<H, O>.Other(o));
    Tagged(os, (o: O) => Message<H, O>.Other(o))
  }

  lemma TaggedHighs<H, O>(hs: seq<H>, tag: H -> Message<H, O>)
    requires forall h :: tag(h) == High(h)
    ensures Tagged(hs, tag) == Highs(hs)
  {
    TaggedAt(hs, tag);
  }

  lemma TaggedOthers<H, O>(os: seq<O>, tag: O -> Message<H, O>)
    requires forall o :: tag(o) == Other(o)
    ensures Tagged(os, tag) == Others(os)
  {
    TaggedAt(os, tag);
  }

  lemma TaggedSnoc<M, H, O>(xs: seq<M>, x: M, tag: M -> Message<H, O>)
    ensures Tagged(xs + [x], tag) == Tagged(xs, tag) + [tag(x)]
  {
    TaggedAt(xs + [x], tag);
    TaggedAt(xs, tag);
  }

  /**
   * Every message ever submitted, counted once: those sent plus those still
   * queued in either lane.
   */
  ghost function Account<H, O>(s: State<H, O>): multiset<Message<H, O>> {
    multiset(s.sent) + multiset(Highs(s.high)) + multiset(Others(s.rest))
  }

  /** The window the throttler owns keeps the invariants its requests preserve. */
  predicate WindowOk(w: Window) {
    w.WellFormed() && Sorted(w.granted) && Spaced(w.maxMessages, w.interval, w.granted)
  }

  /** `try_send_message(m)` at time `now`: the delay it returns and the state it leaves. */
  function TrySend<H, O>(s: State<H, O>, m: Message<H, O>, now: int): (r: (int, State<H, O>))
    requires s.window.maxMessages >= 1
    ensures (r.0, r.1.window) == (Step(s.window, now).delay, Step(s.window, now).window)
    ensures |r.1.sent| + |r.1.high| + |r.1.rest| == |s.sent| + |s.high| + |s.rest| + 1
    ensures r.0 == 0 <==> |r.1.sent| == |s.sent| + 1
  {
    var a := Step(s.window, now);
    if a.delay == 0 then (0, s.(window := a.window, sent := s.sent + [m]))
    else match m
      case High(h) => (a.delay, s.(window := a.window, high := s.high + [h]))
      case Other(o) => (a.delay, s.(window := a.window, rest := s.rest + [o]))
  }

  /** What draining a lane did: the delay returned, the window left, how many messages went out. */
  datatype Drained = Drained(delay: int, window: Window, count: nat)

  /**
   * Draining a lane of `queued` messages at time `now`: one request per
   * message, front first, stopping at the first non-zero delay.  The result
   * is zero exactly when the whole lane went out.
   */
  function Drain(w: Window, queued: nat, now: int): (d: Drained)
    requires w.maxMessages >= 1
    ensures d.count <= queued
    ensures d.delay == 0 <==> d.count == queued
    ensures d.window.maxMessages == w.maxMessages && d.window.interval == w.interval
    decreases queued
  {
    if queued == 0 then Drained(0, w, 0)
    else
      var a := Step(w, now);
      if a.delay != 0 then Drained(a.delay, a.window, 0)
      else
        var d := Drain(a.window, queued - 1, now);
        d.(count := d.count + 1)
  }

  /**
   * One admitted round of a drain: the lane `done + rest` with `done` already
   * sent splits one element further, the drain resumes from the window of
   * the admitted request, and the log of sent messages grows by the tag of
   * the element just sent.
   */
  lemma DrainRoundKeeps<M, H, O>(lane: seq<M>, done: seq<M>, rest: seq<M>, tag: M -> Message<H, O>,
                                 base: seq<Message<H, O>>, w0: Window, w: Window, queued: nat, left: nat, now: int)
    requires queued == |lane| && left == |rest| && left > 0 && lane == done + rest
    requires w0.maxMessages >= 1 && w.maxMessages >= 1 && Step(w, now).delay == 0
    requires var d := Drain(w, left, now); Drain(w0, queued, now) == d.(count := d.count + (queued - left))
    ensures lane == (done + [rest[0]]) + rest[1..] && |rest[1..]| == left - 1
    ensures var d := Drain(Step(w, now).window, left - 1, now);
      Drain(w0, queued, now) == d.(count := d.count + (queued - (left - 1)))
    ensures base + Tagged(done, tag) + [tag(rest[0])] == base + Tagged(done + [rest[0]], tag)
  {
    var x := rest[0];
    assert rest == [x] + rest[1..];
    TaggedSnoc(done, x, tag);
    assert base + Tagged(done, tag) + [tag(x)] == base + (Tagged(done, tag) + [tag(x)]);
  }

  /** `send_queued_messages()` at time `now`: the high lane first, the other lane only if that emptied. */
  function SendQueued<H, O>(s: State<H, O>, now: int): (r: (int, State<H, O>))
    requires s.window.maxMessages >= 1
    ensures r.1.window.maxMessages == s.window.maxMessages && r.1.window.interval == s.window.interval
    ensures |r.1.sent| + |r.1.high| + |r.1.rest| == |s.sent| + |s.high| + |s.rest|
    ensures |r.1.sent| >= |s.sent| && |r.1.high| <= |s.high| && |r.1.rest| <= |s.rest|
    ensures |r.1.rest| < |s.rest| ==> r.1.high == []
    ensures r.0 == 0 <==> r.1.high == [] && r.1.rest == []
  {
    var dh := Drain(s.window, |s.high|, now);
    var s1 := s.(window := dh.window, high := s.high[dh.count..],
                 sent := s.sent + Highs(s.high[..dh.count]));
    if dh.delay != 0 then (dh.delay, s1)
    else
      var dr := Drain(s1.window, |s1.rest|, now);
      (dr.delay, s1.(window := dr.window, rest := s1.rest[dr.count..],
                     sent := s1.sent + Others(s1.rest[..dr.count])))
  }

  lemma HighsSplit<H, O>(hs: seq<H>, k: nat)
    requires k <= |hs|
    ensures Highs<H, O>(hs) == Highs(hs[..k]) + Highs(hs[k..])
  {
  }

  lemma OthersSplit<H, O>(os: seq<O>, k: nat)
    requires k <= |os|
    ensures Others<H, O>(os) == Others(os[..k]) + Others(os[k..])
  {
  }

  /**
   * A drain keeps the window's invariants, leaves `now` not earlier than any
   * timestamp, only appends to the recorded timestamps, and a non-zero
   * result is the window's own wait at `now`, in (0, interval].
   */
  lemma {:induction false} DrainKeepsWindow(w: Window, queued: nat, now: int)
    requires WindowOk(w) && NotBefore(w.granted, now)
    ensures var d := Drain(w, queued, now);
      && WindowOk(d.window) && NotBefore(d.window.granted, now)
      && w.granted <= d.window.granted
      && (d.delay != 0 ==> 0 < d.delay <= w.interval && Step(d.window, now).delay == d.delay)
    decreases queued
  {
    if queued > 0 {
      var a := Step(w, now);
      assert WindowOk(a.window) && NotBefore(a.window.granted, now) && 0 <= a.delay <= w.interval by {
        StepOutcome(w, now);
        StepKeepsSorted(w, now);
        StepKeepsSpaced(w, now);
      }
      if a.delay == 0 {
        var d := Drain(a.window, queued - 1, now);
        assert Drain(w, queued, now) == d.(count := d.count + 1);
        assert w.granted <= a.window.granted;
        DrainKeepsWindow(a.window, queued - 1, now);
      } else {
        assert Drain(w, queued, now) == Drained(a.delay, w, 0);
      }
    }
  }

  /**
   * If the window admits, the message is handed to the callback once and
   * both lanes stay as they were.  If it denies, the message joins the back
   * of exactly one lane (the high lane for the designated type), nothing is
   * sent, and the wait returned lies in (0, interval].
   */
  lemma TrySendOutcome<H, O>(s: State<H, O>, m: Message<H, O>, now: int)
    requires WindowOk(s.window) && NotBefore(s.window.granted, now)
    ensures var (d, s') := TrySend(s, m, now);
      && WindowOk(s'.window) && NotBefore(s'.window.granted, now)
      && (d == 0 ==> s'.sent == s.sent + [m] && s'.high == s.high && s'.rest == s.rest)
      && (d != 0 ==> 0 < d <= s.window.interval && s'.sent == s.sent && s'.window == s.window
                     && s'.high == (if m.High? then s.high + [m.high] else s.high)
                     && s'.rest == (if m.Other? then s.rest + [m.other] else s.rest))
      && Account(s') == Account(s) + multiset{m}
  {
    var a := Step(s.window, now);
    assert WindowOk(a.window) && NotBefore(a.window.granted, now) && 0 <= a.delay <= s.window.interval by {
      StepOutcome(s.window, now);
      StepKeepsSorted(s.window, now);
      StepKeepsSpaced(s.window, now);
    }
    match m
    case High(h) =>
      assert Highs<H, O>(s.high + [h]) == Highs(s.high) + [m];
    case Other(o) =>
      assert Others<H, O>(s.rest + [o]) == Others(s.rest) + [m];
  }

  /**
   * One `send_queued_messages` call sends a front part of the high lane and
   * then a front part of the other lane, in queue order, and leaves the rest
   * of each lane queued; nothing of the other lane goes out unless the high
   * lane emptied; it returns zero exactly when both lanes end empty, and
   * otherwise a wait in (0, interval] that is the window's own wait at `now`.
   */
  lemma SendQueuedOutcome<H, O>(s: State<H, O>, now: int)
    requires WindowOk(s.window) && NotBefore(s.window.granted, now)
    ensures var (d, s') := SendQueued(s, now);
      var kh, kr := |s.high| - |s'.high|, |s.rest| - |s'.rest|;
      && WindowOk(s'.window) && NotBefore(s'.window.granted, now)
      && 0 <= kh && 0 <= kr
      && s'.high == s.high[kh..] && s'.rest == s.rest[kr..]
      && s'.sent == s.sent + Highs(s.high[..kh]) + Others(s.rest[..kr])
      && (kr > 0 ==> s'.high == [])
      && (d == 0 <==> s'.high == [] && s'.rest == [])
      && (d != 0 ==> 0 < d <= s.window.interval && d == Step(s'.window, now).delay)
  {
    var dh := Drain(s.window, |s.high|, now);
    DrainKeepsWindow(s.window, |s.high|, now);
    var s1 := s.(window := dh.window, high := s.high[dh.count..],
                 sent := s.sent + Highs(s.high[..dh.count]));
    if dh.delay != 0 {
      assert SendQueued(s, now) == (dh.delay, s1);
      assert s.rest[..0] == [] && s.rest[0..] == s.rest;
      assert s1.sent == s.sent + Highs(s.high[..dh.count]) + Others(s.rest[..0]);
    } else {
      var dr := Drain(dh.window, |s.rest|, now);
      DrainKeepsWindow(dh.window, |s.rest|, now);
      assert s.high[dh.count..] == [];
      assert SendQueued(s, now) == (dr.delay, s1.(window := dr.window, rest := s.rest[dr.count..],
                                                  sent := s1.sent + Others(s.rest[..dr.count])));
    }
  }

  /**
   * When the `k` oldest retained timestamps of a full window are each more
   * than `interval` before `now`, a lane of `k` messages drains completely
   * and `now` is recorded `k` times.
   */
  lemma {:induction false} DrainAgedOut(w: Window, k: nat, now: int)
    requires w.WellFormed() && |w.granted| >= w.maxMessages && k <= w.maxMessages
    requires forall i :: |w.granted| - w.maxMessages <= i < |w.granted| - w.maxMessages + k
                         ==> now - w.granted[i] > w.interval
    ensures Drain(w, k, now) == Drained(0, w.(granted := w.granted + seq(k, _ => now)), k)
    decreases k
  {
    if k > 0 {
      var g, n := w.granted, w.maxMessages;
      var w1 := w.(granted := g + [now]);
      assert w.Oldest() == g[|g| - n];
      assert !w.Denies(now);
      assert Step(w, now) == Answer(0, w1);
      forall i | |w1.granted| - n <= i < |w1.granted| - n + (k - 1)
        ensures now - w1.granted[i] > w.interval
      {
        assert w1.granted[i] == g[i];
      }
      DrainAgedOut(w1, k - 1, now);
      assert w1.granted + seq(k - 1, _ => now) == g + seq(k, _ => now);
    }
  }

  /**
   * When as many of the oldest retained timestamps as there are queued
   * messages have aged out, one drain sends the whole high lane and then the
   * whole other lane, each in queue order, records `now` once per message and
   * returns zero.
   */
  lemma QueuesDrainWhenAgedOut<H, O>(s: State<H, O>, now: int)
    requires s.window.WellFormed() && |s.window.granted| >= s.window.maxMessages
    requires |s.high| + |s.rest| <= s.window.maxMessages
    requires var g, n := s.window.granted, s.window.maxMessages;
      forall i :: |g| - n <= i < |g| - n + |s.high| + |s.rest| ==> now - g[i] > s.window.interval
    ensures SendQueued(s, now) ==
      (0, State(s.window.(granted := s.window.granted + seq(|s.high|, _ => now) + seq(|s.rest|, _ => now)),
                [], [], s.sent + Highs(s.high) + Others(s.rest)))
  {
    var w, g, n := s.window, s.window.granted, s.window.maxMessages;
    DrainAgedOut(w, |s.high|, now);
    var w1 := w.(granted := g + seq(|s.high|, _ => now));
    forall i | |w1.granted| - n <= i < |w1.granted| - n + |s.rest|
      ensures now - w1.granted[i] > w.interval
    {
      assert w1.granted[i] == g[i];
    }
    DrainAgedOut(w1, |s.rest|, now);
    assert s.high[..|s.high|] == s.high && s.high[|s.high|..] == [];
    assert s.rest[..|s.rest|] == s.rest && s.rest[|s.rest|..] == [];
  }

  /** Draining neither loses nor duplicates a message. */
  lemma SendQueuedAccounts<H, O>(s: State<H, O>, now: int)
    requires s.window.maxMessages >= 1
    ensures Account(SendQueued(s, now).1) == Account(s)
  {
    var dh := Drain(s.window, |s.high|, now);
    HighsSplit<H, O>(s.high, dh.count);
    if dh.delay == 0 {
      var dr := Drain(dh.window, |s.rest|, now);
      OthersSplit<H, O>(s.rest, dr.count);
    }
  }

  /**
   * Exactly once: if every submitted message is accounted for and a drain
   * returns zero, every submitted message has been handed to the callback,
   * each exactly once.
   */
  lemma FullDrainSendsAll<H, O>(s: State<H, O>, submitted: multiset<Message<H, O>>, now: int)
    requires WindowOk(s.window) && NotBefore(s.window.granted, now)
    requires Account(s) == submitted
    ensures Account(SendQueued(s, now).1) == submitted
    ensures SendQueued(s, now).0 == 0 ==> multiset(SendQueued(s, now).1.sent) == submitted
  {
    SendQueuedAccounts(s, now);
    var s' := SendQueued(s, now).1;
    if SendQueued(s, now).0 == 0 {
      assert Highs<H, O>(s'.high) == [] && Others<H, O>(s'.rest) == [];
    }
  }

  /** With both lanes empty, draining asks the window nothing and changes nothing. */
  lemma EmptyLanesDrainNothing<H, O>(s: State<H, O>, now: int)
    requires s.window.maxMessages >= 1 && s.high == [] && s.rest == []
    ensures SendQueued(s, now) == (0, s)
  {
    assert s.sent + Highs<H, O>([]) + Others<H, O>([]) == s.sent;
  }

  /**
   * Submission does not wait behind the queue: once the window reopens, a
   * new message is sent at once while an older one of its own type is still
   * queued.
   */
  lemma SubmissionOvertakesQueue()
    ensures var s := State(Window(1, 10, [0]), [1], [], [High(0)]);
      TrySend<int, int>(s, High(2), 11) == (0, s.(window := Window(1, 10, [0, 11]), sent := [High(0), High(2)]))
  {
    var s: State<int, int> := State(Window(1, 10, [0]), [1], [], [High(0)]);
    assert s.window.Oldest() == 0;
    assert !s.window.Denies(11);
    assert Step(s.window, 11) == Answer(0, Window(1, 10, [0, 11]));
    assert s.sent + [High(2)] == [High(0), High(2)];
  }

  /**
   * A lower-priority submission admitted by the window is sent at once,
   * while a high-priority message is still queued.
   */
  lemma OtherOvertakesQueuedHigh()
    ensures var s := State(Window(1, 10, [0]), [1], [], [High(0)]);
      var (d, s') := TrySend<int, int>(s, Other(5), 11);
      d == 0 && s'.high == [1] && s'.sent == [High(0), Other(5)]
  {
    var s: State<int, int> := State(Window(1, 10, [0]), [1], [], [High(0)]);
    assert s.window.Oldest() == 0;
    assert !s.window.Denies(11);
    assert s.sent + [Other(5)] == [High(0), Other(5)];
  }

  /**
   * As written, a one-message window met exactly `interval` after its only
   * timestamp admits every message at that instant without recording it:
   * here three messages are sent within a span of length `interval`.
   */
  lemma BoundarySendsUnrecorded()
    ensures var s0 := State(Window(1, 10, [0]), [], [], [Other(0)]);
      var (d1, s1) := TrySend<int, int>(s0, Other(1), 10);
      var (d2, s2) := TrySend(s1, Other(2), 10);
      d1 == 0 && d2 == 0 && s2.window == s0.window && s2.sent == [Other(0), Other(1), Other(2)]
  {
  }

  class Throttler<H, O> {
    /** The `sw` sliding window. */
    const window: SlidingWindow
    /** `_high_priority_messages`. */
    var highLane: seq<H>
    /** `_rest_messages`. */
    var restLane: seq<O>
    /** The messages handed to the on-send callback, in order. */
    ghost var Sent: seq<Message<H, O>>
    /** Every message submitted so far. */
    ghost var Submitted: multiset<Message<H, O>>

    ghost function Model(): State<H, O>
      reads this, window, window.ring
    {
      State(window.Model(), highLane, restLane, Sent)
    }

    ghost predicate Valid()
      reads this, window, window.ring, window.ring.buffer
    {
      window.Valid() && Account(Model()) == Submitted
    }

    constructor (maxMessages: nat, interval: int)
      requires maxMessages >= 1 && interval > 0
      ensures Valid() && fresh(window) && fresh(window.ring) && fresh(window.ring.buffer)
      ensures Model() == State(Window(maxMessages, interval, []), [], [], [])
      ensures Submitted == multiset{}
    {
      window := new SlidingWindow(maxMessages, interval);
      highLane, restLane := [], [];
      Sent, Submitted := [], multiset{};
    }

    /** `try_send_message(m)` at time `now`. */
    method TrySendMessage(m: Message<H, O>, now: int) returns (delay: int)
      requires Valid() && NotBefore(window.ring.Inserted, now)
      modifies this, window.ring, window.ring.buffer
      ensures Valid() && window.ring.buffer == old(window.ring.buffer)
      ensures (delay, Model()) == TrySend(old(Model()), m, now)
      ensures Submitted == old(Submitted) + multiset{m}
    {
      ghost var s := Model();
      ghost var a := Step(s.window, now);
      assert Account(TrySend(s, m, now).1) == Submitted + multiset{m} by { TrySendOutcome(s, m, now); }
      delay := window.Request(now);
      assert delay == a.delay && window.Model() == a.window;
      Submitted := Submitted + multiset{m};
      if delay == 0 {
        Sent := Sent + [m];
        assert Model() == s.(window := a.window, sent := s.sent + [m]);
        return 0;
      }
      Enqueue(m);
      assert Model() == TrySend(s, m, now).1;
    }

    /** Queues `m` at the back of the lane of its type. */
    method Enqueue(m: Message<H, O>)
      modifies this`highLane, this`restLane
      ensures highLane == if m.High? then old(highLane) + [m.high] else old(highLane)
      ensures restLane == if m.Other? then old(restLane) + [m.other] else old(restLane)
    {
      match m
      case High(h) => highLane := highLane + [h];
      case Other(o) => restLane := restLane + [o];
    }

    /** `send_queued_messages()` at time `now`. */
    method SendQueuedMessages(now: int) returns (delay: int)
      requires Valid() && NotBefore(window.ring.Inserted, now)
      modifies this, window.ring, window.ring.buffer
      ensures Valid() && window.ring.buffer == old(window.ring.buffer)
      ensures (delay, Model()) == SendQueued(old(Model()), now)
      ensures Submitted == old(Submitted)
      ensures delay == 0 ==> highLane == [] && restLane == [] && multiset(Sent) == Submitted
    {
      ghost var s := Model();
      ghost var r := SendQueued(s, now);
      assert Account(s) == Submitted;
      ghost var submitted := Submitted;
      delay := SendHighLane(now);
      if delay == 0 {
        delay := SendRestLane(now);
      }
      assert (delay, Model()) == r;
      FullDrainSendsAll(s, submitted, now);
    }

    /** The first drain of `send_queued_messages()`: the high lane. */
    method SendHighLane(now: int) returns (delay: int)
      requires window.Valid() && NotBefore(window.ring.Inserted, now)
      modifies this, window.ring, window.ring.buffer
      ensures window.Valid() && window.ring.buffer == old(window.ring.buffer)
      ensures NotBefore(window.ring.Inserted, now) && Submitted == old(Submitted)
      ensures var s, dh := old(Model()), Drain(old(window.Model()), |old(highLane)|, now);
        delay == dh.delay &&
        Model() == s.(window := dh.window, high := s.high[dh.count..], sent := s.sent + Highs(s.high[..dh.count]))
    {
      ghost var s := Model();
      ghost var dh := Drain(s.window, |s.high|, now);
      ghost var toHigh: H -> Message<H, O> := h => High(h);
      delay, highLane := DrainLane(highLane, toHigh, now);
      TaggedHighs(s.high[..dh.count], toHigh);
    }

    /** The second drain of `send_queued_messages()`: the lane of every other type. */
    method SendRestLane(now: int) returns (delay: int)
      requires window.Valid() && NotBefore(window.ring.Inserted, now)
      modifies this, window.ring, window.ring.buffer
      ensures window.Valid() && window.ring.buffer == old(window.ring.buffer)
      ensures NotBefore(window.ring.Inserted, now) && Submitted == old(Submitted)
      ensures var s, dr := old(Model()), Drain(old(window.Model()), |old(restLane)|, now);
        delay == dr.delay &&
        Model() == s.(window := dr.window, rest := s.rest[dr.count..], sent := s.sent + Others(s.rest[..dr.count]))
    {
      ghost var s := Model();
      ghost var dr := Drain(s.window, |s.rest|, now);
      ghost var toOther: O -> Message<H, O> := o => Other(o);
      delay, restLane := DrainLane(restLane, toOther, now);
      TaggedOthers(s.rest[..dr.count], toOther);
    }

    /**
     * One round of `_send_queued_messages`: ask the window, and if it admits,
     * hand the front message `x` to the callback.
     */
    method SendFront<M>(x: M, ghost tag: M -> Message<H, O>, now: int) returns (delay: int)
      requires window.Valid() && NotBefore(window.ring.Inserted, now)
      modifies this`Sent, window.ring, window.ring.buffer
      ensures window.Valid() && window.ring.buffer == old(window.ring.buffer)
      ensures NotBefore(window.ring.Inserted, now)
      ensures delay == Step(old(window.Model()), now).delay
      ensures window.Model() == Step(old(window.Model()), now).window
      ensures Sent == if delay == 0 then old(Sent) + [tag(x)] else old(Sent)
    {
      ghost var w := window.Model();
      assert NotBefore(Step(w, now).window.granted, now) by { StepOutcome(w, now); }
      delay := window.Request(now);
      if delay == 0 {
        Sent := Sent + [tag(x)];
      }
    }

    /**
     * `_send_queued_messages(lane)`: one request per queued message, front
     * first; an admitted message is sent and removed, the first non-zero
     * delay stops the loop and is returned.  `tag` turns a lane element into
     * the message the callback receives.
     */
    method DrainLane<M>(lane: seq<M>, ghost tag: M -> Message<H, O>, now: int) returns (delay: int, remaining: seq<M>)
      requires window.Valid() && NotBefore(window.ring.Inserted, now)
      modifies this`Sent, window.ring, window.ring.buffer
      ensures window.Valid() && window.ring.buffer == old(window.ring.buffer)
      ensures NotBefore(window.ring.Inserted, now)
      ensures var d := Drain(old(window.Model()), |lane|, now);
        && delay == d.delay && window.Model() == d.window
        && remaining == lane[d.count..]
        && Sent == old(Sent) + Tagged(lane[..d.count], tag)
    {
      ghost var w0, queued := window.Model(), |lane|;
      ghost var done: seq<M>, left: nat := [], |lane|;
      delay, remaining := 0, lane;
      while remaining != []
        invariant delay == 0
        invariant window.Valid() && window.ring.buffer == old(window.ring.buffer)
        invariant NotBefore(window.ring.Inserted, now)
        invariant lane == done + remaining && left == |remaining|
        invariant Sent == old(Sent) + Tagged(done, tag)
        invariant var d := Drain(window.Model(), left, now);
          Drain(w0, queued, now) == d.(count := d.count + (queued - left))
        decreases left
      {
        ghost var w := window.Model();
        delay := SendFront(remaining[0], tag, now);
        if delay != 0 {
          assert Drain(w, left, now) == Drained(delay, w, 0);
          break;
        }
        DrainRoundKeeps(lane, done, remaining, tag, old(Sent), w0, w, queued, left, now);
        done, left := done + [remaining[0]], left - 1;
        remaining := remaining[1..];
      }
      assert lane[..|done|] == done && lane[|done|..] == remaining;
    }
  }
}
