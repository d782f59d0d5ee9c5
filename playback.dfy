/**
 * The playback gate of `play_audio_file_with_lock`: every play thread polls
 * the shared cursor `speech_order_to_be_played` until its ticket comes up,
 * then plays its file, disposes of it and advances the cursor, or gives up
 * after a bounded number of polls.
 *
 * Threads are abstracted away: the threads currently in their wait loop are
 * the gate's `waiting` list (each with its own `sleep_count`), one `Poll` is
 * one atomic iteration of one thread's loop, and an interleaving is any
 * sequence of events a caller chooses.
 */
module Playback {
  import opened Naming

  /** `waiting_limit_seconds`. */
  const WaitingLimitSeconds: nat := 120
  /** `sleep_seconds`, 0.1 s, in milliseconds. */
  const SleepMillis: nat := 100
  /**
   * `max_sleep_count = waiting_limit_seconds / sleep_seconds`. In double
   * arithmetic `120 / 0.1` is exactly `1200.0`, so the exact quotient is
   * the bound the loop condition compares against.
   */
  const MaxSleepCount: nat := WaitingLimitSeconds * 1000 / SleepMillis

  /** The poll bound is the number of 0.1 s sleeps in 120 s: 1200. */
  lemma MaxSleepCountIsWaitingLimit()
    ensures MaxSleepCount * SleepMillis == WaitingLimitSeconds * 1000
    ensures MaxSleepCount == 1200
  {
  }

  /** A play thread inside its wait loop. */
  datatype Waiter = Waiter(fileName: string, ticket: nat, sleepCount: nat)

  /** One passage through the gate: the ticket, the file and what playing it did. */
  datatype Release = Release(ticket: nat, fileName: string, result: PlayResult)

  /** The shared cursor, the waiting threads and the log of passages. */
  datatype Gate = Gate(cursor: nat, waiting: seq<Waiter>, log: seq<Release>)

  /** What one poll did. */
  datatype Outcome =
    | Idle                        // the scheduler named no waiting thread
    | Waited                      // not yet this ticket's turn; one more sleep
    | TimedOut                    // the last allowed sleep: the thread returns
    | Released(result: PlayResult)
    | Faulted                     // `playsound` or `os.remove` raised inside the lock

  datatype Step = Step(gate: Gate, outcome: Outcome)

  /**
   * A scheduling event: a play thread starts, or a waiting thread runs one
   * iteration; `fault` says whether playing or removing its file raises.
   */
  datatype Event = Enter(fileName: string, ticket: nat) | Poll(index: nat, fileExists: bool, fault: bool)

  /** The gate at program start: cursor 0, as the global is initialised. */
  const Init: Gate := Gate(0, [], [])

  /** The log has one entry per cursor advance, and every thread is still inside its loop bound. */
  ghost predicate WellFormed(g: Gate) {
    |g.log| == g.cursor
    && forall k :: 0 <= k < |g.waiting| ==> g.waiting[k].sleepCount < MaxSleepCount
  }

  function RemoveAt<T>(s: seq<T>, i: nat): (r: seq<T>)
    requires i < |s|
    ensures |r| == |s| - 1
    ensures forall k :: 0 <= k < |r| ==> r[k] == if k < i then s[k] else s[k + 1]
  {
    s[..i] + s[i + 1..]
  }

  predicate IsPending(g: Gate, ticket: nat) {
    exists k :: 0 <= k < |g.waiting| && g.waiting[k].ticket == ticket
  }

  /** A play thread starts its wait loop with `sleep_count = 0`. */
  function EnterGate(g: Gate, fileName: string, ticket: nat): (r: Gate)
    ensures WellFormed(g) ==> WellFormed(r)
    ensures r.cursor == g.cursor && r.log == g.log
    ensures r.waiting == g.waiting + [Waiter(fileName, ticket, 0)]
    ensures IsPending(r, ticket)
  {
    var r := g.(waiting := g.waiting + [Waiter(fileName, ticket, 0)]);
    assert r.waiting[|g.waiting|].ticket == ticket;
    r
  }

  /**
   * One iteration of the wait loop of thread `i`: if its ticket is not past
   * the cursor, play the file when it exists, delete it when its name is
   * disposable, advance the cursor and leave; otherwise count one sleep and
   * leave once the count reaches the limit. When playing or removing an
   * existing file raises, the thread dies inside the lock before the
   * cursor is advanced.
   */
  function PollGate(g: Gate, i: nat, fileExists: bool, fault: bool): (r: Step)
    ensures WellFormed(g) ==> WellFormed(r.gate)
    ensures g.cursor <= r.gate.cursor && g.log <= r.gate.log
  {
    if i >= |g.waiting| then Step(g, Idle)
    else
      var w := g.waiting[i];
      if w.ticket <= g.cursor then
        if fileExists && fault then
          Step(g.(waiting := RemoveAt(g.waiting, i)), Faulted)
        else
          var result := PlayAudioFile(w.fileName, fileExists);
          Step(Gate(g.cursor + 1, RemoveAt(g.waiting, i), g.log + [Release(w.ticket, w.fileName, result)]),
               Released(result))
      else if w.sleepCount + 1 < MaxSleepCount then
        Step(g.(waiting := g.waiting[i := w.(sleepCount := w.sleepCount + 1)]), Waited)
      else
        Step(g.(waiting := RemoveAt(g.waiting, i)), TimedOut)
  }

  /** One event; the cursor never moves back and passages are never undone. */
  function Apply(g: Gate, e: Event): (r: Gate)
    ensures WellFormed(g) ==> WellFormed(r)
    ensures g.cursor <= r.cursor && g.log <= r.log
  {
    match e
    case Enter(name, ticket) => EnterGate(g, name, ticket)
    case Poll(i, fileExists, fault) => PollGate(g, i, fileExists, fault).gate
  }

  /** The gate after an interleaving of events: it stays well formed, and its log only grows. */
  function Run(g: Gate, events: seq<Event>): (r: Gate)
    ensures WellFormed(g) ==> WellFormed(r)
    ensures g.cursor <= r.cursor && g.log <= r.log
    decreases |events|
  {
    if events == [] then g else Run(Apply(g, events[0]), events[1..])
  }

  // ---------------------------------------------------------------------
  // One poll

  /**
   * A poll advances the cursor by exactly one and logs exactly one passage
   * when it releases (whether or not the file existed), and changes neither
   * otherwise; it faults exactly when a thread at the cursor finds its file
   * and playing or removing it raises.
   */
  lemma PollAdvancesOnlyOnRelease(g: Gate, i: nat, fileExists: bool, fault: bool)
    ensures var r := PollGate(g, i, fileExists, fault);
      if r.outcome.Released? then
        i < |g.waiting| && g.waiting[i].ticket <= g.cursor
        && r.gate.cursor == g.cursor + 1
        && r.gate.log == g.log + [Release(g.waiting[i].ticket, g.waiting[i].fileName, r.outcome.result)]
        && r.outcome.result == PlayAudioFile(g.waiting[i].fileName, fileExists)
      else
        r.gate.cursor == g.cursor && r.gate.log == g.log
    ensures PollGate(g, i, fileExists, fault).outcome == Faulted <==>
              i < |g.waiting| && g.waiting[i].ticket <= g.cursor && fileExists && fault
  {
  }

  /**
   * The other direction, with the frame on the waiting threads: a thread
   * whose ticket is not past the cursor and whose play does not raise does
   * pass the gate, whether or not its file exists; only that thread leaves
   * the waiting list, on a passage and on a fault alike; and a poll naming
   * no waiting thread changes nothing.
   */
  lemma PollAtCursorReleases(g: Gate, i: nat, fileExists: bool, fault: bool)
    ensures i < |g.waiting| && g.waiting[i].ticket <= g.cursor && !(fileExists && fault) ==>
              var w := g.waiting[i];
              var result := PlayAudioFile(w.fileName, fileExists);
              PollGate(g, i, fileExists, fault)
              == Step(Gate(g.cursor + 1, RemoveAt(g.waiting, i), g.log + [Release(w.ticket, w.fileName, result)]),
                      Released(result))
    ensures i < |g.waiting| && g.waiting[i].ticket <= g.cursor && fileExists && fault ==>
              PollGate(g, i, fileExists, fault) == Step(g.(waiting := RemoveAt(g.waiting, i)), Faulted)
    ensures i >= |g.waiting| ==> PollGate(g, i, fileExists, fault) == Step(g, Idle)
  {
  }

  /** Running two interleavings one after the other is running their concatenation. */
  lemma {:induction false} RunAppend(g: Gate, xs: seq<Event>, ys: seq<Event>)
    ensures Run(g, xs + ys) == Run(Run(g, xs), ys)
    decreases |xs|
  {
    if xs == [] {
      assert xs + ys == ys;
    } else {
      assert (xs + ys)[0] == xs[0];
      assert (xs + ys)[1..] == xs[1..] + ys;
      RunAppend(Apply(g, xs[0]), xs[1..], ys);
    }
  }

  /** Threads start with tickets 2, 0, 1, in that order. */
  lemma StartsTwoZeroOne(a: string, b: string, c: string)
    ensures Run(Init, [Enter(a, 2), Enter(b, 0), Enter(c, 1)])
            == Gate(0, [Waiter(a, 2, 0), Waiter(b, 0, 0), Waiter(c, 1, 0)], [])
  {
    var es := [Enter(a, 2), Enter(b, 0), Enter(c, 1)];
    var g1 := Gate(0, [Waiter(a, 2, 0)], []);
    var g2 := Gate(0, [Waiter(a, 2, 0), Waiter(b, 0, 0)], []);
    var g3 := Gate(0, [Waiter(a, 2, 0), Waiter(b, 0, 0), Waiter(c, 1, 0)], []);
    assert Apply(g2, Enter(c, 1)) == g3;
    assert Run(g2, [Enter(c, 1)]) == g3;
    assert es[1..][1..] == [Enter(c, 1)];
    assert Apply(g1, Enter(b, 0)) == g2;
    assert Run(g1, es[1..]) == g3;
    assert Apply(Init, Enter(a, 2)) == g1;
  }

  /** Each cursor holder, polled once in turn, passes: tickets 0, 1, 2. */
  lemma PollsZeroOneTwo(a: string, b: string, c: string)
    ensures var g := Run(Gate(0, [Waiter(a, 2, 0), Waiter(b, 0, 0), Waiter(c, 1, 0)], []),
                         [Poll(1, true, false), Poll(1, true, false), Poll(0, true, false)]);
      g.cursor == 3 && g.waiting == []
      && g.log == [Release(0, b, PlayAudioFile(b, true)), Release(1, c, PlayAudioFile(c, true)),
                   Release(2, a, PlayAudioFile(a, true))]
  {
    var wa, wb, wc := Waiter(a, 2, 0), Waiter(b, 0, 0), Waiter(c, 1, 0);
    var p1, p0 := Poll(1, true, false), Poll(0, true, false);
    var g3 := Gate(0, [wa, wb, wc], []);
    var l1 := [Release(0, b, PlayAudioFile(b, true))];
    var l2 := l1 + [Release(1, c, PlayAudioFile(c, true))];
    var l3 := l2 + [Release(2, a, PlayAudioFile(a, true))];
    var g4 := Gate(1, [wa, wc], l1);
    var g5 := Gate(2, [wa], l2);
    var g6 := Gate(3, [], l3);
    assert RemoveAt(g3.waiting, 1) == [wa, wc];
    PollAtCursorReleases(g3, 1, true, false);
    assert Apply(g3, p1) == g4;
    assert RemoveAt(g4.waiting, 1) == [wa];
    PollAtCursorReleases(g4, 1, true, false);
    assert Apply(g4, p1) == g5;
    assert RemoveAt(g5.waiting, 0) == [];
    PollAtCursorReleases(g5, 0, true, false);
    assert Apply(g5, p0) == g6;
    assert Run(g5, [p0]) == g6;
    assert [p1, p0][1..] == [p0];
    assert Run(g4, [p1, p0]) == g6;
    assert [p1, p1, p0][1..] == [p1, p0];
    assert l3 == [Release(0, b, PlayAudioFile(b, true)), Release(1, c, PlayAudioFile(c, true)),
                  Release(2, a, PlayAudioFile(a, true))];
  }

  /**
   * Plays really happen, in ticket order: threads that start with tickets
   * 2, 0, 1 and are each polled once when the cursor reaches them pass the
   * gate as tickets 0, 1, 2, each with its own file.
   */
  lemma OutOfOrderStartsPlayInOrder(a: string, b: string, c: string)
    ensures var g := Run(Init, [Enter(a, 2), Enter(b, 0), Enter(c, 1),
                                Poll(1, true, false), Poll(1, true, false), Poll(0, true, false)]);
      g.cursor == 3 && g.waiting == []
      && g.log == [Release(0, b, PlayAudioFile(b, true)), Release(1, c, PlayAudioFile(c, true)),
                   Release(2, a, PlayAudioFile(a, true))]
  {
    var starts := [Enter(a, 2), Enter(b, 0), Enter(c, 1)];
    var polls := [Poll(1, true, false), Poll(1, true, false), Poll(0, true, false)];
    assert starts + polls == [Enter(a, 2), Enter(b, 0), Enter(c, 1),
                              Poll(1, true, false), Poll(1, true, false), Poll(0, true, false)];
    RunAppend(Init, starts, polls);
    StartsTwoZeroOne(a, b, c);
    PollsZeroOneTwo(a, b, c);
  }

  /**
   * A poll by a thread whose ticket is past the cursor plays nothing and
   * only counts a sleep; on its last allowed sleep the thread leaves the loop.
   */
  lemma PollAheadOnlyCounts(g: Gate, i: nat, fileExists: bool, fault: bool)
    requires i < |g.waiting| && g.waiting[i].ticket > g.cursor
    ensures var r := PollGate(g, i, fileExists, fault);
      var w := g.waiting[i];
      r.gate.cursor == g.cursor && r.gate.log == g.log
      && (r.outcome == Waited || r.outcome == TimedOut)
      && (r.outcome == Waited <==> w.sleepCount + 1 < MaxSleepCount)
      && (r.outcome == Waited ==> r.gate.waiting == g.waiting[i := w.(sleepCount := w.sleepCount + 1)])
      && (r.outcome == TimedOut ==> r.gate.waiting == RemoveAt(g.waiting, i))
  {
  }

  /** `n` consecutive polls of thread `i`. */
  function Polls(i: nat, n: nat, fileExists: bool, fault: bool): (es: seq<Event>)
    ensures |es| == n
    ensures forall k :: 0 <= k < n ==> es[k] == Poll(i, fileExists, fault)
  {
    seq(n, _ => Poll(i, fileExists, fault))
  }

  /**
   * The poll bound: a thread whose ticket never comes up leaves after its
   * remaining allowed sleeps, having played, deleted and advanced nothing.
   */
  lemma {:induction false} TimeoutAfterMaxPolls(g: Gate, i: nat, fileExists: bool, fault: bool)
    requires WellFormed(g)
    requires i < |g.waiting| && g.waiting[i].ticket > g.cursor
    ensures Run(g, Polls(i, MaxSleepCount - g.waiting[i].sleepCount, fileExists, fault))
            == g.(waiting := RemoveAt(g.waiting, i))
    decreases MaxSleepCount - g.waiting[i].sleepCount
  {
    var w := g.waiting[i];
    var n := MaxSleepCount - w.sleepCount;
    var es := Polls(i, n, fileExists, fault);
    var r := PollGate(g, i, fileExists, fault);
    assert Run(g, es) == Run(r.gate, es[1..]);
    if w.sleepCount + 1 < MaxSleepCount {
      assert r.gate.waiting[i] == w.(sleepCount := w.sleepCount + 1);
      TimeoutAfterMaxPolls(r.gate, i, fileExists, fault);
      assert es[1..] == Polls(i, n - 1, fileExists, fault);
      assert RemoveAt(r.gate.waiting, i) == RemoveAt(g.waiting, i);
    } else {
      assert es[1..] == [];
    }
  }

  // ---------------------------------------------------------------------
  // Order preservation

  /**
   * Passages so far are tickets 0, 1, ..., cursor - 1 in that order, and
   * the waiting threads hold distinct tickets none of which is behind the
   * cursor.
   */
  ghost predicate Ordered(g: Gate) {
    WellFormed(g)
    && (forall k :: 0 <= k < |g.log| ==> g.log[k].ticket == k)
    && (forall k :: 0 <= k < |g.waiting| ==> g.waiting[k].ticket >= g.cursor)
    && (forall a, b :: 0 <= a < b < |g.waiting| ==> g.waiting[a].ticket != g.waiting[b].ticket)
  }

  /** Under the ordering invariant a thread passes the gate only with the cursor's own ticket. */
  lemma PollKeepsOrder(g: Gate, i: nat, fileExists: bool, fault: bool)
    requires Ordered(g)
    ensures var r := PollGate(g, i, fileExists, fault);
      Ordered(r.gate)
      && (r.outcome.Released? ==> g.waiting[i].ticket == g.cursor)
  {
    var r := PollGate(g, i, fileExists, fault);
    if i < |g.waiting| {
      var w := g.waiting[i];
      if w.ticket <= g.cursor {
        var rest := RemoveAt(g.waiting, i);
        forall k | 0 <= k < |rest| ensures rest[k].ticket >= g.cursor + 1 {
          var j := if k < i then k else k + 1;
          assert rest[k] == g.waiting[j] && j != i;
        }
      }
    }
  }

  /** A thread entering with a ticket that is not behind the cursor and not already waiting keeps the order. */
  lemma EnterKeepsOrder(g: Gate, fileName: string, ticket: nat)
    requires Ordered(g)
    requires ticket >= g.cursor && !IsPending(g, ticket)
    ensures Ordered(EnterGate(g, fileName, ticket))
  {
    var r := EnterGate(g, fileName, ticket);
    forall a, b | 0 <= a < b < |r.waiting| ensures r.waiting[a].ticket != r.waiting[b].ticket {
      if b == |g.waiting| {
        assert r.waiting[a] == g.waiting[a];
      }
    }
  }

  /**
   * Every ticket that enters later is not behind the current cursor, is not
   * already waiting, and enters only once.
   */
  ghost predicate FreshEntries(g: Gate, events: seq<Event>) {
    (forall k :: 0 <= k < |events| && events[k].Enter? ==>
       events[k].ticket >= g.cursor && !IsPending(g, events[k].ticket))
    && (forall a, b :: 0 <= a < b < |events| && events[a].Enter? && events[b].Enter? ==>
          events[a].ticket != events[b].ticket)
  }

  /** A poll adds no ticket to the waiting threads. */
  lemma PollAddsNoTicket(g: Gate, i: nat, fileExists: bool, fault: bool, t: nat)
    requires IsPending(PollGate(g, i, fileExists, fault).gate, t)
    ensures IsPending(g, t)
  {
    var step := PollGate(g, i, fileExists, fault);
    var j :| 0 <= j < |step.gate.waiting| && step.gate.waiting[j].ticket == t;
    if i < |g.waiting| && (step.outcome.Released? || step.outcome == TimedOut || step.outcome == Faulted) {
      assert g.waiting[if j < i then j else j + 1].ticket == t;
    } else {
      assert g.waiting[j].ticket == t;
    }
  }

  /**
   * A ticket that is not behind the cursor and not waiting stays so across
   * a poll: the cursor only moves onto the ticket of a waiting thread.
   */
  lemma PollKeepsFresh(g: Gate, i: nat, fileExists: bool, fault: bool, t: nat)
    requires Ordered(g) && t >= g.cursor && !IsPending(g, t)
    ensures var g' := PollGate(g, i, fileExists, fault).gate;
      t >= g'.cursor && !IsPending(g', t)
  {
    var step := PollGate(g, i, fileExists, fault);
    PollKeepsOrder(g, i, fileExists, fault);
    if step.outcome.Released? {
      assert g.waiting[i].ticket != t;
    }
    if IsPending(step.gate, t) {
      PollAddsNoTicket(g, i, fileExists, fault, t);
    }
  }

  /** Another thread entering leaves a fresh ticket fresh. */
  lemma EnterKeepsFresh(g: Gate, fileName: string, ticket: nat, t: nat)
    requires t != ticket && t >= g.cursor && !IsPending(g, t)
    ensures var g' := EnterGate(g, fileName, ticket);
      t >= g'.cursor && !IsPending(g', t)
  {
    var g' := EnterGate(g, fileName, ticket);
    forall j | 0 <= j < |g'.waiting| ensures g'.waiting[j].ticket != t {
      if j < |g.waiting| {
        assert g'.waiting[j] == g.waiting[j];
      }
    }
  }

  lemma FreshAfterApply(g: Gate, events: seq<Event>)
    requires Ordered(g) && events != [] && FreshEntries(g, events)
    ensures FreshEntries(Apply(g, events[0]), events[1..])
  {
    var g' := Apply(g, events[0]);
    var rest := events[1..];
    forall k | 0 <= k < |rest| && rest[k].Enter?
      ensures rest[k].ticket >= g'.cursor && !IsPending(g', rest[k].ticket)
    {
      assert rest[k] == events[k + 1];
      match events[0] {
        case Enter(name, ticket) =>
          EnterKeepsFresh(g, name, ticket, rest[k].ticket);
        case Poll(i, fileExists, fault) =>
          PollKeepsFresh(g, i, fileExists, fault, rest[k].ticket);
      }
    }
  }

  /** The ordering invariant survives every interleaving whose entries are fresh. */
  lemma {:induction false} RunKeepsOrder(g: Gate, events: seq<Event>)
    requires Ordered(g) && FreshEntries(g, events)
    ensures Ordered(Run(g, events))
    decreases |events|
  {
    if events != [] {
      match events[0] {
        case Enter(name, ticket) =>
          EnterKeepsOrder(g, name, ticket);
        case Poll(i, fileExists, fault) =>
          PollKeepsOrder(g, i, fileExists, fault);
      }
      FreshAfterApply(g, events);
      RunKeepsOrder(Apply(g, events[0]), events[1..]);
    }
  }

  /**
   * Every waiting thread and every passage stems from one of the `entered`
   * thread starts, with the same file and ticket.
   */
  ghost predicate Traced(g: Gate, entered: seq<Event>) {
    (forall k :: 0 <= k < |g.waiting| ==> Enter(g.waiting[k].fileName, g.waiting[k].ticket) in entered)
    && (forall k :: 0 <= k < |g.log| ==> Enter(g.log[k].fileName, g.log[k].ticket) in entered)
  }

  lemma PollKeepsTraced(g: Gate, i: nat, fileExists: bool, fault: bool, entered: seq<Event>)
    requires Traced(g, entered)
    ensures Traced(PollGate(g, i, fileExists, fault).gate, entered)
  {
    var r := PollGate(g, i, fileExists, fault);
    if i < |g.waiting| {
      forall k | 0 <= k < |r.gate.waiting|
        ensures Enter(r.gate.waiting[k].fileName, r.gate.waiting[k].ticket) in entered
      {
        if r.outcome == Waited {
          assert r.gate.waiting[k].fileName == g.waiting[k].fileName;
          assert r.gate.waiting[k].ticket == g.waiting[k].ticket;
        } else {
          assert r.gate.waiting[k] == g.waiting[if k < i then k else k + 1];
        }
      }
    }
  }

  lemma {:induction false} RunTraced(g: Gate, events: seq<Event>, entered: seq<Event>)
    requires Traced(g, entered)
    ensures Traced(Run(g, events), entered + events)
    decreases |events|
  {
    if events == [] {
      assert entered + events == entered;
    } else {
      var g' := Apply(g, events[0]);
      match events[0] {
        case Enter(name, ticket) =>
          forall k | 0 <= k < |g'.waiting|
            ensures Enter(g'.waiting[k].fileName, g'.waiting[k].ticket) in entered + [events[0]]
          {
            if k < |g.waiting| {
              assert g'.waiting[k] == g.waiting[k];
            }
          }
        case Poll(i, fileExists, fault) =>
          PollKeepsTraced(g, i, fileExists, fault, entered);
      }
      assert Traced(g', entered + [events[0]]);
      RunTraced(g', events[1..], entered + [events[0]]);
      assert entered + [events[0]] + events[1..] == entered + events;
    }
  }

  /**
   * Order preservation: from program start, whatever the interleaving, if
   * each ticket enters the gate at most once then files pass the gate in
   * ticket order 0, 1, 2, ..., one per cursor value, and the `k`-th passage
   * is the file that entered with ticket `k`.
   */
  lemma PlaysInTicketOrder(events: seq<Event>)
    requires forall a, b :: 0 <= a < b < |events| && events[a].Enter? && events[b].Enter? ==>
               events[a].ticket != events[b].ticket
    ensures var g := Run(Init, events);
      |g.log| == g.cursor
      && (forall k :: 0 <= k < |g.log| ==> g.log[k].ticket == k)
      && (forall k :: 0 <= k < |g.log| ==> Enter(g.log[k].fileName, k) in events)
  {
    RunKeepsOrder(Init, events);
    RunTraced(Init, events, []);
    assert [] + events == events;
  }

  /**
   * No skip-forward: while no thread holding the cursor's ticket is waiting
   * or enters, the cursor stays put and nothing more is played, however
   * often the other threads poll (until each of them times out).
   */
  lemma {:induction false} StallWithoutCursorTicket(g: Gate, events: seq<Event>)
    requires forall k :: 0 <= k < |g.waiting| ==> g.waiting[k].ticket > g.cursor
    requires forall k :: 0 <= k < |events| && events[k].Enter? ==> events[k].ticket > g.cursor
    ensures Run(g, events).cursor == g.cursor && Run(g, events).log == g.log
    decreases |events|
  {
    if events != [] {
      var g' := Apply(g, events[0]);
      match events[0] {
        case Enter(name, ticket) =>
          forall k | 0 <= k < |g'.waiting| ensures g'.waiting[k].ticket > g'.cursor {
            if k < |g.waiting| {
              assert g'.waiting[k] == g.waiting[k];
            }
          }
        case Poll(i, fileExists, fault) =>
          if i < |g.waiting| {
            PollAheadOnlyCounts(g, i, fileExists, fault);
          }
          forall k | 0 <= k < |g'.waiting| ensures g'.waiting[k].ticket > g'.cursor {
            if i < |g.waiting| && PollGate(g, i, fileExists, fault).outcome == TimedOut {
              assert g'.waiting[k] == g.waiting[if k < i then k else k + 1];
            } else if i < |g.waiting| {
              assert g'.waiting[k].ticket == g.waiting[k].ticket;
            }
          }
      }
      var rest := events[1..];
      forall k | 0 <= k < |rest| && rest[k].Enter? ensures rest[k].ticket > g'.cursor {
        assert rest[k] == events[k + 1];
      }
      StallWithoutCursorTicket(g', rest);
    }
  }

  /**
   * A fault inside the lock stalls the gate for good: the thread holding
   * the cursor's ticket dies without advancing the cursor, and, as long as
   * no thread enters with a ticket not past the cursor, no later
   * interleaving moves the cursor or plays anything. No thread then reaches
   * the lock it left held.
   */
  lemma FaultStallsGate(g: Gate, i: nat, events: seq<Event>)
    requires Ordered(g) && i < |g.waiting| && g.waiting[i].ticket <= g.cursor
    requires forall k :: 0 <= k < |events| && events[k].Enter? ==> events[k].ticket > g.cursor
    ensures var r := PollGate(g, i, true, true);
      r.outcome == Faulted
      && Run(r.gate, events).cursor == g.cursor && Run(r.gate, events).log == g.log
  {
    var rest := RemoveAt(g.waiting, i);
    var g' := Gate(g.cursor, rest, g.log);
    assert PollGate(g, i, true, true) == Step(g', Faulted);
    forall k | 0 <= k < |rest| ensures rest[k].ticket > g.cursor {
      var j := if k < i then k else k + 1;
      assert rest[k] == g.waiting[j];
      if j < i {
        assert g.waiting[j].ticket != g.waiting[i].ticket;
      } else {
        assert g.waiting[i].ticket != g.waiting[j].ticket;
      }
    }
    StallWithoutCursorTicket(g', events);
  }

  // ---------------------------------------------------------------------
  // The shared state, updated in place

  class Sequencer {
    var cursor: nat
    var waiting: seq<Waiter>
    var log: seq<Release>

    function State(): Gate
      reads this
    {
      Gate(cursor, waiting, log)
    }

    ghost predicate Valid()
      reads this
    {
      WellFormed(State())
    }

    constructor ()
      ensures Valid() && State() == Init
    {
      cursor := 0;
      waiting := [];
      log := [];
    }

    /** `play_audio_file_with_lock` is started for `fileName` with ticket `ticket`. */
    method Enter(fileName: string, ticket: nat)
      requires Valid()
      modifies this
      ensures Valid()
      ensures State() == EnterGate(old(State()), fileName, ticket)
    {
      waiting := waiting + [Waiter(fileName, ticket, 0)];
    }

    /** One atomic iteration of the wait loop of waiting thread `i`. */
    method Poll(i: nat, fileExists: bool, fault: bool) returns (outcome: Outcome)
      requires Valid()
      modifies this
      ensures Valid()
      ensures Step(State(), outcome) == PollGate(old(State()), i, fileExists, fault)
    {
      if i >= |waiting| {
        return Idle;
      }
      var w := waiting[i];
      if w.ticket <= cursor {
        if fileExists && fault {
          waiting := RemoveAt(waiting, i);
          return Faulted;
        }
        var result := PlayAudioFile(w.fileName, fileExists);
        cursor := cursor + 1;
        log := log + [Release(w.ticket, w.fileName, result)];
        waiting := RemoveAt(waiting, i);
        outcome := Released(result);
      } else {
        var sleepCount := w.sleepCount + 1;
        if sleepCount < MaxSleepCount {
          waiting := waiting[i := w.(sleepCount := sleepCount)];
          outcome := Waited;
        } else {
          waiting := RemoveAt(waiting, i);
          outcome := TimedOut;
        }
      }
    }

    /** Runs a caller-chosen interleaving of thread starts and loop iterations. */
    method RunEvents(events: seq<Event>)
      requires Valid()
      modifies this
      ensures Valid()
      ensures State() == Run(old(State()), events)
    {
      var k := 0;
      while k < |events|
        invariant 0 <= k <= |events|
        invariant Valid()
        invariant Run(old(State()), events) == Run(State(), events[k..])
      {
        assert events[k..][1..] == events[k + 1..];
        match events[k] {
          case Enter(name, ticket) =>
            Enter(name, ticket);
          case Poll(i, fileExists, fault) =>
            var _ := Poll(i, fileExists, fault);
        }
        k := k + 1;
      }
    }
  }
}
