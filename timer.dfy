/**
 * The single countdown timer (timer.py): a state machine that counts its
 * remaining seconds down, notifying its observers of every tick and of the
 * end of the run.
 *
 * The observers are modelled by what they receive. `events` records every
 * event the timer notifies; `deliveries` records every callback call, with
 * whether that callback raised (the timer swallows the exception and goes on).
 * The one-second sleep is a step that does nothing; a keyboard interrupt
 * arriving during a sleep is the only outside influence on a run, and it is
 * a parameter of `Start`.
 */
module Timer {
  import opened Results
  import opened Models

  /** The three callbacks of the observer interface. */
  datatype Callback = OnTimerTick | OnTimerFinished | OnTimerCancelled

  /** The callback an event kind selects; any other kind selects none. */
  function CallbackFor(eventType: string): Option<Callback>
  {
    if eventType == "tick" then Some(OnTimerTick)
    else if eventType == "finished" then Some(OnTimerFinished)
    else if eventType == "cancelled" then Some(OnTimerCancelled)
    else None
  }

  /**
   * An observer: `id` is its identity (what Python's `in` and `remove` compare),
   * `raisesOn` the callbacks of it that raise an exception.
   */
  datatype Observer = Observer(id: nat, raisesOn: set<Callback>)

  /** One callback call: which observer got which event through which callback, and whether it raised. */
  datatype Delivery = Delivery(observer: Observer, callback: Callback, event: TimerEvent, raised: bool)

  /** What one observer receives for one event. */
  function Deliver(o: Observer, e: TimerEvent): seq<Delivery>
  {
    match CallbackFor(e.eventType)
    case None => []
    case Some(cb) => [Delivery(o, cb, e, cb in o.raisesOn)]
  }

  /**
   * What one `_notify_observers` call delivers: every observer, in list order,
   * gets the event through the matching callback whether or not an earlier
   * observer raised; an unrecognised kind reaches no callback.
   */
  function Fanout(observers: seq<Observer>, e: TimerEvent): seq<Delivery>
    decreases |observers|
  {
    if observers == [] then []
    else Fanout(observers[..|observers| - 1], e) + Deliver(observers[|observers| - 1], e)
  }

  /**
   * A recognised event reaches every observer once, in list order, through its
   * callback, whether or not an earlier observer raised; any other kind reaches none.
   */
  lemma {:induction false} FanoutDelivers(observers: seq<Observer>, e: TimerEvent)
    ensures CallbackFor(e.eventType).None? ==> Fanout(observers, e) == []
    ensures CallbackFor(e.eventType).Some? ==>
              var r := Fanout(observers, e);
              |r| == |observers| &&
              forall i :: 0 <= i < |r| ==>
                r[i] == Delivery(observers[i], CallbackFor(e.eventType).value, e,
                                 CallbackFor(e.eventType).value in observers[i].raisesOn)
    decreases |observers|
  {
    if observers != [] {
      var init := observers[..|observers| - 1];
      FanoutDelivers(init, e);
      if CallbackFor(e.eventType).Some? {
        var r := Fanout(observers, e);
        forall i | 0 <= i < |r|
          ensures r[i] == Delivery(observers[i], CallbackFor(e.eventType).value, e,
                                   CallbackFor(e.eventType).value in observers[i].raisesOn)
        {
          if i < |init| {
            assert r[i] == Fanout(init, e)[i];
          }
        }
      }
    }
  }

  /** What a sequence of notifications delivers, event after event. */
  function FanoutAll(observers: seq<Observer>, es: seq<TimerEvent>): (r: seq<Delivery>)
    decreases |es|
  {
    if es == [] then [] else Fanout(observers, es[0]) + FanoutAll(observers, es[1..])
  }

  /** The deliveries of a trace split where the trace is split. */
  lemma {:induction false} FanoutAllAppend(observers: seq<Observer>, a: seq<TimerEvent>, b: seq<TimerEvent>)
    ensures FanoutAll(observers, a + b) == FanoutAll(observers, a) + FanoutAll(observers, b)
    decreases |a|
  {
    if a == [] {
      assert a + b == b;
    } else {
      assert (a + b)[0] == a[0];
      assert (a + b)[1..] == a[1..] + b;
      FanoutAllAppend(observers, a[1..], b);
    }
  }

  lemma FanoutAllSnoc(observers: seq<Observer>, es: seq<TimerEvent>, e: TimerEvent)
    ensures FanoutAll(observers, es + [e]) == FanoutAll(observers, es) + Fanout(observers, e)
  {
    FanoutAllAppend(observers, es, [e]);
    assert FanoutAll(observers, [e]) == Fanout(observers, e) + FanoutAll(observers, []);
  }

  /** Every event of kind tick, finished or cancelled. */
  predicate AllRecognised(es: seq<TimerEvent>)
  {
    forall k :: 0 <= k < |es| ==> CallbackFor(es[k].eventType).Some?
  }

  /** With every event recognised, each event is delivered once to each observer. */
  lemma {:induction false} FanoutAllLength(observers: seq<Observer>, es: seq<TimerEvent>)
    requires AllRecognised(es)
    ensures |FanoutAll(observers, es)| == |es| * |observers|
    decreases |es|
  {
    if es != [] {
      assert AllRecognised(es[1..]) by {
        forall k | 0 <= k < |es[1..]| ensures CallbackFor(es[1..][k].eventType).Some? {
          assert es[1..][k] == es[k + 1];
        }
      }
      FanoutAllLength(observers, es[1..]);
      assert CallbackFor(es[0].eventType).Some?;
      FanoutDelivers(observers, es[0]);
      assert |es| * |observers| == |observers| + |es[1..]| * |observers|;
    }
  }

  /**
   * The deliveries of event k are one block, after those of every earlier event
   * and before those of every later one.
   */
  lemma FanoutAllAt(observers: seq<Observer>, es: seq<TimerEvent>, k: nat)
    requires k < |es|
    ensures FanoutAll(observers, es) ==
              FanoutAll(observers, es[..k]) + Fanout(observers, es[k]) + FanoutAll(observers, es[k + 1..])
  {
    assert es == es[..k] + ([es[k]] + es[k + 1..]);
    FanoutAllAppend(observers, es[..k], [es[k]] + es[k + 1..]);
    FanoutAllAppend(observers, [es[k]], es[k + 1..]);
    assert FanoutAll(observers, [es[k]]) == Fanout(observers, es[k]) + FanoutAll(observers, []);
  }

  /** `n` tick events carrying `from`, `from - 1`, ..., `from - n + 1`. */
  function Ticks(pastaType: string, from: int, n: nat): (r: seq<TimerEvent>)
    ensures |r| == n
    ensures forall i :: 0 <= i < n ==> r[i] == TimerEvent("tick", from - i, pastaType)
  {
    if n == 0 then [] else Ticks(pastaType, from, n - 1) + [TimerEvent("tick", from - (n - 1), pastaType)]
  }

  lemma TicksSnoc(pastaType: string, from: int, k: nat)
    ensures Ticks(pastaType, from, k + 1) == Ticks(pastaType, from, k) + [TimerEvent("tick", from - k, pastaType)]
  {
  }

  /**
   * The range the remaining count stays in: between 0 and the total, or, for a
   * negative total (negative minutes), the total itself.
   */
  predicate InRange(remaining: int, total: int)
  {
    if total >= 0 then 0 <= remaining <= total else remaining == total
  }

  /** How a run ends: the events it notifies, the final state and the final remaining seconds. */
  datatype Run = Run(events: seq<TimerEvent>, state: TimerState, remaining: int)

  /** How many times the countdown loop runs from `remaining`. */
  function Iterations(remaining: int): nat
  {
    if remaining > 0 then remaining else 0
  }

  /** Whether an interrupt during the sleep after tick `interrupt.value + 1` falls inside the run. */
  predicate Interrupted(remaining: int, interrupt: Option<nat>)
  {
    interrupt.Some? && interrupt.value < Iterations(remaining)
  }

  /**
   * The run `start` makes from `remaining` seconds: a tick, a sleep and a
   * decrement per second, then `finished`; or, interrupted in the sleep after
   * tick k + 1, the ticks so far and then `cancelled`, without the decrement.
   */
  function StartRun(pastaType: string, remaining: int, interrupt: Option<nat>): Run
  {
    if Interrupted(remaining, interrupt) then
      var k := interrupt.value;
      Run(Ticks(pastaType, remaining, k + 1) + [TimerEvent("cancelled", remaining - k, pastaType)],
          Cancelled, remaining - k)
    else
      var n := Iterations(remaining);
      Run(Ticks(pastaType, remaining, n) + [TimerEvent("finished", remaining - n, pastaType)],
          Finished, remaining - n)
  }

  lemma InterruptedRun(pastaType: string, from: int, k: nat)
    requires k < Iterations(from)
    ensures StartRun(pastaType, from, Some(k)) ==
              Run(Ticks(pastaType, from, k + 1) + [TimerEvent("cancelled", from - k, pastaType)], Cancelled, from - k)
  {
  }

  lemma CompletedRun(pastaType: string, from: int, interrupt: Option<nat>)
    requires !Interrupted(from, interrupt)
    ensures var n := Iterations(from);
            StartRun(pastaType, from, interrupt) ==
              Run(Ticks(pastaType, from, n) + [TimerEvent("finished", from - n, pastaType)], Finished, from - n)
  {
  }

  /** A run started within the range a timer keeps its count in ends within it. */
  lemma RunStaysInRange(pastaType: string, remaining: int, total: int, interrupt: Option<nat>)
    requires InRange(remaining, total)
    ensures InRange(StartRun(pastaType, remaining, interrupt).remaining, total)
  {
  }

  /** The number of events of one kind in a trace. */
  function CountKind(es: seq<TimerEvent>, kind: string): (n: nat)
    ensures n <= |es|
  {
    if es == [] then 0
    else CountKind(es[..|es| - 1], kind) + (if es[|es| - 1].eventType == kind then 1 else 0)
  }

  lemma {:induction false} CountKindAppend(a: seq<TimerEvent>, b: seq<TimerEvent>, kind: string)
    ensures CountKind(a + b, kind) == CountKind(a, kind) + CountKind(b, kind)
    decreases |b|
  {
    if b == [] {
      assert a + b == a;
    } else {
      assert (a + b)[..|a + b| - 1] == a + b[..|b| - 1];
      CountKindAppend(a, b[..|b| - 1], kind);
    }
  }

  lemma {:induction false} CountKindTicks(pastaType: string, from: int, n: nat, kind: string)
    ensures CountKind(Ticks(pastaType, from, n), kind) == if kind == "tick" then n else 0
  {
    if n > 0 {
      var t := Ticks(pastaType, from, n);
      assert t[..n - 1] == Ticks(pastaType, from, n - 1);
      CountKindTicks(pastaType, from, n - 1, kind);
    }
  }

  /** A run emits one tick per loop iteration it starts: all of them, or k + 1 when interrupted after tick k + 1. */
  lemma RunTickCount(pastaType: string, remaining: int, interrupt: Option<nat>)
    ensures CountKind(StartRun(pastaType, remaining, interrupt).events, "tick") ==
              if Interrupted(remaining, interrupt) then interrupt.value + 1 else Iterations(remaining)
  {
    var n := if Interrupted(remaining, interrupt) then interrupt.value + 1 else Iterations(remaining);
    var last := StartRun(pastaType, remaining, interrupt).events[n];
    CountKindTicks(pastaType, remaining, n, "tick");
    CountKindAppend(Ticks(pastaType, remaining, n), [last], "tick");
    assert CountKind([last], "tick") == CountKind([], "tick") + 0;
  }

  /**
   * A run ends with exactly one terminal event, `finished` or `cancelled`, as its
   * last event, matching the final state; a cancelled run reports no `finished`.
   */
  lemma RunHasOneTerminalEvent(pastaType: string, remaining: int, interrupt: Option<nat>)
    ensures var run := StartRun(pastaType, remaining, interrupt);
            CountKind(run.events, "finished") + CountKind(run.events, "cancelled") == 1 &&
            (run.state == Finished <==> run.events[|run.events| - 1].eventType == "finished") &&
            (run.state == Cancelled <==> run.events[|run.events| - 1].eventType == "cancelled") &&
            (run.state == Cancelled ==> CountKind(run.events, "finished") == 0)
  {
    var run := StartRun(pastaType, remaining, interrupt);
    var n := |run.events| - 1;
    var last := run.events[n];
    var ticks := Ticks(pastaType, remaining, n);
    assert run.events == ticks + [last];
    CountKindTicks(pastaType, remaining, n, "finished");
    CountKindTicks(pastaType, remaining, n, "cancelled");
    CountKindAppend(ticks, [last], "finished");
    CountKindAppend(ticks, [last], "cancelled");
    assert [last][..0] == [];
  }

  /**
   * Uninterrupted from R >= 0 seconds: R ticks carrying R, R-1, ..., 1, then one
   * `finished` carrying 0, ending in Finished with nothing left.
   */
  lemma UninterruptedRun(pastaType: string, remaining: int)
    requires remaining >= 0
    ensures var run := StartRun(pastaType, remaining, None);
            |run.events| == remaining + 1 &&
            (forall i :: 0 <= i < remaining ==> run.events[i] == TimerEvent("tick", remaining - i, pastaType)) &&
            run.events[remaining] == TimerEvent("finished", 0, pastaType) &&
            run.state == Finished && run.remaining == 0
  {
  }

  /**
   * From R >= 0 seconds the ticks carry strictly decreasing values, every event
   * carries a value between 0 and R, and the run ends with a value in that range.
   */
  lemma RunRemainingBounds(pastaType: string, remaining: int, interrupt: Option<nat>)
    requires remaining >= 0
    ensures var run := StartRun(pastaType, remaining, interrupt);
            (forall i, j :: 0 <= i < j < |run.events| - 1 ==>
               run.events[i].remainingSeconds > run.events[j].remainingSeconds) &&
            (forall i :: 0 <= i < |run.events| ==> 0 <= run.events[i].remainingSeconds <= remaining) &&
            run.events[|run.events| - 1].remainingSeconds == run.remaining &&
            0 <= run.remaining <= remaining
  {
  }

  /** `int(x)` for a Python float: truncation toward zero. */
  function Truncate(x: real): (n: int)
    ensures x >= 0.0 ==> n as real <= x < n as real + 1.0
    ensures x < 0.0 ==> n as real - 1.0 < x <= n as real
  {
    if x >= 0.0 then x.Floor else -((-x).Floor)
  }

  /** The length of a run: six seconds in debug mode, else `int(minutes * 60)`. */
  function TotalSeconds(minutes: real, debugMode: bool): (t: int)
    ensures debugMode ==> t == 6
    ensures !debugMode && minutes >= 0.0 ==> 0 <= t && t as real <= minutes * 60.0 < t as real + 1.0
  {
    if debugMode then 6 else Truncate(minutes * 60.0)
  }

  lemma WholeMinutes(m: int)
    ensures TotalSeconds(m as real, false) == 60 * m
  {
  }

  /** Where `list.remove(x)` finds `x`: an occurrence with none before it. */
  function FirstIndex<T(==)>(s: seq<T>, x: T): (i: nat)
    requires x in s
    ensures i < |s| && s[i] == x && x !in s[..i]
  {
    if s[0] == x then 0
    else
      var j := FirstIndex(s[1..], x);
      assert s[..j + 1] == [s[0]] + s[1..][..j];
      j + 1
  }

  /**
   * `list.remove(x)` after checking `x in list`: the first occurrence of `x` is
   * dropped and the elements around it keep their order; without an occurrence
   * nothing changes.
   */
  function RemoveFirst<T(==)>(s: seq<T>, x: T): (r: seq<T>)
    ensures multiset(r) == multiset(s) - multiset{x}
    ensures |r| == if x in s then |s| - 1 else |s|
    ensures x !in s ==> r == s
    ensures x in s ==> r == s[..FirstIndex(s, x)] + s[FirstIndex(s, x) + 1..]
  {
    if x in s then
      var i := FirstIndex(s, x);
      assert s == s[..i] + [x] + s[i + 1..];
      s[..i] + s[i + 1..]
    else
      assert multiset(s)[x] == 0;
      s
  }

  class PastaTimer {
    const pastaType: string
    const minutes: real
    const debugMode: bool
    const totalSeconds: int
    var state: TimerState
    var observers: seq<Observer>
    var remainingSeconds: int
    /** Every event notified so far, in order. */
    var events: seq<TimerEvent>
    /** Every callback call made so far, in order. */
    var deliveries: seq<Delivery>

    ghost predicate Valid()
      reads this
    {
      totalSeconds == TotalSeconds(minutes, debugMode) && InRange(remainingSeconds, totalSeconds)
    }

    /** A new timer is idle, with no observers and the full count. */
    constructor (pastaType: string, minutes: real, debugMode: bool := false)
      ensures Valid()
      ensures this.pastaType == pastaType && this.minutes == minutes && this.debugMode == debugMode
      ensures state == Idle && observers == [] && remainingSeconds == totalSeconds
      ensures events == [] && deliveries == []
    {
      this.pastaType := pastaType;
      this.minutes := minutes;
      this.debugMode := debugMode;
      this.state := Idle;
      this.observers := [];
      this.totalSeconds := if !debugMode then Truncate(minutes * 60.0) else 6;
      this.remainingSeconds := if !debugMode then Truncate(minutes * 60.0) else 6;
      this.events := [];
      this.deliveries := [];
    }

    /** `add_observer`: appended at the end. */
    method AddObserver(o: Observer)
      modifies this`observers
      ensures observers == old(observers) + [o]
    {
      observers := observers + [o];
    }

    /** `remove_observer`: the first occurrence is removed, if there is one. */
    method RemoveObserver(o: Observer)
      modifies this`observers
      ensures observers == RemoveFirst(old(observers), o)
      ensures o !in old(observers) ==> observers == old(observers)
      ensures multiset(observers) == multiset(old(observers)) - multiset{o}
      ensures |observers| == if o in old(observers) then |old(observers)| - 1 else |old(observers)|
      ensures o in old(observers) ==>
                var i := FirstIndex(old(observers), o);
                observers == old(observers)[..i] + old(observers)[i + 1..]
    {
      if o in observers {
        observers := RemoveFirst(observers, o);
      }
    }

    /** `_notify_observers`: one event, built from the current count, to every observer in order. */
    method NotifyObservers(eventType: string)
      modifies this`events, this`deliveries
      ensures events == old(events) + [TimerEvent(eventType, remainingSeconds, pastaType)]
      ensures deliveries == old(deliveries) + Fanout(observers, TimerEvent(eventType, remainingSeconds, pastaType))
    {
      var event := TimerEvent(eventType, remainingSeconds, pastaType);
      events := events + [event];
      var i := 0;
      while i < |observers|
        invariant 0 <= i <= |observers|
        invariant events == old(events) + [event]
        invariant deliveries == old(deliveries) + Fanout(observers[..i], event)
      {
        assert observers[..i + 1][..i] == observers[..i];
        var callback := CallbackFor(eventType);
        if callback.Some? {
          // A callback that raises is caught and reported; the loop goes on.
          deliveries := deliveries + [Delivery(observers[i], callback.value, event, callback.value in observers[i].raisesOn)];
        }
        i := i + 1;
      }
      assert observers[..i] == observers;
    }

    /**
     * `start`: refused unless idle; otherwise runs the countdown to its end, or
     * until an interrupt (`Some(k)`: in the sleep after tick k + 1) cancels it.
     */
    method Start(interrupt: Option<nat>) returns (r: Result<()>)
      requires Valid()
      modifies this`state, this`remainingSeconds, this`events, this`deliveries
      ensures Valid()
      ensures old(state) != Idle ==>
                r == Failure("Timer cannot be started from state: " + old(state).Name()) &&
                state == old(state) && remainingSeconds == old(remainingSeconds) &&
                events == old(events) && deliveries == old(deliveries)
      ensures old(state) == Idle ==>
                var run := StartRun(pastaType, old(remainingSeconds), interrupt);
                r == Success(()) &&
                state == run.state && remainingSeconds == run.remaining &&
                events == old(events) + run.events &&
                deliveries == old(deliveries) + FanoutAll(observers, run.events)
    {
      if state != Idle {
        return Failure("Timer cannot be started from state: " + state.Name());
      }
      state := Running;
      RunStaysInRange(pastaType, remainingSeconds, totalSeconds, interrupt);
      Countdown(interrupt);
      r := Success(());
    }

    /** Since `events0` and `deliveries0`, exactly the events `es` have been notified. */
    ghost predicate Traced(events0: seq<TimerEvent>, deliveries0: seq<Delivery>, es: seq<TimerEvent>)
      reads this
    {
      events == events0 + es && deliveries == deliveries0 + FanoutAll(observers, es)
    }

    /** `_notify_observers` seen as extending the trace since a given point by one event. */
    method Emit(eventType: string, ghost events0: seq<TimerEvent>, ghost deliveries0: seq<Delivery>, ghost es: seq<TimerEvent>)
      requires Traced(events0, deliveries0, es)
      modifies this`events, this`deliveries
      ensures Traced(events0, deliveries0, es + [TimerEvent(eventType, remainingSeconds, pastaType)])
    {
      NotifyObservers(eventType);
      FanoutAllSnoc(observers, es, TimerEvent(eventType, remainingSeconds, pastaType));
    }

    /** `cancel` on a running timer, seen as extending the trace since a given point by the `cancelled` event. */
    method CancelRunning(ghost events0: seq<TimerEvent>, ghost deliveries0: seq<Delivery>, ghost es: seq<TimerEvent>)
      requires state == Running && Traced(events0, deliveries0, es)
      modifies this`state, this`events, this`deliveries
      ensures state == Cancelled
      ensures Traced(events0, deliveries0, es + [TimerEvent("cancelled", remainingSeconds, pastaType)])
    {
      Cancel();
      FanoutAllSnoc(observers, es, TimerEvent("cancelled", remainingSeconds, pastaType));
    }

    /** The body of `start` once the timer is running: the countdown loop, then `finished`. */
    method Countdown(interrupt: Option<nat>)
      requires state == Running
      modifies this`state, this`remainingSeconds, this`events, this`deliveries
      ensures var run := StartRun(pastaType, old(remainingSeconds), interrupt);
              state == run.state && remainingSeconds == run.remaining &&
              Traced(old(events), old(deliveries), run.events)
    {
      ghost var from := remainingSeconds;
      ghost var events0, deliveries0 := events, deliveries;
      var k: nat := 0;
      while remainingSeconds > 0 && state == Running
        invariant state == Running
        invariant k <= Iterations(from) && remainingSeconds == from - k
        invariant interrupt.Some? ==> k <= interrupt.value
        invariant Traced(events0, deliveries0, Ticks(pastaType, from, k))
        decreases remainingSeconds
      {
        Emit("tick", events0, deliveries0, Ticks(pastaType, from, k));
        TicksSnoc(pastaType, from, k);
        // The one-second sleep: no effect, except that an interrupt arriving here cancels the run.
        if interrupt == Some(k) {
          // The interrupt is handled by cancelling the running timer.
          CancelRunning(events0, deliveries0, Ticks(pastaType, from, k + 1));
          InterruptedRun(pastaType, from, k);
          return;
        }
        remainingSeconds := remainingSeconds - 1;
        k := k + 1;
      }
      CompletedRun(pastaType, from, interrupt);
      if state == Running {
        state := Finished;
        Emit("finished", events0, deliveries0, Ticks(pastaType, from, k));
      }
    }

    /** `cancel`: only a running timer is cancelled, with one `cancelled` event; otherwise nothing happens. */
    method Cancel()
      modifies this`state, this`events, this`deliveries
      ensures old(state) == Running ==>
                state == Cancelled &&
                events == old(events) + [TimerEvent("cancelled", remainingSeconds, pastaType)] &&
                deliveries == old(deliveries) + Fanout(observers, TimerEvent("cancelled", remainingSeconds, pastaType))
      ensures old(state) != Running ==>
                state == old(state) && events == old(events) && deliveries == old(deliveries)
    {
      if state == Running {
        state := Cancelled;
        NotifyObservers("cancelled");
      }
    }

    /** `reset`: idle with the full count, from any state; observers and history are kept. */
    method Reset()
      requires Valid()
      modifies this`state, this`remainingSeconds
      ensures Valid()
      ensures state == Idle && remainingSeconds == totalSeconds
    {
      state := Idle;
      remainingSeconds := totalSeconds;
    }
  }

  /** Resetting twice leaves the timer exactly as resetting once does. */
  method ResetTwiceIsResetOnce(t: PastaTimer)
    requires t.Valid()
    modifies t
    ensures t.Valid() && t.state == Idle && t.remainingSeconds == t.totalSeconds
    ensures t.observers == old(t.observers) && t.events == old(t.events) && t.deliveries == old(t.deliveries)
  {
    t.Reset();
    var once := (t.state, t.remainingSeconds, t.observers, t.events, t.deliveries);
    t.Reset();
    assert (t.state, t.remainingSeconds, t.observers, t.events, t.deliveries) == once;
  }
}
