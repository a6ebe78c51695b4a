/** WebSocket reconnection: backoff with jitter, and the single pending timer. */
module Reconnect {
  import opened Prelude

  const BASE_MS := 500
  const MAX_MS := 30000

  function Delay(attempts: nat, jitter: nat): int { Min(BASE_MS * Pow2(attempts) + jitter, MAX_MS) }

  datatype Event =
    | Schedule(jitter: nat)   // a socket closed, or connecting failed
    | Opened
    | Connecting              // wsConnect: clears the manual flag and any timer
    | Fired                   // the pending timer runs its callback
    | ClosedByHand            // closeWs(true)

  /** `timers` are the browser's pending timeouts; `handle` is reconnectTimer. */
  datatype State = State(attempts: nat, handle: Option<nat>, timers: set<nat>, nextTimer: nat, manualClose: bool,
                         delays: seq<int>)  // delays scheduled since the last successful open

  const START := State(0, None, {}, 0, false, [])

  function Cleared(s: State): State {
    if s.handle.Some? then s.(timers := s.timers - {s.handle.value}, handle := None) else s
  }

  function Step(s: State, e: Event): State {
    match e
    case Schedule(jitter) =>
      if s.manualClose then s
      else
        var c := Cleared(s);
        c.(attempts := s.attempts + 1, handle := Some(s.nextTimer), timers := c.timers + {s.nextTimer},
           nextTimer := s.nextTimer + 1, delays := s.delays + [Delay(s.attempts, jitter)])
    case Opened => Cleared(s).(attempts := 0, delays := [])
    case Connecting => Cleared(s).(manualClose := false)
    case Fired =>
      if s.handle.Some? && s.handle.value in s.timers
      then s.(timers := s.timers - {s.handle.value}, handle := None) else s
    case ClosedByHand => Cleared(s).(manualClose := true)
  }

  function Run(events: seq<Event>): State {
    if events == [] then START else Step(Run(Init(events)), Last(events))
  }

  ghost predicate Jittered(events: seq<Event>) {
    forall e | e in events && e.Schedule? :: e.jitter < 300
  }

  lemma {:induction false} PowGrows(a: nat, b: nat)
    requires a <= b
    ensures Pow2(a) <= Pow2(b)
  {
    if a < b {
      PowGrows(a, b - 1);
    }
  }

  /** One more attempt outweighs any jitter. */
  lemma LaterWaitsLonger(a: nat, i: nat, b: nat, j: nat)
    requires a < b && i < 300 && j < 300
    ensures 500 <= Delay(a, i) <= Delay(b, j) <= 30000
    ensures b >= 6 ==> Delay(b, j) == 30000
  {
    PowGrows(a + 1, b);
    if b >= 6 {
      PowGrows(6, b);
      assert Pow2(6) == 2 * Pow2(5) == 4 * Pow2(4) == 8 * Pow2(3) == 16 * Pow2(2);
    }
  }

  /** A delay the k-th attempt can draw. */
  ghost predicate Drawable(k: nat, delay: int) {
    exists jitter: nat | jitter < 300 :: delay == Delay(k, jitter)
  }

  ghost predicate Paced(s: State) {
    && |s.delays| == s.attempts
    && (forall k | 0 <= k < |s.delays| :: Drawable(k, s.delays[k]))
  }

  ghost predicate TimerNamed(s: State) {
    && s.timers == (if s.handle.Some? then {s.handle.value} else {})
    && (s.manualClose ==> s.handle.None?)
    && (forall t | t in s.timers :: t < s.nextTimer)
  }

  lemma StepKeepsTimerNamed(s: State, e: Event)
    requires TimerNamed(s)
    ensures TimerNamed(Step(s, e))
  {
  }

  /** At most one reconnect timer is pending, the one the handle names, and none after closing by hand. */
  lemma {:induction false} OneTimer(events: seq<Event>)
    ensures TimerNamed(Run(events))
    ensures |Run(events).timers| <= 1
    ensures Run(events).manualClose ==> Run(events).timers == {}
  {
    if events != [] {
      hide Step;
      OneTimer(Init(events));
      StepKeepsTimerNamed(Run(Init(events)), Last(events));
    }
  }

  /** `after` is `before` with one new timer in place of the pending one, due after the next delay. */
  ghost predicate Rearmed(before: State, after: State, jitter: nat) {
    var wanted := 500 * Pow2(before.attempts) + jitter;
    && after.handle.Some? && after.timers == {after.handle.value} && after.handle.value !in before.timers
    && after.delays == before.delays + [if wanted <= 30000 then wanted else 30000]
    && after.attempts == before.attempts + 1 && !after.manualClose
  }

  lemma ScheduleStep(s: State, jitter: nat)
    requires TimerNamed(s)
    ensures if s.manualClose then Step(s, Schedule(jitter)) == s else Rearmed(s, Step(s, Schedule(jitter)), jitter)
  {
  }

  /**
   After any run a schedule arms one new timer in place of the pending one, with a delay of
   min(500 * 2^attempts + jitter, 30000) ms, unless the socket was closed by hand.
   */
  lemma ScheduleArmsOne(events: seq<Event>, jitter: nat)
    ensures var before, after := Run(events), Run(events + [Schedule(jitter)]);
            if before.manualClose then after == before else Rearmed(before, after, jitter)
  {
    assert Init(events + [Schedule(jitter)]) == events;
    OneTimer(events);
    ScheduleStep(Run(events), jitter);
    hide Step, Rearmed, TimerNamed;
  }

  lemma {:induction false} RunIsPaced(events: seq<Event>)
    requires Jittered(events)
    ensures Paced(Run(events))
  {
    if events != [] {
      RunIsPaced(Init(events));
      assert forall e | e in Init(events) :: e in events;
      if Last(events).Schedule? {
        assert Last(events) in events;
        assert Drawable(Run(Init(events)).attempts, Delay(Run(Init(events)).attempts, Last(events).jitter));
      }
    }
  }

  /**
   Between successful opens, whatever the jitter and however scheduling, timers and closing
   interleave, the delays never shrink, stay within [500, 30000] ms and are 30000 from the
   seventh on.
   */
  lemma BackoffIsMonotone(events: seq<Event>)
    requires Jittered(events)
    ensures var d := Run(events).delays;
            && (forall k | 0 <= k < |d| :: 500 <= d[k] <= 30000 && (k >= 6 ==> d[k] == 30000))
            && (forall k, l | 0 <= k < l < |d| :: d[k] <= d[l])
  {
    RunIsPaced(events);
    var d := Run(events).delays;
    forall k | 0 <= k < |d|
      ensures 500 <= d[k] <= 30000 && (k >= 6 ==> d[k] == 30000)
    {
      var j: nat :| j < 300 && d[k] == Delay(k, j);
      if k > 0 {
        LaterWaitsLonger(k - 1, 0, k, j);
      }
    }
    forall k, l | 0 <= k < l < |d|
      ensures d[k] <= d[l]
    {
      var i: nat :| i < 300 && d[k] == Delay(k, i);
      var j: nat :| j < 300 && d[l] == Delay(l, j);
      LaterWaitsLonger(k, i, l, j);
    }
  }

  /** The page's reconnect variables and its pending timeouts. */
  class Reconnector {
    var reconnectAttempts: nat
    var reconnectTimer: Option<nat>
    var timeouts: set<nat>
    var nextTimeout: nat
    var manualClose: bool
    ghost var delays: seq<int>

    ghost function Now(): State
      reads this
    {
      State(reconnectAttempts, reconnectTimer, timeouts, nextTimeout, manualClose, delays)
    }

    constructor ()
      ensures Now() == START
    {
      reconnectAttempts, reconnectTimer, timeouts, nextTimeout := 0, None, {}, 0;
      manualClose, delays := false, [];
    }

    method ClearReconnectTimer()
      modifies `reconnectTimer, `timeouts
      ensures Now() == Cleared(old(Now()))
    {
      if reconnectTimer.Some? {
        timeouts := timeouts - {reconnectTimer.value};
        reconnectTimer := None;
      }
    }

    method ScheduleReconnect(jitter: nat)
      requires jitter < 300
      modifies this
      ensures Now() == Step(old(Now()), Schedule(jitter))
    {
      if manualClose {
        return;
      }
      var base := BASE_MS * Pow2(reconnectAttempts);
      var delay := if base + jitter <= MAX_MS then base + jitter else MAX_MS;
      reconnectAttempts := reconnectAttempts + 1;
      ClearReconnectTimer();
      timeouts := timeouts + {nextTimeout};
      reconnectTimer := Some(nextTimeout);
      nextTimeout := nextTimeout + 1;
      delays := delays + [delay];
    }

    /** The timer's callback: it forgets its handle before anything else. */
    method OnTimer()
      requires reconnectTimer.Some? && reconnectTimer.value in timeouts
      modifies this
      ensures Now() == Step(old(Now()), Fired)
    {
      timeouts := timeouts - {reconnectTimer.value};
      reconnectTimer := None;
    }

    /** The synchronous start of wsConnect. */
    method BeginConnect()
      modifies this
      ensures Now() == Step(old(Now()), Connecting)
    {
      manualClose := false;
      ClearReconnectTimer();
    }

    method OnOpen()
      modifies this
      ensures Now() == Step(old(Now()), Opened)
    {
      reconnectAttempts := 0;
      delays := [];
      ClearReconnectTimer();
    }

    method CloseWs()
      modifies this
      ensures Now() == Step(old(Now()), ClosedByHand)
    {
      manualClose := true;
      ClearReconnectTimer();
    }
  }
}
