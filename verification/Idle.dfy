/**
 The idle check of the read loop as a timed protocol. A read call waits until two heartbeats after it
 began; when it times out the session goes on if any frame was read in the last two heartbeats and is
 given up otherwise. Frames are read whole: a deadline inside a frame is the subject of `Messages`.
 */
module Idle {
  import opened Bytes

  /**
   The heartbeat interval; how late a timeout may be noticed; and how long the reader may be away
   between two calls, handing over a command or waiting for a semaphore slot.
   */
  datatype Timing = Timing(heartbeat: int, late: int, away: int) {
    ghost predicate Valid() { heartbeat > 0 && late >= 0 && away >= 0 }

    /** `heartbeat * readSlack` */
    function Slack(): int { 2 * heartbeat }
  }

  datatype Phase = Away(since: int) | Waiting(deadline: int) | Dead(at: int)

  /** `last` is what `LastActivity` returns. */
  datatype State = State(phase: Phase, last: int, now: int)

  datatype Event =
    | Frame(t: int, ends: bool)  // a frame of any kind is read; `ends` when it ends a message
    | Call(t: int)                  // the next ReadMessage begins
    | Timeout(t: int)
    | Pass(t: int)                  // nothing happens until `t`

  predicate Enabled(s: State, e: Event, c: Timing) {
    e.t >= s.now &&
    match e
    case Frame(t, _) => s.phase.Waiting? && t <= s.phase.deadline + c.late
    case Call(t) => s.phase.Away? && t <= s.phase.since + c.away
    case Timeout(t) => s.phase.Waiting? && s.phase.deadline <= t <= s.phase.deadline + c.late
    case Pass(t) =>
      match s.phase
      case Away(since) => t <= since + c.away
      case Waiting(deadline) => t <= deadline + c.late
      case Dead(_) => true
  }

  function Step(s: State, e: Event, c: Timing): State
    requires Enabled(s, e, c)
  {
    match e
    case Frame(t, ends) => State(if ends then Away(t) else s.phase, t, t)
    case Call(t) => State(Waiting(t + c.Slack()), s.last, t)
    case Pass(t) => s.(now := t)
    case Timeout(t) => State(if t - s.last < c.Slack() then Waiting(t + c.Slack()) else Dead(t), s.last, t)
  }

  /** The loop starts right after the welcome frame was read, at time `t0`. */
  function Run(t0: int, events: seq<Event>, c: Timing): (s: Option<State>)
  {
    if events == [] then Some(State(Away(t0), t0, t0)) else
    var e := events[|events| - 1];
    match Run(t0, events[..|events| - 1], c)
    case None => None
    case Some(s) => if Enabled(s, e, c) then Some(Step(s, e, c)) else None
  }

  /** A frame was read within two heartbeats before `t`; the welcome counts. */
  ghost predicate Heard(t0: int, events: seq<Event>, t: int, c: Timing) {
    t - t0 < c.Slack() || exists i :: 0 <= i < |events| && events[i].Frame? && t - events[i].t < c.Slack()
  }

  /** Nothing was read after time `t`, until the run ends. */
  ghost predicate SilentSince(events: seq<Event>, t: int) {
    forall i :: 0 <= i < |events| && events[i].Frame? ==> events[i].t <= t
  }

  ghost predicate Inv(t0: int, events: seq<Event>, s: State, c: Timing) {
    && t0 <= s.last <= s.now && SilentSince(events, s.last)
    && (s.last == t0 || exists i :: 0 <= i < |events| && events[i].Frame? && events[i].t == s.last)
    && match s.phase
       case Away(since) => since == s.last && s.now <= since + c.away
       case Waiting(d) =>
         s.now <= d + c.late && (d <= s.last + c.Slack() || d <= s.last + c.away + c.Slack()
                                || s.last + c.Slack() <= d < s.last + 2 * c.Slack())
       case Dead(at) =>
         && at <= s.now && at >= s.last + c.Slack()
         && (at < s.last + 2 * c.Slack() + c.late || at <= s.last + c.Slack() + c.away + c.late)
  }

  lemma {:induction false} Invariant(t0: int, events: seq<Event>, c: Timing)
    requires c.Valid() && Run(t0, events, c).Some?
    ensures Inv(t0, events, Run(t0, events, c).value, c)
  {
    if events != [] {
      var n := |events| - 1;
      var before, e, s := events[..n], events[n], Run(t0, events[..n], c).value;
      Invariant(t0, before, c);
      var s' := Step(s, e, c);
      assert events == before + [e];
      if e.Frame? {
        assert events[n].t == s'.last;
      } else if s.last != t0 {
        var i :| 0 <= i < n && before[i].Frame? && before[i].t == s.last;
        assert events[i].t == s'.last;
      }
    }
  }

  /**
   The session is given up by a timeout exactly when no frame of any kind was read in the two
   heartbeats before it, over every schedule of frames, messages and timeouts.
   */
  lemma {:induction false} TimeoutEndsIff(t0: int, events: seq<Event>, t: int, c: Timing)
    requires c.Valid() && Run(t0, events + [Timeout(t)], c).Some?
    ensures Run(t0, events + [Timeout(t)], c).value.phase.Dead? <==> !Heard(t0, events, t, c)
  {
    assert (events + [Timeout(t)])[..|events|] == events;
    Invariant(t0, events, c);
  }

  /** When silence is over at the latest: four heartbeats, or two after the reader came back. */
  predicate TimeIsUp(s: State, t: int, c: Timing) {
    t >= s.last + 4 * c.heartbeat + c.late && t > s.last + 2 * c.heartbeat + c.away + c.late
  }

  /** A session is given up no earlier than two heartbeats after its last frame, and before time is up. */
  lemma {:induction false} SilenceIsBounded(t0: int, events: seq<Event>, c: Timing)
    requires c.Valid() && Run(t0, events, c).Some? && Run(t0, events, c).value.phase.Dead?
    ensures var s := Run(t0, events, c).value;
      && SilentSince(events, s.last)
      && s.last + 2 * c.heartbeat <= s.phase.at && !TimeIsUp(s, s.phase.at, c)
  {
    Invariant(t0, events, c);
  }

  /** No silence is overlooked: whenever time is up the session has been given up, whatever the schedule. */
  lemma {:induction false} SilenceIsNoticed(t0: int, events: seq<Event>, c: Timing)
    requires c.Valid() && Run(t0, events, c).Some?
    ensures var s := Run(t0, events, c).value; TimeIsUp(s, s.now, c) ==> s.phase.Dead?
  {
    Invariant(t0, events, c);
  }

  /** How many calls and timeouts a silent session has left, at most. */
  function StepsToDeath(s: State, c: Timing): nat {
    match s.phase
    case Dead(_) => 0
    case Waiting(deadline) => if deadline >= s.last + c.Slack() then 1 else 2
    case Away(_) => 3
  }

  /** And time does go on: from every state, without another frame, there is a run to any later instant. */
  lemma {:induction false} TimeGoesOn(t0: int, events: seq<Event>, t: int, c: Timing) returns (more: seq<Event>)
    requires c.Valid() && Run(t0, events, c).Some? && t >= Run(t0, events, c).value.now
    ensures Run(t0, events + more, c).Some? && Run(t0, events + more, c).value.now == t
    ensures forall i :: 0 <= i < |more| ==> !more[i].Frame?
    decreases StepsToDeath(Run(t0, events, c).value, c)
  {
    var s := Run(t0, events, c).value;
    Invariant(t0, events, c);
    if Enabled(s, Pass(t), c) {
      more := [Pass(t)];
      Next(t0, events, Pass(t), c);
    } else {
      var e := if s.phase.Away? then Call(s.now)
               else Timeout(if s.now < s.phase.deadline then s.phase.deadline else s.now);
      Next(t0, events, e, c);
      var rest := TimeGoesOn(t0, events + [e], t, c);
      more := [e] + rest;
      Assoc(events, [e], rest);
    }
  }

  /** So a socket that falls silent is declared dead: some run goes there, and by then all others have. */
  lemma {:induction false} SilentSocketDies(t0: int, events: seq<Event>, c: Timing) returns (more: seq<Event>)
    requires c.Valid() && Run(t0, events, c).Some?
    ensures forall i :: 0 <= i < |more| ==> !more[i].Frame?
    ensures Run(t0, events + more, c).Some? && Run(t0, events + more, c).value.phase.Dead?
  {
    var s := Run(t0, events, c).value;
    Invariant(t0, events, c);
    var end := s.now + 4 * c.heartbeat + c.late + c.away + 1;
    more := TimeGoesOn(t0, events, end, c);
    Invariant(t0, events + more, c);
    var s' := Run(t0, events + more, c).value;
    assert forall i :: |events| <= i < |events + more| ==> (events + more)[i] == more[i - |events|];
    if s'.last != t0 {
      var i :| 0 <= i < |events + more| && (events + more)[i].Frame? && (events + more)[i].t == s'.last;
      assert i < |events| ==> events[i].t <= s.last;
    }
    SilenceIsNoticed(t0, events + more, c);
  }

  lemma {:induction false} Next(t0: int, events: seq<Event>, e: Event, c: Timing)
    requires Run(t0, events, c).Some? && Enabled(Run(t0, events, c).value, e, c)
    ensures Run(t0, events + [e], c) == Some(Step(Run(t0, events, c).value, e, c))
  {
    assert (events + [e])[..|events|] == events;
  }

  /** Both bounds are exact: with timely timeouts every delay between them happens. */
  lemma {:induction false} EveryDelayHappens(delay: int, c: Timing) returns (events: seq<Event>)
    requires c.Valid() && 2 * c.heartbeat <= delay < 4 * c.heartbeat
    ensures Run(0, events, c).Some?
    ensures var s := Run(0, events, c).value; s.phase == Dead(s.last + delay)
  {
    var h := c.heartbeat;
    var frame := 4 * h - delay;
    events := [];
    Next(0, events, Call(0), c);
    events := events + [Call(0)];
    Next(0, events, Frame(frame, false), c);
    events := events + [Frame(frame, false)];
    Next(0, events, Timeout(2 * h), c);
    events := events + [Timeout(2 * h)];
    Next(0, events, Timeout(4 * h), c);
    events := events + [Timeout(4 * h)];
  }

  /** And so does every delay a reader that was away, or a timeout noticed late, adds to two heartbeats. */
  lemma {:induction false} LateDelayHappens(gone: int, late: int, c: Timing) returns (events: seq<Event>)
    requires c.Valid() && 0 <= gone <= c.away && 0 <= late <= c.late
    ensures Run(0, events, c).Some?
    ensures var s := Run(0, events, c).value; s.phase == Dead(s.last + 2 * c.heartbeat + gone + late)
  {
    events := [];
    Next(0, events, Call(0), c);
    events := events + [Call(0)];
    Next(0, events, Frame(1, true), c);
    events := events + [Frame(1, true)];
    Next(0, events, Call(1 + gone), c);
    events := events + [Call(1 + gone)];
    var end := 1 + gone + 2 * c.heartbeat + late;
    Next(0, events, Timeout(end), c);
    events := events + [Timeout(end)];
  }

  // ---- a broker that answers --------------------------------------------------------------------

  /** Ping `k` is sent `k` heartbeats after the start; its pong is read less than a heartbeat later. */
  ghost predicate PingAnswered(t0: int, events: seq<Event>, k: int, c: Timing) {
    exists i :: 0 <= i < |events| && events[i].Frame?
                && t0 + k * c.heartbeat <= events[i].t < t0 + (k + 1) * c.heartbeat
  }

  lemma {:induction false} WholeHeartbeats(d: int, h: int) returns (k: int)
    requires 0 < h && 2 * h <= d
    ensures k >= 1 && (k + 1) * h <= d < (k + 2) * h
  {
    var q := d / h;
    k := q - 1;
    assert d == h * q + d % h;
    assert (k + 1) * h == h * q && (k + 2) * h == h * q + h;
    AtMostOne(h, q);
  }

  lemma {:induction false} AtMostOne(h: int, q: int)
    requires h > 0
    ensures q <= 1 ==> h * q <= h
  {}

  /** A session whose pings are all answered within a heartbeat is never given up. */
  lemma {:induction false} AnsweredIsKept(t0: int, events: seq<Event>, t: int, c: Timing)
    requires c.Valid() && Run(t0, events + [Timeout(t)], c).Some?
    requires forall k :: k >= 1 && t0 + (k + 1) * c.heartbeat <= t ==> PingAnswered(t0, events, k, c)
    ensures !Run(t0, events + [Timeout(t)], c).value.phase.Dead?
  {
    if t - t0 >= 2 * c.heartbeat {
      var k := WholeHeartbeats(t - t0, c.heartbeat);
      assert PingAnswered(t0, events, k, c);
      var i :| 0 <= i < |events| && events[i].Frame?
               && t0 + k * c.heartbeat <= events[i].t < t0 + (k + 1) * c.heartbeat;
      assert (k + 2) * c.heartbeat == k * c.heartbeat + c.Slack();
    }
    TimeoutEndsIff(t0, events, t, c);
  }
}
