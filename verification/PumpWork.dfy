/**
 What the pump gets done: every command that is read is handled and answered, every tick of the
 heartbeat sends its two frames. The statements count the actions of a run against its last state.
 */
module PumpWork {
  import opened Bytes
  import opened Pump

  /** Kinds of action to count. */
  datatype Kind = ACommand | ADrop | ATick | AReturn(i: nat) | AWrite(i: nat) | AResult(i: nat) | AFailure(e: Err)

  predicate Is(k: Kind, a: Action) {
    match k
    case ACommand => a == ReaderRead(Command)
    case ADrop => a == ReaderDone
    case ATick => a == BeatTick
    case AReturn(i) => a == HandlerReturn(i)
    case AWrite(i) => a.HandlerWrite? && a.i == i
    case AResult(i) => a == HandlerWrite(i, None)
    case AFailure(e) =>
      a == ReaderRead(Error(e)) || a == BeatWrite(Some(e)) || (a.HandlerWrite? && a.failure == Some(e))
  }

  function Count(actions: seq<Action>, k: Kind): nat {
    if actions == [] then 0
    else Count(actions[..|actions| - 1], k) + Pump.Bit(Is(k, actions[|actions| - 1]))
  }

  // ---- commands -----------------------------------------------------------------------------------

  /** The reader holds a command that no handler has yet. */
  predicate InHand(r: Reader) { r.Acquire? || r.Add? || r.Go? }

  function Taken(s: State): nat { |s.handlers| + Pump.Bit(InHand(s.reader)) }

  lemma {:induction false} TakenStep(s: State, a: Action)
    requires Started(s) && Enabled(s, a)
    ensures Taken(Step(s, a)) + Pump.Bit(Is(ADrop, a)) == Taken(s) + Pump.Bit(Is(ACommand, a))
  {}

  /**
   No command is lost: those that were read are the handlers started, the one in the reader's hand, and
   those it gave up because the session was over, each of them once.
   */
  lemma {:induction false} CommandsAreHandled(s: State, actions: seq<Action>)
    requires Initial(s) && Run(s, actions).Some?
    ensures var t := Run(s, actions).value;
      Count(actions, ACommand) == |t.handlers| + Pump.Bit(InHand(t.reader)) + Count(actions, ADrop)
  {
    if actions == [] {
    } else {
      var before := actions[..|actions| - 1];
      CommandsAreHandled(s, before);
      Invariant(s, before);
      TakenStep(Run(s, before).value, actions[|actions| - 1]);
    }
  }

  // ---- one handler ----------------------------------------------------------------------------------

  predicate Returned(s: State, i: nat) { i < |s.handlers| && !s.handlers[i].Handle? }

  predicate Wrote(s: State, i: nat) { Returned(s, i) && !s.handlers[i].Write? }

  /** A step that moves handler `i` along its story by exactly what the action says. */
  ghost predicate Moves(s: State, a: Action, t: State, i: nat) {
    && Pump.Bit(Returned(t, i)) == Pump.Bit(Returned(s, i)) + Pump.Bit(Is(AReturn(i), a))
    && Pump.Bit(Wrote(t, i)) == Pump.Bit(Wrote(s, i)) + Pump.Bit(Is(AWrite(i), a))
    && multiset(t.sent.results)[i] == multiset(s.sent.results)[i] + Pump.Bit(Is(AResult(i), a))
  }

  lemma {:induction false} HandlerMoves(s: State, a: Action, i: nat)
    requires HandlerEnabled(s, a)
    ensures Moves(s, a, HandlerStep(s, a), i)
  {}

  lemma {:induction false} ReaderMoves(s: State, a: Action, i: nat)
    requires ReaderEnabled(s, a)
    ensures Moves(s, a, ReaderStep(s, a), i)
  {}

  lemma {:induction false} MainMoves(s: State, a: Action, i: nat)
    requires MainEnabled(s, a)
    ensures Moves(s, a, MainStep(s, a), i)
  {}

  lemma {:induction false} BeatMoves(s: State, a: Action, i: nat)
    requires BeatEnabled(s, a)
    ensures Moves(s, a, BeatStep(s, a), i)
  {}

  lemma {:induction false} StoryStep(s: State, a: Action, i: nat)
    requires Enabled(s, a)
    ensures Moves(s, a, Step(s, a), i)
  {
    hide MainStep, BeatStep, ReaderStep, HandlerStep, Moves;
    if MainEnabled(s, a) {
      MainMoves(s, a, i);
    } else if BeatEnabled(s, a) {
      BeatMoves(s, a, i);
    } else if ReaderEnabled(s, a) {
      ReaderMoves(s, a, i);
    } else {
      HandlerMoves(s, a, i);
    }
  }

  /**
   A handler gets past `handle` by one return of it, and past its write by one write; its result is
   sent once if that write succeeded, and never otherwise.
   */
  lemma {:induction false} HandlerStory(s: State, actions: seq<Action>, i: nat)
    requires Initial(s) && Run(s, actions).Some?
    ensures var t := Run(s, actions).value;
      && Count(actions, AReturn(i)) == Pump.Bit(Returned(t, i))
      && Count(actions, AWrite(i)) == Pump.Bit(Wrote(t, i))
      && multiset(t.sent.results)[i] == Count(actions, AResult(i)) <= Count(actions, AWrite(i))
  {
    if actions == [] {
    } else {
      var before := actions[..|actions| - 1];
      HandlerStory(s, before, i);
      StoryStep(Run(s, before).value, actions[|actions| - 1], i);
    }
  }

  // ---- the heartbeat --------------------------------------------------------------------------------

  /** Two frames for every tick: the heartbeat with the depth that was measured, then a ping. */
  function Beats(depths: seq<nat>): seq<BeatFrame> {
    if depths == [] then [] else Beats(depths[..|depths| - 1]) + [Heartbeat(depths[|depths| - 1]), Ping]
  }

  /** What was sent of them: all, or all but what the present tick still owes. */
  ghost predicate BeatsSent(b: Beat, depths: seq<nat>, sent: seq<BeatFrame>) {
    var n := |depths|;
    match b
    case Unborn => n == 0 && sent == []
    case Select => sent == Beats(depths)
    case WriteBeat(depth) => n > 0 && depth == depths[n - 1] && sent == Beats(depths[..n - 1])
    case WritePing => n > 0 && sent == Beats(depths[..n - 1]) + [Heartbeat(depths[n - 1])]
    case _ => sent <= Beats(depths) && |Beats(depths)| <= |sent| + 2
  }

  lemma {:induction false} BeatsOneMore(depths: seq<nat>, depth: nat)
    ensures (depths + [depth])[..|depths|] == depths
    ensures Beats(depths + [depth]) == Beats(depths) + [Heartbeat(depth), Ping]
  {
    assert (depths + [depth])[..|depths|] == depths;
  }

  lemma {:induction false} BeatsStep(s: State, a: Action)
    requires BeatsSent(s.beat, s.count.depths, s.sent.beats) && BeatEnabled(s, a)
    ensures var t := BeatStep(s, a); BeatsSent(t.beat, t.count.depths, t.sent.beats)
  {
    var d := s.count.depths;
    BeatsOneMore(d, s.count.sem);
    if d != [] {
      var last := d[|d| - 1];
      assert Beats(d[..|d| - 1]) + [Heartbeat(last)] + [Ping] == Beats(d);
    }
  }

  lemma {:induction false} OthersKeepBeats(s: State, a: Action)
    requires Started(s) && Enabled(s, a) && !BeatEnabled(s, a)
    requires BeatsSent(s.beat, s.count.depths, s.sent.beats)
    ensures var t := Step(s, a); BeatsSent(t.beat, t.count.depths, t.sent.beats)
  {}

  lemma {:induction false} DepthsStep(s: State, a: Action)
    requires Enabled(s, a)
    ensures |Step(s, a).count.depths| == |s.count.depths| + Pump.Bit(Is(ATick, a))
  {}

  /** Every tick of the heartbeat sends its two frames, in order, until a write fails or the session ends. */
  lemma {:induction false} TicksAreSent(s: State, actions: seq<Action>)
    requires Initial(s) && Run(s, actions).Some?
    ensures var t := Run(s, actions).value;
      |t.count.depths| == Count(actions, ATick) && BeatsSent(t.beat, t.count.depths, t.sent.beats)
  {
    if actions == [] {
    } else {
      var before, a := actions[..|actions| - 1], actions[|actions| - 1];
      var t := Run(s, before).value;
      TicksAreSent(s, before);
      Invariant(s, before);
      DepthsStep(t, a);
      if BeatEnabled(t, a) {
        BeatsStep(t, a);
      } else {
        OthersKeepBeats(t, a);
      }
    }
  }

  // ---- failures ---------------------------------------------------------------------------------------

  /** How often `e` was given to `fail` or is about to be. */
  function Known(s: State, e: Err): nat {
    multiset(s.errors.reported)[e]
    + Pump.Bit(s.beat == Beat.Fail(e)) + Pump.Bit(s.reader == Reader.Fail(e)) + Sum(Failing(e), s.handlers)
  }

  lemma {:induction false} MainKnows(s: State, a: Action, e: Err)
    requires MainEnabled(s, a) && Started(s)
    ensures Known(MainStep(s, a), e) == Known(s, e)
  {}

  lemma {:induction false} BeatKnows(s: State, a: Action, e: Err)
    requires BeatEnabled(s, a)
    ensures Known(BeatStep(s, a), e) == Known(s, e) + Pump.Bit(Is(AFailure(e), a))
  {}

  lemma {:induction false} ReaderKnows(s: State, a: Action, e: Err)
    requires ReaderEnabled(s, a)
    ensures Known(ReaderStep(s, a), e) == Known(s, e) + Pump.Bit(Is(AFailure(e), a))
  {
    hide Sum;
    SumAppend(Failing(e), s.handlers, Handle);
  }

  lemma {:induction false} HandlerKnows(s: State, a: Action, e: Err)
    requires HandlerEnabled(s, a)
    ensures Known(HandlerStep(s, a), e) == Known(s, e) + Pump.Bit(Is(AFailure(e), a))
  {
    hide Sum;
    SumUpdate(Failing(e), s.handlers, a.i, HandlerStep(s, a).handlers[a.i]);
  }

  lemma {:induction false} KnownStep(s: State, a: Action, e: Err)
    requires Enabled(s, a) && Started(s)
    ensures Known(Step(s, a), e) == Known(s, e) + Pump.Bit(Is(AFailure(e), a))
  {
    hide MainStep, BeatStep, ReaderStep, HandlerStep, Known;
    if MainEnabled(s, a) {
      MainKnows(s, a, e);
    } else if BeatEnabled(s, a) {
      BeatKnows(s, a, e);
    } else if ReaderEnabled(s, a) {
      ReaderKnows(s, a, e);
    } else {
      HandlerKnows(s, a, e);
    }
  }

  /** No failure is swallowed: each failed read or write is given to `fail` once, or is about to be. */
  lemma {:induction false} FailuresAreReported(s: State, actions: seq<Action>, e: Err)
    requires Initial(s) && Run(s, actions).Some?
    ensures Known(Run(s, actions).value, e) == Count(actions, AFailure(e))
  {
    if actions == [] {
    } else {
      var before := actions[..|actions| - 1];
      hide Enabled, Step, Known;
      FailuresAreReported(s, before, e);
      Invariant(s, before);
      KnownStep(Run(s, before).value, actions[|actions| - 1], e);
    }
  }

  // ---- and it can be done ---------------------------------------------------------------------------

  lemma {:induction false} OneMore(s: State, actions: seq<Action>, a: Action)
    requires Run(s, actions).Some? && Enabled(Run(s, actions).value, a)
    ensures Run(s, actions + [a]) == Some(Step(Run(s, actions).value, a))
  {
    assert (actions + [a])[..|actions|] == actions;
  }

  lemma {:induction false} RunOn(s: State, actions: seq<Action>, more: seq<Action>)
    requires Run(s, actions).Some? && Run(Run(s, actions).value, more).Some?
    ensures Run(s, actions + more) == Run(Run(s, actions).value, more)
  {
    if more == [] {
      assert actions + more == actions;
    } else {
      var n := |more| - 1;
      RunOn(s, actions, more[..n]);
      OneMore(s, actions + more[..n], more[n]);
      assert actions + more == actions + more[..n] + [more[n]];
    }
  }

  lemma {:induction false} First(s: State, a: Action)
    requires Enabled(s, a)
    ensures Run(s, [a]) == Some(Step(s, a))
  {
    OneMore(s, [], a);
  }

  lemma {:induction false} Then(s: State, actions: seq<Action>, t: State, a: Action) returns (more: seq<Action>)
    requires Run(s, actions) == Some(t) && Enabled(t, a)
    ensures more == actions + [a] && Run(s, more) == Some(Step(t, a))
  {
    OneMore(s, actions, a);
    more := actions + [a];
  }

  /** A handler that holds a slot can be brought to give it up, whatever stage it is at. */
  lemma {:induction false} SlotComes(s: State, i: nat) returns (more: seq<Action>)
    requires i < |s.handlers| && !s.handlers[i].Done? && !s.handlers[i].Ended? && s.count.sem > 0
    ensures Run(s, more).Some?
    ensures var t := Run(s, more).value;
      && t.reader == s.reader && t.ctl == s.ctl && t.max == s.max && t.count.sem == s.count.sem - 1
      && |t.handlers| == |s.handlers|
    decreases Weigh(Remaining, s.handlers[i])
  {
    var h := s.handlers[i];
    var a := if h.Handle? then HandlerReturn(i) else if h.Write? then HandlerWrite(i, Some(0)) else HandlerNext(i);
    First(s, a);
    more := [a];
    if !h.Release? {
      var rest := SlotComes(Step(s, a), i);
      RunOn(s, [a], rest);
      more := [a] + rest;
    }
  }

  lemma {:induction false} SomeHolding(hs: seq<Handler>) returns (i: nat)
    requires Sum(Holding, hs) > 0
    ensures i < |hs| && !hs[i].Done? && !hs[i].Ended?
  {
    var n := |hs| - 1;
    if Weigh(Holding, hs[n]) == 0 {
      i := SomeHolding(hs[..n]);
    } else {
      i := n;
    }
  }

  lemma {:induction false} HandlerStarts(s: State) returns (more: seq<Action>)
    requires s.reader.Acquire? && s.count.sem < s.max
    ensures Run(s, more).Some?
    ensures var t := Run(s, more).value;
      && t.reader.SetDeadline? && t.handlers == s.handlers + [Handle]
      && t.sent == s.sent && t.ctl == s.ctl && t.errors == s.errors
  {
    First(s, ReaderAcquire);
    var t := Step(s, ReaderAcquire);
    more := Then(s, [ReaderAcquire], t, ReaderNext);
    more := Then(s, more, Step(t, ReaderNext), ReaderNext);
  }

  lemma {:induction false} ResultIsSent(s: State, i: nat) returns (more: seq<Action>)
    requires i < |s.handlers| && s.handlers[i].Handle? && s.ctl.open
    ensures Run(s, more).Some?
    ensures var t := Run(s, more).value;
      t.reader == s.reader && t.sent.results == s.sent.results + [i] && t.errors == s.errors
  {
    First(s, HandlerReturn(i));
    more := Then(s, [HandlerReturn(i)], Step(s, HandlerReturn(i)), HandlerWrite(i, None));
  }

  /** With a free slot and an open socket, the reader's command gets a handler and its result is sent. */
  lemma {:induction false} AnswerWithSlot(s: State) returns (more: seq<Action>)
    requires s.reader.Acquire? && s.count.sem < s.max && s.ctl.open
    ensures Run(s, more).Some?
    ensures var t := Run(s, more).value;
      t.reader.SetDeadline? && t.sent.results == s.sent.results + [|s.handlers|] && t.errors == s.errors
  {
    hide Enabled, Step;
    var start := HandlerStarts(s);
    var rest := ResultIsSent(Run(s, start).value, |s.handlers|);
    RunOn(s, start, rest);
    more := start + rest;
  }

  /** When all slots are taken, one of their handlers can finish first. */
  lemma {:induction false} AnswerComes(s: State) returns (more: seq<Action>)
    requires Inv(s) && s.reader.Acquire? && s.ctl.open
    ensures Run(s, more).Some?
    ensures var t := Run(s, more).value;
      t.reader.SetDeadline? && |t.sent.results| > 0 && t.sent.results[|t.sent.results| - 1] == |s.handlers|
  {
    hide Enabled, Step;
    if s.count.sem < s.max {
      more := AnswerWithSlot(s);
    } else {
      var i := SomeHolding(s.handlers);
      var freed := SlotComes(s, i);
      var rest := AnswerWithSlot(Run(s, freed).value);
      RunOn(s, freed, rest);
      more := freed + rest;
    }
  }

  lemma {:induction false} Reached(s: State, actions: seq<Action>)
    requires Initial(s) && Run(s, actions).Some?
    ensures Inv(Run(s, actions).value)
  {
    Invariant(s, actions);
  }

  /** A reader in its loop on an open socket can be given a command. */
  lemma {:induction false} CommandCanCome(s: State) returns (more: seq<Action>)
    requires (s.reader.SetDeadline? || s.reader.Read?) && s.ctl.open
    ensures Run(s, more) == Some(s.(reader := Reader.Acquire))
  {
    if s.reader.Read? {
      First(s, ReaderRead(Command));
      more := [ReaderRead(Command)];
    } else {
      First(s, ReaderNext);
      more := Then(s, [ReaderNext], Step(s, ReaderNext), ReaderRead(Command));
    }
  }

  /**
   From every state of every run in which the socket is open and the reader waits for a command or holds
   one, the run can go on so that it is answered.
   */
  lemma {:induction false} CommandCanBeAnswered(s: State, actions: seq<Action>) returns (more: seq<Action>)
    requires Initial(s) && Run(s, actions).Some? && Run(s, actions).value.ctl.open
    requires var r := Run(s, actions).value.reader; r.SetDeadline? || r.Read? || r.Acquire?
    ensures Run(s, actions + more).Some?
    ensures var t, t' := Run(s, actions).value, Run(s, actions + more).value;
      t'.reader.SetDeadline? && |t'.sent.results| > 0 && t'.sent.results[|t'.sent.results| - 1] == |t.handlers|
  {
    hide Enabled, Step, Inv, Initial;
    var t := Run(s, actions).value;
    var come: seq<Action> := [];
    if !t.reader.Acquire? {
      come := CommandCanCome(t);
    }
    RunOn(s, actions, come);
    Reached(s, actions + come);
    var rest := AnswerComes(Run(t, come).value);
    more := come + rest;
    RunOn(t, come, rest);
    RunOn(s, actions, more);
  }

  /** And `pump` starts both goroutines: four steps of main lead to such a state. */
  lemma {:induction false} PumpStarts(s: State) returns (more: seq<Action>)
    requires Initial(s)
    ensures Run(s, more).Some?
    ensures var t := Run(s, more).value;
      t.main.Select? && t.beat.Select? && t.reader.SetDeadline? && t.ctl == s.ctl && t.count.wg == 2
  {
    First(s, MainNext);
    var t := Step(s, MainNext);
    more := Then(s, [MainNext], t, MainNext);
    t := Step(t, MainNext);
    more := Then(s, more, t, MainNext);
    more := Then(s, more, Step(t, MainNext), MainNext);
  }

  /** And a heartbeat in its loop can tick and send both frames. */
  lemma {:induction false} TickCanBeSent(s: State) returns (more: seq<Action>)
    requires s.beat.Select? && s.ctl.open
    ensures Run(s, more).Some?
    ensures var t := Run(s, more).value;
      t.beat.Select? && t.sent.beats == s.sent.beats + [Heartbeat(s.count.sem), Ping]
  {
    First(s, BeatTick);
    var t := Step(s, BeatTick);
    more := Then(s, [BeatTick], t, BeatWrite(None));
    more := Then(s, more, Step(t, BeatWrite(None)), BeatWrite(None));
  }

  // ---- and it can be ended --------------------------------------------------------------------------

  function MainLeft(m: Main): nat {
    match m
    case AddBeat => 7 case GoBeat => 6 case AddReader => 5 case GoReader => 4 case Select => 3
    case Cancel(_) => 2 case Close(_) => 1 case Wait(_) => 0 case Returned(_) => 0
  }

  lemma {:induction false} InvStep(s: State, a: Action)
    requires Inv(s) && Enabled(s, a)
    ensures Inv(Step(s, a))
  {
    First(s, a);
    Invariant(s, [a]);
  }

  /** Main can be brought to close the socket: cancelling the parent context is enough. */
  lemma {:induction false} SocketCanClose(s: State) returns (more: seq<Action>)
    requires Inv(s)
    ensures Run(s, more).Some? && Inv(Run(s, more).value) && !Run(s, more).value.ctl.open
    decreases MainLeft(s.main), Pump.Bit(!s.ctl.parent)
  {
    if !s.ctl.open {
      more := [];
    } else {
      var a := if !s.main.Select? then MainNext else if s.ctl.cancelled then MainDone else ParentCancels;
      InvStep(s, a);
      First(s, a);
      var rest := SocketCanClose(Step(s, a));
      RunOn(s, [a], rest);
      more := [a] + rest;
    }
  }

  /** With the socket closed, stepping wherever a step is possible ends in the return. */
  lemma {:induction false} ReturnComes(s: State) returns (more: seq<Action>)
    requires Inv(s) && !s.ctl.open
    ensures Run(s, more).Some? && Run(s, more).value.main.Returned?
    decreases StepsLeft(s)
  {
    hide Inv, Enabled, Step, StepsLeft;
    if s.main.Returned? {
      more := [];
    } else {
      var a := NoDeadlock(s);
      InvStep(s, a);
      StepsFall(s, a);
      First(s, a);
      var rest := ReturnComes(Step(s, a));
      RunOn(s, [a], rest);
      more := [a] + rest;
    }
  }

  /** From every state of every run there is a way to the end of it: `pump` is never past ending. */
  lemma {:induction false} PumpCanReturn(s: State, actions: seq<Action>) returns (more: seq<Action>)
    requires Initial(s) && Run(s, actions).Some?
    ensures Run(s, actions + more).Some? && Run(s, actions + more).value.main.Returned?
  {
    hide Inv, Enabled, Step, Initial;
    Reached(s, actions);
    var t := Run(s, actions).value;
    var close := SocketCanClose(t);
    var rest := ReturnComes(Run(t, close).value);
    more := close + rest;
    RunOn(t, close, rest);
    RunOn(s, actions, more);
  }
}
