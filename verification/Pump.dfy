/**
 `pump`: the main goroutine, the heartbeat, the reader and the command handlers of one session, as a
 step system. Every statement that another goroutine can observe is a step of its own, and any
 goroutine may take the next step; what the network and the tools do is chosen freely.
 */
module Pump {
  import opened Bytes

  type Err = nat

  /** The main goroutine, by the statement it is about to execute. */
  datatype Main =
    | AddBeat | GoBeat | AddReader | GoReader
    | Select                        // errCh or ctx.Done
    | Cancel(err: Err)
    | Close(result: Option<Err>)
    | Wait(result: Option<Err>)
    | Returned(result: Option<Err>)

  datatype Beat = Unborn | Select | WriteBeat(depth: nat) | WritePing | Fail(err: Err) | Done | Ended

  datatype Reader =
    | Unborn
    | SetDeadline                   // at the head of ReadMessage's loop
    | Read                          // waiting for a frame
    | Acquire                       // holding a command: a semaphore slot or ctx.Done
    | Add
    | Go
    | Fail(err: Err)
    | Done
    | Ended

  datatype Handler = Handle | Write | Fail(err: Err) | Release | Done | Ended

  /** What a wait for one frame can end with, as far as the reader's next statement goes. */
  datatype Outcome = Again | Command | Error(err: Err)

  /** The WaitGroup, the occupied semaphore slots, and the queue depths sent in heartbeats. */
  datatype Counters = Counters(wg: int, sem: nat, depths: seq<nat>)

  /** The error channel's one slot, and every error given to `fail`, in order. */
  datatype Errors = Errors(ch: Option<Err>, reported: seq<Err>) {
    function Fail(e: Err): Errors { Errors(if ch == None then Some(e) else ch, reported + [e]) }
  }

  /** The session's own context, the one it was derived from, and the socket. */
  datatype Control = Control(cancelled: bool, parent: bool, open: bool)

  datatype BeatFrame = Heartbeat(depth: nat) | Ping

  /** What was written: by the heartbeat, and the handlers whose results were, in order. */
  datatype Traffic = Traffic(beats: seq<BeatFrame>, results: seq<nat>)

  datatype State = State(main: Main, beat: Beat, reader: Reader, handlers: seq<Handler>, max: nat,
                         count: Counters, errors: Errors, ctl: Control, sent: Traffic)

  datatype Action =
    | MainNext                      // the only statement main can execute next, outside its select
    | MainError                     // the two arms of main's select
    | MainDone
    | ParentCancels
    | BeatTick | BeatDone           // the two arms of the heartbeat's select
    | BeatWrite(failure: Option<Err>)
    | BeatNext
    | ReaderRead(outcome: Outcome)
    | ReaderAcquire | ReaderDone    // the two arms of the reader's select
    | ReaderNext
    | HandlerReturn(i: nat)         // `handle` returns
    | HandlerWrite(i: nat, failure: Option<Err>)
    | HandlerNext(i: nat)

  // ---- counting ---------------------------------------------------------------------------------

  datatype Weight = Live | Holding | Inside | Failing(err: Err) | Remaining

  function Weigh(w: Weight, h: Handler): nat {
    match w
    case Live => if h.Ended? then 0 else 1
    case Holding => if h.Ended? || h.Done? then 0 else 1
    case Inside => if h.Handle? then 1 else 0
    case Failing(e) => if h == Handler.Fail(e) then 1 else 0
    case Remaining =>
      match h case Handle => 5 case Write => 4 case Fail(_) => 3 case Release => 2 case Done => 1 case Ended => 0
  }

  /** How many handlers are live, hold a semaphore slot, are inside `handle`, hold an error; or their steps left. */
  function Sum(w: Weight, hs: seq<Handler>): nat {
    if hs == [] then 0 else Sum(w, hs[..|hs| - 1]) + Weigh(w, hs[|hs| - 1])
  }

  lemma {:induction false} SumAppend(w: Weight, hs: seq<Handler>, h: Handler)
    ensures Sum(w, hs + [h]) == Sum(w, hs) + Weigh(w, h)
  {
    assert (hs + [h])[..|hs|] == hs;
  }

  lemma {:induction false} SumUpdate(w: Weight, hs: seq<Handler>, i: nat, h: Handler)
    requires i < |hs|
    ensures Sum(w, hs[i := h]) == Sum(w, hs) - Weigh(w, hs[i]) + Weigh(w, h)
    ensures Weigh(w, hs[i]) <= Sum(w, hs)
  {
    var n := |hs| - 1;
    if i < n {
      SumUpdate(w, hs[..n], i, h);
      assert hs[i := h][..n] == hs[..n][i := h];
    } else {
      assert hs[i := h][..n] == hs[..n];
    }
  }

  lemma {:induction false} InsideHolds(hs: seq<Handler>)
    ensures Sum(Inside, hs) <= Sum(Holding, hs) <= Sum(Live, hs)
  {
    if hs == [] {
    } else {
      InsideHolds(hs[..|hs| - 1]);
    }
  }

  lemma {:induction false} NoneLive(hs: seq<Handler>)
    ensures Sum(Live, hs) == 0 <==> forall h :: h in hs ==> h.Ended?
  {
    if hs == [] {
    } else {
      var n := |hs| - 1;
      NoneLive(hs[..n]);
      assert hs == hs[..n] + [hs[n]];
    }
  }

  // ---- steps ------------------------------------------------------------------------------------

  predicate MainEnabled(s: State, a: Action) {
    match a
    case MainNext =>
      (s.main.AddBeat? || s.main.GoBeat? || s.main.AddReader? || s.main.GoReader? || s.main.Cancel? || s.main.Close?)
      || (s.main.Wait? && s.count.wg == 0)
    case MainError => s.main.Select? && s.errors.ch.Some?
    case MainDone => s.main.Select? && s.ctl.cancelled
    case ParentCancels => !s.ctl.parent
    case _ => false
  }

  function MainStep(s: State, a: Action): State
    requires MainEnabled(s, a)
  {
    match a
    case MainError => s.(main := Main.Cancel(s.errors.ch.value), errors := s.errors.(ch := None))
    case MainDone => s.(main := Main.Close(None))
    case ParentCancels => s.(ctl := s.ctl.(parent := true, cancelled := true))
    case MainNext =>
      match s.main
      case AddBeat => s.(main := Main.GoBeat, count := s.count.(wg := s.count.wg + 1))
      case GoBeat => s.(main := Main.AddReader, beat := Beat.Select)
      case AddReader => s.(main := Main.GoReader, count := s.count.(wg := s.count.wg + 1))
      case GoReader => s.(main := Main.Select, reader := Reader.SetDeadline)
      case Cancel(e) => s.(main := Main.Close(Some(e)), ctl := s.ctl.(cancelled := true))
      case Close(result) => s.(main := Main.Wait(result), ctl := s.ctl.(open := false))
      case Wait(result) => s.(main := Main.Returned(result), ctl := s.ctl.(cancelled := true))
  }

  predicate BeatEnabled(s: State, a: Action) {
    match a
    case BeatTick => s.beat.Select?
    case BeatDone => s.beat.Select? && s.ctl.cancelled
    case BeatWrite(failure) => (s.beat.WriteBeat? || s.beat.WritePing?) && (failure == None ==> s.ctl.open)
    case BeatNext => s.beat.Fail? || s.beat.Done?
    case _ => false
  }

  function BeatStep(s: State, a: Action): State
    requires BeatEnabled(s, a)
  {
    match a
    case BeatTick =>
      s.(beat := Beat.WriteBeat(s.count.sem), count := s.count.(depths := s.count.depths + [s.count.sem]))
    case BeatDone => s.(beat := Beat.Done)
    case BeatWrite(failure) =>
      if failure.Some? then s.(beat := Beat.Fail(failure.value))
      else if s.beat.WriteBeat? then
        s.(beat := Beat.WritePing, sent := s.sent.(beats := s.sent.beats + [Heartbeat(s.beat.depth)]))
      else s.(beat := Beat.Select, sent := s.sent.(beats := s.sent.beats + [Ping]))
    case BeatNext =>
      if s.beat.Fail? then s.(beat := Beat.Done, errors := s.errors.Fail(s.beat.err))
      else s.(beat := Beat.Ended, count := s.count.(wg := s.count.wg - 1))
  }

  /** On a closed socket no deadline can be set; a read already under way may end in any way. */
  predicate ReaderEnabled(s: State, a: Action) {
    match a
    case ReaderRead(outcome) => s.reader.Read? || (s.reader.SetDeadline? && outcome.Error?)
    case ReaderAcquire => s.reader.Acquire? && s.count.sem < s.max
    case ReaderDone => s.reader.Acquire? && s.ctl.cancelled
    case ReaderNext =>
      || (s.reader.SetDeadline? && s.ctl.open) || s.reader.Add? || s.reader.Go? || s.reader.Fail? || s.reader.Done?
    case _ => false
  }

  function ReaderStep(s: State, a: Action): State
    requires ReaderEnabled(s, a)
  {
    match a
    case ReaderRead(outcome) =>
      (match outcome
       case Again => s.(reader := Reader.SetDeadline)
       case Command => s.(reader := Reader.Acquire)
       case Error(e) => s.(reader := Reader.Fail(e)))
    case ReaderAcquire => s.(reader := Reader.Add, count := s.count.(sem := s.count.sem + 1))
    case ReaderDone => s.(reader := Reader.Done)
    case ReaderNext =>
      match s.reader
      case SetDeadline => s.(reader := Reader.Read)
      case Add => s.(reader := Reader.Go, count := s.count.(wg := s.count.wg + 1))
      case Go => s.(reader := Reader.SetDeadline, handlers := s.handlers + [Handle])
      case Fail(e) => s.(reader := Reader.Done, errors := s.errors.Fail(e))
      case Done => s.(reader := Reader.Ended, count := s.count.(wg := s.count.wg - 1))
  }

  predicate HandlerEnabled(s: State, a: Action) {
    match a
    case HandlerReturn(i) => i < |s.handlers| && s.handlers[i].Handle?
    case HandlerWrite(i, failure) => i < |s.handlers| && s.handlers[i].Write? && (failure == None ==> s.ctl.open)
    case HandlerNext(i) =>
      i < |s.handlers| && (s.handlers[i].Fail? || (s.handlers[i].Release? && s.count.sem > 0) || s.handlers[i].Done?)
    case _ => false
  }

  /** The deferred calls run last first: the semaphore is released before `wg.Done`. */
  function HandlerStep(s: State, a: Action): State
    requires HandlerEnabled(s, a)
  {
    match a
    case HandlerReturn(i) => s.(handlers := s.handlers[i := Handler.Write])
    case HandlerWrite(i, failure) =>
      if failure.Some? then s.(handlers := s.handlers[i := Handler.Fail(failure.value)])
      else s.(handlers := s.handlers[i := Handler.Release], sent := s.sent.(results := s.sent.results + [i]))
    case HandlerNext(i) =>
      match s.handlers[i]
      case Fail(e) => s.(handlers := s.handlers[i := Handler.Release], errors := s.errors.Fail(e))
      case Release => s.(handlers := s.handlers[i := Handler.Done], count := s.count.(sem := s.count.sem - 1))
      case Done => s.(handlers := s.handlers[i := Handler.Ended], count := s.count.(wg := s.count.wg - 1))
  }

  predicate Enabled(s: State, a: Action) {
    MainEnabled(s, a) || BeatEnabled(s, a) || ReaderEnabled(s, a) || HandlerEnabled(s, a)
  }

  function Step(s: State, a: Action): State
    requires Enabled(s, a)
  {
    if MainEnabled(s, a) then MainStep(s, a)
    else if BeatEnabled(s, a) then BeatStep(s, a)
    else if ReaderEnabled(s, a) then ReaderStep(s, a)
    else HandlerStep(s, a)
  }

  /** `pump` is called with an open socket and a context that may be cancelled already. */
  predicate Initial(s: State) {
    && s.main.AddBeat? && s.beat.Unborn? && s.reader.Unborn? && s.handlers == []
    && s.count.wg == 0 && s.count.sem == 0 && s.max >= 1
    && s.errors.ch == None && s.ctl.open && s.ctl.cancelled == s.ctl.parent && s.sent == Traffic([], [])
    && s.errors.reported == [] && s.count.depths == []
  }

  /** The state after a run of enabled actions; None when one of them was not enabled. */
  function Run(s: State, actions: seq<Action>): Option<State> {
    if actions == [] then Some(s) else
    var last := actions[|actions| - 1];
    match Run(s, actions[..|actions| - 1])
    case None => None
    case Some(t) => if Enabled(t, last) then Some(Step(t, last)) else None
  }

  // ---- the invariant ----------------------------------------------------------------------------

  function Bit(b: bool): nat { if b then 1 else 0 }

  /** Goroutines that were counted and have not ended: heartbeat, reader, the one to be started. */
  function Others(m: Main, b: Beat, r: Reader): nat {
    Bit(!m.AddBeat? && !b.Ended?)
    + Bit(!(m.AddBeat? || m.GoBeat? || m.AddReader?) && !r.Ended?) + Bit(r.Go?)
  }

  function Goroutines(s: State): nat { Others(s.main, s.beat, s.reader) + Sum(Live, s.handlers) }

  predicate Started(s: State) {
    && (s.beat.Unborn? <==> s.main.AddBeat? || s.main.GoBeat?)
    && (s.reader.Unborn? <==> s.main.AddBeat? || s.main.GoBeat? || s.main.AddReader? || s.main.GoReader?)
  }

  function Slot(r: Reader): nat { Bit(r.Add? || r.Go?) }

  predicate Counted(s: State) {
    && s.count.wg == Goroutines(s)
    && s.count.sem == Sum(Holding, s.handlers) + Slot(s.reader)
    && s.count.sem <= s.max
    && (s.main.Returned? ==> s.count.wg == 0)
  }

  ghost predicate DepthsBounded(s: State) {
    forall i :: 0 <= i < |s.count.depths| ==> s.count.depths[i] <= s.max
  }

  /** The result main is about to return, once it has one. */
  function Result(m: Main): Option<Err> {
    match m case Cancel(e) => Some(e) case Close(r) => r case Wait(r) => r case Returned(r) => r case _ => None
  }

  predicate Stopping(m: Main) { m.Cancel? || m.Close? || m.Wait? || m.Returned? }

  predicate Reports(m: Main, e: Errors, c: Control) {
    && (c.parent ==> c.cancelled)
    && (!Stopping(m) ==> e.ch == (if e.reported == [] then None else Some(e.reported[0])) && c.cancelled == c.parent)
    && (Stopping(m) ==> if Result(m).Some? then e.reported != [] && Result(m).value == e.reported[0] else c.parent)
    && (m.Close? || m.Wait? || m.Returned? ==> c.cancelled)
    && (m.Wait? || m.Returned? <==> !c.open)
  }

  /** A heartbeat or reader that left its loop gave an error to `fail` or saw the context cancelled. */
  predicate Noticed(s: State) {
    s.beat.Done? || s.beat.Ended? || s.reader.Done? || s.reader.Ended? ==> s.errors.reported != [] || s.ctl.cancelled
  }

  ghost predicate Inv(s: State) {
    Noticed(s) && Started(s) && Counted(s) && DepthsBounded(s) && Reports(s.main, s.errors, s.ctl) && s.max >= 1
  }

  lemma {:induction false} MainKeepsInv(s: State, a: Action)
    requires Inv(s) && MainEnabled(s, a)
    ensures Inv(MainStep(s, a))
  {}

  /** `fail` drops every error but the first. */
  lemma {:induction false} FailKeepsReports(m: Main, e: Errors, c: Control, err: Err)
    requires Reports(m, e, c)
    ensures Reports(m, e.Fail(err), c)
  {
    assert e.reported != [] ==> (e.reported + [err])[0] == e.reported[0];
  }

  lemma {:induction false} BeatKeepsCounted(s: State, a: Action)
    requires Started(s) && Counted(s) && BeatEnabled(s, a)
    ensures Started(BeatStep(s, a)) && Counted(BeatStep(s, a))
  {}

  lemma {:induction false} BeatKeepsInv(s: State, a: Action)
    requires Inv(s) && BeatEnabled(s, a)
    ensures Inv(BeatStep(s, a))
  {
    if s.beat.Fail? { FailKeepsReports(s.main, s.errors, s.ctl, s.beat.err); }
    BeatKeepsCounted(s, a);
  }

  /** Starting a handler hands it the reader's slot and the count added for it. */
  lemma {:induction false} ReaderHandlers(s: State, a: Action)
    requires ReaderEnabled(s, a)
    ensures var s' := ReaderStep(s, a);
      && Sum(Live, s'.handlers) == Sum(Live, s.handlers) + Bit(s.reader.Go?)
      && Sum(Holding, s'.handlers) == Sum(Holding, s.handlers) + Bit(s.reader.Go?)
  {
    if s.reader.Go? {
      SumAppend(Live, s.handlers, Handler.Handle);
      SumAppend(Holding, s.handlers, Handler.Handle);
    }
  }

  /** What a step of the reader adds to both counters. */
  lemma {:induction false} ReaderCounts(s: State, a: Action)
    requires ReaderEnabled(s, a)
    ensures var s' := ReaderStep(s, a);
      && s'.main == s.main && s'.beat == s.beat && s'.max == s.max && !s'.reader.Unborn? && !s.reader.Unborn?
      && s'.count.wg - s.count.wg == Bit(s.reader.Add?) - Bit(s.reader.Done?)
      && (s'.reader.Go? <==> s.reader.Add?) && (s'.reader.Ended? <==> s.reader.Done?) && !s.reader.Ended?
      && s'.count.sem - s.count.sem == Bit(a.ReaderAcquire?) && (a.ReaderAcquire? ==> s.count.sem < s.max)
      && Slot(s'.reader) - Slot(s.reader) == Bit(a.ReaderAcquire?) - Bit(s.reader.Go?)
  {}

  lemma {:induction false} ReaderKeepsCounted(s: State, a: Action)
    requires Started(s) && Counted(s) && ReaderEnabled(s, a)
    ensures Started(ReaderStep(s, a)) && Counted(ReaderStep(s, a))
  {
    ReaderHandlers(s, a);
    ReaderCounts(s, a);
  }

  lemma {:induction false} ReaderKeepsInv(s: State, a: Action)
    requires Inv(s) && ReaderEnabled(s, a)
    ensures Inv(ReaderStep(s, a))
  {
    if s.reader.Fail? { FailKeepsReports(s.main, s.errors, s.ctl, s.reader.err); }
    ReaderKeepsCounted(s, a);
  }

  lemma {:induction false} HandlerKeepsInv(s: State, a: Action)
    requires Inv(s) && HandlerEnabled(s, a)
    ensures Inv(HandlerStep(s, a))
  {
    var h := s.handlers[a.i];
    if h.Fail? { FailKeepsReports(s.main, s.errors, s.ctl, h.err); }
    HandlerKeepsCounted(s, a);
  }

  /** A step of a handler changes each counter as it changes the count. */
  lemma {:induction false} HandlerCounts(s: State, a: Action)
    requires HandlerEnabled(s, a)
    ensures var s' := HandlerStep(s, a);
      && s'.main == s.main && s'.beat == s.beat && s'.reader == s.reader && s'.max == s.max
      && s'.count.wg - s.count.wg == Sum(Live, s'.handlers) - Sum(Live, s.handlers) <= 0
      && s'.count.sem - s.count.sem == Sum(Holding, s'.handlers) - Sum(Holding, s.handlers) <= 0
      && Sum(Live, s.handlers) > 0
  {
    SumUpdate(Live, s.handlers, a.i, HandlerStep(s, a).handlers[a.i]);
    SumUpdate(Holding, s.handlers, a.i, HandlerStep(s, a).handlers[a.i]);
  }

  lemma {:induction false} HandlerKeepsCounted(s: State, a: Action)
    requires Started(s) && Counted(s) && HandlerEnabled(s, a)
    ensures Started(HandlerStep(s, a)) && Counted(HandlerStep(s, a))
  {
    HandlerCounts(s, a);
  }

  lemma {:induction false} Invariant(s: State, actions: seq<Action>)
    requires Inv(s) && Run(s, actions).Some?
    ensures Inv(Run(s, actions).value)
  {
    if actions == [] {
    } else {
      var t, a := Run(s, actions[..|actions| - 1]).value, actions[|actions| - 1];
      Invariant(s, actions[..|actions| - 1]);
      if MainEnabled(t, a) { MainKeepsInv(t, a); }
      else if BeatEnabled(t, a) { BeatKeepsInv(t, a); }
      else if ReaderEnabled(t, a) { ReaderKeepsInv(t, a); }
      else { HandlerKeepsInv(t, a); }
    }
  }

  // ---- what follows ------------------------------------------------------------------------------

  /**
   Shutdown safety, in every state of every run: the WaitGroup counts the live goroutines; the
   reader's `Add` runs while that count is at least one, so never beside a finished `Wait`; `pump`
   has returned only when the heartbeat, the reader and every handler have ended; it returns the
   first error anyone reported, and nil only when the parent context was cancelled.
   */
  lemma {:induction false} PumpReturnsLast(s: State, actions: seq<Action>)
    requires Initial(s) && Run(s, actions).Some?
    ensures var t := Run(s, actions).value;
      && t.count.wg == Goroutines(t)
      && (t.reader.Add? ==> t.count.wg >= 1 && !t.main.Returned?)
      && (t.main.Returned? ==> t.beat.Ended? && t.reader.Ended? && forall h :: h in t.handlers ==> h.Ended?)
      && (t.main.Returned? ==>
        match t.main.result
        case Some(e) => t.errors.reported != [] && e == t.errors.reported[0]
        case None => t.ctl.parent)
  {
    Invariant(s, actions);
    NoneLive(Run(s, actions).value.handlers);
  }

  /**
   Concurrency bound, in every state of every run: semaphore occupancy is the handlers that have not
   released it plus the slot the reader took for the handler it is about to start; no more than `max`
   commands are being handled, and no heartbeat reports a greater depth.
   */
  lemma {:induction false} ConcurrencyBound(s: State, actions: seq<Action>)
    requires Initial(s) && Run(s, actions).Some?
    ensures var t := Run(s, actions).value;
      && t.count.sem == Sum(Holding, t.handlers) + Slot(t.reader)
      && Sum(Inside, t.handlers) <= t.count.sem <= s.max
      && forall i :: 0 <= i < |t.count.depths| ==> t.count.depths[i] <= s.max
  {
    Invariant(s, actions);
    MaxIsFixed(s, actions);
    InsideHolds(Run(s, actions).value.handlers);
  }

  lemma {:induction false} MaxIsFixed(s: State, actions: seq<Action>)
    requires Run(s, actions).Some?
    ensures Run(s, actions).value.max == s.max
  {
    if actions == [] {
    } else {
      MaxIsFixed(s, actions[..|actions| - 1]);
    }
  }

  /**
   No half-dead session: once the heartbeat or the reader has ended, main can leave its select and
   shut the session down, or has begun to.
   */
  lemma {:induction false} NoHalfDeadSession(s: State, actions: seq<Action>)
    requires Initial(s) && Run(s, actions).Some?
    ensures var t := Run(s, actions).value;
      t.beat.Ended? || t.reader.Ended? ==>
        Stopping(t.main) || Enabled(t, MainError) || Enabled(t, MainDone) || Enabled(t, MainNext)
  {
    Invariant(s, actions);
  }

  // ---- shutdown ends -----------------------------------------------------------------------------

  function BeatLeft(b: Beat): nat {
    match b
    case Select => 4 case WriteBeat(_) => 3 case WritePing => 3 case Fail(_) => 2 case Done => 1
    case Unborn => 0 case Ended => 0
  }

  /** The reader may still start one handler, which then has its own steps to take. */
  function ReaderLeft(r: Reader): nat {
    match r
    case Read => 13 case Acquire => 12 case Add => 11 case Go => 10 case SetDeadline => 3 case Fail(_) => 2
    case Done => 1 case Unborn => 0 case Ended => 0
  }

  /** A bound on the steps left once the socket is closed. */
  function StepsLeft(s: State): nat {
    Bit(!s.ctl.parent) + Bit(s.main.Wait?) + BeatLeft(s.beat) + ReaderLeft(s.reader) + Sum(Remaining, s.handlers)
  }

  lemma {:induction false} HandlerFalls(s: State, a: Action)
    requires HandlerEnabled(s, a) && !s.ctl.open
    ensures StepsLeft(HandlerStep(s, a)) < StepsLeft(s) && !HandlerStep(s, a).ctl.open
  {
    SumUpdate(Remaining, s.handlers, a.i, HandlerStep(s, a).handlers[a.i]);
  }

  lemma {:induction false} ReaderFalls(s: State, a: Action)
    requires ReaderEnabled(s, a) && !s.ctl.open
    ensures StepsLeft(ReaderStep(s, a)) < StepsLeft(s) && !ReaderStep(s, a).ctl.open
  {
    if a.ReaderNext? && s.reader.Go? {
      SumAppend(Remaining, s.handlers, Handle);
    }
  }

  lemma {:induction false} BeatFalls(s: State, a: Action)
    requires BeatEnabled(s, a) && !s.ctl.open
    ensures StepsLeft(BeatStep(s, a)) < StepsLeft(s) && !BeatStep(s, a).ctl.open
  {}

  lemma {:induction false} MainFalls(s: State, a: Action)
    requires Reports(s.main, s.errors, s.ctl) && MainEnabled(s, a) && !s.ctl.open
    ensures StepsLeft(MainStep(s, a)) < StepsLeft(s) && !MainStep(s, a).ctl.open
  {}

  /** With the socket closed, every step of any goroutine brings the end nearer. */
  lemma {:induction false} StepsFall(s: State, a: Action)
    requires Inv(s) && !s.ctl.open && Enabled(s, a)
    ensures StepsLeft(Step(s, a)) < StepsLeft(s) && !Step(s, a).ctl.open
  {
    if MainEnabled(s, a) { MainFalls(s, a); }
    else if BeatEnabled(s, a) { BeatFalls(s, a); }
    else if ReaderEnabled(s, a) { ReaderFalls(s, a); }
    else { HandlerFalls(s, a); }
  }

  /** So no run goes on for longer than that. */
  lemma {:induction false} ShutdownIsBounded(s: State, actions: seq<Action>)
    requires Inv(s) && !s.ctl.open && Run(s, actions).Some?
    ensures |actions| + StepsLeft(Run(s, actions).value) <= StepsLeft(s) && !Run(s, actions).value.ctl.open
  {
    if actions == [] {
    } else {
      var before := actions[..|actions| - 1];
      ShutdownIsBounded(s, before);
      Invariant(s, before);
      StepsFall(Run(s, before).value, actions[|actions| - 1]);
    }
  }

  lemma {:induction false} SomeLive(hs: seq<Handler>) returns (i: nat)
    requires Sum(Live, hs) > 0
    ensures i < |hs| && !hs[i].Ended?
  {
    var n := |hs| - 1;
    if hs[n].Ended? {
      i := SomeLive(hs[..n]);
    } else {
      i := n;
    }
  }

  lemma {:induction false} HandlerCanStep(s: State) returns (a: Action)
    requires Inv(s) && Sum(Live, s.handlers) > 0
    ensures HandlerEnabled(s, a)
  {
    var i := SomeLive(s.handlers);
    match s.handlers[i]
    case Handle => a := HandlerReturn(i);
    case Write => a := HandlerWrite(i, Some(0));
    case _ =>
      SumUpdate(Holding, s.handlers, i, Handler.Ended);
      a := HandlerNext(i);
  }

  lemma {:induction false} BeatCanStep(s: State) returns (a: Action)
    requires Inv(s) && !s.beat.Unborn? && !s.beat.Ended?
    ensures BeatEnabled(s, a)
  {
    a := if s.beat.Select? then BeatTick else if s.beat.Fail? || s.beat.Done? then BeatNext else BeatWrite(Some(0));
  }

  lemma {:induction false} ReaderCanStep(s: State) returns (a: Action)
    requires Inv(s) && s.ctl.cancelled && !s.reader.Unborn? && !s.reader.Ended?
    ensures ReaderEnabled(s, a)
  {
    a := if s.reader.Acquire? then ReaderDone
         else if s.reader.SetDeadline? || s.reader.Read? then ReaderRead(Error(0)) else ReaderNext;
  }

  /** And nothing is ever stuck: until `pump` has returned some goroutine can take a step. */
  lemma {:induction false} NoDeadlock(s: State) returns (a: Action)
    requires Inv(s) && !s.main.Returned?
    ensures Enabled(s, a)
  {
    if !s.main.Select? && (!s.main.Wait? || s.count.wg == 0) {
      a := MainNext;
    } else if !s.beat.Ended? {
      a := BeatCanStep(s);
    } else if s.main.Select? {
      a := if s.ctl.cancelled then MainDone else MainError;
    } else if !s.reader.Ended? {
      a := ReaderCanStep(s);
    } else {
      a := HandlerCanStep(s);
    }
  }

  /** Every run that has closed the socket and cannot be extended has returned, within the bound. */
  lemma {:induction false} ShutdownEnds(s: State, actions: seq<Action>, more: seq<Action>)
    requires Initial(s) && Run(s, actions).Some? && !Run(s, actions).value.ctl.open
    requires Run(Run(s, actions).value, more).Some?
    ensures |more| <= StepsLeft(Run(s, actions).value)
    ensures var t := Run(Run(s, actions).value, more).value;
      (forall a :: !Enabled(t, a)) ==> t.main.Returned?
  {
    var mid := Run(s, actions).value;
    Invariant(s, actions);
    ShutdownIsBounded(mid, more);
    Invariant(mid, more);
    var t := Run(mid, more).value;
    if !t.main.Returned? {
      var a := NoDeadlock(t);
      assert Enabled(t, a);
    }
  }
}
