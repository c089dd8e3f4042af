/**
 Several goroutines inside `writeFrame` at once: heartbeats, pings, results, pongs and the close
 frame. Every lock operation and every one of the three socket writes is a step of its own, and any
 goroutine may take the next step.
 */
module WriteLock {
  import opened Bytes
  import opened Frames

  type Tid = nat

  /** What `len` can report. */
  type Payload = p: seq<Byte> | |p| < TWO64 witness []

  datatype Job = Job(opcode: Opcode, payload: Payload, key: Key) {
    function Header(): seq<Byte> { GoHeader(opcode, |payload|) }

    function Body(): seq<Byte> { Mask(payload, key) }

    function Bytes(): seq<Byte> { GoFrame(opcode, payload, key) }

    function Sends(): Frame { Frame(true, opcode, payload) }

    /** The peer reads it back. */
    predicate Readable() { PeerReadable(Sends()) }

    /** The error the peer meets in it, if it meets one. */
    function Refusal(): Option<Error> { PeerRefusal(opcode, payload, key) }

    /** The peer reads it back or refuses it; it never takes it for some other frame. */
    predicate Judged() { Readable() || Refusal().Some? }

    /** How much of it must arrive before the peer can refuse it. */
    function Head(): nat { if |payload| == 127 then 12 else |Header()| }
  }

  /** Where a goroutine stands in `writeFrame`: the write it is about to make, or the unlock. */
  datatype Pc = Outside | AtHeader(job: Job) | AtKey(job: Job) | AtBody(job: Job) | Leaving {
    predicate Writing() { AtHeader? || AtKey? || AtBody? }

    /** The bytes the next write offers to the socket. */
    function Offer(): seq<Byte>
      requires Writing()
    {
      match this case AtHeader(j) => j.Header() case AtKey(j) => j.key case AtBody(j) => j.Body()
    }

    /** The bytes of the current frame that were already written. */
    function Written(): seq<Byte> {
      match this case AtKey(j) => j.Header() case AtBody(j) => j.Header() + j.key case _ => []
    }

    /** The current frame, once bytes of it were written. */
    function Started(): seq<Job> { if AtKey? || AtBody? then [job] else [] }

    predicate Finishes()
      requires Writing()
    {
      AtBody? || (AtKey? && job.payload == [])
    }

    function Next(): Pc
      requires Writing()
    {
      if Finishes() then Leaving else if AtHeader? then AtKey(job) else AtBody(job)
    }
  }

  /**
   `begun` holds the frames of which bytes were offered to the socket, in the order their writers
   took the lock; `done` those the socket took whole.
   */
  datatype State = State(lock: Option<Tid>, pcs: map<Tid, Pc>, wire: seq<Byte>, broken: bool,
                         begun: seq<Job>, done: seq<Job>) {
    function At(t: Tid): Pc { if t in pcs then pcs[t] else Outside }

    function Holder(): Pc { if lock.Some? then At(lock.value) else Outside }
  }

  datatype Action =
    | Acquire(t: Tid, job: Job)
    | Abandon(t: Tid)             // no key could be drawn or no deadline set: nothing is written
    | Write(t: Tid, taken: nat)   // the socket takes this many of the bytes offered; fewer is an error
    | Release(t: Tid)
    | Break                       // the socket is closed or reset: it takes nothing more

  predicate Enabled(s: State, a: Action) {
    match a
    case Acquire(t, _) => s.lock == None && s.At(t) == Outside
    case Abandon(t) => s.At(t).AtHeader?
    case Write(t, taken) => s.At(t).Writing() && taken <= |s.At(t).Offer()| && (s.broken ==> taken == 0)
    case Release(t) => s.At(t) == Leaving
    case Break => true
  }

  function Step(s: State, a: Action): State
    requires Enabled(s, a)
  {
    match a
    case Acquire(t, job) => s.(lock := Some(t), pcs := s.pcs[t := AtHeader(job)])
    case Abandon(t) => s.(pcs := s.pcs[t := Leaving])
    case Write(t, taken) => AfterWrite(s, t, taken)
    case Release(t) => s.(lock := None, pcs := s.pcs - {t})
    case Break => s.(broken := true)
  }

  function AfterWrite(s: State, t: Tid, taken: nat): State
    requires Enabled(s, Write(t, taken))
  {
    var pc := s.At(t);
    var s' := s.(wire := s.wire + pc.Offer()[..taken], begun := if pc.AtHeader? then s.begun + [pc.job] else s.begun);
    if taken < |pc.Offer()| then s'.(pcs := s.pcs[t := Leaving], broken := true)
    else s'.(pcs := s.pcs[t := pc.Next()], done := if pc.Finishes() then s.done + [pc.job] else s.done)
  }

  /** The state after a run of enabled actions; None when one of them was not enabled. */
  function Run(actions: seq<Action>): Option<State> {
    if actions == [] then Some(State(None, map[], [], false, [], [])) else
    var last := actions[|actions| - 1];
    match Run(actions[..|actions| - 1])
    case None => None
    case Some(s) => if Enabled(s, last) then Some(Step(s, last)) else None
  }

  // ---- the invariant --------------------------------------------------------------------------

  /** Frames one after another, each whole. */
  function All(js: seq<Job>): seq<Byte> {
    if js == [] then [] else All(js[..|js| - 1]) + js[|js| - 1].Bytes()
  }

  /** Inside is exactly the goroutine that holds the lock. */
  ghost predicate Exclusive(s: State) {
    && (forall t: Tid :: s.At(t) != Outside <==> s.lock == Some(t))
    && (s.Holder().AtBody? ==> s.Holder().job.payload != [])
  }

  /** A proper beginning, possibly empty, of the frame that was begun after the whole ones. */
  predicate Torn(tail: seq<Byte>, done: seq<Job>, begun: seq<Job>) {
    && done <= begun
    && if |done| < |begun| then tail < begun[|done|].Bytes() else tail == []
  }

  /** The socket holds the whole frames in lock order and the beginning of the next one. */
  predicate WholeFrames(s: State, tail: seq<Byte>) {
    && s.wire == All(s.done) + tail && Torn(tail, s.done, s.begun)
    && (!s.broken ==> tail == s.Holder().Written() && s.begun == s.done + s.Holder().Started())
  }

  ghost predicate Inv(s: State) {
    Exclusive(s) && exists tail :: WholeFrames(s, tail)
  }

  lemma {:induction false} AllAppend(js: seq<Job>, j: Job)
    ensures All(js + [j]) == All(js) + j.Bytes()
  {
    assert (js + [j])[..|js|] == js;
  }

  /** The three writes of a frame, in order, are the frame. */
  lemma {:induction false} Pieces(pc: Pc, taken: nat)
    requires pc.Writing() && taken <= |pc.Offer()|
    requires pc.AtBody? ==> pc.job.payload != []
    ensures |pc.Offer()| > 0
    ensures taken < |pc.Offer()| ==> pc.Written() + pc.Offer()[..taken] < pc.job.Bytes()
    ensures pc.Written() + pc.Offer() == if pc.Finishes() then pc.job.Bytes() else pc.Next().Written()
    ensures !pc.Finishes() ==> pc.Written() + pc.Offer() < pc.job.Bytes()
  {
    var j := pc.job;
    assert j.Bytes() == j.Header() + j.key + j.Body();
    assert pc.AtKey? && pc.Finishes() ==> j.Body() == [];
  }

  /** The whole frames and the beginning of the next one, after the holder wrote `more`. */
  lemma {:induction false} WireGrows(wire: seq<Byte>, done: seq<Job>, tail: seq<Byte>, more: seq<Byte>, j: Job)
    requires wire == All(done) + tail
    ensures wire + more == All(done) + (tail + more)
    ensures tail + more == j.Bytes() ==> wire + more == All(done + [j]) + []
  {
    Assoc(All(done), tail, more);
    AllAppend(done, j);
  }

  /** A write taken whole, frame by value: the frame is finished, or goes on. */
  lemma {:induction false} Advance(pc: Pc, wire: seq<Byte>, done: seq<Job>, tail: seq<Byte>) returns (tail': seq<Byte>)
    requires pc.Writing() && (pc.AtBody? ==> pc.job.payload != [])
    requires wire == All(done) + tail && tail == pc.Written()
    ensures var done' := if pc.Finishes() then done + [pc.job] else done;
      && wire + pc.Offer() == All(done') + tail' && Torn(tail', done', done + [pc.job])
      && tail' == pc.Next().Written() && done + [pc.job] == done' + pc.Next().Started()
  {
    Pieces(pc, |pc.Offer()|);
    WireGrows(wire, done, tail, pc.Offer(), pc.job);
    tail' := pc.Next().Written();
    assert (done + [pc.job])[|done|] == pc.job;
    assert pc.Finishes() ==> (done + [pc.job]) + [] == done + [pc.job];
  }

  lemma {:induction false} FullWrite(s: State, t: Tid, tail: seq<Byte>) returns (tail': seq<Byte>)
    requires Exclusive(s) && WholeFrames(s, tail) && !s.broken && s.At(t).Writing()
    ensures WholeFrames(AfterWrite(s, t, |s.At(t).Offer()|), tail')
  {
    var pc, s' := s.At(t), AfterWrite(s, t, |s.At(t).Offer()|);
    assert s.Holder() == pc && s'.Holder() == pc.Next();
    assert s'.wire == s.wire + pc.Offer() && s'.begun == s.done + [pc.job] by {
      TakeAll(pc.Offer());
      assert s.done + [] == s.done;
    }
    tail' := Advance(pc, s.wire, s.done, tail);
  }

  lemma {:induction false} TakeAll(p: seq<Byte>)
    ensures p[..|p|] == p
  {}

  /** After a write that came short, or any write to a broken socket. */
  lemma {:induction false} FailedWrite(s: State, t: Tid, taken: nat, tail: seq<Byte>)
    requires Exclusive(s) && WholeFrames(s, tail) && Enabled(s, Write(t, taken)) && taken < |s.At(t).Offer()|
    ensures WholeFrames(AfterWrite(s, t, taken), tail + s.At(t).Offer()[..taken])
  {
    var pc, s' := s.At(t), AfterWrite(s, t, taken);
    var more := pc.Offer()[..taken];
    assert s.Holder() == pc;
    Pieces(pc, taken);
    WireGrows(s.wire, s.done, tail, more, pc.job);
    if s.broken {
      assert tail + more == tail;
    } else {
      assert s'.begun == s.done + [pc.job];
    }
  }

  lemma {:induction false} WriteOffers(s: State, t: Tid)
    requires Exclusive(s) && s.At(t).Writing()
    ensures |s.At(t).Offer()| > 0
  {
    assert s.Holder() == s.At(t);
    Pieces(s.At(t), 0);
  }

  lemma {:induction false} StepKeepsExclusive(s: State, a: Action)
    requires Exclusive(s) && Enabled(s, a)
    ensures Exclusive(Step(s, a))
  {
  }

  lemma {:induction false} WriteKeepsInv(s: State, a: Action)
    requires Inv(s) && Enabled(s, a) && a.Write?
    ensures Inv(Step(s, a))
  {
    StepKeepsExclusive(s, a);
    var tail :| WholeFrames(s, tail);
    WriteOffers(s, a.t);
    if a.taken < |s.At(a.t).Offer()| {
      FailedWrite(s, a.t, a.taken, tail);
    } else {
      var tail' := FullWrite(s, a.t, tail);
    }
  }

  lemma {:induction false} OtherKeepsInv(s: State, a: Action)
    requires Inv(s) && Enabled(s, a) && !a.Write?
    ensures Inv(Step(s, a))
  {
    StepKeepsExclusive(s, a);
    var tail :| WholeFrames(s, tail);
    assert WholeFrames(Step(s, a), tail);
  }

  /**
   Atomicity, in every state of every run: one goroutine at most is writing; the socket has taken the
   frames of the successive lock holders whole and in order, then at most a beginning of the next one,
   which until the first write error is what the present holder has written of its own.
   */
  lemma {:induction false} Atomicity(actions: seq<Action>)
    requires Run(actions).Some?
    ensures Inv(Run(actions).value)
  {
    if actions == [] {
      assert WholeFrames(Run(actions).value, []);
    } else {
      Atomicity(actions[..|actions| - 1]);
      var s, a := Run(actions[..|actions| - 1]).value, actions[|actions| - 1];
      if a.Write? {
        WriteKeepsInv(s, a);
      } else {
        OtherKeepsInv(s, a);
      }
    }
  }

  // ---- the lock comes free ------------------------------------------------------------------------

  lemma {:induction false} OneMore(actions: seq<Action>, s: State, a: Action) returns (more: seq<Action>)
    requires Run(actions) == Some(s) && Enabled(s, a)
    ensures more == actions + [a] && Run(more) == Some(Step(s, a))
  {
    more := actions + [a];
    assert more[..|actions|] == actions;
  }

  /** How many steps a holder has before it at most. */
  function Left(pc: Pc): nat {
    match pc case AtHeader(_) => 4 case AtKey(_) => 3 case AtBody(_) => 2 case Leaving => 1 case Outside => 0
  }

  /**
   Whoever holds the lock can give it up, whatever it has written: with the socket intact its frame goes
   out whole, and otherwise it leaves at the first write.
   */
  lemma {:induction false} LockIsFreed(actions: seq<Action>) returns (more: seq<Action>)
    requires Run(actions).Some? && Run(actions).value.lock.Some?
    ensures actions <= more && Run(more).Some?
    ensures var s, s' := Run(actions).value, Run(more).value;
      && s'.lock == None && s'.broken == s.broken
      && s'.done == s.done + (if s.Holder().Writing() && !s.broken then [s.Holder().job] else [])
    decreases Left(Run(actions).value.Holder())
  {
    var s := Run(actions).value;
    var t, pc := s.lock.value, s.Holder();
    Atomicity(actions);
    if pc == Leaving {
      more := OneMore(actions, s, Release(t));
    } else {
      WriteOffers(s, t);
      var a := Write(t, if s.broken then 0 else |pc.Offer()|);
      var next := OneMore(actions, s, a);
      more := LockIsFreed(next);
    }
  }

  /** A holder that cannot draw a key or set a deadline leaves without having sent anything. */
  lemma {:induction false} NothingIsSent(actions: seq<Action>) returns (more: seq<Action>)
    requires Run(actions).Some? && Run(actions).value.Holder().AtHeader?
    ensures actions <= more && Run(more).Some?
    ensures var s, s' := Run(actions).value, Run(more).value;
      s'.lock == None && s'.broken == s.broken && s'.done == s.done && s'.begun == s.begun && s'.wire == s.wire
  {
    var s := Run(actions).value;
    var t := s.lock.value;
    more := OneMore(actions, s, Abandon(t));
    more := OneMore(more, Step(s, Abandon(t)), Release(t));
  }

  lemma {:induction false} FreeWire(actions: seq<Action>, t: Tid)
    requires Run(actions).Some? && Run(actions).value.lock == None
    ensures var s := Run(actions).value; s.At(t) == Outside && (!s.broken ==> s.wire == All(s.done))
  {
    Atomicity(actions);
    var s := Run(actions).value;
    var tail :| WholeFrames(s, tail);
    assert All(s.done) + [] == All(s.done);
  }

  /** Then any goroutine can send its frame: on an intact socket it arrives whole behind the others. */
  lemma {:induction false} FrameCanBeSent(actions: seq<Action>, t: Tid, job: Job) returns (more: seq<Action>)
    requires Run(actions).Some? && Run(actions).value.lock == None && !Run(actions).value.broken
    ensures actions <= more && Run(more).Some?
    ensures var s, s' := Run(actions).value, Run(more).value;
      && s'.lock == None && !s'.broken && s'.done == s.done + [job] && s'.wire == s.wire + job.Bytes()
  {
    hide Run, All;
    var s := Run(actions).value;
    FreeWire(actions, t);
    var next := OneMore(actions, s, Acquire(t, job));
    more := LockIsFreed(next);
    FreeWire(more, t);
    AllAppend(s.done, job);
  }

  // ---- what the peer hears ----------------------------------------------------------------------

  /** The peer reading frame after frame until a read fails. */
  datatype Hearing = Hearing(frames: seq<Frame>, end: Error)

  function Heard(s: seq<Byte>): Hearing
    decreases |s|
  {
    match RubyRead(s)
    case Failed(e) => Hearing([], e)
    case Got(f, rest) => var h := Heard(rest); Hearing([f] + h.frames, h.end)
  }

  function Sent(js: seq<Job>): seq<Frame> {
    if js == [] then [] else [js[0].Sends()] + Sent(js[1..])
  }

  predicate Agreed(js: seq<Job>) {
    forall j :: j in js ==> j.Readable()
  }

  /** What the connector sends: objects as text, and control frames within their limit. */
  lemma {:induction false} OwnFramesAreJudged(j: Job)
    requires
      || (j.opcode == TEXT && j.payload != [] && j.payload[0] == 0x7B)
      || (IsControl(j.opcode) && |j.payload| <= MAX_CONTROL_BYTES)
    ensures j.Judged()
  {
    if |j.payload| == 127 {
      MisreadIsHuge(j.payload, j.key);
    }
  }

  lemma {:induction false} AllFirst(js: seq<Job>)
    requires js != []
    ensures All(js) == js[0].Bytes() + All(js[1..])
  {
    var n := |js| - 1;
    if n == 0 {
    } else {
      AllFirst(js[..n]);
      assert js[..n][1..] == js[1..][..n - 1];
      Assoc(js[0].Bytes(), All(js[1..][..n - 1]), js[n].Bytes());
    }
  }

  lemma {:induction false} ReadsWhole(j: Job, rest: seq<Byte>)
    ensures j.Readable() ==> RubyRead(j.Bytes() + rest) == Got(j.Sends(), rest)
    ensures j.Refusal().Some? ==> RubyRead(j.Bytes() + rest) == Failed(j.Refusal().value)
  {
    RubyReadsGoFrame(j.opcode, j.payload, j.key, rest);
  }

  /** With its head there a frame the peer refuses is refused, before that more is awaited. */
  lemma {:induction false} HeadDecides(tail: seq<Byte>, j: Job)
    requires tail < j.Bytes() && j.Refusal().Some?
    ensures RubyRead(tail) == Failed(ShortRead) <==> |tail| < j.Head()
  {
    var h := j.Header();
    var f, form := j.Sends(), Shortest(|j.payload|);
    WritersAreMinimal(j.opcode, j.payload, j.key);
    assert j.Bytes() == h + (j.key + j.Body());
    LengthField(f, form, true, j.key + j.Body());
    assert |tail| >= 2 ==> tail[0] == h[0] && tail[1] == h[1];
    if |tail| >= |h| {
      var behind := tail[|h|..];
      assert tail == h + behind;
      LengthField(f, form, true, behind);
      assert |j.payload| == 127 && |tail| >= 12 ==> tail[4..12] == j.Bytes()[4..12] == j.key + j.Body()[..4];
    }
  }

  /** A proper beginning of a frame: the peer waits for more, unless it can refuse the frame already. */
  lemma {:induction false} BeginningIsRead(tail: seq<Byte>, j: Job)
    requires tail < j.Bytes() && j.Judged()
    ensures RubyRead(tail) == Failed(if j.Readable() || |tail| < j.Head() then ShortRead else j.Refusal().value)
  {
    var more := j.Bytes()[|tail|..];
    assert tail + more == j.Bytes() + [];
    ReadsWhole(j, []);
    if !j.Readable() {
      HeadDecides(tail, j);
    }
    if RubyRead(tail) != Failed(ShortRead) {
      RubyReadLocal(tail, more);
    }
  }

  lemma {:induction false} HearsWhole(js: seq<Job>, tail: seq<Byte>)
    requires Agreed(js)
    ensures Heard(All(js) + tail) == Hearing(Sent(js) + Heard(tail).frames, Heard(tail).end)
  {
    if js == [] {
      assert All(js) + tail == tail && Sent(js) + Heard(tail).frames == Heard(tail).frames;
    } else {
      var j, rest := js[0], All(js[1..]) + tail;
      assert All(js) + tail == j.Bytes() + rest by {
        AllFirst(js);
        Assoc(j.Bytes(), All(js[1..]), tail);
      }
      ReadsWhole(j, rest);
      HearsWhole(js[1..], tail);
      Assoc([j.Sends()], Sent(js[1..]), Heard(tail).frames);
    }
  }

  lemma {:induction false} AllSplit(js: seq<Job>, k: nat)
    requires k <= |js|
    ensures All(js) == All(js[..k]) + All(js[k..])
  {
    var n := |js|;
    if k == n {
      assert js[..k] == js && js[k..] == [];
    } else {
      AllSplit(js[..n - 1], k);
      Slicing(js, k);
      Assoc(All(js[..k]), All(js[k..n - 1]), js[n - 1].Bytes());
    }
  }

  lemma {:induction false} Slicing(js: seq<Job>, k: nat)
    requires k < |js|
    ensures js[..|js| - 1][..k] == js[..k]
    ensures js[..|js| - 1][k..] == js[k..|js| - 1] == js[k..][..|js| - 1 - k]
  {}

  /** The first frame the peer refuses ends what it hears. */
  lemma {:induction false} HearsUntil(js: seq<Job>, k: nat, tail: seq<Byte>)
    requires k < |js| && Agreed(js[..k]) && js[k].Refusal().Some?
    ensures Heard(All(js) + tail) == Hearing(Sent(js[..k]), js[k].Refusal().value)
  {
    var j, rest := js[k], All(js[k + 1..]) + tail;
    assert All(js) + tail == All(js[..k]) + (j.Bytes() + rest) by {
      AllSplit(js, k);
      AllFirst(js[k..]);
      assert js[k..][1..] == js[k + 1..];
      AssocFour(All(js[..k]), j.Bytes(), All(js[k + 1..]), tail);
    }
    HearsNothing(j, rest);
    HearsWhole(js[..k], j.Bytes() + rest);
    assert Sent(js[..k]) + [] == Sent(js[..k]);
  }

  lemma {:induction false} AssocFour(a: seq<Byte>, b: seq<Byte>, c: seq<Byte>, d: seq<Byte>)
    ensures a + (b + c) + d == a + (b + (c + d))
  {}

  lemma {:induction false} HearsNothing(j: Job, rest: seq<Byte>)
    requires j.Refusal().Some?
    ensures Heard(j.Bytes() + rest) == Hearing([], j.Refusal().value)
  {
    ReadsWhole(j, rest);
  }

  /** How the peer's reading ends behind the whole frames. */
  function End(s: State): Error {
    if |s.done| < |s.begun| then
      var next := s.begun[|s.done|];
      if next.Readable() || next.Refusal().None? || |s.wire| < |All(s.done)| + next.Head() then ShortRead
      else next.Refusal().value
    else ShortRead
  }

  /**
   As long as every whole frame is one the peer reads back, it decodes exactly the whole frames, in
   lock order, none torn and no two mixed. Then it waits for more, or refuses the frame that was begun
   as soon as the head of it is there.
   */
  lemma {:induction false} PeerHears(actions: seq<Action>)
    requires Run(actions).Some? && Agreed(Run(actions).value.done)
    requires var s := Run(actions).value; |s.done| < |s.begun| ==> s.begun[|s.done|].Judged()
    ensures var s := Run(actions).value; Heard(s.wire) == Hearing(Sent(s.done), End(s))
  {
    var s := Run(actions).value;
    Atomicity(actions);
    var tail :| WholeFrames(s, tail);
    TornIsHeard(s, tail);
    HearsWhole(s.done, tail);
    assert Sent(s.done) + [] == Sent(s.done);
  }

  lemma {:induction false} TornIsHeard(s: State, tail: seq<Byte>)
    requires WholeFrames(s, tail) && (|s.done| < |s.begun| ==> s.begun[|s.done|].Judged())
    ensures Heard(tail) == Hearing([], End(s))
  {
    if |s.done| < |s.begun| {
      BeginningIsRead(tail, s.begun[|s.done|]);
    }
  }

  /** When a frame the peer refuses was sent whole, it hears exactly those before it. */
  lemma {:induction false} PeerHearsUntil(actions: seq<Action>, k: nat)
    requires Run(actions).Some? && k < |Run(actions).value.done|
    requires Agreed(Run(actions).value.done[..k]) && Run(actions).value.done[k].Refusal().Some?
    ensures var s := Run(actions).value;
      Heard(s.wire) == Hearing(Sent(s.done[..k]), s.done[k].Refusal().value)
  {
    var s := Run(actions).value;
    Atomicity(actions);
    var tail :| WholeFrames(s, tail);
    HearsUntil(s.done, k, tail);
  }
}
