/**
 What `ReadMessage` makes of a byte stream (section 5.4 and 5.5 of RFC 6455): data frames are
 joined, pings are answered, pongs are skipped. The function reads the bytes that arrive before the
 socket reports an error; the theorems are about every stream of frames and every place a deadline
 can cut it.
 */
module Messages {
  import opened Bytes
  import opened Frames

  datatype Outcome = Message(text: seq<Byte>) | Failure(error: Error)

  /** One call: its outcome, the frames it tried to send, how many frames it read, what is unread. */
  datatype Reading = Reading(outcome: Outcome, replies: seq<Frame>, frames: nat, rest: seq<Byte>) {
    function After(replies': seq<Frame>): Reading {
      this.(replies := replies' + replies, frames := frames + 1)
    }
  }

  function GoFrameSize(n: nat): nat {
    (if n <= 125 then 2 else if n <= 0xFFFF then 4 else 10) + 4 + n
  }

  lemma {:induction false} GoFrameHasSize(opcode: Opcode, payload: seq<Byte>, key: Key)
    ensures |GoFrame(opcode, payload, key)| == GoFrameSize(|payload|)
  {}

  function Pong(payload: seq<Byte>): Frame { Frame(true, PONG, payload) }

  predicate IsData(f: Frame) { f.opcode == TEXT || f.opcode == CONTINUATION }

  /** The frame sent in answer to `f`, if any: a pong or the echoed close, payload unchanged. */
  function Answer(f: Frame): seq<Frame> {
    if f.opcode == PING then [Pong(f.payload)] else if f.opcode == CLOSE then [Frame(true, CLOSE, f.payload)] else []
  }

  /** One turn of the loop: go on with `msg` gathered and `room` left on the socket, or return. */
  datatype Next = Continue(msg: seq<Byte>, room: nat) | Stop(outcome: Outcome)

  function OnFrame(f: Frame, msg: seq<Byte>, room: nat): (next: Next)
    ensures next.Stop? ==> next.outcome != Failure(ShortRead)
    ensures next.Continue? && |msg| <= MAX_MESSAGE_BYTES ==> |next.msg| <= MAX_MESSAGE_BYTES
  {
    if f.opcode == PING then
      if GoFrameSize(|f.payload|) > room then Stop(Failure(WriteFailed))
      else Continue(msg, room - GoFrameSize(|f.payload|))
    else if f.opcode == PONG then Continue(msg, room)
    else if f.opcode == CLOSE then Stop(Failure(ClosedByServer))
    else if f.opcode == BINARY then Stop(Failure(BinaryFrame))
    else if IsData(f) then
      if |msg| + |f.payload| > MAX_MESSAGE_BYTES then Stop(Failure(TooBig))
      else if f.fin then Stop(Message(msg + f.payload))
      else Continue(msg + f.payload, room)
    else Stop(Failure(UnknownOpcode))
  }

  /** `ReadMessage` with `msg` already gathered and `room` bytes the socket will still accept. */
  function ReadMessage(s: seq<Byte>, msg: seq<Byte>, room: nat): (r: Reading)
    decreases |s|
  {
    match GoRead(s)
    case Failed(e) => Reading(Failure(e), [], 0, [])
    case Got(f, rest) =>
      match OnFrame(f, msg, room)
      case Stop(outcome) => Reading(outcome, Answer(f), 1, rest)
      case Continue(msg', room') => ReadMessage(rest, msg', room').After(Answer(f))
  }

  // ---- streams of frames ----------------------------------------------------------------------

  /** How one frame is put on the wire: any length form, masked or not. */
  datatype Coding = Coding(form: LengthForm, key: Option<Key>)

  ghost predicate Codes(fs: seq<Frame>, cs: seq<Coding>) {
    |fs| == |cs| && forall i :: 0 <= i < |fs| ==> cs[i].form.Fits(|fs[i].payload|)
  }

  ghost function Stream(fs: seq<Frame>, cs: seq<Coding>): seq<Byte>
    requires Codes(fs, cs)
  {
    if fs == [] then [] else Wire(fs[0], cs[0].form, cs[0].key) + Stream(fs[1..], cs[1..])
  }

  predicate IsBeat(f: Frame) { (f.opcode == PING || f.opcode == PONG) && Acceptable(f) }

  /** Pings and pongs anywhere, data fragments of either data opcode, and the first FIN ends it. */
  predicate OneMessage(fs: seq<Frame>) {
    && fs != []
    && (if IsData(fs[0]) && fs[0].fin then |fs| == 1 else OneMessage(fs[1..]))
    && (IsData(fs[0]) || IsBeat(fs[0]))
  }

  /** The fragments of a message not yet finished, with pings and pongs anywhere. */
  predicate Unfinished(fs: seq<Frame>) {
    forall f :: f in fs ==> IsBeat(f) || (IsData(f) && !f.fin)
  }

  function Data(fs: seq<Frame>): seq<Byte> {
    if fs == [] then [] else (if IsData(fs[0]) then fs[0].payload else []) + Data(fs[1..])
  }

  /** The answers to a run of frames, in order: without close frames, one pong per ping. */
  function Answers(fs: seq<Frame>): seq<Frame> {
    if fs == [] then [] else Answer(fs[0]) + Answers(fs[1..])
  }

  /** The bytes the pongs for a run of frames take on the socket. */
  function Cost(fs: seq<Frame>): nat {
    if fs == [] then 0 else (if fs[0].opcode == PING then GoFrameSize(|fs[0].payload|) else 0) + Cost(fs[1..])
  }

  /** The loop over frames alone: how many it reads and how the call stands after them. */
  datatype Progress = Progress(frames: nat, next: Next)

  function Digest(fs: seq<Frame>, msg: seq<Byte>, room: nat): (p: Progress)
    ensures p.frames <= |fs|
  {
    if fs == [] then Progress(0, Continue(msg, room)) else
    match OnFrame(fs[0], msg, room)
    case Stop(outcome) => Progress(1, Stop(outcome))
    case Continue(msg', room') => var p := Digest(fs[1..], msg', room'); p.(frames := p.frames + 1)
  }

  /** How a call stands that first digests `fs` and then meets `rest`. */
  ghost predicate ReadsAs(r: Reading, fs: seq<Frame>, p: Progress, rest: seq<Byte>) {
    match p.next
    case Stop(outcome) =>
      && r.outcome == outcome && r.frames == p.frames
      && (p.frames == |fs| ==> r.replies == Answers(fs) && r.rest == rest)
    case Continue(msg, room) =>
      var later := ReadMessage(rest, msg, room);
      r == Reading(later.outcome, Answers(fs) + later.replies, |fs| + later.frames, later.rest)
  }

  lemma {:induction false} ReadsAsStep(r: Reading, f: Frame, fs: seq<Frame>, p: Progress, rest: seq<Byte>)
    requires p.frames <= |fs| && ReadsAs(r, fs, p, rest)
    ensures ReadsAs(r.After(Answer(f)), [f] + fs, p.(frames := p.frames + 1), rest)
  {
    assert ([f] + fs)[1..] == fs;
    if p.next.Continue? {
      var later := ReadMessage(rest, p.next.msg, p.next.room);
      assert Answer(f) + (Answers(fs) + later.replies) == Answer(f) + Answers(fs) + later.replies;
    }
  }

  /** One acceptable frame at the head of the stream is one turn of the loop. */
  lemma {:induction false} ReadsFirst(f: Frame, c: Coding, tail: seq<Byte>, msg: seq<Byte>, room: nat)
    requires Acceptable(f) && c.form.Fits(|f.payload|)
    ensures ReadMessage(Wire(f, c.form, c.key) + tail, msg, room) ==
      match OnFrame(f, msg, room)
      case Stop(outcome) => Reading(outcome, Answer(f), 1, tail)
      case Continue(msg', room') => ReadMessage(tail, msg', room').After(Answer(f))
  {
    hide GoRead, OnFrame;
    GoReadsWire(f, c.form, c.key, tail);
  }

  /** Reading a stream of acceptable frames is digesting those frames. */
  lemma {:induction false} ReadsStream(fs: seq<Frame>, cs: seq<Coding>, rest: seq<Byte>, msg: seq<Byte>, room: nat)
    requires Codes(fs, cs) && forall f :: f in fs ==> Acceptable(f)
    ensures ReadsAs(ReadMessage(Stream(fs, cs) + rest, msg, room), fs, Digest(fs, msg, room), rest)
    decreases |fs|
  {
    hide GoRead, OnFrame, Wire;
    if fs == [] {
      assert Stream(fs, cs) + rest == rest;
      assert [] + ReadMessage(rest, msg, room).replies == ReadMessage(rest, msg, room).replies;
    } else {
      var f, c, tail := fs[0], cs[0], Stream(fs[1..], cs[1..]) + rest;
      ReadsFirst(f, c, tail, msg, room);
      Assoc(Wire(f, c.form, c.key), Stream(fs[1..], cs[1..]), rest);
      assert [f] + fs[1..] == fs;
      if OnFrame(f, msg, room).Continue? {
        var Continue(msg', room') := OnFrame(f, msg, room);
        ReadsStream(fs[1..], cs[1..], rest, msg', room');
        ReadsAsStep(ReadMessage(tail, msg', room'), f, fs[1..], Digest(fs[1..], msg', room'), rest);
      } else {
        StopsAtOnce(f, fs[1..], Stream(fs[1..], cs[1..]), rest);
      }
    }
  }

  lemma {:induction false} StopsAtOnce(f: Frame, fs: seq<Frame>, stream: seq<Byte>, rest: seq<Byte>)
    requires fs == [] ==> stream == []
    ensures fs == [] ==> Answers([f] + fs) == Answer(f) && stream + rest == rest
  {
    if fs == [] {
      assert ([f] + fs)[1..] == [];
    }
  }

  lemma {:induction false} DigestsUnfinished(fs: seq<Frame>, msg: seq<Byte>, room: nat)
    requires Unfinished(fs) && |msg| + |Data(fs)| <= MAX_MESSAGE_BYTES && Cost(fs) <= room
    ensures Digest(fs, msg, room) == Progress(|fs|, Continue(msg + Data(fs), room - Cost(fs)))
  {
    if fs == [] {
      assert msg + Data(fs) == msg;
    } else {
      assert fs[0] in fs;
      var Continue(msg', room') := OnFrame(fs[0], msg, room);
      assert msg + Data(fs) == msg' + Data(fs[1..]);
      DigestsUnfinished(fs[1..], msg', room');
    }
  }

  lemma {:induction false} DigestsMessage(fs: seq<Frame>, msg: seq<Byte>, room: nat)
    requires OneMessage(fs) && |msg| <= MAX_MESSAGE_BYTES && Cost(fs) <= room
    ensures var text := msg + Data(fs);
      if |text| <= MAX_MESSAGE_BYTES then Digest(fs, msg, room) == Progress(|fs|, Stop(Message(text)))
      else Digest(fs, msg, room).next == Stop(Failure(TooBig))
    decreases |fs|
  {
    var f := fs[0];
    var msg' := if IsData(f) then msg + f.payload else msg;
    assert msg + Data(fs) == msg' + Data(fs[1..]);
    if IsData(f) && f.fin {
      assert Data(fs[1..]) == [] && msg + Data(fs) == msg';
    } else if |msg'| <= MAX_MESSAGE_BYTES {
      DigestsMessage(fs[1..], msg', OnFrame(f, msg, room).room);
    }
  }

  /** The pings among some frames, in order. */
  function Pings(fs: seq<Frame>): seq<Frame> {
    if fs == [] then [] else (if fs[0].opcode == 0x9 then [fs[0]] else []) + Pings(fs[1..])
  }

  /** One pong for each ping, in order, with the ping's payload. */
  predicate OnePongEach(replies: seq<Frame>, pings: seq<Frame>) {
    |replies| == |pings|
    && forall k :: 0 <= k < |pings| ==> replies[k] == Frame(true, 0xA, pings[k].payload)
  }

  lemma {:induction false} AnswersArePongs(fs: seq<Frame>)
    requires forall f :: f in fs ==> f.opcode != CLOSE
    ensures OnePongEach(Answers(fs), Pings(fs))
  {
    if fs == [] {
    } else {
      AnswersArePongs(fs[1..]);
    }
  }

  lemma {:induction false} NoCloseInMessage(fs: seq<Frame>)
    requires OneMessage(fs)
    ensures forall f :: f in fs ==> f.opcode != CLOSE
  {
    if IsData(fs[0]) && fs[0].fin {
    } else {
      NoCloseInMessage(fs[1..]);
      assert fs == [fs[0]] + fs[1..];
    }
  }

  /**
   Reassembly: whatever the fragmentation, the codings and the interleaved pings and pongs, one call
   returns the joined payloads, answers every ping once and in order, and leaves the rest unread;
   it fails as too big exactly when the joined payloads pass the cap.
   */
  lemma {:induction false} Reassembly(fs: seq<Frame>, cs: seq<Coding>, rest: seq<Byte>, room: nat)
    requires OneMessage(fs) && Codes(fs, cs) && Cost(fs) <= room
    requires forall f :: f in fs ==> Acceptable(f)
    ensures var r := ReadMessage(Stream(fs, cs) + rest, [], room);
      if |Data(fs)| <= MAX_MESSAGE_BYTES
      then r.outcome == Message(Data(fs)) && OnePongEach(r.replies, Pings(fs)) && r.frames == |fs| && r.rest == rest
      else r.outcome == Failure(TooBig)
  {
    assert [] + Data(fs) == Data(fs);
    DigestsMessage(fs, [], room);
    NoCloseInMessage(fs);
    AnswersArePongs(fs);
    ReadsStream(fs, cs, rest, [], room);
  }

  /** What one frame at the head of the stream does, opcode by opcode. */
  lemma {:induction false} EveryOpcode(f: Frame, c: Coding, rest: seq<Byte>, msg: seq<Byte>, room: nat)
    requires Acceptable(f) && c.form.Fits(|f.payload|)
    ensures var r := ReadMessage(Wire(f, c.form, c.key) + rest, msg, room);
      && (f.opcode == 0x8 ==> r == Reading(Failure(ClosedByServer), [Frame(true, 0x8, f.payload)], 1, rest))
      && (f.opcode == 0x2 ==> r == Reading(Failure(BinaryFrame), [], 1, rest))
      && (f.opcode in {3, 4, 5, 6, 7, 11, 12, 13, 14, 15} ==> r == Reading(Failure(UnknownOpcode), [], 1, rest))
      && (f.opcode <= 1 && |msg| + |f.payload| > 0x10_0000 ==> r == Reading(Failure(TooBig), [], 1, rest))
      && (f.opcode <= 1 && |msg| + |f.payload| <= 0x10_0000 && f.fin ==>
            r == Reading(Message(msg + f.payload), [], 1, rest))
    ensures var r := ReadMessage(Wire(f, c.form, c.key) + rest, msg, room);
      && (f.opcode <= 1 && |msg| + |f.payload| <= 0x10_0000 && !f.fin ==>
            r == ReadMessage(rest, msg + f.payload, room).After([]))
      && (f.opcode == 0xA ==> r == ReadMessage(rest, msg, room).After([]))
      && (f.opcode == 0x9 && GoFrameSize(|f.payload|) <= room ==>
            r == ReadMessage(rest, msg, room - GoFrameSize(|f.payload|)).After([Frame(true, 0xA, f.payload)]))
      && (f.opcode == 0x9 && GoFrameSize(|f.payload|) > room ==>
            r == Reading(Failure(WriteFailed), [Frame(true, 0xA, f.payload)], 1, rest))
  {
    ReadsFirst(f, c, rest, msg, room);
    hide GoRead, Wire, ReadMessage;
  }

  /** Whatever frames come, in whatever order: never more of a message than the cap is held or returned. */
  lemma {:induction false} HoldsWithinCap(fs: seq<Frame>, msg: seq<Byte>, room: nat)
    requires |msg| <= 0x10_0000
    ensures match Digest(fs, msg, room).next
      case Continue(held, _) => |held| <= 0x10_0000
      case Stop(outcome) => outcome.Message? ==> |outcome.text| <= 0x10_0000
  {
    if fs == [] {
    } else {
      var next := OnFrame(fs[0], msg, room);
      if next.Continue? {
        HoldsWithinCap(fs[1..], next.msg, next.room);
      }
    }
  }

  lemma {:induction false} Cons(f: Frame, c: Coding, fs: seq<Frame>, cs: seq<Coding>)
    requires Codes(fs, cs) && c.form.Fits(|f.payload|)
    ensures Codes([f] + fs, [c] + cs)
    ensures Stream([f] + fs, [c] + cs) == Wire(f, c.form, c.key) + Stream(fs, cs)
    ensures Answers([f] + fs) == Answer(f) + Answers(fs)
    ensures Data([f] + fs) == (if IsData(f) then f.payload else []) + Data(fs)
    ensures OneMessage(fs) && (IsBeat(f) || IsData(f)) && !(IsData(f) && f.fin) ==> OneMessage([f] + fs)
  {
    assert ([f] + fs)[1..] == fs && ([c] + cs)[1..] == cs;
  }

  /** `fs`, coded by `cs`, is what a call that returned a message read, and explains all it did. */
  ghost predicate Explains(fs: seq<Frame>, cs: seq<Coding>, s: seq<Byte>, msg: seq<Byte>, room: nat, r: Reading) {
    && OneMessage(fs) && Codes(fs, cs) && Cost(fs) <= room && (forall f :: f in fs ==> Acceptable(f))
    && s == Stream(fs, cs) + r.rest
    && r.outcome == Message(msg + Data(fs)) && |msg + Data(fs)| <= MAX_MESSAGE_BYTES
    && r.replies == Answers(fs) && r.frames == |fs|
  }

  lemma {:induction false} ExplainsLast(f: Frame, c: Coding, rest: seq<Byte>, msg: seq<Byte>, room: nat)
    requires c.form.Fits(|f.payload|) && Acceptable(f)
    requires OnFrame(f, msg, room).Stop? && OnFrame(f, msg, room).outcome.Message?
    ensures Explains([f], [c], Wire(f, c.form, c.key) + rest, msg, room,
                     Reading(OnFrame(f, msg, room).outcome, Answer(f), 1, rest))
  {
    Cons(f, c, [], []);
    assert Stream([f], [c]) == Wire(f, c.form, c.key);
    assert Data([f]) == f.payload && Answers([f]) == Answer(f);
    assert OneMessage([f]) && Cost([f]) == 0;
  }

  lemma {:induction false} ExplainsMore(f: Frame, c: Coding, fs: seq<Frame>, cs: seq<Coding>, s: seq<Byte>,
          msg: seq<Byte>, room: nat, r: Reading)
    requires c.form.Fits(|f.payload|) && Acceptable(f) && OnFrame(f, msg, room).Continue?
    requires Explains(fs, cs, s, OnFrame(f, msg, room).msg, OnFrame(f, msg, room).room, r)
    ensures Explains([f] + fs, [c] + cs, Wire(f, c.form, c.key) + s, msg, room, r.After(Answer(f)))
  {
    Cons(f, c, fs, cs);
    var msg' := OnFrame(f, msg, room).msg;
    assert IsData(f) ==> msg' == msg + f.payload;
    assert msg + Data([f] + fs) == msg' + Data(fs) by {
      Assoc(msg, if IsData(f) then f.payload else [], Data(fs));
      assert msg' == msg + if IsData(f) then f.payload else [];
    }
    Assoc(Wire(f, c.form, c.key), Stream(fs, cs), r.rest);
  }

  /** The converse: every message ever returned was one run of frames at the head of the stream. */
  lemma {:induction false} MessagesAreFrames(s: seq<Byte>, msg: seq<Byte>, room: nat)
      returns (fs: seq<Frame>, cs: seq<Coding>)
    requires ReadMessage(s, msg, room).outcome.Message?
    ensures Explains(fs, cs, s, msg, room, ReadMessage(s, msg, room))
    decreases |s|
  {
    var Got(f, rest) := GoRead(s);
    var form, key := GoReadIsWire(s);
    if OnFrame(f, msg, room).Stop? {
      fs, cs := [f], [Coding(form, key)];
      ExplainsLast(f, Coding(form, key), rest, msg, room);
    } else {
      var Continue(msg', room') := OnFrame(f, msg, room);
      fs, cs := MessagesAreFrames(rest, msg', room');
      ExplainsMore(f, Coding(form, key), fs, cs, rest, msg, room, ReadMessage(rest, msg', room'));
      fs, cs := [f] + fs, [Coding(form, key)] + cs;
    }
  }

  /** Every frame a call sends is within the limits the peer enforces. */
  lemma {:induction false} RepliesAcceptable(s: seq<Byte>, msg: seq<Byte>, room: nat)
    ensures forall f :: f in ReadMessage(s, msg, room).replies ==> f.fin && IsControl(f.opcode) && Acceptable(f)
    decreases |s|
  {
    if GoRead(s).Got? {
      var Got(f, rest) := GoRead(s);
      var form, key := GoReadIsWire(s);
      if OnFrame(f, msg, room).Continue? {
        var Continue(msg', room') := OnFrame(f, msg, room);
        RepliesAcceptable(rest, msg', room');
      }
    }
  }

  // ---- deadlines --------------------------------------------------------------------------------

  /** The frames of a message not yet finished, as a call reads them that has room to answer the pings. */
  ghost predicate Held(fs: seq<Frame>, cs: seq<Coding>, room: nat) {
    && Codes(fs, cs) && Unfinished(fs) && Cost(fs) <= room && |Data(fs)| <= MAX_MESSAGE_BYTES
    && forall f :: f in fs ==> Acceptable(f)
  }

  lemma {:induction false} HoldsFragments(fs: seq<Frame>, cs: seq<Coding>, rest: seq<Byte>, room: nat)
    requires Held(fs, cs, room)
    ensures ReadsAs(ReadMessage(Stream(fs, cs) + rest, [], room), fs,
                    Progress(|fs|, Continue(Data(fs), room - Cost(fs))), rest)
  {
    ReadsStream(fs, cs, rest, [], room);
    DigestsUnfinished(fs, [], room);
    assert [] + Data(fs) == Data(fs);
  }

  /** The beginning of an acceptable frame is a short read. */
  lemma {:induction false} PartIsShort(f: Frame, c: Coding, n: nat)
    requires Acceptable(f) && c.form.Fits(|f.payload|) && n < |Wire(f, c.form, c.key)|
    ensures GoRead(Wire(f, c.form, c.key)[..n]) == Failed(ShortRead)
  {
    var w := Wire(f, c.form, c.key);
    GoReadsWire(f, c.form, c.key, []);
    assert w[..n] + w[n..] == w + [];
    if GoRead(w[..n]) != Failed(ShortRead) {
      GoReadLocal(w[..n], w[n..]);
    }
  }

  /**
   A call that meets the deadline, at any byte of the frame `f` or before it, has read and answered the
   frames before, consumed everything up to the deadline, and returns nothing.
   */
  lemma {:induction false} CutCall(fs: seq<Frame>, cs: seq<Coding>, f: Frame, c: Coding, n: nat, room: nat)
    requires Held(fs, cs, room) && Acceptable(f) && c.form.Fits(|f.payload|) && n < |Wire(f, c.form, c.key)|
    ensures ReadMessage(Stream(fs, cs) + Wire(f, c.form, c.key)[..n], [], room) ==
      Reading(Failure(ShortRead), Answers(fs), |fs|, [])
  {
    HoldsFragments(fs, cs, Wire(f, c.form, c.key)[..n], room);
    PartIsShort(f, c, n);
    assert Answers(fs) + [] == Answers(fs);
  }

  /** A frame as a server sends it: unmasked, its length in the shortest form. */
  function Plain(f: Frame): seq<Byte>
    requires Acceptable(f)
  {
    Wire(f, Shortest(|f.payload|), None)
  }

  /** No other way to write the frame is shorter. */
  lemma {:induction false} PlainIsShortest(f: Frame, form: LengthForm, key: Option<Key>)
    requires Acceptable(f) && form.Fits(|f.payload|)
    ensures |Plain(f)| <= |Wire(f, form, key)|
  {}

  /** What is left of a frame is that frame to the next call if and only if none of it was lost. */
  lemma {:induction false} DeadlineInsideFrame(f: Frame, n: nat, rest: seq<Byte>)
    requires Acceptable(f) && n <= |Plain(f)|
    ensures GoRead(Plain(f)[n..] + rest) == Got(f, rest) <==> n == 0
  {
    var s := Plain(f)[n..] + rest;
    assert |s| == |Plain(f)| - n + |rest|;
    if n == 0 {
      GoReadsWire(f, Shortest(|f.payload|), None, rest);
      assert Plain(f)[0..] == Plain(f);
    } else if GoRead(s) == Got(f, rest) {
      var form, key := GoReadIsWire(s);
      PlainIsShortest(f, form, key);
    }
  }

  /** For example: the two halves of a text frame "hi" end the session with a protocol error. */
  lemma {:induction false} DeadlineInsideText()
    ensures var first, second: seq<Byte> := [0x81, 0x02], [0x68, 0x69];
      && ReadMessage(first + second, [], 0).outcome == Message(second)
      && ReadMessage(first, [], 0).outcome == Failure(ShortRead)
      && ReadMessage(second, [], 0).outcome == Failure(Reserved)
  {
    var f := Frame(true, TEXT, [0x68, 0x69]);
    GoReadsWire(f, Seven, None, []);
    assert Wire(f, Seven, None) + [] == [0x81, 0x02] + [0x68, 0x69];
    assert [] + f.payload == f.payload;
  }

  /** The bytes of data frames a call takes in, its last frame included. */
  function Gathered(s: seq<Byte>, msg: seq<Byte>, room: nat): nat
    decreases |s|
  {
    match GoRead(s)
    case Failed(_) => 0
    case Got(f, rest) =>
      (if IsData(f) then |f.payload| else 0) +
      match OnFrame(f, msg, room) case Stop(_) => 0 case Continue(msg', room') => Gathered(rest, msg', room')
  }

  /** What becomes of an outcome when `held` was gathered before, and the call gathers `more`. */
  function Behind(held: seq<Byte>, more: nat, outcome: Outcome): Outcome {
    if |held| + more > MAX_MESSAGE_BYTES then Failure(TooBig)
    else if outcome.Message? then Message(held + outcome.text)
    else outcome
  }

  lemma {:induction false} PreloadedFrame(f: Frame, held: seq<Byte>, msg: seq<Byte>, room: nat)
    requires |held| + |msg| <= MAX_MESSAGE_BYTES
    ensures var d := if IsData(f) then |f.payload| else 0;
      match OnFrame(f, msg, room)
      case Stop(outcome) => OnFrame(f, held + msg, room) == Stop(Behind(held, |msg| + d, outcome))
      case Continue(msg', room') =>
        |msg'| == |msg| + d
        && OnFrame(f, held + msg, room) ==
           if |held| + |msg'| > MAX_MESSAGE_BYTES then Stop(Failure(TooBig)) else Continue(held + msg', room')
  {
    if IsData(f) {
      Assoc(held, msg, f.payload);
    }
  }

  /** A call that holds `held` already ends as a fresh call would, behind it, or passes the cap. */
  lemma {:induction false} Preloaded(s: seq<Byte>, held: seq<Byte>, msg: seq<Byte>, room: nat)
    requires |held| + |msg| <= MAX_MESSAGE_BYTES
    ensures ReadMessage(s, held + msg, room).outcome ==
      Behind(held, |msg| + Gathered(s, msg, room), ReadMessage(s, msg, room).outcome)
    decreases |s|
  {
    hide GoRead, OnFrame;
    if GoRead(s).Got? {
      var Got(f, rest) := GoRead(s);
      PayloadShrinks(s);
      PreloadedFrame(f, held, msg, room);
      if OnFrame(f, msg, room).Continue? {
        var Continue(msg', room') := OnFrame(f, msg, room);
        if |held| + |msg'| <= MAX_MESSAGE_BYTES {
          Preloaded(rest, held, msg', room');
        }
      }
    }
  }

  lemma {:induction false} PayloadShrinks(s: seq<Byte>)
    requires GoRead(s).Got?
    ensures |GoRead(s).rest| < |s|
  {
    var _, _ := GoReadIsWire(s);
  }

  /**
   A read deadline that fires between two frames of a message throws the fragments away. What one
   undisturbed call would have given is what the second call gives with the fragments put back, so the
   two agree exactly when the fragments were empty, or when the call fails in either case and they
   would not have passed the cap before it does.
   */
  lemma {:induction false} DeadlineBetweenFrames(fs: seq<Frame>, cs: seq<Coding>, rest: seq<Byte>, room: nat,
                                                 whole: Reading, second: Reading)
    requires Held(fs, cs, room)
    requires whole == ReadMessage(Stream(fs, cs) + rest, [], room)
    requires second == ReadMessage(rest, [], room - Cost(fs))
    ensures var more := Gathered(rest, [], room - Cost(fs));
      && whole.outcome == Behind(Data(fs), more, second.outcome)
      && (whole.outcome == second.outcome <==>
            Data(fs) == [] || second.outcome == Failure(TooBig)
            || (second.outcome.Failure? && |Data(fs)| + more <= MAX_MESSAGE_BYTES))
  {
    hide GoRead;
    HoldsFragments(fs, cs, rest, room);
    Compare(whole, fs, Data(fs), room - Cost(fs), rest);
  }

  lemma {:induction false} Compare(whole: Reading, fs: seq<Frame>, held: seq<Byte>, room: nat, rest: seq<Byte>)
    ensures var second, more := ReadMessage(rest, [], room).outcome, Gathered(rest, [], room);
      ReadsAs(whole, fs, Progress(|fs|, Continue(held, room)), rest) && |held| <= MAX_MESSAGE_BYTES ==>
        && whole.outcome == Behind(held, more, second)
        && (whole.outcome == second <==>
              held == [] || second == Failure(TooBig) || (second.Failure? && |held| + more <= MAX_MESSAGE_BYTES))
  {
    hide GoRead;
    if |held| <= MAX_MESSAGE_BYTES {
      assert held + [] == held;
      Preloaded(rest, held, [], room);
      if held != [] && ReadMessage(rest, [], room).outcome.Message? {
        assert |held + ReadMessage(rest, [], room).outcome.text| != |ReadMessage(rest, [], room).outcome.text|;
      }
    }
  }

  // ---- fragment order ---------------------------------------------------------------------------

  /** Section 5.4: a message opens with a text frame and goes on with continuation frames only. */
  predicate InOrder(f: Frame, open: bool) {
    IsData(f) ==> f.opcode == if open then CONTINUATION else TEXT
  }

  predicate Ordered(fs: seq<Frame>, open: bool) {
    fs == [] || (InOrder(fs[0], open) && Ordered(fs[1..], open || IsData(fs[0])))
  }

  /** The loop with the order check of section 5.4 added; None when the check fails. */
  function StrictDigest(fs: seq<Frame>, msg: seq<Byte>, room: nat, open: bool): Option<Progress> {
    if fs == [] then Some(Progress(0, Continue(msg, room)))
    else if !InOrder(fs[0], open) then None
    else
      match OnFrame(fs[0], msg, room)
      case Stop(outcome) => Some(Progress(1, Stop(outcome)))
      case Continue(msg', room') =>
        match StrictDigest(fs[1..], msg', room', open || IsData(fs[0]))
        case None => None
        case Some(p) => Some(p.(frames := p.frames + 1))
  }

  /** `ReadMessage` never checks the order: it is the strict reader exactly on ordered frames. */
  lemma {:induction false} OrderIsNotChecked(fs: seq<Frame>, msg: seq<Byte>, room: nat, open: bool)
    ensures var p := Digest(fs, msg, room);
      StrictDigest(fs, msg, room, open) == if Ordered(fs[..p.frames], open) then Some(p) else None
  {
    if fs == [] {
    } else {
      var p := Digest(fs, msg, room);
      assert fs[..p.frames][1..] == fs[1..][..p.frames - 1];
      if OnFrame(fs[0], msg, room).Continue? {
        var Continue(msg', room') := OnFrame(fs[0], msg, room);
        OrderIsNotChecked(fs[1..], msg', room', open || IsData(fs[0]));
      }
    }
  }

  /** For example: a continuation frame that continues nothing is returned as a message. */
  lemma {:induction false} StrayContinuation()
    ensures ReadMessage([0x80, 0x02, 0x68, 0x69], [], 0).outcome == Message([0x68, 0x69])
    ensures StrictDigest([Frame(true, CONTINUATION, [0x68, 0x69])], [], 0, false) == None
  {
    var f := Frame(true, CONTINUATION, [0x68, 0x69]);
    GoReadsWire(f, Seven, None, []);
    assert Wire(f, Seven, None) + [] == [0x80, 0x02, 0x68, 0x69];
    assert [] + f.payload == f.payload;
  }
}
