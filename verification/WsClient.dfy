/**
 The connector's connection object: `writeFrame` under its lock, `readFrame`, `ReadMessage` and
 `Close`, each proved against the functions of `Frames` and `Messages`.
 */
module WsClient {
  import opened Bytes
  import opened Frames
  import opened Messages

  /** What the socket accepts of `p` before it fails, if it does. */
  function Accepted(p: seq<Byte>, room: nat): (q: seq<Byte>)
    ensures |q| <= room && q <= p
  {
    if |p| <= room then p else p[..room]
  }

  function Left(room: nat, used: nat): nat { if used <= room then room - used else 0 }

  /** The sending side of a connection: bytes sent, bytes it still accepts, keys drawn. */
  datatype Out = Out(sent: seq<Byte>, room: nat, drawn: nat) {
    function Write(p: seq<Byte>): Out {
      Out(sent + Accepted(p, room), Left(room, |p|), drawn)
    }

    /** After trying to send one frame. */
    function Send(f: Frame, keys: nat -> Key): Out {
      Write(GoFrame(f.opcode, f.payload, keys(drawn))).(drawn := drawn + 1)
    }

    /** After trying to send several, in order. */
    function SendAll(fs: seq<Frame>, keys: nat -> Key): Out {
      if fs == [] then this else SendAll(fs[..|fs| - 1], keys).Send(fs[|fs| - 1], keys)
    }
  }

  lemma {:induction false} WriteTwice(o: Out, a: seq<Byte>, b: seq<Byte>)
    ensures o.Write(a + b) == if |a| <= o.room then o.Write(a).Write(b) else o.Write(a)
  {
    if |a| <= o.room {
      assert o.sent + a + Accepted(b, o.room - |a|) == o.sent + Accepted(a + b, o.room);
    }
  }

  lemma {:induction false} SendOneMore(o: Out, fs: seq<Frame>, f: Frame, keys: nat -> Key)
    ensures o.SendAll(fs + [f], keys) == o.SendAll(fs, keys).Send(f, keys)
  {
    assert (fs + [f])[..|fs|] == fs;
  }

  /** The bytes of several frames, each with the next key of the random source. */
  function Coded(fs: seq<Frame>, keys: nat -> Key, drawn: nat): seq<Byte> {
    if fs == [] then [] else
    var n := |fs| - 1;
    Coded(fs[..n], keys, drawn) + GoFrame(fs[n].opcode, fs[n].payload, keys(drawn + n))
  }

  lemma {:induction false} FitsBehind(o: Out, mid: Out, coded: seq<Byte>, frame: seq<Byte>)
    requires mid.sent == o.sent + coded && mid.room == o.room - |coded| && |coded + frame| <= o.room
    ensures mid.Write(frame).sent == o.sent + (coded + frame) && mid.Write(frame).room == o.room - |coded + frame|
  {}

  /** Frames that fit are on the socket whole, one after another. */
  lemma {:induction false} SentInFull(o: Out, fs: seq<Frame>, keys: nat -> Key)
    requires |Coded(fs, keys, o.drawn)| <= o.room
    ensures o.SendAll(fs, keys).sent == o.sent + Coded(fs, keys, o.drawn)
    ensures o.SendAll(fs, keys).room == o.room - |Coded(fs, keys, o.drawn)|
    ensures o.SendAll(fs, keys).drawn == o.drawn + |fs|
  {
    hide GoFrame;
    if fs == [] {
      assert o.sent + [] == o.sent;
    } else {
      var n := |fs| - 1;
      SentInFull(o, fs[..n], keys);
      FitsBehind(o, o.SendAll(fs[..n], keys), Coded(fs[..n], keys, o.drawn),
                 GoFrame(fs[n].opcode, fs[n].payload, keys(o.drawn + n)));
    }
  }

  /** The reason the connector gives, in ASCII. */
  const GOING_AWAY: seq<Byte> := [103, 111, 105, 110, 103, 32, 97, 119, 97, 121]

  /** The payload `WriteClose` sends: the code, the reason, cut to what a control frame may carry. */
  function ClosePayload(code: nat, reason: seq<Byte>): (p: seq<Byte>)
    ensures p <= PutBE(code, 2) + reason
    ensures |p| == if 2 + |reason| <= MAX_CONTROL_BYTES then 2 + |reason| else MAX_CONTROL_BYTES
  {
    var p := PutBE(code, 2) + reason;
    if |p| > MAX_CONTROL_BYTES then p[..MAX_CONTROL_BYTES] else p
  }

  lemma {:induction false} GoingAwayReads(reason: string)
    requires reason == "going away"
    ensures |GOING_AWAY| == |reason| && forall i :: 0 <= i < |reason| ==> GOING_AWAY[i] == reason[i] as int
  {}

  class Conn {
    // The socket: bytes still to arrive before the next read deadline fires, the runs of bytes after
    // it (the last ends in EOF), and what was sent. A TLS socket that has failed a write stays failed.
    var arriving: seq<Byte>
    var later: seq<seq<Byte>>
    var out: Out
    var open: bool

    // The successive keys of the random source.
    const keys: nat -> Key

    var closed: bool
    var lastActivity: int

    ghost predicate Valid() reads this { !open ==> out.room == 0 }

    constructor (arriving: seq<Byte>, later: seq<seq<Byte>>, room: nat, keys: nat -> Key, now: int)
      ensures Valid() && open && !closed && this.arriving == arriving && this.later == later
      ensures this.keys == keys && out == Out([], room, 0) && lastActivity == now
    {
      this.arriving, this.later, this.keys, this.lastActivity := arriving, later, keys, now;
      out, open, closed := Out([], room, 0), true, false;
    }

    // ---- writing ----

    method RawWrite(p: seq<Byte>) returns (ok: bool)
      modifies this`out
      ensures ok <==> |p| <= old(out.room)
      ensures out == old(out).Write(p)
    {
      ok := |p| <= out.room;
      out := Out(out.sent + Accepted(p, out.room), Left(out.room, |p|), out.drawn);
    }

    /** Three writes, the first failure ends them; a frame that does not fit leaves only a beginning. */
    method WriteFrame(opcode: Opcode, payload: seq<Byte>) returns (ok: bool)
      requires |payload| < TWO64
      modifies this`out
      ensures out == old(out).Send(Frame(true, opcode, payload), keys)
      ensures ok <==> GoFrameSize(|payload|) <= old(out.room)
    {
      var header := BuildHeader(opcode, |payload|);
      var key := keys(out.drawn);
      out := out.(drawn := out.drawn + 1);
      var masked := MaskPayload(payload, key);
      ok := WriteParts(header[..], key, masked[..]);
      GoFrameHasSize(opcode, payload, key);
    }

    method WriteParts(header: seq<Byte>, key: seq<Byte>, masked: seq<Byte>) returns (ok: bool)
      modifies this`out
      ensures out == old(out).Write(header + key + masked)
      ensures ok <==> |header + key + masked| <= old(out.room)
    {
      WriteTwice(out, header + key, masked);
      WriteTwice(out, header, key);
      ok := RawWrite(header);
      if ok {
        ok := RawWrite(key);
      }
      if ok && |masked| > 0 {
        ok := RawWrite(masked);
      }
    }

    method WriteClose(code: nat, reason: seq<Byte>) returns (ok: bool)
      requires code < 0x1_0000 && |reason| < TWO64 - 2
      modifies this`out
      ensures out == old(out).Send(Frame(true, CLOSE, ClosePayload(code, reason)), keys)
      ensures ok <==> GoFrameSize(|ClosePayload(code, reason)|) <= old(out.room)
    {
      var buf := PutBE(code, 2) + reason;
      if |buf| > MAX_CONTROL_BYTES {
        buf := buf[..MAX_CONTROL_BYTES];
      }
      ok := WriteFrame(CLOSE, buf);
    }

    /** Safe to call more than once: only the first call sends a close frame and shuts the socket. */
    method Close()
      requires Valid()
      modifies this`out, this`closed, this`open
      ensures Valid() && closed
      ensures old(closed) ==> out == old(out) && open == old(open)
      ensures !old(closed) ==>
        !open && out == old(out).Send(Frame(true, CLOSE, ClosePayload(1000, GOING_AWAY)), keys).(room := 0)
    {
      if closed {
        return;
      }
      closed := true;
      var _ := WriteClose(1000, GOING_AWAY);
      open, out := false, out.(room := 0);
    }

    // ---- reading ----

    /** `io.ReadFull`: what arrived before an error is consumed, and lost. */
    method ReadFull(n: nat) returns (ok: bool, bytes: seq<Byte>, error: Error)
      modifies this`arriving, this`later
      ensures ok <==> n <= |old(arriving)|
      ensures ok ==> bytes == old(arriving)[..n] && arriving == old(arriving)[n..] && later == old(later)
      ensures !ok ==> error == EndOf(old(later)) && (arriving, later) == AfterEnd(old(later))
      ensures !ok ==>
        if old(later) == [] then error == ShortRead && arriving == [] && later == []
        else error == DeadlineExpired && arriving == old(later)[0] && later == old(later)[1..]
    {
      bytes, error := [], ShortRead;
      ok := n <= |arriving|;
      if ok {
        bytes, arriving := arriving[..n], arriving[n..];
      } else {
        error := EndOf(later);
        arriving, later := AfterEnd(later).0, AfterEnd(later).1;
      }
    }

    method ReadFrame() returns (r: ReadResult)
      modifies this`arriving, this`later
      ensures r == match GoRead(old(arriving)) case Failed(ShortRead) => Failed(EndOf(old(later))) case other => other
      ensures r.Got? ==> arriving == r.rest && later == old(later)
      ensures GoRead(old(arriving)) == Failed(ShortRead) ==> (arriving, later) == AfterEnd(old(later))
    {
      ghost var s := arriving;
      var ok, h, error := ReadFull(2);
      if !ok { return Failed(error); }
      var fin := Flag(h[0]);
      if HasReserved(h[0]) { return Failed(Reserved); }
      var opcode, masked, length := Low4(h[0]), Flag(h[1]), Low7(h[1]) as nat;
      var extra := LengthBytes(length);
      if extra > 0 {
        var e;
        ok, e, error := ReadFull(extra);
        if !ok { return Failed(error); }
        assert e == s[2..2 + extra];
        length := GetBE(e);
      }
      ghost var at := 2 + extra;
      assert arriving == s[at..];
      if IsControl(opcode) {
        if !fin { return Failed(FragmentedControl); }
        if length > MAX_CONTROL_BYTES { return Failed(OversizedControl); }
      }
      if length > MAX_MESSAGE_BYTES { return Failed(TooBig); }
      assert GoRead(s) == GoReadPayload(s, fin, opcode, masked, at, length);
      r := ReadPayload(fin, opcode, masked, length, s, at);
    }

    method ReadPayload(fin: bool, opcode: Opcode, masked: bool, length: nat, ghost s: seq<Byte>, ghost at: nat)
        returns (r: ReadResult)
      requires at <= |s| && arriving == s[at..]
      modifies this`arriving, this`later
      ensures r == match GoReadPayload(s, fin, opcode, masked, at, length)
        case Got(f, rest) => Got(f, rest) case Failed(_) => Failed(EndOf(old(later)))
      ensures if r.Got? then arriving == r.rest && later == old(later) else (arriving, later) == AfterEnd(old(later))
    {
      var key: Key := [0, 0, 0, 0];
      if masked {
        var ok, k, error := ReadFull(4);
        if !ok { return Failed(error); }
        key := k;
      }
      ghost var body := at + if masked then 4 else 0;
      assert arriving == s[body..];
      var ok, raw, error := ReadFull(length);
      if !ok { return Failed(error); }
      assert raw == s[body..body + length] && arriving == s[body + length..];
      if masked {
        assert key == s[at..body];
        raw := Unmask(raw, key);
      }
      r := Got(Frame(fin, opcode, raw), arriving);
    }

    /** One turn of the loop: how it goes on, given how the frame was handled. */
    method HandleFrame(f: Frame, msg: seq<Byte>, ghost answered: seq<Frame>, ghost first: Out) returns (next: Next)
      requires |f.payload| < TWO64 && out == first.SendAll(answered, keys)
      modifies this`out
      ensures next == OnFrame(f, msg, old(out.room)) && (next.Continue? ==> out.room == next.room)
      ensures out == first.SendAll(answered + Answer(f), keys)
    {
      if Answer(f) == [] {
        assert answered + Answer(f) == answered;
      } else {
        SendOneMore(first, answered, Answer(f)[0], keys);
      }
      if f.opcode == PING {
        var ok := WriteFrame(PONG, f.payload);
        GoFrameHasSize(PONG, f.payload, keys(old(out.drawn)));
        return if ok then Continue(msg, out.room) else Stop(Failure(WriteFailed));
      } else if f.opcode == PONG {
        next := Continue(msg, out.room);
      } else if f.opcode == CLOSE {
        var _ := WriteFrame(CLOSE, f.payload);
        next := Stop(Failure(ClosedByServer));
      } else if f.opcode == BINARY {
        next := Stop(Failure(BinaryFrame));
      } else if f.opcode == TEXT || f.opcode == CONTINUATION {
        if |msg| + |f.payload| > MAX_MESSAGE_BYTES {
          next := Stop(Failure(TooBig));
        } else if f.fin {
          next := Stop(Message(msg + f.payload));
        } else {
          next := Continue(msg + f.payload, out.room);
        }
      } else {
        next := Stop(Failure(UnknownOpcode));
      }
    }

    /** One turn of the loop; `got` says whether a frame was read. */
    method ReadTurn(msg: seq<Byte>, ghost frames: nat, ghost r: Reading, ghost answered: seq<Frame>, ghost first: Out)
        returns (got: bool, next: Next, ghost answered': seq<Frame>)
      requires ToRead(r, msg, answered, frames, arriving, out.room) && out == first.SendAll(answered, keys)
      modifies this`arriving, this`later, this`out
      ensures out == first.SendAll(answered', keys)
      ensures next.Continue? ==> got && ToRead(r, next.msg, answered', frames + 1, arriving, out.room)
      ensures next.Continue? ==> |arriving| < |old(arriving)| && later == old(later)
      ensures next.Stop? ==> r.frames == (if got then frames + 1 else frames) && r.replies == answered'
      ensures next.Stop? ==> next.outcome == Reported(r.outcome, old(later))
      ensures next.Stop? && Resumable(r.outcome) ==> (arriving, later) == Unread(r, old(later))
    {
      ghost var s := arriving;
      var read := ReadFrame();
      if read.Failed? {
        ReadsNothing(r, msg, answered, frames, s, out.room);
        return false, Stop(Failure(read.error)), answered;
      }
      got, answered' := true, answered + Answer(read.frame);
      PayloadBound(s);
      Turn(r, msg, answered, frames, s, out.room);
      next := HandleFrame(read.frame, msg, answered, first);
    }

    /**
     `clock(i)` is the time read after the `i`-th frame of this call; `r` is what the specification
     says about the bytes up to the next deadline. On a closed socket setting the deadline fails.
     */
    method ReadMessage(clock: nat -> int) returns (result: Outcome, ghost r: Reading)
      modifies this`arriving, this`later, this`out, this`lastActivity
      ensures r == if old(open) then Messages.ReadMessage(old(arriving), [], old(out.room))
                   else Reading(Failure(SocketClosed), [], 0, old(arriving))
      ensures out == old(out).SendAll(r.replies, keys)
      ensures lastActivity == if r.frames == 0 then old(lastActivity) else clock(r.frames - 1)
      ensures r.outcome != Failure(ShortRead) ==> result == r.outcome
      ensures r.outcome.Message? ==> arriving == r.rest && later == old(later)
      ensures r.outcome == Failure(ShortRead) ==>
        if old(later) == [] then result == Failure(ShortRead) && arriving == [] && later == []
        else result == Failure(DeadlineExpired) && arriving == old(later)[0] && later == old(later)[1..]
    {
      if open {
        result, r := ReadLoop(clock);
      } else {
        result, r := Failure(SocketClosed), Reading(Failure(SocketClosed), [], 0, arriving);
      }
    }

    method ReadLoop(clock: nat -> int) returns (result: Outcome, ghost r: Reading)
      modifies this`arriving, this`later, this`out, this`lastActivity
      ensures r == Messages.ReadMessage(old(arriving), [], old(out.room))
      ensures result == Reported(r.outcome, old(later))
      ensures out == old(out).SendAll(r.replies, keys)
      ensures lastActivity == LastSeen(r.frames, clock, old(lastActivity))
      ensures Resumable(r.outcome) ==> (arriving, later) == Unread(r, old(later))
    {
      hide GoRead, GoFrame, OnFrame, Messages.ReadMessage, ToRead, Reported, Resumable, Unread;
      hide Out.SendAll, LastSeen;
      ghost var first, answered := out, [];
      NothingSeen(clock, lastActivity);
      NothingSent(out, keys);
      var msg: seq<Byte>, frames: nat := [], 0; // `frames` counts the readings of the clock
      r := Messages.ReadMessage(arriving, [], out.room);
      AllToRead(arriving, out.room);
      while true
        invariant later == old(later) && out == first.SendAll(answered, keys)
        invariant ToRead(r, msg, answered, frames, arriving, out.room)
        invariant lastActivity == LastSeen(frames, clock, old(lastActivity))
        decreases |arriving|
      {
        var got, next;
        got, next, answered := ReadTurn(msg, frames, r, answered, first);
        if got {
          NextSeen(frames, clock, old(lastActivity));
          lastActivity, frames := clock(frames), frames + 1;
        }
        if next.Stop? { return next.outcome, r; }
        msg := next.msg;
      }
    }
  }

  /** Why the current run of bytes ends: a read deadline, or the end of the stream. */
  function EndOf(later: seq<seq<Byte>>): Error {
    if later != [] then DeadlineExpired else ShortRead
  }

  function AfterEnd(later: seq<seq<Byte>>): (seq<Byte>, seq<seq<Byte>>) {
    if later != [] then (later[0], later[1..]) else ([], [])
  }

  /** A run of bytes that ends early is reported as a deadline or as the end of the stream. */
  function Reported(outcome: Outcome, later: seq<seq<Byte>>): Outcome {
    if outcome == Failure(ShortRead) then Failure(EndOf(later)) else outcome
  }

  /** The outcomes after which the session may read on: a message, or a deadline. */
  predicate Resumable(outcome: Outcome) { outcome.Message? || outcome == Failure(ShortRead) }

  /** What is unread after such a call, up to the next deadline and after it. */
  function Unread(r: Reading, later: seq<seq<Byte>>): (seq<Byte>, seq<seq<Byte>>) {
    if r.outcome == Failure(ShortRead) then AfterEnd(later) else (r.rest, later)
  }

  function LastSeen(frames: nat, clock: nat -> int, before: int): int {
    if frames == 0 then before else clock(frames - 1)
  }

  lemma {:induction false} NothingSeen(clock: nat -> int, before: int)
    ensures LastSeen(0, clock, before) == before
  {}

  lemma {:induction false} NextSeen(frames: nat, clock: nat -> int, before: int)
    ensures LastSeen(frames + 1, clock, before) == clock(frames)
  {}

  lemma {:induction false} NothingSent(o: Out, keys: nat -> Key)
    ensures o.SendAll([], keys) == o
  {}

  /** In the middle of a call: `r` is what was done so far followed by what `s` still holds. */
  ghost predicate ToRead(r: Reading, msg: seq<Byte>, answered: seq<Frame>, frames: nat, s: seq<Byte>, room: nat) {
    var remaining := Messages.ReadMessage(s, msg, room);
    r == Reading(remaining.outcome, answered + remaining.replies, frames + remaining.frames, remaining.rest)
  }

  lemma {:induction false} AllToRead(s: seq<Byte>, room: nat)
    ensures ToRead(Messages.ReadMessage(s, [], room), [], [], 0, s, room)
  {
    var r := Messages.ReadMessage(s, [], room);
    assert r == Reading(r.outcome, [] + r.replies, 0 + r.frames, r.rest);
  }

  /** One turn of the loop is one unfolding of the specification. */
  lemma {:induction false} Turn(r: Reading, msg: seq<Byte>, answered: seq<Frame>, frames: nat, s: seq<Byte>, room: nat)
    requires GoRead(s).Got? && ToRead(r, msg, answered, frames, s, room)
    ensures var Got(f, rest) := GoRead(s);
      var next := OnFrame(f, msg, room);
      if next.Stop? then r == Reading(next.outcome, answered + Answer(f), frames + 1, rest)
      else ToRead(r, next.msg, answered + Answer(f), frames + 1, rest, next.room)
  {
    var Got(f, rest) := GoRead(s);
    var next := OnFrame(f, msg, room);
    if next.Continue? {
      Assoc(answered, Answer(f), Messages.ReadMessage(rest, next.msg, next.room).replies);
    }
  }

  lemma {:induction false} ReadsNothing(r: Reading, msg: seq<Byte>, answered: seq<Frame>, frames: nat,
          s: seq<Byte>, room: nat)
    requires GoRead(s).Failed? && ToRead(r, msg, answered, frames, s, room)
    ensures r == Reading(Failure(GoRead(s).error), answered, frames, [])
  {
    assert answered + [] == answered;
  }

  lemma {:induction false} PayloadBound(s: seq<Byte>)
    requires GoRead(s).Got?
    ensures |GoRead(s).frame.payload| <= MAX_MESSAGE_BYTES && |GoRead(s).rest| < |s|
  {
    var _, _ := GoReadIsWire(s);
  }

  method Unmask(raw: seq<Byte>, key: Key) returns (p: seq<Byte>)
    ensures p == Mask(raw, key)
  {
    var payload := new Byte[|raw|](i requires 0 <= i < |raw| => raw[i]);
    for i := 0 to payload.Length
      invariant forall j :: 0 <= j < i ==> payload[j] == Mask(raw, key)[j]
      invariant forall j :: i <= j < |raw| ==> payload[j] == raw[j]
    {
      payload[i] := Xor(payload[i], key[i % 4]);
    }
    p := payload[..];
  }

  method BuildHeader(opcode: Opcode, n: nat) returns (header: array<Byte>)
    ensures fresh(header) && header[..] == GoHeader(opcode, n)
  {
    if n <= 125 {
      header := new Byte[2];
      header[0], header[1] := Flagged(true, opcode), Flagged(true, n);
    } else if n <= 0xFFFF {
      header := new Byte[4];
      header[0], header[1] := Flagged(true, opcode), Flagged(true, 126);
      PutUint(header, 2, n);
    } else {
      header := new Byte[10];
      header[0], header[1] := Flagged(true, opcode), Flagged(true, 127);
      PutUint(header, 2, n);
    }
  }

  method MaskPayload(payload: seq<Byte>, key: Key) returns (masked: array<Byte>)
    ensures fresh(masked) && masked[..] == Mask(payload, key)
  {
    masked := new Byte[|payload|];
    for i := 0 to |payload|
      invariant forall j :: 0 <= j < i ==> masked[j] == Mask(payload, key)[j]
    {
      masked[i] := Xor(payload[i], key[i % 4]);
    }
  }

  /** Writes `n` big-endian into the bytes of `a` from `from` on, lowest byte last. */
  method PutUint(a: array<Byte>, from: nat, n: nat)
    requires from <= a.Length
    modifies a
    ensures a[..] == old(a[..from]) + PutBE(n, a.Length - from)
  {
    var i, v := a.Length, n;
    while i > from
      invariant from <= i <= a.Length
      invariant a[..i] == old(a[..i])
      invariant PutBE(n, a.Length - from) == PutBE(v, i - from) + a[i..]
    {
      i := i - 1;
      a[i], v := LowByte(v), v / 256;
    }
    assert a[..] == a[..from] + a[from..];
  }
}
