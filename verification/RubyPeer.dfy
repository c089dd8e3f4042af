/**
 The Ruby peer's half of the connection: `read_exact` over a socket that hands out its bytes in
 pieces of any size, and `read_frame`, `write_frame` and `read_message` on top of it.
 */
module RubyPeer {
  import opened Bytes
  import opened Frames
  import M = Messages

  /** What one turn of the read loop can meet: bytes, nothing yet, or the deadline. */
  datatype Arrival = Data(bytes: seq<Byte>) | NotReady | Stall

  /** All bytes still to come, however they are cut up. */
  function Coming(sock: seq<Arrival>): seq<Byte> {
    if sock == [] then [] else (if sock[0].Data? then sock[0].bytes else []) + Coming(sock[1..])
  }

  predicate Stalls(sock: seq<Arrival>) {
    exists i :: 0 <= i < |sock| && sock[i].Stall?
  }

  /** Consecutive slices of a stream. */
  function Slices(s: seq<Byte>, sizes: seq<nat>): seq<seq<Byte>>
    requires Sum(sizes) <= |s|
  {
    if sizes == [] then [] else [s[..sizes[0]]] + Slices(s[sizes[0]..], sizes[1..])
  }

  function Sum(sizes: seq<nat>): nat {
    if sizes == [] then 0 else sizes[0] + Sum(sizes[1..])
  }

  /** What a read returns or raises. */
  datatype Read<T> = Value(value: T) | Raised(error: Error)

  // ---- read_message ------------------------------------------------------------------------------

  /** One turn of the loop: go on with the bytes gathered, or return. */
  datatype Turn = GoOn(msg: seq<Byte>) | Return(outcome: M.Outcome)

  function OnFrame(f: Frame, msg: seq<Byte>): Turn {
    if f.opcode == PING || f.opcode == PONG then GoOn(msg)
    else if f.opcode == CLOSE then Return(M.Failure(ClosedByServer))
    else if f.opcode == BINARY then Return(M.Failure(BinaryFrame))
    else if M.IsData(f) then
      if |msg| + |f.payload| > MAX_MESSAGE_BYTES then Return(M.Failure(TooBig))
      else if f.fin then Return(M.Message(msg + f.payload))
      else GoOn(msg + f.payload)
    else Return(M.Failure(UnknownOpcode))
  }

  /** A ping is answered; unlike the connector the peer does not echo a close frame. */
  function Answer(f: Frame): seq<Frame> { if f.opcode == PING then [M.Pong(f.payload)] else [] }

  /** `read_message` on the bytes that arrive, with `msg` already gathered. */
  function RubyReadMessage(s: seq<Byte>, msg: seq<Byte>): M.Reading
    decreases |s|
  {
    match RubyRead(s)
    case Failed(e) => M.Reading(M.Failure(e), [], 0, [])
    case Got(f, rest) =>
      match OnFrame(f, msg)
      case Return(outcome) => M.Reading(outcome, Answer(f), 1, rest)
      case GoOn(msg') => RubyReadMessage(rest, msg').After(Answer(f))
  }

  /** What the connector did on the same bytes, given what the peer did. */
  ghost predicate Agree(peer: M.Reading, connector: M.Reading) {
    && peer.outcome == connector.outcome && peer.frames == connector.frames && peer.rest == connector.rest
    && if connector.outcome == M.Failure(ClosedByServer)
       then exists echo: Frame :: echo.opcode == CLOSE && connector.replies == peer.replies + [echo]
       else connector.replies == peer.replies
  }

  lemma {:induction false} AgreeAfter(peer: M.Reading, connector: M.Reading, replies: seq<Frame>)
    requires Agree(peer, connector)
    ensures Agree(peer.After(replies), connector.After(replies))
  {
    if connector.outcome == M.Failure(ClosedByServer) {
      var echo: Frame :| echo.opcode == CLOSE && connector.replies == peer.replies + [echo];
      Assoc(replies, peer.replies, [echo]);
    }
  }

  /** The connector's call meets no header with a 16-bit length of 127. */
  ghost predicate Undoubled(s: seq<Byte>, msg: seq<Byte>, room: nat)
    decreases |s|
  {
    && !Doubled(s)
    && match GoRead(s)
       case Failed(_) => true
       case Got(f, rest) =>
         match M.OnFrame(f, msg, room)
         case Stop(_) => true
         case Continue(msg', room') => Undoubled(rest, msg', room')
  }

  /**
   The two message loops agree on every byte string without such a header, errors included: they differ
   only in the peer's demand for masking, in the connector's echo of a close frame, and where the
   connector cannot reply.
   */
  lemma {:induction false} ReassemblersAgree(s: seq<Byte>, msg: seq<Byte>, room: nat)
    requires Undoubled(s, msg, room)
    ensures var peer, connector := RubyReadMessage(s, msg), M.ReadMessage(s, msg, room);
      peer.outcome == M.Failure(NotMasked) || connector.outcome == M.Failure(WriteFailed) || Agree(peer, connector)
    decreases |s|
  {
    ReadersDiffer(s);
    assert RubyRead(s) != Failed(ClosedByServer);
    hide GoRead, RubyRead;
    if RubyRead(s).Got? {
      RestIsShorter(s);
      var Got(f, rest) := RubyRead(s);
      AgreeOnFrame(f, msg, room);
      if M.OnFrame(f, msg, room).Continue? {
        var next := M.OnFrame(f, msg, room);
        var msg', room' := next.msg, next.room;
        ReassemblersAgree(rest, msg', room');
        if Agree(RubyReadMessage(rest, msg'), M.ReadMessage(rest, msg', room')) {
          AgreeAfter(RubyReadMessage(rest, msg'), M.ReadMessage(rest, msg', room'), Answer(f));
        }
      } else {
        assert f.opcode == CLOSE ==> M.Answer(f) == [] + [Frame(true, CLOSE, f.payload)];
      }
    }
  }

  lemma {:induction false} AgreeOnFrame(f: Frame, msg: seq<Byte>, room: nat)
    ensures match M.OnFrame(f, msg, room)
      case Continue(msg', _) => OnFrame(f, msg) == GoOn(msg') && M.Answer(f) == Answer(f)
      case Stop(outcome) => outcome == M.Failure(WriteFailed) || OnFrame(f, msg) == Return(outcome)
  {}

  /** What the peer makes of the first frame, when it is a finished text. */
  lemma {:induction false} ReadsText(s: seq<Byte>)
    ensures RubyRead(s).Failed? ==> RubyReadMessage(s, []).outcome == M.Failure(RubyRead(s).error)
    ensures RubyRead(s).Got? && RubyRead(s).frame.fin && RubyRead(s).frame.opcode == TEXT ==>
      RubyReadMessage(s, []) == M.Reading(M.Message(RubyRead(s).frame.payload), [], 1, RubyRead(s).rest)
  {
    if RubyRead(s).Got? {
      var _, _ := RubyReadIsWire(s);
      assert [] + RubyRead(s).frame.payload == RubyRead(s).frame.payload;
    }
  }

  /** A text the connector sends is the message the peer returns if and only if it is not 127 bytes or too big. */
  lemma {:induction false} PeerGetsText(text: seq<Byte>, key: Key, rest: seq<Byte>)
    requires |text| < TWO64
    ensures var r := RubyReadMessage(GoFrame(TEXT, text, key) + rest, []);
      && (r == M.Reading(M.Message(text), [], 1, rest) <==> |text| <= MAX_MESSAGE_BYTES && |text| != 127)
      && (|text| > MAX_MESSAGE_BYTES || (|text| == 127 && text[0] == 0x7B) ==> r.outcome == M.Failure(TooBig))
  {
    var s := GoFrame(TEXT, text, key) + rest;
    ComesBackUnless127(TEXT, text, key, rest);
    RubyReadsGoFrame(TEXT, text, key, rest);
    if |text| == 127 && text[0] == 0x7B {
      ObjectOf127(text, key, rest);
    }
    assert RubyRead(s).Got? ==> RubyRead(s).frame.fin && RubyRead(s).frame.opcode == TEXT;
    hide RubyRead, GoFrame, RubyReadPayload;
    ReadsText(s);
  }

  /** In the middle of a call: `r` is what was done so far followed by what `s` still holds. */
  ghost predicate ToRead(r: M.Reading, msg: seq<Byte>, answered: seq<Frame>, frames: nat, s: seq<Byte>) {
    var remaining := RubyReadMessage(s, msg);
    r == M.Reading(remaining.outcome, answered + remaining.replies, frames + remaining.frames, remaining.rest)
  }

  lemma {:induction false} OneTurn(r: M.Reading, msg: seq<Byte>, answered: seq<Frame>, frames: nat, s: seq<Byte>)
    requires RubyRead(s).Got? && ToRead(r, msg, answered, frames, s)
    ensures var Got(f, rest) := RubyRead(s);
      match OnFrame(f, msg)
      case Return(outcome) => r == M.Reading(outcome, answered + Answer(f), frames + 1, rest)
      case GoOn(msg') => ToRead(r, msg', answered + Answer(f), frames + 1, rest)
  {
    var Got(f, rest) := RubyRead(s);
    if OnFrame(f, msg).GoOn? {
      Assoc(answered, Answer(f), RubyReadMessage(rest, OnFrame(f, msg).msg).replies);
    }
  }

  /** What was written, once several frames are sent after it. */
  function Sent(written: seq<Byte>, fs: seq<Frame>): seq<Byte> {
    if fs == [] then written
    else Sent(written, fs[..|fs| - 1]) + RubyFrame(fs[|fs| - 1].opcode, fs[|fs| - 1].payload)
  }

  lemma {:induction false} SentOneMore(written: seq<Byte>, fs: seq<Frame>, f: Frame)
    ensures Sent(written, fs + [f]) == Sent(written, fs) + RubyFrame(f.opcode, f.payload)
    ensures Sent(written, fs + []) == Sent(written, fs)
  {
    assert (fs + [f])[..|fs|] == fs && fs + [] == fs;
  }

  lemma {:induction false} NothingToRead(r: M.Reading, msg: seq<Byte>, answered: seq<Frame>, frames: nat, s: seq<Byte>)
    requires RubyRead(s).Failed? && ToRead(r, msg, answered, frames, s)
    ensures r == M.Reading(M.Failure(RubyRead(s).error), answered, frames, [])
  {
    assert answered + [] == answered;
  }

  lemma {:induction false} RestIsShorter(s: seq<Byte>)
    requires RubyRead(s).Got?
    ensures |RubyRead(s).rest| < |s|
  {}

  method Unmask(payload: seq<Byte>, mask: Key) returns (unmasked: seq<Byte>)
    ensures unmasked == Mask(payload, mask)
  {
    unmasked := [];
    for i := 0 to |payload|
      invariant unmasked == Mask(payload, mask)[..i]
    {
      unmasked := unmasked + [Xor(payload[i], mask[i % 4])];
    }
  }

  class Peer {
    var buf: seq<Byte>
    var sock: seq<Arrival>
    var written: seq<Byte>

    constructor (sock: seq<Arrival>)
      ensures buf == [] && this.sock == sock && written == []
    {
      this.buf, this.sock, this.written := [], sock, [];
    }

    /** The stream as the peer has yet to consume it. */
    ghost function Pending(): seq<Byte> reads this { buf + Coming(sock) }

    /** `read_nonblock(max)` and the append to `@buf`: at most `max` bytes, the rest stays. */
    method Receive(max: nat)
      requires sock != [] && sock[0].Data? && max > 0
      modifies this`buf, this`sock
      ensures Pending() == old(Pending())
      ensures Stalls(sock) ==> old(Stalls(sock))
      ensures |Coming(sock)| + |sock| < old(|Coming(sock)| + |sock|)
    {
      var data := sock[0].bytes;
      if |data| <= max {
        buf, sock := buf + data, sock[1..];
      } else {
        var rest := [Data(data[max..])] + sock[1..];
        assert rest[1..] == sock[1..] && data == data[..max] + data[max..];
        buf, sock := buf + data[..max], rest;
      }
    }

    /**
     Whatever the pieces, a success is the next `n` bytes and nothing is ever lost: `@buf` plus the
     bytes still to come is the unconsumed stream, also when an exception is raised.
     */
    method ReadExact(n: nat) returns (r: Read<seq<Byte>>)
      modifies this`buf, this`sock
      ensures r.Value? ==> n <= |old(Pending())| && r.value == old(Pending())[..n] && Pending() == old(Pending())[n..]
      ensures r.Raised? ==> Pending() == old(Pending())
      ensures r.Raised? ==>
        if r.error == DeadlineExpired then old(Stalls(sock)) else r.error == ShortRead && |Pending()| < n
      ensures Stalls(sock) ==> old(Stalls(sock))
    {
      if n == 0 {
        return Value([]);
      }
      while |buf| < n
        invariant Pending() == old(Pending()) && (Stalls(sock) ==> old(Stalls(sock)))
        decreases |Coming(sock)| + |sock|
      {
        if sock == [] {
          return Raised(ShortRead);
        } else if sock[0].Data? {
          Receive(if n - |buf| > 16384 then n - |buf| else 16384);
        } else {
          var stalled := sock[0].Stall?;
          sock := sock[1..];
          if stalled {
            return Raised(DeadlineExpired);
          }
        }
      }
      r := Value(buf[..n]);
      buf := buf[n..];
    }

    /** Calls in a row return the same slices for every way the socket cuts the stream. */
    method ReadSlices(sizes: seq<nat>) returns (slices: seq<seq<Byte>>)
      requires Sum(sizes) <= |Pending()| && !Stalls(sock)
      modifies this`buf, this`sock
      ensures slices == Slices(old(Pending()), sizes) && Pending() == old(Pending())[Sum(sizes)..]
      decreases |sizes|
    {
      if sizes == [] {
        return [];
      }
      ghost var s := Pending();
      var first := ReadExact(sizes[0]);
      var others := ReadSlices(sizes[1..]);
      slices := [first.value] + others;
      assert s[sizes[0]..][Sum(sizes[1..])..] == s[Sum(sizes)..];
    }

    /** The two tests for an extended length, one after the other on the same variable. */
    method ReadLength(code: Byte, ghost s: seq<Byte>) returns (r: Read<nat>, ghost at: nat)
      requires |s| >= 2 && code == Low7(s[1]) && Pending() == s[2..]
      modifies this`buf, this`sock
      ensures Stalls(sock) ==> old(Stalls(sock))
      ensures r.Value? ==> RubyLength(s) == Some(Extent(at, r.value)) && Pending() == s[at..]
      ensures r.Raised? ==>
        if r.error == DeadlineExpired then old(Stalls(sock)) else r.error == ShortRead && RubyLength(s) == None
    {
      var len: nat := code;
      at := 2;
      if len == 126 {
        var e := ReadExact(2);
        if e.Raised? { return Raised(e.error), at; }
        assert e.value == s[2..4];
        len, at := GetBE(e.value), 4;
      }
      assert FirstLength(s) == Some(Extent(at, len)) && Pending() == s[at..];
      if len == 127 {
        var e := ReadExact(8);
        if e.Raised? { return Raised(e.error), at; }
        assert e.value == s[at..at + 8];
        len, at := GetBE(e.value), at + 8;
      }
      r := Value(len);
    }

    method ReadFrame() returns (r: Read<Frame>)
      modifies this`buf, this`sock
      ensures Stalls(sock) ==> old(Stalls(sock))
      ensures r.Value? ==> RubyRead(old(Pending())) == Got(r.value, Pending())
      ensures r.Raised? ==>
        if r.error == DeadlineExpired then old(Stalls(sock)) else RubyRead(old(Pending())) == Failed(r.error)
    {
      ghost var s := Pending();
      var h := ReadExact(2);
      if h.Raised? { return Raised(h.error); }
      assert h.value[0] == s[0] && h.value[1] == s[1];
      var fin := Flag(h.value[0]);
      if HasReserved(h.value[0]) { return Raised(Reserved); }
      var opcode, masked := Low4(h.value[0]), Flag(h.value[1]);
      var length, at := ReadLength(Low7(h.value[1]), s);
      if length.Raised? { return Raised(length.error); }
      var len := length.value;
      var control := IsControl(opcode);
      if control && !fin { return Raised(FragmentedControl); }
      if control && len > MAX_CONTROL_BYTES { return Raised(OversizedControl); }
      if len > MAX_MESSAGE_BYTES { return Raised(TooBig); }
      if !masked { return Raised(NotMasked); }
      assert RubyRead(s) == RubyReadPayload(s, fin, opcode, at, len);
      r := ReadPayload(fin, opcode, len, s, at);
    }

    method ReadPayload(fin: bool, opcode: Opcode, len: nat, ghost s: seq<Byte>, ghost at: nat) returns (r: Read<Frame>)
      requires at <= |s| && Pending() == s[at..]
      modifies this`buf, this`sock
      ensures Stalls(sock) ==> old(Stalls(sock))
      ensures r.Value? ==> RubyReadPayload(s, fin, opcode, at, len) == Got(r.value, Pending())
      ensures r.Raised? ==>
        if r.error == DeadlineExpired then old(Stalls(sock))
        else RubyReadPayload(s, fin, opcode, at, len) == Failed(r.error)
    {
      var mask := ReadExact(4);
      if mask.Raised? { return Raised(mask.error); }
      assert mask.value == s[at..at + 4] && Pending() == s[at + 4..];
      var payload := ReadExact(len);
      if payload.Raised? { return Raised(payload.error); }
      assert payload.value == s[at + 4..at + 4 + len] && Pending() == s[at + 4 + len..];
      var unmasked := Unmask(payload.value, mask.value);
      r := Value(Frame(fin, opcode, unmasked));
    }

    method WriteFrame(opcode: Opcode, payload: seq<Byte>)
      modifies this`written
      ensures written == old(written) + RubyFrame(opcode, payload)
    {
      var n := |payload|;
      var header := [Flagged(true, opcode)];
      if n <= 125 {
        header := header + [n];
      } else if n <= 0xFFFF {
        header := header + [126] + PutBE(n, 2);
      } else {
        header := header + [127] + PutBE(n, 8);
      }
      assert header + payload == RubyFrame(opcode, payload);
      written := written + (header + payload);
    }

    /** The cases of the loop: whether it goes on, given how the frame was handled. */
    method HandleFrame(f: Frame, msg: seq<Byte>, ghost answered: seq<Frame>, ghost first: seq<Byte>)
        returns (turn: Turn)
      requires written == Sent(first, answered)
      modifies this`written
      ensures turn == OnFrame(f, msg) && written == Sent(first, answered + Answer(f))
    {
      SentOneMore(first, answered, M.Pong(f.payload));
      if f.opcode == PING {
        WriteFrame(PONG, f.payload);
        turn := GoOn(msg);
      } else if f.opcode == PONG {
        turn := GoOn(msg);
      } else if f.opcode == CLOSE {
        turn := Return(M.Failure(ClosedByServer));
      } else if f.opcode == BINARY {
        turn := Return(M.Failure(BinaryFrame));
      } else if f.opcode == TEXT || f.opcode == CONTINUATION {
        if |msg| + |f.payload| > MAX_MESSAGE_BYTES {
          turn := Return(M.Failure(TooBig));
        } else if f.fin {
          turn := Return(M.Message(msg + f.payload));
        } else {
          turn := GoOn(msg + f.payload);
        }
      } else {
        turn := Return(M.Failure(UnknownOpcode));
      }
    }

    /** One turn of the loop, a missed deadline included. */
    method ReadTurn(msg: seq<Byte>, ghost frames: nat, ghost spec: M.Reading, ghost answered: seq<Frame>,
            ghost first: seq<Byte>)
        returns (turn: Turn, ghost answered': seq<Frame>)
      requires ToRead(spec, msg, answered, frames, Pending()) && written == Sent(first, answered)
      modifies this`buf, this`sock, this`written
      ensures written == Sent(first, answered') && (Stalls(sock) ==> old(Stalls(sock)))
      ensures turn.GoOn? ==> ToRead(spec, turn.msg, answered', frames + 1, Pending()) && |Pending()| < |old(Pending())|
      ensures turn.Return? ==>
        if turn.outcome == M.Failure(DeadlineExpired) then old(Stalls(sock))
        else turn.outcome == spec.outcome && spec.replies == answered'
      ensures turn.Return? && turn.outcome.Message? ==> Pending() == spec.rest
    {
      ghost var s := Pending();
      var read := ReadFrame();
      if read.Raised? {
        if read.error != DeadlineExpired {
          NothingToRead(spec, msg, answered, frames, s);
        }
        return Return(M.Failure(read.error)), answered;
      }
      OneTurn(spec, msg, answered, frames, s);
      RestIsShorter(s);
      turn := HandleFrame(read.value, msg, answered, first);
      answered' := answered + Answer(read.value);
    }

    /** `spec` is what the specification says of the stream; only a deadline comes before it is done. */
    method ReadMessage() returns (r: Read<seq<Byte>>, ghost spec: M.Reading)
      modifies this`buf, this`sock, this`written
      ensures spec == RubyReadMessage(old(Pending()), [])
      ensures if r == Raised(DeadlineExpired) then old(Stalls(sock))
              else spec.outcome == (if r.Value? then M.Message(r.value) else M.Failure(r.error))
                   && written == Sent(old(written), spec.replies)
      ensures r.Value? ==> Pending() == spec.rest
    {
      ghost var first, answered, frames := written, [], 0;
      var msg := [];
      spec := RubyReadMessage(Pending(), []);
      assert spec == M.Reading(spec.outcome, [] + spec.replies, 0 + spec.frames, spec.rest);
      while true
        invariant ToRead(spec, msg, answered, frames, Pending()) && (Stalls(sock) ==> old(Stalls(sock)))
        invariant written == Sent(first, answered)
        decreases |Pending()|
      {
        var turn;
        turn, answered := ReadTurn(msg, frames, spec, answered, first);
        if turn.Return? {
          return if turn.outcome.Message? then Value(turn.outcome.text) else Raised(turn.outcome.error), spec;
        }
        msg, frames := turn.msg, frames + 1;
      }
    }
  }
}
