/**
 The frame format of section 5.2 of RFC 6455 as a reference (`Wire`), and the two codecs written
 against it: the connector's Go reader and writer and the Ruby peer's reader and writer.
 The theorems say exactly which byte strings each reader accepts, so every round trip between the
 two implementations follows.
 */
module Frames {
  import opened Bytes

  const CONTINUATION: Opcode := 0x0
  const TEXT: Opcode := 0x1
  const BINARY: Opcode := 0x2
  const CLOSE: Opcode := 0x8
  const PING: Opcode := 0x9
  const PONG: Opcode := 0xA

  const MAX_MESSAGE_BYTES: nat := 0x10_0000
  const MAX_CONTROL_BYTES: nat := 125
  const TWO64: nat := 0x1_0000_0000_0000_0000

  datatype Frame = Frame(fin: bool, opcode: Opcode, payload: seq<Byte>)

  datatype Error =
    | ShortRead
    | Reserved
    | FragmentedControl
    | OversizedControl
    | TooBig
    | NotMasked
    | BinaryFrame
    | ClosedByServer
    | UnknownOpcode
    | WriteFailed
    | SocketClosed
    | DeadlineExpired

  datatype ReadResult = Got(frame: Frame, rest: seq<Byte>) | Failed(error: Error)

  // ---- reference format -----------------------------------------------------------------------

  /** The three ways to write a payload length. */
  datatype LengthForm = Seven | Sixteen | SixtyFour {
    function Width(): nat {
      match this case Seven => 0 case Sixteen => 2 case SixtyFour => 8
    }

    predicate Fits(n: nat) {
      match this case Seven => n <= 125 case Sixteen => n < 0x1_0000 case SixtyFour => n < TWO64
    }

    function Code(n: nat): (b: Byte)
      requires Fits(n)
      ensures b < 128
    {
      match this case Seven => n case Sixteen => 126 case SixtyFour => 127
    }
  }

  function KeyBytes(key: Option<Key>): seq<Byte> {
    if key.Some? then key.value else []
  }

  function Masked(p: seq<Byte>, key: Option<Key>): (m: seq<Byte>)
    ensures |m| == |p|
  {
    if key.Some? then Mask(p, key.value) else p
  }

  function Header(f: Frame, form: LengthForm, masked: bool): seq<Byte>
    requires form.Fits(|f.payload|)
  {
    [Flagged(f.fin, f.opcode), Flagged(masked, form.Code(|f.payload|))] + PutBE(|f.payload|, form.Width())
  }

  /** The bytes of one frame: header, optional key, payload masked when there is a key. */
  function Wire(f: Frame, form: LengthForm, key: Option<Key>): seq<Byte>
    requires form.Fits(|f.payload|)
  {
    Header(f, form, key.Some?) + KeyBytes(key) + Masked(f.payload, key)
  }

  /** What both readers demand of a frame beyond its format. */
  predicate Acceptable(f: Frame) {
    && |f.payload| <= MAX_MESSAGE_BYTES
    && (IsControl(f.opcode) ==> f.fin && |f.payload| <= MAX_CONTROL_BYTES)
  }

  // ---- the connector (Go) ---------------------------------------------------------------------

  /** The header bytes `writeFrame` builds; a length is truncated to 64 bits as Go's cast does. */
  function GoHeader(opcode: Opcode, n: nat): seq<Byte> {
    if n <= 125 then [Flagged(true, opcode), Flagged(true, n)]
    else if n <= 0xFFFF then [Flagged(true, opcode), Flagged(true, 126)] + PutBE(n, 2)
    else [Flagged(true, opcode), Flagged(true, 127)] + PutBE(n, 8)
  }

  /** All the bytes of one `writeFrame` call that meets no error. */
  function GoFrame(opcode: Opcode, payload: seq<Byte>, key: Key): seq<Byte> {
    GoHeader(opcode, |payload|) + key + Mask(payload, key)
  }

  function LengthBytes(code: Byte): nat {
    if code == 126 then 2 else if code == 127 then 8 else 0
  }

  /** A payload length and the offset behind it. */
  datatype Extent = Extent(at: nat, length: nat)

  function GoLength(s: seq<Byte>): (e: Option<Extent>)
    requires |s| >= 2
    ensures e.Some? ==> e.value.at <= |s|
  {
    var code := Low7(s[1]);
    var at := 2 + LengthBytes(code);
    if |s| < at then None else Some(Extent(at, if at == 2 then code else GetBE(s[2..at])))
  }

  /** What both readers refuse before they read a payload. */
  function LimitError(fin: bool, opcode: Opcode, length: nat): Option<Error> {
    if IsControl(opcode) && !fin then Some(FragmentedControl)
    else if IsControl(opcode) && length > MAX_CONTROL_BYTES then Some(OversizedControl)
    else if length > MAX_MESSAGE_BYTES then Some(TooBig)
    else None
  }

  /** `readFrame` on the bytes that arrive before the socket reports an error. */
  function GoRead(s: seq<Byte>): ReadResult {
    if |s| < 2 then Failed(ShortRead) else
    var fin := Flag(s[0]);
    if HasReserved(s[0]) then Failed(Reserved) else
    var opcode := Low4(s[0]);
    match GoLength(s)
    case None => Failed(ShortRead)
    case Some(Extent(at, length)) =>
      match LimitError(fin, opcode, length)
      case Some(e) => Failed(e)
      case None => GoReadPayload(s, fin, opcode, Flag(s[1]), at, length)
  }

  /** The rest of `readFrame`: an optional key from offset `at`, then `length` payload bytes. */
  function GoReadPayload(s: seq<Byte>, fin: bool, opcode: Opcode, masked: bool, at: nat, length: nat): ReadResult
    requires at <= |s|
  {
    var body := at + if masked then 4 else 0;
    if |s| < body + length then Failed(ShortRead) else
    var raw := s[body..body + length];
    Got(Frame(fin, opcode, if masked then Mask(raw, s[at..body]) else raw), s[body + length..])
  }

  // ---- the peer (Ruby) ------------------------------------------------------------------------

  /** `write_frame`: never masked. */
  function RubyFrame(opcode: Opcode, payload: seq<Byte>): seq<Byte> {
    var n := |payload|;
    [Flagged(true, opcode)] +
    (if n <= 125 then [n] else if n <= 0xFFFF then [126] + PutBE(n, 2) else [127] + PutBE(n, 8)) +
    payload
  }

  /** The length code, or the 16-bit length that code 126 announces. */
  function FirstLength(s: seq<Byte>): Option<Extent>
    requires |s| >= 2
  {
    var code := Low7(s[1]);
    if code != 126 then Some(Extent(2, code))
    else if |s| < 4 then None
    else Some(Extent(4, GetBE(s[2..4])))
  }

  /** The second test looks at the same variable: a 16-bit length of 127 announces a 64-bit length as well. */
  function RubyLength(s: seq<Byte>): (e: Option<Extent>)
    requires |s| >= 2
    ensures e.Some? ==> e.value.at <= |s|
  {
    match FirstLength(s)
    case None => None
    case Some(Extent(at, length)) =>
      if length != 127 then Some(Extent(at, length))
      else if |s| < at + 8 then None
      else Some(Extent(at + 8, GetBE(s[at..at + 8])))
  }

  /** `read_frame`: insists on a masked frame. */
  function RubyRead(s: seq<Byte>): ReadResult {
    if |s| < 2 then Failed(ShortRead) else
    var fin := Flag(s[0]);
    if HasReserved(s[0]) then Failed(Reserved) else
    var opcode := Low4(s[0]);
    match RubyLength(s)
    case None => Failed(ShortRead)
    case Some(Extent(at, length)) =>
      match LimitError(fin, opcode, length)
      case Some(e) => Failed(e)
      case None => if Flag(s[1]) then RubyReadPayload(s, fin, opcode, at, length) else Failed(NotMasked)
  }

  function RubyReadPayload(s: seq<Byte>, fin: bool, opcode: Opcode, at: nat, length: nat): ReadResult
    requires at <= |s|
  {
    if |s| < at + 4 + length then Failed(ShortRead)
    else Got(Frame(fin, opcode, Mask(s[at + 4..at + 4 + length], s[at..at + 4])), s[at + 4 + length..])
  }

  // ---- what the readers accept ----------------------------------------------------------------

  /** Reading the length field back: the header of `Wire` names the payload's length. */
  lemma {:induction false} LengthField(f: Frame, form: LengthForm, masked: bool, tail: seq<Byte>)
    requires form.Fits(|f.payload|)
    ensures var s := Header(f, form, masked) + tail;
      var at := 2 + form.Width();
      && |s| >= at
      && !HasReserved(s[0]) && Flag(s[0]) == f.fin && Low4(s[0]) == f.opcode
      && Flag(s[1]) == masked && LengthBytes(Low7(s[1])) == form.Width()
      && (if at == 2 then Low7(s[1]) else GetBE(s[2..at])) == |f.payload|
      && s[at..] == tail
  {
    WidthBounds();
    var s := Header(f, form, masked) + tail;
    if form != Seven {
      GetAfterPut(|f.payload|, form.Width());
      assert s[2..2 + form.Width()] == PutBE(|f.payload|, form.Width());
    }
  }

  lemma {:induction false} FourParts(s: seq<Byte>, h: seq<Byte>, k: seq<Byte>, m: seq<Byte>, rest: seq<Byte>)
    requires s == h + k + m + rest
    ensures |s| == |h| + |k| + |m| + |rest|
    ensures s == h + (k + m + rest)
    ensures s[|h|..|h| + |k|] == k
    ensures s[|h| + |k|..|h| + |k| + |m|] == m
    ensures s[|h| + |k| + |m|..] == rest
  {}

  /** Completeness: every acceptable frame in any length form, masked or not, is read back whole. */
  lemma {:induction false} GoReadsWire(f: Frame, form: LengthForm, key: Option<Key>, rest: seq<Byte>)
    requires form.Fits(|f.payload|) && Acceptable(f)
    ensures GoRead(Wire(f, form, key) + rest) == Got(f, rest)
  {
    var h := Header(f, form, key.Some?);
    FourParts(Wire(f, form, key) + rest, h, KeyBytes(key), Masked(f.payload, key), rest);
    LengthField(f, form, key.Some?, KeyBytes(key) + Masked(f.payload, key) + rest);
    if key.Some? {
      MaskTwice(f.payload, key.value);
    }
  }

  lemma {:induction false} Cuts<T>(s: seq<T>, a: nat, b: nat, c: nat)
    requires a <= b <= c <= |s|
    ensures s == s[..a] + s[a..b] + s[b..c] + s[c..]
  {}

  /** The header bytes are determined by what the reader takes from them. */
  lemma {:induction false} HeaderIsRead(h: seq<Byte>, f: Frame, form: LengthForm)
    requires |h| == 2 + form.Width() && form.Width() == LengthBytes(Low7(h[1])) && form.Fits(|f.payload|)
    requires !HasReserved(h[0]) && f.fin == Flag(h[0]) && f.opcode == Low4(h[0])
    requires |f.payload| == if form == Seven then Low7(h[1]) else GetBE(h[2..])
    ensures h == Header(f, form, Flag(h[1]))
  {
    PutAfterGet(h[2..]);
    assert h == [h[0], h[1]] + h[2..];
  }

  /** The length is that of some form, and the bytes up to the payload are its header. */
  lemma {:induction false} LengthIsHeader(s: seq<Byte>, f: Frame) returns (form: LengthForm)
    requires |s| >= 2 && !HasReserved(s[0]) && f.fin == Flag(s[0]) && f.opcode == Low4(s[0])
    requires GoLength(s).Some? && GoLength(s).value.length == |f.payload|
    ensures form.Width() == LengthBytes(Low7(s[1])) && form.Fits(|f.payload|) && |s| >= 2 + form.Width()
    ensures s[..2 + form.Width()] == Header(f, form, Flag(s[1]))
  {
    var code := Low7(s[1]);
    form := if code == 126 then Sixteen else if code == 127 then SixtyFour else Seven;
    var h := s[..2 + form.Width()];
    assert h[2..] == s[2..2 + form.Width()];
    WidthBounds();
    PutAfterGet(h[2..]);
    HeaderIsRead(h, f, form);
  }

  /** What a frame that was read leaves unsaid about its first bytes. */
  lemma {:induction false} ReadBehindLength(s: seq<Byte>)
    requires GoRead(s).Got?
    ensures |s| >= 2 && !HasReserved(s[0]) && GoLength(s).Some?
    ensures var Extent(at, length) := GoLength(s).value;
      && GoRead(s) == GoReadPayload(s, Flag(s[0]), Low4(s[0]), Flag(s[1]), at, length)
      && at == 2 + LengthBytes(Low7(s[1])) && LimitError(Flag(s[0]), Low4(s[0]), length).None?
  {}

  lemma {:induction false} GoReadHead(s: seq<Byte>) returns (form: LengthForm)
    requires GoRead(s).Got?
    ensures var f := GoRead(s).frame;
      && form.Fits(|f.payload|) && form.Width() == LengthBytes(Low7(s[1])) && |s| >= 2 + form.Width()
      && s[..2 + form.Width()] == Header(f, form, Flag(s[1]))
  {
    ReadBehindLength(s);
    hide GoLength;
    form := LengthIsHeader(s, GoRead(s).frame);
  }

  lemma {:induction false} PayloadIsRead(s: seq<Byte>, fin: bool, op: Opcode, masked: bool, at: nat,
          n: nat) returns (key: Option<Key>)
    requires at <= |s| && GoReadPayload(s, fin, op, masked, at, n).Got?
    ensures key.Some? == masked
    ensures var Got(f, rest) := GoReadPayload(s, fin, op, masked, at, n);
      s == s[..at] + KeyBytes(key) + Masked(f.payload, key) + rest
  {
    var body := at + if masked then 4 else 0;
    if masked {
      var k: Key := s[at..body];
      key := Some(k);
      MaskTwice(s[body..body + n], k);
    } else {
      key := None;
    }
    Cuts(s, at, body, body + n);
  }

  /** Soundness: whatever is accepted was some frame's bytes followed by what is left. */
  lemma {:induction false} GoReadIsWire(s: seq<Byte>) returns (form: LengthForm, key: Option<Key>)
    requires GoRead(s).Got?
    ensures var Got(f, rest) := GoRead(s);
      Acceptable(f) && form.Fits(|f.payload|) && s == Wire(f, form, key) + rest
    ensures key.Some? <==> Flag(s[1])
  {
    hide GoRead, GoLength;
    ReadBehindLength(s);
    form := GoReadHead(s);
    var at := 2 + form.Width();
    key := PayloadIsRead(s, Flag(s[0]), Low4(s[0]), Flag(s[1]), at, |GoRead(s).frame.payload|);
  }

  /** The connector accepts exactly the acceptable frames of the reference format. */
  lemma {:induction false} GoReadExactly(s: seq<Byte>, f: Frame, rest: seq<Byte>)
    ensures GoRead(s) == Got(f, rest) <==>
      Acceptable(f) && exists form: LengthForm, key :: form.Fits(|f.payload|) && s == Wire(f, form, key) + rest
  {
    if GoRead(s) == Got(f, rest) {
      var form, key := GoReadIsWire(s);
    } else if Acceptable(f) {
      forall form: LengthForm, key | form.Fits(|f.payload|)
        ensures s != Wire(f, form, key) + rest
      {
        GoReadsWire(f, form, key, rest);
      }
    }
  }

  /** The header the peer misreads: a 16-bit length of 127. */
  predicate Doubled(s: seq<Byte>) { |s| >= 4 && Low7(s[1]) == 126 && GetBE(s[2..4]) == 127 }

  /** Where the header is not doubled the two readers differ on unmasked frames and on nothing else. */
  lemma {:induction false} ReadersDiffer(s: seq<Byte>)
    ensures !Doubled(s) ==> RubyRead(s) == Failed(NotMasked) || RubyRead(s) == GoRead(s)
    ensures RubyRead(s) == Failed(NotMasked) ==> !Flag(s[1])
  {
    hide RubyLength, GoLength, Doubled;
    if |s| >= 2 && !Doubled(s) {
      LengthsAgree(s);
    }
  }

  lemma {:induction false} LengthsAgree(s: seq<Byte>)
    requires |s| >= 2 && !Doubled(s)
    ensures RubyLength(s) == GoLength(s)
  {}

  lemma {:induction false} DoubledIsMisread(s: seq<Byte>)
    requires Doubled(s) && GoRead(s).Got?
    ensures RubyRead(s) != GoRead(s)
  {
    var read := GoReadPayload(s, Flag(s[0]), Low4(s[0]), Flag(s[1]), 4, 127);
    assert GoRead(s) == read;
    if |s| >= 12 && RubyRead(s).Got? {
      assert RubyRead(s) == RubyReadPayload(s, Flag(s[0]), Low4(s[0]), 12, GetBE(s[4..12]));
      assert GetBE(s[4..12]) == 127 ==> |RubyRead(s).rest| != |read.rest|;
    }
  }

  /** A frame the connector accepts is read alike if and only if it is masked and not doubled. */
  lemma {:induction false} ReadAlike(s: seq<Byte>)
    requires GoRead(s).Got?
    ensures RubyRead(s) == GoRead(s) <==> Flag(s[1]) && !Doubled(s)
  {
    if Doubled(s) {
      DoubledIsMisread(s);
    } else {
      ReadersDiffer(s);
    }
  }

  /** The same bytes with the 64-bit length announced outright. */
  function Collapsed(s: seq<Byte>): seq<Byte>
    requires |s| >= 4
  {
    [s[0], Flagged(Flag(s[1]), 127)] + s[4..]
  }

  lemma {:induction false} PayloadShifts(s: seq<Byte>, c: seq<Byte>, fin: bool, op: Opcode, at: nat, n: nat)
    requires 4 <= at <= |s| && |c| == |s| - 2 && c[2..] == s[4..]
    ensures RubyReadPayload(s, fin, op, at, n) == RubyReadPayload(c, fin, op, at - 2, n)
  {
    if |s| >= at + 4 + n {
      Within(s, 4, at - 4, at);
      Within(c, 2, at - 4, at);
      Within(s, 4, at, at + n);
      Within(c, 2, at, at + n);
      assert s[at + 4 + n..] == s[4..][at + n..] && c[at + 2 + n..] == c[2..][at + n..];
    }
  }

  lemma {:induction false} Within(s: seq<Byte>, from: nat, i: nat, j: nat)
    requires i <= j && from + j <= |s|
    ensures s[from..][i..j] == s[from + i..from + j]
  {}

  /** A doubled header is read as if the 16-bit length were not there. */
  lemma {:induction false} DoubledIsCollapsed(s: seq<Byte>)
    requires Doubled(s)
    ensures RubyRead(s) == RubyRead(Collapsed(s)) && !Doubled(Collapsed(s))
  {
    var c := Collapsed(s);
    assert c[2..] == s[4..];
    if |s| >= 12 {
      assert c[2..10] == s[4..12];
      PayloadShifts(s, c, Flag(s[0]), Low4(s[0]), 12, GetBE(s[4..12]));
    }
  }

  /** How the peer takes a length: in one of the three forms, or after a 16-bit length of 127. */
  datatype PeerForm = Once(form: LengthForm) | Twice {
    predicate Fits(n: nat) {
      match this case Once(form) => form.Fits(n) && !(form == Sixteen && n == 127) case Twice => SixtyFour.Fits(n)
    }
  }

  function Expanded(w: seq<Byte>): seq<Byte>
    requires |w| >= 2
  {
    [w[0], Flagged(Flag(w[1]), 126), 0, 127] + w[2..]
  }

  function PeerWire(f: Frame, form: PeerForm, key: Key): seq<Byte>
    requires form.Fits(|f.payload|)
  {
    match form case Once(once) => Wire(f, once, Some(key)) case Twice => Expanded(Wire(f, SixtyFour, Some(key)))
  }

  lemma {:induction false} SixteenDoubles(f: Frame, form: LengthForm, key: Key, rest: seq<Byte>)
    requires form.Fits(|f.payload|)
    ensures Doubled(Wire(f, form, Some(key)) + rest) <==> form == Sixteen && |f.payload| == 127
  {
    var h := Header(f, form, true);
    var tail := key + Mask(f.payload, key) + rest;
    assert Wire(f, form, Some(key)) + rest == h + tail;
    LengthField(f, form, true, tail);
  }

  lemma {:induction false} ExpandedCollapses(w: seq<Byte>, rest: seq<Byte>)
    requires |w| >= 2 && Low7(w[1]) == 127
    ensures Doubled(Expanded(w) + rest) && Collapsed(Expanded(w) + rest) == w + rest
  {
    var s := Expanded(w) + rest;
    assert s[2..4] == [0, 127];
    assert GetBE([0, 127]) == 127 by {
      assert [0, 127][..1] == [0] && [0][..0] == [];
      assert GetBE([0]) == 0;
    }
  }

  lemma {:induction false} DoubledExpands(s: seq<Byte>, w: seq<Byte>, rest: seq<Byte>)
    requires Doubled(s) && |w| >= 2 && Collapsed(s) == w + rest
    ensures s == Expanded(w) + rest
  {
    PutAfterGet(s[2..4]);
    assert s[2..4] == PutBE(127, 2) == [0, 127];
    assert s[2] == s[2..4][0] && s[3] == s[2..4][1];
    assert s[4..] == Collapsed(s)[2..] == w[2..] + rest;
    assert w[0] == Collapsed(s)[0] && w[1] == Collapsed(s)[1];
    assert s == [s[0], s[1], s[2], s[3]] + s[4..];
  }

  lemma {:induction false} RubyReadsWire(f: Frame, form: PeerForm, key: Key, rest: seq<Byte>)
    requires form.Fits(|f.payload|) && Acceptable(f)
    ensures RubyRead(PeerWire(f, form, key) + rest) == Got(f, rest)
  {
    var once := if form.Once? then form.form else SixtyFour;
    var s := Wire(f, once, Some(key)) + rest;
    GoReadsWire(f, once, Some(key), rest);
    SixteenDoubles(f, once, key, rest);
    assert Flag(s[1]);
    ReadersDiffer(s);
    if form.Twice? {
      ExpandedCollapses(Wire(f, once, Some(key)), rest);
      DoubledIsCollapsed(Expanded(Wire(f, once, Some(key))) + rest);
    }
  }

  lemma {:induction false} RubyReadIsWire(s: seq<Byte>) returns (form: PeerForm, key: Key)
    requires RubyRead(s).Got?
    ensures var Got(f, rest) := RubyRead(s);
      Acceptable(f) && form.Fits(|f.payload|) && s == PeerWire(f, form, key) + rest
  {
    var c := if Doubled(s) then Collapsed(s) else s;
    if Doubled(s) {
      DoubledIsCollapsed(s);
    }
    ReadersDiffer(c);
    var once, k := GoReadIsWire(c);
    key := k.value;
    var Got(f, rest) := RubyRead(s);
    SixteenDoubles(f, once, key, rest);
    if Doubled(s) {
      assert once == SixtyFour;
      form := Twice;
      DoubledExpands(s, Wire(f, once, Some(key)), rest);
    } else {
      form := Once(once);
    }
  }

  /** The peer accepts exactly the acceptable frames that carry a key, in the forms it takes. */
  lemma {:induction false} RubyReadExactly(s: seq<Byte>, f: Frame, rest: seq<Byte>)
    ensures RubyRead(s) == Got(f, rest) <==>
      Acceptable(f)
      && exists form: PeerForm, key: Key :: form.Fits(|f.payload|) && s == PeerWire(f, form, key) + rest
  {
    if RubyRead(s) == Got(f, rest) {
      var form, key := RubyReadIsWire(s);
      assert s == PeerWire(f, form, key) + rest;
    } else if Acceptable(f) {
      forall form: PeerForm, key: Key | form.Fits(|f.payload|)
        ensures s != PeerWire(f, form, key) + rest
      {
        RubyReadsWire(f, form, key, rest);
      }
    }
  }

  // ---- what the writers send ------------------------------------------------------------------

  /** The smallest length form a payload fits. */
  function Shortest(n: nat): (form: LengthForm)
    ensures n < TWO64 ==> form.Fits(n)
    ensures forall other: LengthForm :: other.Fits(n) ==> form.Width() <= other.Width()
  {
    if n <= 125 then Seven else if n <= 0xFFFF then Sixteen else SixtyFour
  }

  /** Both writers send the reference format in its minimal length form (section 5.2), FIN set. */
  lemma {:induction false} WritersAreMinimal(opcode: Opcode, payload: seq<Byte>, key: Key)
    requires |payload| < TWO64
    ensures GoFrame(opcode, payload, key) == Wire(Frame(true, opcode, payload), Shortest(|payload|), Some(key))
    ensures RubyFrame(opcode, payload) == Wire(Frame(true, opcode, payload), Shortest(|payload|), None)
  {}

  /** The frames the peer reads back when the connector sends them. */
  predicate PeerReadable(f: Frame) { Acceptable(f) && |f.payload| != 127 }

  /** The eight bytes behind the header of a 127-byte frame, which the peer takes for a length. */
  function Misread(payload: seq<Byte>, key: Key): nat
    requires |payload| == 127
  {
    GetBE(key + Mask(payload, key)[..4])
  }

  /** The error the peer meets in a frame the connector sent; None when it reads on. */
  function PeerRefusal(opcode: Opcode, payload: seq<Byte>, key: Key): Option<Error> {
    LimitError(true, opcode, if |payload| == 127 then Misread(payload, key) else |payload|)
  }

  /** The peer's verdict on every frame the connector can send: exact, including the refusals. */
  lemma {:induction false} RubyReadsGoFrame(opcode: Opcode, payload: seq<Byte>, key: Key, rest: seq<Byte>)
    requires |payload| < TWO64
    ensures var s := GoFrame(opcode, payload, key) + rest;
      RubyRead(s) ==
        if PeerRefusal(opcode, payload, key).Some? then Failed(PeerRefusal(opcode, payload, key).value)
        else if |payload| == 127 then RubyReadPayload(s, true, opcode, 12, Misread(payload, key))
        else Got(Frame(true, opcode, payload), rest)
  {
    var f := Frame(true, opcode, payload);
    var form := Shortest(|payload|);
    WritersAreMinimal(opcode, payload, key);
    if PeerReadable(f) {
      RubyReadsWire(f, Once(form), key, rest);
    } else {
      var s := GoFrame(opcode, payload, key) + rest;
      var masked := Mask(payload, key);
      FourParts(s, GoHeader(opcode, |payload|), key, masked, rest);
      LengthField(f, form, true, key + masked + rest);
      if |payload| == 127 {
        assert s[4..12] == key + masked[..4];
      }
    }
  }

  /** The exact condition: a frame comes back if and only if it is acceptable and not 127 bytes long. */
  lemma {:induction false} ComesBackUnless127(opcode: Opcode, payload: seq<Byte>, key: Key, rest: seq<Byte>)
    requires |payload| < TWO64
    ensures RubyRead(GoFrame(opcode, payload, key) + rest) == Got(Frame(true, opcode, payload), rest) <==>
      PeerReadable(Frame(true, opcode, payload))
  {
    RubyReadsGoFrame(opcode, payload, key, rest);
    if |payload| == 127 {
      var s := GoFrame(opcode, payload, key) + rest;
      FourParts(s, GoHeader(opcode, 127), key, Mask(payload, key), rest);
      assert RubyRead(s).Got? && |RubyRead(s).frame.payload| == 127 ==> |RubyRead(s).rest| != |rest|;
    }
  }

  lemma {:induction false} HighBytes(s: seq<Byte>, more: seq<Byte>)
    ensures GetBE(s + more) == GetBE(s) * Pow256(|more|) + GetBE(more)
  {
    if more == [] {
      assert s + more == s;
    } else {
      var n := |more| - 1;
      HighBytes(s, more[..n]);
      assert (s + more)[..|s| + n] == s + more[..n];
      Regroup(GetBE(s), Pow256(n), GetBE(more[..n]));
    }
  }

  lemma {:induction false} Regroup(a: nat, p: nat, b: nat)
    ensures (a * p + b) * 256 == a * (256 * p) + b * 256
  {}

  lemma {:induction false} NotZero(s: seq<Byte>)
    requires |s| == 4 && s != [0, 0, 0, 0]
    ensures GetBE(s) >= 1
  {
    PutAfterGet(s);
    assert PutBE(0, 2) == [0, 0];
    assert PutBE(0, 4) == PutBE(0, 2) + [0, 0] == [0, 0, 0, 0];
  }

  lemma {:induction false} HugeBehind(high: seq<Byte>, low: seq<Byte>)
    requires |high| == 4 && |low| == 4 && (high == [0, 0, 0, 0] ==> low[0] == 0x7B)
    ensures GetBE(high + low) >= 0x7B00_0000
  {
    HighBytes(high, low);
    assert Pow256(4) == 0x1_0000_0000;
    if high == [0, 0, 0, 0] {
      FirstOfFour(low);
    } else {
      NotZero(high);
    }
  }

  lemma {:induction false} MisreadIsHuge(payload: seq<Byte>, key: Key)
    requires |payload| == 127 && payload[0] == 0x7B
    ensures Misread(payload, key) >= 0x7B00_0000
  {
    if key == [0, 0, 0, 0] {
      UnmaskedStart(payload, key);
    }
    HugeBehind(key, Mask(payload, key)[..4]);
  }

  lemma {:induction false} FirstOfFour(s: seq<Byte>)
    requires |s| == 4
    ensures GetBE(s) >= 0x100_0000 * (s[0] as int)
  {
    HighBytes([s[0]], s[1..]);
    assert s == [s[0]] + s[1..];
    assert Pow256(3) == 0x100_0000;
    assert [s[0]][..0] == [] && GetBE([s[0]]) == s[0];
  }

  /** A text of 127 bytes that opens an object, as every frame of this protocol does, is always too big. */
  lemma {:induction false} ObjectOf127(payload: seq<Byte>, key: Key, rest: seq<Byte>)
    requires |payload| == 127 && payload[0] == 0x7B
    ensures RubyRead(GoFrame(TEXT, payload, key) + rest) == Failed(TooBig)
  {
    RubyReadsGoFrame(TEXT, payload, key, rest);
    MisreadIsHuge(payload, key);
  }

  /** Such a text. */
  lemma {:induction false} SomeTextIsLost(key: Key, rest: seq<Byte>)
    ensures var text := seq(127, _ => 0x7B); RubyRead(GoFrame(TEXT, text, key) + rest) == Failed(TooBig)
  {
    ObjectOf127(seq(127, _ => 0x7B), key, rest);
  }

  /** And a text one byte over the limit, which nothing keeps the connector from sending. */
  lemma {:induction false} LongTextIsLost(key: Key, rest: seq<Byte>)
    ensures var text := seq(MAX_MESSAGE_BYTES + 1, _ => 0x7B);
      RubyRead(GoFrame(TEXT, text, key) + rest) == Failed(TooBig)
  {
    RubyReadsGoFrame(TEXT, seq(MAX_MESSAGE_BYTES + 1, _ => 0x7B), key, rest);
  }

  lemma {:induction false} UnmaskedStart(payload: seq<Byte>, key: Key)
    requires key == [0, 0, 0, 0] && payload != [] && payload[0] == 0x7B
    ensures Mask(payload, key)[0] == 0x7B
  {
    assert Mask(payload, key)[0] == Xor(0x7B, 0);
    assert Pow2(4) == 16;
  }

  /** The connector's reader inverts both writers and leaves what follows unread. */
  lemma {:induction false} GoReadsBothWriters(opcode: Opcode, payload: seq<Byte>, key: Key, rest: seq<Byte>)
    requires Acceptable(Frame(true, opcode, payload))
    ensures GoRead(GoFrame(opcode, payload, key) + rest) == Got(Frame(true, opcode, payload), rest)
    ensures GoRead(RubyFrame(opcode, payload) + rest) == Got(Frame(true, opcode, payload), rest)
  {
    WritersAreMinimal(opcode, payload, key);
    GoReadsWire(Frame(true, opcode, payload), Shortest(|payload|), Some(key), rest);
    GoReadsWire(Frame(true, opcode, payload), Shortest(|payload|), None, rest);
  }

  lemma {:induction false} LengthIsLocal(s: seq<Byte>, more: seq<Byte>)
    requires |s| >= 2 && GoLength(s).Some?
    ensures GoLength(s + more) == GoLength(s)
  {
    var at := GoLength(s).value.at;
    assert (s + more)[2..at] == s[2..at];
  }

  lemma {:induction false} GotIsLocal(s: seq<Byte>, more: seq<Byte>)
    requires GoRead(s).Got?
    ensures GoRead(s + more) == Got(GoRead(s).frame, GoRead(s).rest + more)
  {
    hide GoRead;
    var Got(f, rest) := GoRead(s);
    var form, key := GoReadIsWire(s);
    Assoc(Wire(f, form, key), rest, more);
    GoReadsWire(f, form, key, rest + more);
  }

  lemma {:induction false} FailedIsLocal(s: seq<Byte>, more: seq<Byte>)
    requires GoRead(s).Failed? && GoRead(s) != Failed(ShortRead)
    ensures GoRead(s + more) == GoRead(s)
  {
    assert (s + more)[0] == s[0] && (s + more)[1] == s[1];
    if !HasReserved(s[0]) {
      LengthIsLocal(s, more);
    }
  }

  /** More bytes never change a verdict already reached: only a short read waits for them. */
  lemma {:induction false} GoReadLocal(s: seq<Byte>, more: seq<Byte>)
    requires GoRead(s) != Failed(ShortRead)
    ensures GoRead(s + more) == match GoRead(s) case Got(f, rest) => Got(f, rest + more) case Failed(e) => Failed(e)
  {
    hide GoRead;
    if GoRead(s).Got? {
      GotIsLocal(s, more);
    } else {
      FailedIsLocal(s, more);
    }
  }

  lemma {:induction false} RubyLengthIsLocal(s: seq<Byte>, more: seq<Byte>)
    requires |s| >= 2 && RubyLength(s).Some?
    ensures RubyLength(s + more) == RubyLength(s)
  {
    var Extent(at, length) := FirstLength(s).value;
    assert at == 4 ==> (s + more)[2..4] == s[2..4];
    assert FirstLength(s + more) == FirstLength(s);
    if length == 127 {
      assert (s + more)[at..at + 8] == s[at..at + 8];
    }
  }

  lemma {:induction false} RubyGotIsLocal(s: seq<Byte>, more: seq<Byte>)
    requires RubyRead(s).Got?
    ensures RubyRead(s + more) == Got(RubyRead(s).frame, RubyRead(s).rest + more)
  {
    hide RubyRead;
    var Got(f, rest) := RubyRead(s);
    var form, key := RubyReadIsWire(s);
    Assoc(PeerWire(f, form, key), rest, more);
    RubyReadsWire(f, form, key, rest + more);
  }

  lemma {:induction false} RubyFailedIsLocal(s: seq<Byte>, more: seq<Byte>)
    requires RubyRead(s).Failed? && RubyRead(s) != Failed(ShortRead)
    ensures RubyRead(s + more) == RubyRead(s)
  {
    assert (s + more)[0] == s[0] && (s + more)[1] == s[1];
    if !HasReserved(s[0]) {
      RubyLengthIsLocal(s, more);
    }
  }

  /** The peer's verdicts are as stable. */
  lemma {:induction false} RubyReadLocal(s: seq<Byte>, more: seq<Byte>)
    requires RubyRead(s) != Failed(ShortRead)
    ensures RubyRead(s + more) == match RubyRead(s) case Got(f, rest) => Got(f, rest + more) case Failed(e) => Failed(e)
  {
    hide RubyRead;
    if RubyRead(s).Got? {
      RubyGotIsLocal(s, more);
    } else {
      RubyFailedIsLocal(s, more);
    }
  }
}
