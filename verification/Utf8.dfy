/** What Go's string functions see in a sequence of bytes: runes, white space, JSON escapes. */
module Utf8 {
  import opened Bytes
  import opened DepotScope

  // ---- runes ------------------------------------------------------------------------------------

  predicate Between(c: char, low: int, high: int) { low <= c as int <= high }

  predicate Continues(c: char) { Between(c, 0x80, 0xBF) }

  predicate OpensThree(a: char, b: char) {
    || (Between(a, 0xE0, 0xE0) && Between(b, 0xA0, 0xBF))
    || (Between(a, 0xE1, 0xEC) && Continues(b))
    || (Between(a, 0xED, 0xED) && Between(b, 0x80, 0x9F))
    || (Between(a, 0xEE, 0xEF) && Continues(b))
  }

  predicate OpensFour(a: char, b: char) {
    || (Between(a, 0xF0, 0xF0) && Between(b, 0x90, 0xBF))
    || (Between(a, 0xF1, 0xF3) && Continues(b))
    || (Between(a, 0xF4, 0xF4) && Between(b, 0x80, 0x8F))
  }

  /** The length of the rune at the head of `s`; 0 when its bytes are no valid encoding. */
  function RuneLength(s: string): (n: nat)
    requires s != []
    ensures n <= |s|
  {
    if Between(s[0], 0, 0x7F) then 1
    else if |s| >= 2 && Between(s[0], 0xC2, 0xDF) && Continues(s[1]) then 2
    else if |s| >= 3 && OpensThree(s[0], s[1]) && Continues(s[2]) then 3
    else if |s| >= 4 && OpensFour(s[0], s[1]) && Continues(s[2]) && Continues(s[3]) then 4
    else 0
  }

  /** A Unicode scalar value. */
  type Scalar = n: int | 0 <= n < 0xD800 || 0xE000 <= n < 0x11_0000

  /** A byte that continues an encoding, with the last six bits of `n`. */
  function Tail(n: nat): char { (0x80 + n % 64) as char }

  /** Its UTF-8 encoding, one to four bytes. */
  function Encode(n: Scalar): string {
    if n < 0x80 then [n as char]
    else if n < 0x800 then [(0xC0 + n / 64) as char, Tail(n)]
    else if n < 0x1_0000 then [(0xE0 + n / 64 / 64) as char, Tail(n / 64), Tail(n)]
    else [(0xF0 + n / 64 / 64 / 64) as char, Tail(n / 64 / 64), Tail(n / 64), Tail(n)]
  }

  lemma {:induction false} RuneOfEncoding(n: Scalar, rest: string)
    ensures RuneLength(Encode(n) + rest) == |Encode(n)|
  {}

  /** Six more bits. */
  function More(high: int, c: char): int { high * 64 + (c as int - 0x80) }

  lemma {:induction false} TailOfMore(high: nat, c: char)
    requires Continues(c)
    ensures More(high, c) / 64 == high && More(high, c) >= 0 && Tail(More(high, c)) == c
  {}

  lemma {:induction false} EncodingOfRune(s: string) returns (c: Scalar)
    requires s != [] && RuneLength(s) > 0
    ensures Encode(c) == s[..RuneLength(s)]
  {
    hide More, Tail;
    var n := RuneLength(s);
    var a := s[0] as int;
    if n == 1 {
      c := a;
    } else if n == 2 {
      c := EncodingOfTwo(s);
    } else if n == 3 {
      c := EncodingOfThree(s);
    } else {
      c := EncodingOfFour(s);
    }
  }

  lemma {:induction false} EncodingOfTwo(s: string) returns (c: Scalar)
    requires |s| >= 2 && Between(s[0], 0xC2, 0xDF) && Continues(s[1])
    ensures Encode(c) == s[..2]
  {
    var a := s[0] as int - 0xC0;
    TailOfMore(a, s[1]);
    c := More(a, s[1]);
  }

  lemma {:induction false} EncodingOfThree(s: string) returns (c: Scalar)
    requires |s| >= 3 && OpensThree(s[0], s[1]) && Continues(s[2])
    ensures Encode(c) == s[..3]
  {
    hide Tail;
    var a := s[0] as int - 0xE0;
    TailOfMore(a, s[1]);
    TailOfMore(More(a, s[1]), s[2]);
    c := More(More(a, s[1]), s[2]);
  }

  lemma {:induction false} EncodingOfFour(s: string) returns (c: Scalar)
    requires |s| >= 4 && OpensFour(s[0], s[1]) && Continues(s[2]) && Continues(s[3])
    ensures Encode(c) == s[..4]
  {
    hide Tail;
    var a := s[0] as int - 0xF0;
    TailOfMore(a, s[1]);
    TailOfMore(More(a, s[1]), s[2]);
    TailOfMore(More(More(a, s[1]), s[2]), s[3]);
    c := More(More(More(a, s[1]), s[2]), s[3]);
  }

  /** The bytes at the head of a string are a rune exactly when they encode a scalar value. */
  lemma {:induction false} RunesAreEncodings(s: string, n: nat)
    requires s != [] && n > 0
    ensures RuneLength(s) == n <==> exists c: Scalar :: Encode(c) <= s && |Encode(c)| == n
  {
    if RuneLength(s) == n {
      var c := EncodingOfRune(s);
    }
    if c: Scalar :| Encode(c) <= s && |Encode(c)| == n {
      RuneOfEncoding(c, s[n..]);
      assert s == Encode(c) + s[n..];
    }
  }

  // ---- white space --------------------------------------------------------------------------------

  /** `e` encodes one rune of white space. */
  predicate IsSpace(e: string) {
    || (|e| == 1 && (Between(e[0], 9, 13) || e[0] == ' '))
    || (|e| == 2 && Between(e[0], 0xC2, 0xC2) && (Between(e[1], 0x85, 0x85) || Between(e[1], 0xA0, 0xA0)))
    || (|e| == 3 && Between(e[0], 0xE1, 0xE1) && Between(e[1], 0x9A, 0x9A) && Between(e[2], 0x80, 0x80))
    || (|e| == 3 && Between(e[0], 0xE2, 0xE2) && Between(e[1], 0x80, 0x80)
        && (Between(e[2], 0x80, 0x8A) || Between(e[2], 0xA8, 0xA9) || Between(e[2], 0xAF, 0xAF)))
    || (|e| == 3 && Between(e[0], 0xE2, 0xE2) && Between(e[1], 0x81, 0x81) && Between(e[2], 0x9F, 0x9F))
    || (|e| == 3 && Between(e[0], 0xE3, 0xE3) && Between(e[1], 0x80, 0x80) && Between(e[2], 0x80, 0x80))
  }

  /** They are the 25 code points that Unicode calls white space. */
  lemma {:induction false} SpacesAreUnicode(n: Scalar)
    ensures IsSpace(Encode(n)) <==>
      || 0x09 <= n <= 0x0D || n in {0x20, 0x85, 0xA0, 0x1680} || 0x2000 <= n <= 0x200A
      || n in {0x2028, 0x2029, 0x202F, 0x205F, 0x3000}
  {}

  /** The length of the white space rune at the head of `s`, or 0. */
  function HeadSpace(s: string): (n: nat)
    ensures n <= |s| && (n > 0 ==> IsSpace(s[..n]))
  {
    if |s| >= 1 && IsSpace(s[..1]) then 1
    else if |s| >= 2 && IsSpace(s[..2]) then 2
    else if |s| >= 3 && IsSpace(s[..3]) then 3
    else 0
  }

  /** And at its end. */
  function TailSpace(s: string): (n: nat)
    ensures n <= |s| && (n > 0 ==> IsSpace(s[|s| - n..]))
  {
    if |s| >= 1 && IsSpace(s[|s| - 1..]) then 1
    else if |s| >= 2 && IsSpace(s[|s| - 2..]) then 2
    else if |s| >= 3 && IsSpace(s[|s| - 3..]) then 3
    else 0
  }

  function TrimLeft(s: string): (t: string)
    ensures HeadSpace(t) == 0
  {
    if HeadSpace(s) > 0 then TrimLeft(s[HeadSpace(s)..]) else s
  }

  function TrimRight(s: string): (t: string)
    ensures TailSpace(t) == 0 && t <= s
  {
    if TailSpace(s) > 0 then TrimRight(s[..|s| - TailSpace(s)]) else s
  }

  /** `strings.TrimSpace` */
  function TrimSpace(s: string): string { TrimRight(TrimLeft(s)) }

  /** Nothing but white space. */
  predicate Blank(s: string) {
    s == [] || (HeadSpace(s) > 0 && Blank(s[HeadSpace(s)..]))
  }

  function FirstLine(s: string): (l: string)
    ensures l <= s && '\n' !in l && (|l| < |s| ==> s[|l|] == '\n')
  {
    match IndexAny(s, "\n", 0) case Some(i) => s[..i] case None => s
  }

  lemma {:induction false} HeadOfPrefix(t: string, s: string)
    requires t <= s && HeadSpace(t) > 0
    ensures HeadSpace(s) > 0
  {
    var n := HeadSpace(t);
    assert s[..n] == t[..n];
  }

  lemma {:induction false} WholeSpace(s: string)
    requires IsSpace(s)
    ensures HeadSpace(s) > 0
  {
    assert s[..|s|] == s;
  }

  lemma {:induction false} TrimsToNothing(s: string)
    requires s != [] && TrimRight(s) == []
    ensures HeadSpace(s) > 0
  {
    hide IsSpace, HeadSpace, TailSpace;
    var t := s[..|s| - TailSpace(s)];
    if t == [] {
      assert s[|s| - TailSpace(s)..] == s;
      WholeSpace(s);
    } else {
      TrimsToNothing(t);
      HeadOfPrefix(t, s);
    }
  }

  lemma {:induction false} TrimLeftBlank(s: string)
    ensures TrimLeft(s) == [] <==> Blank(s)
  {
    if HeadSpace(s) == 0 {
    } else {
      TrimLeftBlank(s[HeadSpace(s)..]);
    }
  }

  lemma {:induction false} BlankFirst(space: string, rest: string)
    requires IsSpace(space) && Blank(rest)
    ensures Blank(space + rest)
  {
    var s := space + rest;
    assert HeadSpace(s) == |space| by {
      assert s[..1] == space[..1] && (|space| >= 2 ==> s[..2] == space[..2]) && s[..|space|] == space;
    }
    assert s[|space|..] == rest;
  }

  lemma {:induction false} LeftIsBlank(s: string) returns (a: string)
    ensures s == a + TrimLeft(s) && Blank(a)
  {
    hide IsSpace, HeadSpace;
    var n := HeadSpace(s);
    if n == 0 {
      a := "";
    } else {
      var rest := LeftIsBlank(s[n..]);
      BlankFirst(s[..n], rest);
      a := s[..n] + rest;
    }
  }

  lemma {:induction false} RightIsBlank(s: string, behind: string) returns (b: string)
    requires Blank(behind)
    ensures s + behind == TrimRight(s) + b && Blank(b)
  {
    hide IsSpace, TailSpace, Blank;
    var n := |s| - TailSpace(s);
    if n == |s| {
      b := behind;
    } else {
      BlankFirst(s[n..], behind);
      b := RightIsBlank(s[..n], s[n..] + behind);
      assert s[..n] + (s[n..] + behind) == s + behind;
    }
  }

  lemma {:induction false} SpaceIsShort(e: string)
    requires IsSpace(e)
    ensures 1 <= |e| <= 3
  {}

  lemma {:induction false} NoSpace(t: string, k: nat)
    requires k <= |t| && HeadSpace(t) == 0 && TailSpace(t) == 0
    ensures !IsSpace(t[..k]) && !IsSpace(t[k..])
  {
    hide IsSpace;
    assert k + 3 < |t| || k + 3 == |t| || k + 2 == |t| || k + 1 == |t| || k == |t|;
    if IsSpace(t[..k]) {
      SpaceIsShort(t[..k]);
    }
    if IsSpace(t[k..]) {
      SpaceIsShort(t[k..]);
    }
  }

  /** What is left neither begins nor ends with white space, and nothing else was taken away. */
  lemma {:induction false} TrimmedExactly(s: string) returns (a: string, b: string)
    ensures s == a + TrimSpace(s) + b && Blank(a) && Blank(b)
    ensures var t := TrimSpace(s);
      forall k :: 0 <= k <= |t| ==> !IsSpace(t[..k]) && !IsSpace(t[k..])
  {
    hide IsSpace, TailSpace, HeadSpace, TrimLeft, TrimRight;
    a := LeftIsBlank(s);
    var t := TrimLeft(s);
    b := RightIsBlank(t, "");
    assert t + "" == t;
    var left := TrimRight(t);
    if HeadSpace(left) > 0 {
      HeadOfPrefix(left, t);
    }
    forall k | 0 <= k <= |left|
      ensures !IsSpace(left[..k]) && !IsSpace(left[k..])
    {
      NoSpace(left, k);
    }
  }

  /** Only blank text is trimmed to nothing, and any other has a first line that is not empty. */
  lemma {:induction false} FirstLineOfText(s: string)
    ensures TrimSpace(s) == [] <==> Blank(s)
    ensures !Blank(s) ==> FirstLine(TrimSpace(s)) != []
  {
    var t := TrimLeft(s);
    TrimLeftBlank(s);
    if t != [] {
      if TrimRight(t) == [] {
        TrimsToNothing(t);
      }
      assert !IsSpace(t[..1]);
    }
  }

  // ---- JSON ---------------------------------------------------------------------------------------

  const HEX: string := "0123456789abcdef"

  /** Go's JSON encoding of one ASCII byte, HTML characters escaped. */
  function EscapeByte(c: char): string
    requires Between(c, 0, 0x7F)
  {
    if c == '"' then "\\\"" else if c == '\\' then "\\\\"
    else if c == '\n' then "\\n" else if c == '\r' then "\\r" else if c == '\t' then "\\t"
    else if c as int == 8 then "\\b" else if c as int == 12 then "\\f"
    else if Between(c, 0, 0x1F) || c in "<>&" then "\\u00" + [HEX[c as int / 16], HEX[c as int % 16]]
    else [c]
  }

  /** Bytes that escaping adds to it. */
  function ExtraByte(c: char): nat {
    if c in "\"\\\n\r\t" || c as int == 8 || c as int == 12 then 1
    else if Between(c, 0, 0x1F) || c in "<>&" then 5
    else 0
  }

  /** U+2028 or U+2029, which break JavaScript. */
  predicate OpensWithSeparator(s: string) {
    |s| >= 3 && Between(s[0], 0xE2, 0xE2) && Between(s[1], 0x80, 0x80) && Between(s[2], 0xA8, 0xA9)
  }

  lemma {:induction false} SeparatorsAre(s: string)
    ensures OpensWithSeparator(s) <==> Encode(0x2028) <= s || Encode(0x2029) <= s
  {}

  /** The encoding of a string, without its quotes. */
  function Escaped(s: string): string {
    if s == [] then []
    else if RuneLength(s) == 0 then "\\ufffd" + Escaped(s[1..])
    else if RuneLength(s) == 1 then EscapeByte(s[0]) + Escaped(s[1..])
    else if OpensWithSeparator(s) then "\\u202" + [HEX[s[2] as int % 16]] + Escaped(s[3..])
    else s[..RuneLength(s)] + Escaped(s[RuneLength(s)..])
  }

  /** Bytes that escaping adds. */
  function Extra(s: string): nat {
    if s == [] then 0
    else if RuneLength(s) == 0 then 5 + Extra(s[1..])
    else if RuneLength(s) == 1 then ExtraByte(s[0]) + Extra(s[1..])
    else if OpensWithSeparator(s) then 3 + Extra(s[3..])
    else Extra(s[RuneLength(s)..])
  }

  lemma {:induction false} EscapedByteLength(c: char)
    requires Between(c, 0, 0x7F)
    ensures |EscapeByte(c)| == 1 + ExtraByte(c)
  {}

  lemma {:induction false} EscapedLength(s: string)
    ensures |Escaped(s)| == |s| + Extra(s)
  {
    if s == [] {
    } else if RuneLength(s) <= 1 {
      EscapedLength(s[1..]);
      hide EscapeByte, ExtraByte;
      if RuneLength(s) == 1 {
        EscapedByteLength(s[0]);
      }
    } else if OpensWithSeparator(s) {
      EscapedLength(s[3..]);
    } else {
      EscapedLength(s[RuneLength(s)..]);
    }
  }

  lemma {:induction false} ExtraOfFirst(c: char, s: string)
    requires Between(c, 0, 0x7F)
    ensures Extra([c] + s) == ExtraByte(c) + Extra(s)
  {
    assert ([c] + s)[1..] == s;
  }

  // ---- decoding it again ------------------------------------------------------------------------------

  function HexValue(c: char): nat {
    var n := c as int;
    if 0x30 <= n <= 0x39 then n - 0x30 else if 0x61 <= n <= 0x66 then n - 0x61 + 10 else 0
  }

  /** What four hexadecimal digits stand for. */
  function CodePoint(a: char, b: char, c: char, d: char): string {
    var n := ((HexValue(a) * 16 + HexValue(b)) * 16 + HexValue(c)) * 16 + HexValue(d);
    if n < 0xD800 || 0xE000 <= n < 0x1_0000 then Encode(n) else ""
  }

  /** The byte that a short escape stands for (section 7 of RFC 8259). */
  function Short(c: char): char {
    if c == 'b' then 8 as char else if c == 'f' then 12 as char else if c == 'n' then 10 as char
    else if c == 'r' then 13 as char else if c == 't' then 9 as char else c
  }

  /** The text that a well-formed JSON string, without its quotes, stands for. */
  function Unescaped(e: string): string {
    if e == [] then []
    else if e[0] != '\\' then [e[0]] + Unescaped(e[1..])
    else if |e| >= 6 && e[1] == 'u' then CodePoint(e[2], e[3], e[4], e[5]) + Unescaped(e[6..])
    else if |e| >= 2 then [Short(e[1])] + Unescaped(e[2..])
    else []
  }

  /** A string with U+FFFD for every byte that belongs to no rune. */
  function Repaired(s: string): string {
    if s == [] then []
    else if RuneLength(s) == 0 then Encode(0xFFFD) + Repaired(s[1..])
    else s[..RuneLength(s)] + Repaired(s[RuneLength(s)..])
  }

  lemma {:induction false} PlainFirst(c: char, rest: string)
    requires c != '\\'
    ensures Unescaped([c] + rest) == [c] + Unescaped(rest)
  {
    assert ([c] + rest)[1..] == rest;
  }

  lemma {:induction false} ShortFirst(c: char, rest: string)
    requires c != 'u'
    ensures Unescaped("\\" + [c] + rest) == [Short(c)] + Unescaped(rest)
  {
    assert ("\\" + [c] + rest)[2..] == rest;
  }

  lemma {:induction false} CodeFirst(a: char, b: char, c: char, d: char, rest: string)
    ensures Unescaped("\\u" + [a, b, c, d] + rest) == CodePoint(a, b, c, d) + Unescaped(rest)
  {
    assert ("\\u" + [a, b, c, d] + rest)[6..] == rest;
  }

  lemma {:induction false} HexDigit(n: nat)
    requires n < 16
    ensures HexValue(HEX[n]) == n
  {}

  lemma {:induction false} ByteComesBack(c: char, rest: string)
    requires Between(c, 0, 0x7F)
    ensures Unescaped(EscapeByte(c) + rest) == [c] + Unescaped(rest)
  {
    hide Unescaped;
    var e, n := EscapeByte(c), c as int;
    if |e| == 1 {
      PlainFirst(c, rest);
    } else if |e| == 2 {
      ShortFirst(e[1], rest);
      assert e == "\\" + [e[1]];
    } else {
      HexDigit(n / 16);
      HexDigit(n % 16);
      CodeFirst('0', '0', HEX[n / 16], HEX[n % 16], rest);
      assert e == "\\u" + ['0', '0', HEX[n / 16], HEX[n % 16]];
    }
  }

  /** Bytes that were left as they are. */
  lemma {:induction false} PlainComesBack(p: string, rest: string)
    requires '\\' !in p
    ensures Unescaped(p + rest) == p + Unescaped(rest)
  {
    hide Unescaped;
    if p == [] {
      assert p + rest == rest;
    } else {
      PlainComesBack(p[1..], rest);
      PlainFirst(p[0], p[1..] + rest);
      assert p + rest == [p[0]] + (p[1..] + rest);
    }
  }

  lemma {:induction false} EscapedFirst(s: string)
    requires s != []
    ensures Escaped(s) ==
      if RuneLength(s) == 0 then "\\u" + ['f', 'f', 'f', 'd'] + Escaped(s[1..])
      else if RuneLength(s) == 1 then EscapeByte(s[0]) + Escaped(s[1..])
      else if OpensWithSeparator(s) then "\\u" + ['2', '0', '2', HEX[s[2] as int % 16]] + Escaped(s[3..])
      else s[..RuneLength(s)] + Escaped(s[RuneLength(s)..])
  {
    assert "\\ufffd" == "\\u" + ['f', 'f', 'f', 'd'];
    assert OpensWithSeparator(s) ==>
      "\\u202" + [HEX[s[2] as int % 16]] == "\\u" + ['2', '0', '2', HEX[s[2] as int % 16]];
  }

  lemma {:induction false} SeparatorCode(s: string)
    requires OpensWithSeparator(s)
    ensures RuneLength(s) == 3 && CodePoint('2', '0', '2', HEX[s[2] as int % 16]) == s[..3]
  {
    HexDigit(s[2] as int % 16);
    SeparatorsAre(s);
  }

  lemma {:induction false} LongRune(s: string)
    requires s != [] && RuneLength(s) >= 2
    ensures '\\' !in s[..RuneLength(s)]
  {}

  lemma {:induction false} Replacement()
    ensures CodePoint('f', 'f', 'f', 'd') == Encode(0xFFFD)
  {}

  /** The rune at the head of a string, or the byte that is none. */
  lemma {:induction false} RuneComesBack(s: string)
    requires s != []
    ensures var n := if RuneLength(s) == 0 then 1 else RuneLength(s);
      Unescaped(Escaped(s)) ==
        (if RuneLength(s) == 0 then Encode(0xFFFD) else s[..n]) + Unescaped(Escaped(s[n..]))
  {
    hide Unescaped, Escaped, EscapeByte, RuneLength, OpensWithSeparator, CodePoint, Encode;
    var n := RuneLength(s);
    EscapedFirst(s);
    if n == 0 {
      Replacement();
      CodeFirst('f', 'f', 'f', 'd', Escaped(s[1..]));
    } else if n == 1 {
      assert Between(s[0], 0, 0x7F) by { OneByte(s); }
      ByteComesBack(s[0], Escaped(s[1..]));
      assert s[..1] == [s[0]];
    } else if OpensWithSeparator(s) {
      SeparatorCode(s);
      CodeFirst('2', '0', '2', HEX[s[2] as int % 16], Escaped(s[3..]));
    } else {
      LongRune(s);
      PlainComesBack(s[..n], Escaped(s[n..]));
    }
  }

  lemma {:induction false} OneByte(s: string)
    requires s != [] && RuneLength(s) == 1
    ensures Between(s[0], 0, 0x7F)
  {}

  /** What is read back from the encoding is the string itself, but for bytes that are no UTF-8. */
  lemma {:induction false} EscapedComesBack(s: string)
    ensures Unescaped(Escaped(s)) == Repaired(s)
  {
    if s == [] {
    } else {
      hide Unescaped, Escaped, RuneLength;
      RuneComesBack(s);
      EscapedComesBack(s[if RuneLength(s) == 0 then 1 else RuneLength(s)..]);
    }
  }

  /** Every byte belongs to a rune: valid UTF-8. */
  predicate WellFormed(s: string) {
    s == [] || (RuneLength(s) > 0 && WellFormed(s[RuneLength(s)..]))
  }

  lemma {:induction false} RepairedIsLonger(s: string)
    ensures if WellFormed(s) then Repaired(s) == s else |Repaired(s)| > |s|
  {
    hide RuneLength;
    if s == [] {
    } else if RuneLength(s) == 0 {
      RepairedIsLonger(s[1..]);
      assert |Encode(0xFFFD)| == 3;
    } else {
      RepairedIsLonger(s[RuneLength(s)..]);
    }
  }

  /** So a string comes back as it was if and only if it is valid UTF-8. */
  lemma {:induction false} ComesBackIfValid(s: string)
    ensures Unescaped(Escaped(s)) == s <==> WellFormed(s)
  {
    EscapedComesBack(s);
    RepairedIsLonger(s);
  }
}
