/**
 Shaping of p4 output: the two-budget truncation of a describe record, the capped output buffer, and
 the search for the error record worth reporting. A string is the sequence of its bytes.
 */
module Describe {
  import opened Bytes
  import opened Utf8

  /** A decoded JSON value: a string, or anything else by the way it prints. */
  datatype Value = Text(text: string) | Other(printed: string)

  type Record = map<string, Value>

  function Str(r: Record, key: string): string {
    if key !in r then "" else match r[key] case Text(s) => s case Other(s) => s
  }

  lemma {:induction false} StrMeans(r: Record, key: string)
    ensures key in r && r[key].Text? ==> Str(r, key) == r[key].text
    ensures key in r && r[key].Other? ==> Str(r, key) == r[key].printed
    ensures key !in r ==> Str(r, key) == ""
  {}

  // ---- indexed keys -----------------------------------------------------------------------------

  const DIGITS: string := "0123456789"

  /** `strconv.Itoa` on an index. */
  function Itoa(n: nat): string {
    if n < 10 then [DIGITS[n]] else Itoa(n / 10) + [DIGITS[n % 10]]
  }

  function Digit(c: char): nat { if '0' <= c <= '9' then c as nat - '0' as nat else 0 }

  function Atoi(s: string): nat {
    if s == [] then 0 else 10 * Atoi(s[..|s| - 1]) + Digit(s[|s| - 1])
  }

  lemma {:induction false} AtoiItoa(n: nat)
    ensures Atoi(Itoa(n)) == n
  {
    DigitOf(n % 10);
    if n >= 10 {
      AtoiItoa(n / 10);
      assert Itoa(n)[..|Itoa(n)| - 1] == Itoa(n / 10);
    } else {
      assert Atoi([]) == 0;
    }
  }

  lemma {:induction false} DigitOf(d: nat)
    requires d < 10
    ensures Digit(DIGITS[d]) == d
  {}

  function Key(name: string, i: nat): string { name + Itoa(i) }

  lemma {:induction false} KeysDiffer(name: string, i: nat, j: nat)
    requires Key(name, i) == Key(name, j)
    ensures i == j
  {
    assert Key(name, i)[|name|..] == Itoa(i) && Key(name, j)[|name|..] == Itoa(j);
    AtoiItoa(i);
    AtoiItoa(j);
  }

  function Keys(name: string, n: nat): set<string> {
    if n == 0 then {} else Keys(name, n - 1) + {Key(name, n - 1)}
  }

  lemma {:induction false} KeysAreDistinct(name: string, n: nat)
    ensures |Keys(name, n)| == n
    ensures forall k :: k in Keys(name, n) ==> exists i :: 0 <= i < n && k == Key(name, i)
  {
    if n > 0 {
      KeysAreDistinct(name, n - 1);
      if Key(name, n - 1) in Keys(name, n - 1) {
        var i :| 0 <= i < n - 1 && Key(name, n - 1) == Key(name, i);
        KeysDiffer(name, n - 1, i);
      }
    }
  }

  // ---- describe ---------------------------------------------------------------------------------

  datatype File = File(depotFile: string, action: string, kind: string, rev: string)

  const ENVELOPE: nat := 64

  /** `approxJSONBytes` */
  function Cost(f: File): nat {
    ENVELOPE + |f.depotFile| + |f.action| + |f.kind| + |f.rev|
  }

  const DEFAULT_MAX_BYTES: int := 0x40_0000

  datatype Described = Described(change: int, user: string, client: string, time: string, description: string,
                                 status: string, files: seq<File>, fileCount: nat, depotFileCount: nat)

  function FileAt(r: Record, i: nat): File {
    File(Str(r, Key("depotFile", i)), Str(r, Key("action", i)), Str(r, Key("type", i)), Str(r, Key("rev", i)))
  }

  predicate Present(r: Record, i: nat) { Str(r, Key("depotFile", i)) != "" }

  predicate AllPresent(r: Record, n: nat) { forall i :: 0 <= i < n ==> Present(r, i) }

  /** The first `n` files of the record. */
  function Files(r: Record, n: nat): (fs: seq<File>)
    ensures |fs| == n
  {
    if n == 0 then [] else Files(r, n - 1) + [FileAt(r, n - 1)]
  }

  /** What they cost together. */
  function TotalCost(r: Record, n: nat): nat {
    if n == 0 then 0 else TotalCost(r, n - 1) + Cost(FileAt(r, n - 1))
  }

  function Budget(maxBytes: int): (n: int)
    ensures n == if maxBytes > 0 then maxBytes else 4 * 1024 * 1024
  {
    if maxBytes <= 0 then DEFAULT_MAX_BYTES else maxBytes
  }

  /** The first `n` files are within both bounds. */
  predicate Fits(r: Record, n: nat, maxFiles: int, maxBytes: int) {
    (n == 0 || n <= maxFiles) && TotalCost(r, n) <= Budget(maxBytes)
  }

  /** More indices present than the record has entries is impossible: the scan ends. */
  lemma {:induction false} PresentIsBounded(r: Record, n: nat)
    requires AllPresent(r, n)
    ensures n <= |r|
  {
    KeysAreDistinct("depotFile", n);
    forall k | k in Keys("depotFile", n)
      ensures k in r.Keys
    {
      var i :| 0 <= i < n && k == Key("depotFile", i);
      assert Present(r, i);
    }
    SubsetIsSmaller(Keys("depotFile", n), r.Keys);
    assert |r.Keys| == |r|;
  }

  /** Which key of the record stands in which field. */
  lemma {:induction false} FilesAreFields(r: Record, n: nat, i: nat)
    requires i < n
    ensures var f := Files(r, n)[i];
      && f.depotFile == Str(r, "depotFile" + Itoa(i)) && f.action == Str(r, "action" + Itoa(i))
      && f.kind == Str(r, "type" + Itoa(i)) && f.rev == Str(r, "rev" + Itoa(i))
  {
    if i < n - 1 {
      FilesAreFields(r, n - 1, i);
    }
  }

  lemma {:induction false} OneMorePresent(r: Record, n: nat)
    requires AllPresent(r, n) && Present(r, n)
    ensures AllPresent(r, n + 1) && n < |r|
  {
    PresentIsBounded(r, n + 1);
  }

  /** Every file costs something, so a longer list costs more. */
  lemma {:induction false} CostGrows(r: Record, m: nat, n: nat)
    requires m <= n
    ensures TotalCost(r, m) <= TotalCost(r, n)
  {
    if m < n {
      CostGrows(r, m, n - 1);
    }
  }

  /** What fits is a prefix: past the first file that does not fit, nothing does. */
  lemma {:induction false} FitsDown(r: Record, m: nat, n: nat, maxFiles: int, maxBytes: int)
    requires m <= n && Fits(r, n, maxFiles, maxBytes)
    ensures Fits(r, m, maxFiles, maxBytes)
  {
    CostGrows(r, m, n);
  }

  /**
   Exactly the longest prefix of the record's file list that fits both bounds; `depotFileCount` is the
   first missing index; the result is marked truncated exactly when it lacks a file.
   */
  method DescribeFromRecord(r: Record, change: int, maxFiles: int, maxBytes: int)
      returns (out: Described, truncated: bool)
    ensures (out.change, out.user, out.client) == (change, Str(r, "user"), Str(r, "client"))
    ensures (out.time, out.description, out.status) == (Str(r, "time"), Str(r, "desc"), Str(r, "status"))
    ensures AllPresent(r, out.depotFileCount) && !Present(r, out.depotFileCount)
    ensures out.files == Files(r, out.fileCount) && out.fileCount <= out.depotFileCount
    ensures Fits(r, out.fileCount, maxFiles, maxBytes)
    ensures forall n :: out.fileCount < n <= out.depotFileCount ==> !Fits(r, n, maxFiles, maxBytes)
    ensures truncated <==> out.fileCount < out.depotFileCount
    ensures var budget := if maxBytes > 0 then maxBytes else 4 * 1024 * 1024;
      && (out.fileCount == 0 || out.fileCount <= maxFiles) && TotalCost(r, out.fileCount) <= budget
      && (truncated ==> out.fileCount >= maxFiles || TotalCost(r, out.fileCount + 1) > budget)
    ensures forall i :: 0 <= i < out.depotFileCount ==> Str(r, "depotFile" + Itoa(i)) != ""
    ensures Str(r, "depotFile" + Itoa(out.depotFileCount)) == ""
    ensures forall i :: 0 <= i < out.fileCount ==>
      && out.files[i].depotFile == Str(r, "depotFile" + Itoa(i)) && out.files[i].action == Str(r, "action" + Itoa(i))
      && out.files[i].kind == Str(r, "type" + Itoa(i)) && out.files[i].rev == Str(r, "rev" + Itoa(i))
  {
    var files: seq<File> := [];
    truncated := false;
    var budget := Budget(maxBytes);
    var i := 0;
    while true
      invariant AllPresent(r, i)
      invariant |files| <= i && files == Files(r, |files|)
      invariant truncated <==> |files| < i
      invariant truncated ==> !Fits(r, |files| + 1, maxFiles, maxBytes)
      invariant budget == Budget(maxBytes) - TotalCost(r, |files|) && budget >= 0
      invariant |files| == 0 || |files| <= maxFiles
      decreases |r| - i
    {
      var df := Str(r, Key("depotFile", i));
      if df == "" {
        break;
      }
      var file := File(df, Str(r, Key("action", i)), Str(r, Key("type", i)), Str(r, Key("rev", i)));
      if !truncated {
        if |files| >= maxFiles {
          truncated := true;
        } else if Cost(file) > budget {
          truncated := true;
        } else {
          budget := budget - Cost(file);
          files := files + [file];
        }
      }
      OneMorePresent(r, i);
      i := i + 1;
    }
    out := Described(change, Str(r, "user"), Str(r, "client"), Str(r, "time"), Str(r, "desc"), Str(r, "status"),
                     files, |files|, i);
    forall n | out.fileCount < n <= out.depotFileCount
      ensures !Fits(r, n, maxFiles, maxBytes)
    {
      if Fits(r, n, maxFiles, maxBytes) {
        FitsDown(r, |files| + 1, n, maxFiles, maxBytes);
      }
    }
    forall k | 0 <= k < |files|
      ensures
        && files[k].depotFile == Str(r, "depotFile" + Itoa(k)) && files[k].action == Str(r, "action" + Itoa(k))
        && files[k].kind == Str(r, "type" + Itoa(k)) && files[k].rev == Str(r, "rev" + Itoa(k))
    {
      FilesAreFields(r, |files|, k);
    }
    forall k | 0 <= k < i
      ensures Str(r, "depotFile" + Itoa(k)) != ""
    {
      assert Present(r, k);
    }
  }

  // ---- the estimate -------------------------------------------------------------------------------

  function Quoted(s: string): string { "\"" + Escaped(s) + "\"" }

  /** One file as it stands in the encoded list, with the comma behind it. */
  function Encoded(f: File): string {
    "{\"depot_file\":" + Quoted(f.depotFile) + ",\"action\":" + Quoted(f.action)
    + ",\"type\":" + Quoted(f.kind) + ",\"rev\":" + Quoted(f.rev) + "},"
  }

  /** Bytes that escaping adds. */
  function ExtraOf(f: File): nat { Extra(f.depotFile) + Extra(f.action) + Extra(f.kind) + Extra(f.rev) }

  lemma {:induction false} EncodedLength(f: File)
    ensures |Encoded(f)| + 15 == Cost(f) + ExtraOf(f)
  {
    EscapedLength(f.depotFile);
    EscapedLength(f.action);
    EscapedLength(f.kind);
    EscapedLength(f.rev);
  }

  /**
   The estimate is no smaller than the real encoding exactly when escaping adds at most 15 bytes: four
   ampersands in a path, or four control bytes, are enough to pass it.
   */
  lemma {:induction false} EstimateCovers(f: File)
    ensures |Encoded(f)| <= Cost(f) <==> ExtraOf(f) <= 15
  {
    EncodedLength(f);
  }

  lemma {:induction false} ExtraOfPath(c: char)
    requires Between(c, 0, 0x7F)
    ensures Extra("//d/" + [c, c, c, c]) == 4 * ExtraByte(c)
  {
    hide Extra;
    ExtraOfFirst(c, []);
    ExtraOfFirst(c, [c]);
    ExtraOfFirst(c, [c, c]);
    ExtraOfFirst(c, [c, c, c]);
    ExtraOfFirst('/', [c, c, c, c]);
    ExtraOfFirst('d', "/" + [c, c, c, c]);
    ExtraOfFirst('/', "d/" + [c, c, c, c]);
    ExtraOfFirst('/', "/d/" + [c, c, c, c]);
    assert [c] + [] == [c] && [c] + [c] == [c, c] && [c] + [c, c] == [c, c, c] && [c] + [c, c, c] == [c, c, c, c];
    assert "/" + [c, c, c, c] == ['/'] + [c, c, c, c] && "d/" + [c, c, c, c] == ['d'] + ("/" + [c, c, c, c]);
    assert "/d/" + [c, c, c, c] == ['/'] + ("d/" + [c, c, c, c]);
    assert "//d/" + [c, c, c, c] == ['/'] + ("/d/" + [c, c, c, c]);
    NoExtra();
  }

  lemma {:induction false} NoExtra()
    ensures Extra([]) == 0
  {}

  lemma {:induction false} EstimateFallsShort(c: char)
    requires c == '&' || c as int == 1
    ensures var f := File("//d/" + [c, c, c, c], "edit", "text", "1"); |Encoded(f)| > Cost(f)
  {
    hide Encoded, Extra;
    ExtraOfPath(c);
    EstimateCovers(File("//d/" + [c, c, c, c], "edit", "text", "1"));
  }

  function EncodedList(r: Record, n: nat): string {
    if n == 0 then [] else EncodedList(r, n - 1) + Encoded(FileAt(r, n - 1))
  }

  function TotalExtra(r: Record, n: nat): nat {
    if n == 0 then 0 else TotalExtra(r, n - 1) + ExtraOf(FileAt(r, n - 1))
  }

  /** The encoded list is as long as its estimate says, less 15 bytes a file and with what escaping adds. */
  lemma {:induction false} EncodedListLength(r: Record, n: nat)
    ensures |EncodedList(r, n)| + 15 * n == TotalCost(r, n) + TotalExtra(r, n)
  {
    if n == 0 {
    } else {
      hide Encoded, Cost, ExtraOf;
      EncodedListLength(r, n - 1);
      EncodedLength(FileAt(r, n - 1));
    }
  }

  /**
   So it is covered by the estimate exactly when escaping adds at most 15 bytes a file on the average, and
   then within the budget.
   */
  lemma {:induction false} EncodedListFits(r: Record, n: nat, maxFiles: int, maxBytes: int)
    requires Fits(r, n, maxFiles, maxBytes)
    ensures |EncodedList(r, n)| <= TotalCost(r, n) <==> TotalExtra(r, n) <= 15 * n
    ensures (forall i :: 0 <= i < n ==> ExtraOf(FileAt(r, i)) <= 15) ==> |EncodedList(r, n)| <= TotalCost(r, n)
    ensures TotalExtra(r, n) <= 15 * n ==> |EncodedList(r, n)| <= Budget(maxBytes)
  {
    EncodedListLength(r, n);
    if forall i :: 0 <= i < n ==> ExtraOf(FileAt(r, i)) <= 15 {
      ExtraOfEach(r, n);
    }
  }

  lemma {:induction false} ExtraOfEach(r: Record, n: nat)
    requires forall i :: 0 <= i < n ==> ExtraOf(FileAt(r, i)) <= 15
    ensures TotalExtra(r, n) <= 15 * n
  {
    if n == 0 {
    } else {
      ExtraOfEach(r, n - 1);
    }
  }

  // ---- the capped buffer ---------------------------------------------------------------------------

  class CappedBuffer {
    var buf: seq<Byte>
    const limit: nat
    var overflowed: bool
    /** Everything that was written. */
    ghost var input: seq<Byte>

    ghost predicate Valid() reads this {
      && buf == input[..if |input| <= limit then |input| else limit]
      && (overflowed <==> |input| > limit)
    }

    constructor (limit: nat)
      ensures Valid() && this.limit == limit && input == []
    {
      this.limit := limit;
      buf, overflowed, input := [], false, [];
    }

    /** Reports the full length whatever it kept, so the writer never sees an error. */
    method Write(p: seq<Byte>) returns (n: nat)
      requires Valid()
      modifies this
      ensures Valid() && input == old(input) + p && n == |p|
    {
      input := input + p;
      if overflowed {
        return |p|;
      }
      var remaining := limit - |buf|;
      if |p| > remaining {
        overflowed := true;
        if remaining > 0 {
          buf := buf + p[..remaining];
        }
        return |p|;
      }
      buf := buf + p;
      n := |p|;
    }

    /** Any series of writes: the first `limit` bytes of the whole are kept. */
    method WriteAll(ps: seq<seq<Byte>>)
      requires Valid()
      modifies this
      ensures Valid() && input == old(input) + Flatten(ps)
      decreases |ps|
    {
      if ps != [] {
        var _ := Write(ps[0]);
        WriteAll(ps[1..]);
        Assoc(old(input), ps[0], Flatten(ps[1..]));
      }
    }
  }

  // ---- the error worth reporting ----------------------------------------------------------------

  /** A record's `data` and what `numField` finds for its severity; NaN counts as anything below 3. */
  datatype ErrorRecord = ErrorRecord(data: string, severity: Option<real>)

  predicate Reports(m: ErrorRecord) {
    TrimSpace(m.data) != "" && (m.severity.None? || m.severity.value >= 3.0)
  }

  /** An error is reported from severity 3 on, or when there is no severity to go by. */
  lemma {:induction false} SeverityDecides(data: string, severity: real)
    requires TrimSpace(data) != ""
    ensures Reports(ErrorRecord(data, None))
    ensures Reports(ErrorRecord(data, Some(severity))) <==> severity >= 3.0
  {}

  /** Record `i` is the first to report an error, and `msg` its first line. */
  predicate FirstReport(recs: seq<ErrorRecord>, i: nat, msg: string) {
    && i < |recs| && Reports(recs[i]) && msg == FirstLine(TrimSpace(recs[i].data))
    && forall j :: 0 <= j < i ==> !Reports(recs[j])
  }

  predicate NoReport(recs: seq<ErrorRecord>) { forall j :: 0 <= j < |recs| ==> !Reports(recs[j]) }

  /** The empty text stands for no report, and only for that. */
  method FirstErrorRecord(recs: seq<ErrorRecord>) returns (msg: string)
    ensures msg == "" <==> NoReport(recs)
    ensures msg != "" ==> exists i :: FirstReport(recs, i, msg)
  {
    hide TrimSpace, FirstLine, Blank;
    for i := 0 to |recs|
      invariant forall j :: 0 <= j < i ==> !Reports(recs[j])
    {
      var data := TrimSpace(recs[i].data);
      if data == "" {
        continue;
      }
      FirstLineOfText(recs[i].data);
      if recs[i].severity.Some? {
        if recs[i].severity.value >= 3.0 {
          assert FirstReport(recs, i, FirstLine(data));
          return FirstLine(data);
        }
        continue;
      }
      assert FirstReport(recs, i, FirstLine(data));
      return FirstLine(data);
    }
    return "";
  }

  /** One line, from the most specific source, and never empty beside a wait status. */
  method FailureDetail(recs: seq<ErrorRecord>, stderr: string, runErr: string) returns (detail: string)
    ensures '\n' !in detail
    ensures FirstLine(runErr) != "" ==> detail != ""
    ensures !NoReport(recs) ==> exists i :: FirstReport(recs, i, detail)
    ensures NoReport(recs) ==> detail == FirstLine(if TrimSpace(stderr) != "" then TrimSpace(stderr) else runErr)
  {
    var msg := FirstErrorRecord(recs);
    if msg != "" {
      return msg;
    }
    if TrimSpace(stderr) != "" {
      FirstLineOfText(stderr);
      return FirstLine(TrimSpace(stderr));
    }
    return FirstLine(runErr);
  }
}
