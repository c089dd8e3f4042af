/**
 The command path of a session: `handle` deduplicates a command, resolves it against the vocabulary,
 clamps its limits, runs the tool and writes one audit line. What a tool does is an input here.
 */
module Session {
  import opened Bytes
  import opened Vocab
  import opened Clamps
  import Dedupe

  datatype Command = Command(id: string, verb: string, args: RawArgs, digest: string,
                             deadlineMs: Int64, maxBytes: Int64)

  datatype Status = OK | Refused | Failed | TimedOut

  /** The fixed tokens a result may carry as its reason. */
  datatype Token = Deny(reason: Reason) | DeadlineExceeded | ToolError

  datatype Body = Pong | Version | Capabilities | FromTool(text: string)

  datatype CommandResult = CommandResult(id: string, status: Status, reason: Option<Token>, body: Option<Body>,
                                         bytes: nat, truncated: bool)

  /** One audit line; `detail` stays in the studio. */
  datatype Entry = Entry(sessionID: string, commandID: string, verb: string, digest: string, status: Status,
                         reason: Option<Token>, detail: string, bytes: nat, truncated: bool)

  /** What a tool call comes back with, and whether the deadline had passed by then. */
  datatype ToolResult = Success(text: string, bytes: nat, truncated: bool) | Error(detail: string)

  datatype Outcome = Outcome(result: ToolResult, expired: bool)

  /** A tool call as it is made. */
  datatype Execution = Execution(id: string, call: Call, maxBytes: int, deadline: int)

  /** A command, the clock reading of its claim, the text `Resolve` refuses it with, and what its tool does. */
  datatype Request = Request(command: Command, now: int, refusal: string, outcome: Outcome)

  /** The compiled-in vocabulary and what connector.yml adds to it. */
  datatype Settings = Settings(verbs: seq<Verb>, scopes: Scopes, tools: set<string>) {
    /** What the table was checked for before a Runner exists, and how this build's table is made. */
    ghost predicate Valid() { SoundTable(verbs) }
  }

  lemma {:induction false} ThisBuildIsValid(scopes: Scopes, tools: set<string>)
    ensures Settings(VOCABULARY, scopes, tools).Valid()
  {
    VocabularyIsSound();
  }

  /** Everything one call of `handle` does. */
  datatype Handling = Handling(result: CommandResult, detail: string, seen: Dedupe.Seen, granted: bool,
                               execution: Option<Execution>)

  /** The audit line for a command and its result. */
  function Line(sessionID: string, c: Command, res: CommandResult, detail: string): Entry {
    Entry(sessionID, c.id, c.verb, c.digest, res.status, res.reason, detail, res.bytes, res.truncated)
  }

  function Denial(id: string, r: Reason): CommandResult {
    CommandResult(id, Refused, Some(Deny(r)), None, 0, false)
  }

  const NOT_CONFIGURED: string := "tools: tool is not configured"

  /** The verbs the connector answers itself. */
  predicate Own(v: Verb) { v.name in {"sys.ping", "sys.version", "sys.capabilities"} }

  /** There is an executor for it: one was made for every enabled tool. */
  predicate HasTool(v: Verb, s: Settings) { !Own(v) && v.tool in s.tools }

  /** `execute`: the connector's own verbs, then the verb's tool if there is one. */
  function Answer(call: Call, s: Settings, result: ToolResult): ToolResult {
    if Own(call.verb) then Success("", 0, false)
    else if HasTool(call.verb, s) then result
    else Error(NOT_CONFIGURED)
  }

  function BodyOf(call: Call, text: string): Body {
    if call.verb.name == "sys.ping" then Pong
    else if call.verb.name == "sys.version" then Version
    else if call.verb.name == "sys.capabilities" then Capabilities
    else FromTool(text)
  }

  function Respond(id: string, call: Call, s: Settings, o: Outcome): CommandResult {
    var answer := Answer(call, s, o.result);
    if o.expired then CommandResult(id, TimedOut, Some(DeadlineExceeded), None, 0, false)
    else if answer.Error? then CommandResult(id, Failed, Some(ToolError), None, 0, false)
    else CommandResult(id, OK, None, Some(BodyOf(call, answer.text)), answer.bytes, answer.truncated)
  }

  function DetailOf(call: Call, s: Settings, o: Outcome): string {
    var answer := Answer(call, s, o.result);
    if !o.expired && answer.Error? then answer.detail else ""
  }

  /** The tool call made for a resolved command; the connector's own verbs make none. */
  function Execute(c: Command, call: Call, s: Settings): Option<Execution>
    requires 0 < call.verb.defaultMaxBytes <= INT64_MAX
  {
    if HasTool(call.verb, s)
    then Some(Execution(c.id, call, MaxBytes(c.maxBytes, call.verb.defaultMaxBytes), Deadline(c.deadlineMs)))
    else None
  }

  function Resolved(c: Command, s: Settings): Result<Call> {
    Resolve(s.verbs, c.verb, c.args, s.scopes, s.tools)
  }

  lemma {:induction false} ResolvedDefault(c: Command, s: Settings)
    requires s.Valid() && Resolved(c, s).Ok?
    ensures 0 < Resolved(c, s).value.verb.defaultMaxBytes <= INT64_MAX
  {
    var call := Resolved(c, s).value;
    var i :| 0 <= i < |s.verbs| && s.verbs[i] == call.verb;
    assert Sound(s.verbs[i]);
  }

  /** `handle` on the map of ids seen. */
  function Handle(seen: Dedupe.Seen, r: Request, s: Settings): Handling
    requires s.Valid()
  {
    var c := r.command;
    if c.id == "" then Handling(Denial("", MalformedArgs), "command has no id", seen, false, None) else
    var claim := Dedupe.Claimed(seen, Dedupe.Claim(c.id, r.now));
    if !claim.granted then Handling(Denial(c.id, DuplicateCommandID), "", claim.seen, false, None) else
    match Resolved(c, s)
    case Denied(reason) => Handling(Denial(c.id, reason), r.refusal, claim.seen, true, None)
    case Ok(call) =>
      ResolvedDefault(c, s);
      Handling(Respond(c.id, call, s, r.outcome), DetailOf(call, s, r.outcome), claim.seen, true, Execute(c, call, s))
  }

  class Runner {
    const settings: Settings
    var sessionID: string
    var seen: Dedupe.Seen
    var log: seq<Entry>
    /** The tool calls made. */
    ghost var executions: seq<Execution>

    constructor (settings: Settings)
      requires settings.Valid()
      ensures this.settings == settings && seen == map[] && log == [] && executions == []
    {
      this.settings := settings;
      sessionID, seen, log, executions := "", map[], [], [];
    }

    /** The map is walked in any order; entries that are too old go. */
    method Prune(now: int)
      modifies this`seen
      ensures seen == Dedupe.Fresh(old(seen), now)
    {
      ghost var before := seen;
      var toVisit := seen.Keys;
      while toVisit != {}
        invariant toVisit <= before.Keys
        invariant forall k :: k in seen <==> k in before && (k in toVisit || !Dedupe.Stale(before[k], now))
        invariant forall k :: k in seen ==> seen[k] == before[k]
        decreases |toVisit|
      {
        var k :| k in toVisit;
        if Dedupe.Stale(seen[k], now) {
          seen := seen - {k};
        }
        toVisit := toVisit - {k};
      }
    }

    method Claim(id: string, now: int) returns (granted: bool)
      modifies this`seen
      ensures Dedupe.Answer(granted, seen) == Dedupe.Claimed(old(seen), Dedupe.Claim(id, now))
    {
      if |seen| > Dedupe.MAX_KEYS {
        Prune(now);
      }
      if id in seen && now - seen[id] <= Dedupe.WINDOW {
        return false;
      }
      seen := seen[id := now];
      granted := true;
    }

    /** `finish`: one audit line for the result that is returned. */
    method Finish(c: Command, res: CommandResult, detail: string)
      modifies this`log
      ensures log == old(log) + [Line(sessionID, c, res, detail)]
    {
      log := log + [Line(sessionID, c, res, detail)];
    }

    method RunTool(c: Command, call: Call, deadline: int, maxBytes: int, o: Outcome) returns (answer: ToolResult)
      modifies this`executions
      ensures answer == Answer(call, settings, o.result)
      ensures executions ==
        old(executions) + if HasTool(call.verb, settings) then [Execution(c.id, call, maxBytes, deadline)] else []
    {
      if call.verb.name == "sys.ping" || call.verb.name == "sys.version" || call.verb.name == "sys.capabilities" {
        return Success("", 0, false);
      }
      if call.verb.tool !in settings.tools {
        return Error(NOT_CONFIGURED);
      }
      executions := executions + [Execution(c.id, call, maxBytes, deadline)];
      answer := o.result;
    }

    /** Whatever the outcome: one audit line, for the one result returned, and at most one tool call. */
    method HandleCommand(r: Request) returns (res: CommandResult)
      requires settings.Valid()
      modifies this`seen, this`log, this`executions
      ensures var h := Handle(old(seen), r, settings);
        && res == h.result && seen == h.seen
        && executions == old(executions) + (if h.execution.Some? then [h.execution.value] else [])
        && log == old(log) + [Line(sessionID, r.command, h.result, h.detail)]
      ensures |log| == |old(log)| + 1 && log[..|old(log)|] == old(log)
      ensures var c, e := r.command, log[|old(log)|];
        && e.sessionID == sessionID && e.commandID == c.id && e.verb == c.verb && e.digest == c.digest
        && e.status == res.status && e.reason == res.reason && e.bytes == res.bytes && e.truncated == res.truncated
        && e.detail == Handle(old(seen), r, settings).detail
    {
      var c := r.command;
      var detail := "";
      if c.id == "" {
        res, detail := Denial("", MalformedArgs), "command has no id";
      } else {
        var granted := Claim(c.id, r.now);
        if !granted {
          res := Denial(c.id, DuplicateCommandID);
        } else {
          var resolved := Resolved(c, settings);
          if resolved.Denied? {
            res, detail := Denial(c.id, resolved.reason), r.refusal;
          } else {
            ResolvedDefault(c, settings);
            var call := resolved.value;
            var maxBytes := MaxBytes(c.maxBytes, call.verb.defaultMaxBytes);
            var answer := RunTool(c, call, Deadline(c.deadlineMs), maxBytes, r.outcome);
            if r.outcome.expired {
              res := CommandResult(c.id, TimedOut, Some(DeadlineExceeded), None, 0, false);
            } else if answer.Error? {
              res, detail := CommandResult(c.id, Failed, Some(ToolError), None, 0, false), answer.detail;
            } else {
              res := CommandResult(c.id, OK, None, Some(BodyOf(call, answer.text)), answer.bytes, answer.truncated);
            }
          }
        }
      }
      Finish(c, res, detail);
    }
  }

  // ---- one command ----------------------------------------------------------------------------------

  /** The command holds the only fresh claim to its id and resolves: it is carried out. */
  predicate Admitted(seen: Dedupe.Seen, r: Request, s: Settings) {
    && r.command.id != "" && Resolved(r.command, s).Ok?
    && (r.command.id in seen ==> Dedupe.Stale(seen[r.command.id], r.now))
  }

  /**
   The result bears the command's id; a reason stands in it exactly when it is not OK, a body exactly
   when it is. A command is refused exactly when it is not admitted: for want of an id, as a duplicate,
   or for the reason its resolution gives. Otherwise a passed deadline counts before a tool's error.
   The audit log says more of a refusal than its result only when the command has no id or is denied.
   */
  lemma {:induction false} HandlingAgrees(seen: Dedupe.Seen, r: Request, s: Settings)
    requires s.Valid()
    ensures var res := Handle(seen, r, s).result;
      && res.id == r.command.id
      && (res.status == OK <==> res.reason.None?) && (res.status == OK <==> res.body.Some?)
      && (res.status != OK ==> res.bytes == 0 && !res.truncated)
      && (res.status == Refused <==> !Admitted(seen, r, s))
      && (res.status == TimedOut <==> Admitted(seen, r, s) && r.outcome.expired)
    ensures var c, h := r.command, Handle(seen, r, s);
      h.result.status == Refused ==>
        if c.id == "" then h.result.reason == Some(Deny(MalformedArgs)) && h.detail == "command has no id"
        else if c.id in seen && !Dedupe.Stale(seen[c.id], r.now) then
          h.result.reason == Some(Deny(DuplicateCommandID)) && h.detail == ""
        else h.result.reason == Some(Deny(Resolved(c, s).reason)) && h.detail == r.refusal
  {}

  /**
   What an admitted command is answered with, to the last field: past its deadline nothing but that; for
   the connector's own verbs their own body; what the tool returned, its byte count and its truncation
   flag when it succeeded; when it failed, or there is none, a token, with the text in the audit log.
   */
  lemma {:induction false} AdmittedIsAnswered(seen: Dedupe.Seen, r: Request, s: Settings)
    requires s.Valid() && Admitted(seen, r, s)
    ensures var id, v, h := r.command.id, Resolved(r.command, s).value.verb, Handle(seen, r, s);
      if r.outcome.expired then
        h.result == CommandResult(id, TimedOut, Some(DeadlineExceeded), None, 0, false) && h.detail == ""
      else if v.name == "sys.ping" then
        h.result == CommandResult(id, OK, None, Some(Pong), 0, false) && h.detail == ""
      else if v.name == "sys.version" then
        h.result == CommandResult(id, OK, None, Some(Version), 0, false) && h.detail == ""
      else if v.name == "sys.capabilities" then
        h.result == CommandResult(id, OK, None, Some(Capabilities), 0, false) && h.detail == ""
      else if v.tool !in s.tools then
        && h.result == CommandResult(id, Failed, Some(ToolError), None, 0, false)
        && h.detail == "tools: tool is not configured"
      else match r.outcome.result
        case Success(text, bytes, truncated) =>
          h.result == CommandResult(id, OK, None, Some(FromTool(text)), bytes, truncated) && h.detail == ""
        case Error(text) =>
          h.result == CommandResult(id, Failed, Some(ToolError), None, 0, false) && h.detail == text
  {}

  /** The limits a tool call is made with: what was asked for, or the verb's default and 15 s, 60 s at most. */
  predicate Limits(c: Command, x: Execution) {
    && x.maxBytes > 0
    && x.maxBytes == (if 0 < c.maxBytes <= x.call.verb.defaultMaxBytes then c.maxBytes else x.call.verb.defaultMaxBytes)
    && 0 < x.deadline <= 60_000_000_000
    && (0 < c.deadlineMs <= 60_000 ==> x.deadline == c.deadlineMs * 1_000_000)
    && (60_000 < c.deadlineMs <= 9_223_372_036_854 ==> x.deadline == 60_000_000_000)
    && (-9_223_372_036_854 <= c.deadlineMs <= 0 ==> x.deadline == 15_000_000_000)
  }

  /**
   A tool is called exactly for an admitted command that has one, with the call as resolved and within
   both limits. An admitted command without a tool that is not the connector's own never succeeds.
   */
  lemma {:induction false} ExecutionAgrees(seen: Dedupe.Seen, r: Request, s: Settings)
    requires s.Valid()
    ensures var c, x := r.command, Handle(seen, r, s).execution;
      && (x.Some? <==>
           && Admitted(seen, r, s) && Resolved(c, s).value.verb.tool in s.tools
           && Resolved(c, s).value.verb.name !in {"sys.ping", "sys.version", "sys.capabilities"})
      && (x.Some? ==> x.value.id == c.id && Resolved(c, s) == Ok(x.value.call) && Limits(c, x.value))
      && (x.None? && Admitted(seen, r, s)
          && Resolved(c, s).value.verb.name !in {"sys.ping", "sys.version", "sys.capabilities"}
          ==> Handle(seen, r, s).result.status != OK)
  {
    if Handle(seen, r, s).execution.Some? {
      var c := r.command;
      DeadlineIsIntended(c.deadlineMs);
      ResolvedDefault(c, s);
    }
  }

  /**
   The text of a tool's error and the text of a refusal reach the audit log and nothing else: no result
   depends on either.
   */
  lemma {:induction false} ErrorTextStays(seen: Dedupe.Seen, r: Request, error: string, refusal: string, s: Settings)
    requires s.Valid() && r.outcome.result.Error?
    ensures var r' := r.(refusal := refusal, outcome := Outcome(Error(error), r.outcome.expired));
      var h, h' := Handle(seen, r, s), Handle(seen, r', s);
      && h'.result == h.result
      && (h.result.status == Failed && h.execution.Some? ==> h'.detail == error)
      && (h.result.status == Refused && h.granted ==> h'.detail == refusal)
  {}

  // ---- whole runs -------------------------------------------------------------------------------------

  /** The ids seen after a run of commands, in the order their claims held the mutex. */
  function SeenAfter(rs: seq<Request>, s: Settings): Dedupe.Seen
    requires s.Valid()
  {
    if rs == [] then map[] else Handle(SeenAfter(rs[..|rs| - 1], s), rs[|rs| - 1], s).seen
  }

  function HandlingAt(rs: seq<Request>, i: nat, s: Settings): Handling
    requires i < |rs| && s.Valid()
  {
    Handle(SeenAfter(rs[..i], s), rs[i], s)
  }

  function ClaimOf(r: Request): seq<Dedupe.Claim> {
    if r.command.id == "" then [] else [Dedupe.Claim(r.command.id, r.now)]
  }

  /** A command without an id makes no claim. */
  function Claims(rs: seq<Request>): seq<Dedupe.Claim> {
    if rs == [] then [] else Claims(rs[..|rs| - 1]) + ClaimOf(rs[|rs| - 1])
  }

  /** Of all that `handle` does, only its claim touches the ids seen. */
  lemma {:induction false} HandleClaims(seen: Dedupe.Seen, r: Request, s: Settings)
    requires s.Valid()
    ensures var h := Handle(seen, r, s);
      if r.command.id == "" then h.seen == seen
      else Dedupe.Answer(h.granted, h.seen) == Dedupe.Claimed(seen, Dedupe.Claim(r.command.id, r.now))
  {}

  lemma {:induction false} SeenIsClaimed(rs: seq<Request>, s: Settings)
    requires s.Valid()
    ensures SeenAfter(rs, s) == Dedupe.Answers(Claims(rs)).seen
  {
    if rs == [] {
    } else {
      var n := |rs| - 1;
      hide Handle;
      SeenIsClaimed(rs[..n], s);
      HandleClaims(SeenAfter(rs[..n], s), rs[n], s);
      var before, c := Claims(rs[..n]), ClaimOf(rs[n]);
      if c == [] {
        assert Claims(rs) == before;
      } else {
        assert Claims(rs)[..|before|] == before;
      }
    }
  }

  lemma {:induction false} ClaimsNest(rs: seq<Request>, i: nat)
    requires i <= |rs|
    ensures Claims(rs[..i]) <= Claims(rs)
  {
    if i == |rs| {
      assert rs[..i] == rs;
    } else {
      ClaimsNest(rs[..|rs| - 1], i);
      assert rs[..|rs| - 1][..i] == rs[..i];
    }
  }

  /** Where command `i`'s claim stands in the history of claims. */
  lemma {:induction false} ClaimStands(rs: seq<Request>, i: nat) returns (p: nat)
    requires i < |rs| && rs[i].command.id != ""
    ensures p == |Claims(rs[..i])| < |Claims(rs)| && Claims(rs)[..p] == Claims(rs[..i])
    ensures Claims(rs)[p] == Dedupe.Claim(rs[i].command.id, rs[i].now)
    ensures |Claims(rs[..i + 1])| == p + 1
  {
    p := |Claims(rs[..i])|;
    assert rs[..i + 1][..i] == rs[..i];
    ClaimsNest(rs, i + 1);
    assert Claims(rs[..i + 1])[p] == Dedupe.Claim(rs[i].command.id, rs[i].now);
    assert Claims(rs)[..p + 1] == Claims(rs[..i + 1]);
  }

  /** The claim is answered as its history says. */
  lemma {:induction false} ClaimAt(rs: seq<Request>, i: nat, s: Settings) returns (p: nat)
    requires s.Valid() && i < |rs| && rs[i].command.id != ""
    ensures p == |Claims(rs[..i])| < |Claims(rs)| && Claims(rs)[p] == Dedupe.Claim(rs[i].command.id, rs[i].now)
    ensures Dedupe.Answers(Claims(rs)).grants[p] == HandlingAt(rs, i, s).granted
  {
    p := ClaimStands(rs, i);
    var h := Dedupe.AtClaim(Claims(rs), p);
    SeenIsClaimed(rs[..i], s);
    HandleClaims(h.seen, rs[i], s);
  }

  lemma {:induction false} ClaimsAdvance(rs: seq<Request>, i: nat, j: nat)
    requires i < j < |rs| && rs[i].command.id != ""
    ensures |Claims(rs[..i])| < |Claims(rs[..j])|
  {
    var p := ClaimStands(rs[..j], i);
    assert rs[..j][..i] == rs[..i];
  }

  /**
   Over every run of a process: when clock readings follow the order of the mutex, two tool calls for
   one id are more than ten minutes apart.
   */
  lemma {:induction false} ExecutionsAreApart(rs: seq<Request>, i: nat, j: nat, s: Settings)
    requires s.Valid() && Dedupe.Ordered(Claims(rs)) && i < j < |rs| && rs[i].command.id == rs[j].command.id
    requires HandlingAt(rs, i, s).execution.Some? && HandlingAt(rs, j, s).execution.Some?
    ensures rs[j].now - rs[i].now > 10 * 60 * 1_000_000_000
  {
    ExecutedWasGranted(SeenAfter(rs[..i], s), rs[i], s);
    ExecutedWasGranted(SeenAfter(rs[..j], s), rs[j], s);
    var p := ClaimAt(rs, i, s);
    var q := ClaimAt(rs, j, s);
    ClaimsAdvance(rs, i, j);
    Dedupe.OrderedGrantsAreApart(Claims(rs), p, q);
  }

  lemma {:induction false} ExecutedWasGranted(seen: Dedupe.Seen, r: Request, s: Settings)
    requires s.Valid() && Handle(seen, r, s).execution.Some?
    ensures Handle(seen, r, s).granted && r.command.id != ""
  {}

  /** And whatever the clocks: between the two, some claim read a clock more than the window past the first. */
  lemma {:induction false} ExecutionsArePassed(rs: seq<Request>, i: nat, j: nat, s: Settings)
    requires s.Valid() && i < j < |rs| && rs[i].command.id == rs[j].command.id
    requires HandlingAt(rs, i, s).execution.Some? && HandlingAt(rs, j, s).execution.Some?
    ensures |Claims(rs[..i])| < |Claims(rs[..j])| < |Claims(rs)|
    ensures Dedupe.Passed(Claims(rs), |Claims(rs[..i])|, |Claims(rs[..j])| + 1)
  {
    ExecutedWasGranted(SeenAfter(rs[..i], s), rs[i], s);
    ExecutedWasGranted(SeenAfter(rs[..j], s), rs[j], s);
    var p := ClaimAt(rs, i, s);
    var q := ClaimAt(rs, j, s);
    ClaimsAdvance(rs, i, j);
    Dedupe.GrantsAreApart(Claims(rs), p, q);
  }
}
