/**
 The typed allowlist: the vocabulary table, `Resolve` and the argument schema behind it. The code is
 shown to accept exactly what a declarative reading of the schema allows, and to give a reason that
 does not depend on the order in which Go walks a map. A string is the sequence of its bytes.
 */
module Vocab {
  import opened Bytes
  import opened DepotScope

  /** A decoded JSON value, as far as the schema looks at it. */
  datatype Json =
    | JNull
    | JBool(b: bool)
    | JInt(n: int)       // a literal of digits only, of any size
    | JNumber            // any other number: a fraction or an exponent
    | JString(s: string)
    | JCompound

  /** The `args` field: absent or null, an object, or anything else. */
  datatype RawArgs = NoArgs | Object(fields: map<string, Json>) | NotObject

  datatype Reason =
    | UnknownVerb | VerbNotCompiled | ToolNotConfigured | MalformedArgs | UnknownArgument | MissingArgument
    | ArgumentType | ArgumentRange | ArgumentPattern | ContentVerbOff
    | OutOfScopePath | OutOfScopeBuildType | OutOfScopeRepo | DuplicateCommandID

  datatype Class = Metadata | Paths | Content | Mutation

  datatype Kind = KindInt | KindBool | KindString | KindDepotPath

  datatype Scope = ScopeNone | ScopeDepot | ScopeBuildTypes | ScopeRepos

  datatype Scopes = Scopes(depotScope: seq<string>, allowedBuildTypes: seq<string>, repoAllowlist: seq<string>)

  // ---- patterns ---------------------------------------------------------------------------------

  datatype Pattern = AnyString | BuildTypeID | JobName | RepoName | HexSHA

  predicate WordChar(c: char) { 'A' <= c <= 'Z' || 'a' <= c <= 'z' || '0' <= c <= '9' || c == '_' }

  predicate NameChar(c: char) { WordChar(c) || c == '.' || c == '-' }

  predicate HexChar(c: char) { '0' <= c <= '9' || 'a' <= c <= 'f' }

  predicate AllOf(s: string, ok: char -> bool) { forall i :: 0 <= i < |s| ==> ok(s[i]) }

  predicate MatchesPattern(p: Pattern, s: string) {
    match p
    case AnyString => true
    case BuildTypeID => 1 <= |s| <= 190 && AllOf(s, WordChar)
    case JobName => 1 <= |s| <= 190 && AllOf(s, c => NameChar(c) || c == '/')
    case RepoName =>
      var parts := Split(s, '/');
      |parts| == 2 && forall i :: 0 <= i < 2 ==> 1 <= |parts[i]| <= 100 && AllOf(parts[i], NameChar)
    case HexSHA => 7 <= |s| <= 64 && AllOf(s, HexChar)
  }

  predicate WordCode(c: char) {
    var n := c as int;
    0x41 <= n <= 0x5A || 0x61 <= n <= 0x7A || 0x30 <= n <= 0x39 || n == 0x5F
  }

  predicate NameCode(c: char) { WordCode(c) || c as int == 0x2D || c as int == 0x2E }

  /** Two names of 1 to 100 bytes with a slash between them, at index `k`. */
  predicate TwoNames(s: string, k: nat) {
    && 1 <= k <= 100 && k + 2 <= |s| <= k + 101 && s[k] as int == 0x2F
    && forall i :: 0 <= i < |s| && i != k ==> NameCode(s[i])
  }

  lemma {:induction false} RepoNameIsTwo(s: string)
    ensures MatchesPattern(RepoName, s) <==> exists k :: TwoNames(s, k)
  {
    hide Split;
    var parts := Split(s, '/');
    if MatchesPattern(RepoName, s) {
      JoinSplit(s, '/');
      assert s == parts[0] + ['/'] + parts[1];
      assert TwoNames(s, |parts[0]|);
    }
    if k: nat :| TwoNames(s, k) {
      SplitWhole(s[..k], '/');
      SplitWhole(s[k + 1..], '/');
      SplitConcat(s[..k], s[k + 1..], '/');
      assert s == s[..k] + ['/'] + s[k + 1..];
    }
  }

  /** The argument patterns by length and ASCII code. */
  lemma {:induction false} PatternsByCodes(s: string)
    ensures MatchesPattern(BuildTypeID, s) <==> 1 <= |s| <= 190 && forall i :: 0 <= i < |s| ==> WordCode(s[i])
    ensures MatchesPattern(JobName, s) <==>
      1 <= |s| <= 190 && forall i :: 0 <= i < |s| ==> NameCode(s[i]) || s[i] as int == 0x2F
    ensures MatchesPattern(RepoName, s) <==> exists k :: TwoNames(s, k)
    ensures MatchesPattern(HexSHA, s) <==>
      7 <= |s| <= 64 && forall i :: 0 <= i < |s| ==> 0x30 <= s[i] as int <= 0x39 || 0x61 <= s[i] as int <= 0x66
  {
    RepoNameIsTwo(s);
  }

  // ---- schema -----------------------------------------------------------------------------------

  datatype Arg = Arg(name: string, kind: Kind, required: bool := false, min: int := 0, max: int := 0,
                     pattern: Pattern := AnyString, maxLen: nat := 0, mustBeFalse: bool := false,
                     scope: Scope := ScopeNone)

  datatype Verb = Verb(name: string, class_: Class, compiled: bool, mutating: bool := false, args: seq<Arg> := [],
                       defaultMaxBytes: int := 0, tool: string := "")

  datatype Value = VInt(n: int) | VBool(b: bool) | VString(s: string)

  datatype Result<+T> = Ok(value: T) | Denied(reason: Reason)

  const INT64_MAX: int := 0x7FFF_FFFF_FFFF_FFFF

  // ---- one argument -----------------------------------------------------------------------------

  function CheckScope(scope: Scope, s: string, scopes: Scopes): Option<Reason> {
    match scope
    case ScopeNone => None
    case ScopeDepot => if Accepted(s, scopes.depotScope) then None else Some(OutOfScopePath)
    case ScopeBuildTypes => if s in scopes.allowedBuildTypes then None else Some(OutOfScopeBuildType)
    case ScopeRepos => if s in scopes.repoAllowlist then None else Some(OutOfScopeRepo)
  }

  function ValidateString(a: Arg, s: string, scopes: Scopes): Result<Value> {
    if a.maxLen > 0 && |s| > a.maxLen then Denied(ArgumentRange)
    else if ContainsAny(s, "\0\n\r") then Denied(ArgumentPattern)
    else if a.kind == KindDepotPath && !IsDepotPath(s) then Denied(ArgumentPattern)
    else if !MatchesPattern(a.pattern, s) then Denied(ArgumentPattern)
    else match CheckScope(a.scope, s, scopes) case Some(r) => Denied(r) case None => Ok(VString(s))
  }

  /** `Arg.validate`. A JSON null is no integer, but Go decodes it into a bool or a string as nothing. */
  function Validate(a: Arg, j: Json, scopes: Scopes): Result<Value> {
    match a.kind
    case KindInt =>
      if !j.JInt? || j.n > INT64_MAX || j.n < -INT64_MAX - 1 then Denied(ArgumentType)
      else if j.n < a.min || j.n > a.max then Denied(ArgumentRange)
      else Ok(VInt(j.n))
    case KindBool =>
      if !(j.JBool? || j.JNull?) then Denied(ArgumentType)
      else if a.mustBeFalse && j == JBool(true) then Denied(ContentVerbOff)
      else Ok(VBool(j == JBool(true)))
    case _ =>
      if !(j.JString? || j.JNull?) then Denied(ArgumentType)
      else ValidateString(a, if j.JString? then j.s else "", scopes)
  }

  // ---- a verb's arguments -----------------------------------------------------------------------

  function Supplied(raw: RawArgs): map<string, Json> { if raw.Object? then raw.fields else map[] }

  predicate Known(v: Verb, name: string) {
    exists i :: 0 <= i < |v.args| && v.args[i].name == name
  }

  /** The arguments before index `n` in schema order, or the reason the first bad one is refused. */
  function CheckArgs(v: Verb, n: nat, supplied: map<string, Json>, scopes: Scopes): Result<map<string, Value>>
    requires n <= |v.args|
  {
    if n == 0 then Ok(map[]) else
    match CheckArgs(v, n - 1, supplied, scopes)
    case Denied(r) => Denied(r)
    case Ok(out) =>
      var a := v.args[n - 1];
      if a.name !in supplied then if a.required then Denied(MissingArgument) else Ok(out)
      else match Validate(a, supplied[a.name], scopes) case Denied(r) => Denied(r) case Ok(x) => Ok(out[a.name := x])
  }

  function CheckedArgs(v: Verb, raw: RawArgs, scopes: Scopes): Result<map<string, Value>> {
    if raw.NotObject? then Denied(MalformedArgs)
    else if exists k :: k in Supplied(raw) && !Known(v, k) then Denied(UnknownArgument)
    else CheckArgs(v, |v.args|, Supplied(raw), scopes)
  }

  method AllKnown(v: Verb, supplied: map<string, Json>) returns (ok: bool)
    ensures ok <==> forall k :: k in supplied ==> Known(v, k)
  {
    var known: set<string> := {};
    for i := 0 to |v.args|
      invariant forall k :: k in known <==> exists j :: 0 <= j < i && v.args[j].name == k
    {
      known := known + {v.args[i].name};
    }
    var toVisit := supplied.Keys;
    while toVisit != {}
      invariant toVisit <= supplied.Keys && forall k :: k in supplied && k !in toVisit ==> k in known
      decreases |toVisit|
    {
      var k :| k in toVisit;
      if k !in known {
        return false;
      }
      toVisit := toVisit - {k};
    }
    ok := true;
  }

  /** `validateArgs`: whatever order the supplied keys are visited in, the answer is the same. */
  method ValidateArgs(v: Verb, raw: RawArgs, scopes: Scopes) returns (r: Result<map<string, Value>>)
    ensures r == CheckedArgs(v, raw, scopes)
  {
    if raw.NotObject? {
      return Denied(MalformedArgs);
    }
    var supplied := Supplied(raw);
    var known := AllKnown(v, supplied);
    if !known {
      return Denied(UnknownArgument);
    }
    var out := map[];
    for i := 0 to |v.args|
      invariant CheckArgs(v, i, supplied, scopes) == Ok(out)
    {
      var a := v.args[i];
      if a.name in supplied {
        var val := Validate(a, supplied[a.name], scopes);
        if val.Denied? {
          DenialStays(v, i + 1, |v.args|, supplied, scopes);
          return Denied(val.reason);
        }
        out := out[a.name := val.value];
      } else if a.required {
        DenialStays(v, i + 1, |v.args|, supplied, scopes);
        return Denied(MissingArgument);
      }
    }
    r := Ok(out);
  }

  lemma {:induction false} DenialStays(v: Verb, m: nat, n: nat, supplied: map<string, Json>, scopes: Scopes)
    requires m <= n <= |v.args| && CheckArgs(v, m, supplied, scopes).Denied?
    ensures CheckArgs(v, n, supplied, scopes) == CheckArgs(v, m, supplied, scopes)
  {
    if m < n {
      DenialStays(v, m, n - 1, supplied, scopes);
    }
  }

  // ---- the vocabulary -----------------------------------------------------------------------------

  const SYS_PING := Verb("sys.ping", Metadata, true, defaultMaxBytes := 1024)

  const SYS_VERSION := Verb("sys.version", Metadata, true, defaultMaxBytes := 1024)

  const SYS_CAPABILITIES := Verb("sys.capabilities", Metadata, true, defaultMaxBytes := 8192)

  const SERVER_INFO := Verb("teamcity.server.info", Metadata, true, tool := "teamcity", defaultMaxBytes := 8192)

  const BUILD_GET := Verb("teamcity.build.get", Metadata, true, tool := "teamcity", defaultMaxBytes := 32768, args := [
    Arg("build_id", KindInt, required := true, min := 1, max := 0x100_0000_0000)])

  const BUILD_QUEUE := Verb("teamcity.build.queue", Mutation, false, mutating := true, tool := "teamcity", args := [
    Arg("build_type_id", KindString, required := true, pattern := BuildTypeID, maxLen := 190,
        scope := ScopeBuildTypes)])

  const P4_DESCRIBE := Verb("p4.describe", Paths, true, tool := "perforce", defaultMaxBytes := 0x40_0000, args := [
    Arg("change", KindInt, required := true, min := 1, max := 0x100_0000_0000),
    Arg("max_files", KindInt, min := 1, max := 100_000),
    Arg("include_diff", KindBool, mustBeFalse := true)])

  const P4_CHANGES := Verb("p4.changes", Paths, true, tool := "perforce", defaultMaxBytes := 0x10_0000, args := [
    Arg("path", KindDepotPath, required := true, scope := ScopeDepot, maxLen := 1024),
    Arg("max", KindInt, min := 1, max := 200)])

  const P4_FILE_CONTENTS := Verb("p4.file_contents", Content, false, tool := "perforce", args := [
    Arg("depot_path", KindDepotPath, required := true, scope := ScopeDepot, maxLen := 1024),
    Arg("rev", KindInt, min := 1, max := 0x1_0000_0000),
    Arg("max_bytes", KindInt, min := 1, max := 0x10_0000)])

  const BUILD_TRIGGER := Verb("jenkins.build.trigger", Mutation, false, mutating := true, tool := "jenkins", args := [
    Arg("job", KindString, required := true, maxLen := 190, pattern := JobName)])

  const COMMIT_GET := Verb("ghes.commit.get", Paths, false, tool := "ghes", args := [
    Arg("repo", KindString, required := true, scope := ScopeRepos, maxLen := 190, pattern := RepoName),
    Arg("sha", KindString, required := true, pattern := HexSHA, maxLen := 64)])

  const HORDE_INFO := Verb("horde.server.info", Metadata, false, tool := "horde")

  const VOCABULARY: seq<Verb> := [
    SYS_PING, SYS_VERSION, SYS_CAPABILITIES, SERVER_INFO, BUILD_GET, BUILD_QUEUE,
    P4_DESCRIBE, P4_CHANGES, P4_FILE_CONTENTS, BUILD_TRIGGER, COMMIT_GET, HORDE_INFO]

  // ---- resolving a command ------------------------------------------------------------------------

  function Lookup(vs: seq<Verb>, name: string): (v: Option<Verb>)
    ensures v.Some? ==> v.value in vs && v.value.name == name
    ensures v.None? ==> forall i :: 0 <= i < |vs| ==> vs[i].name != name
  {
    if vs == [] then None else if vs[0].name == name then Some(vs[0]) else Lookup(vs[1..], name)
  }

  datatype Call = Call(verb: Verb, args: map<string, Value>)

  function Resolve(vs: seq<Verb>, name: string, raw: RawArgs, scopes: Scopes, tools: set<string>): Result<Call> {
    match Lookup(vs, name)
    case None => Denied(UnknownVerb)
    case Some(v) =>
      if !v.compiled then Denied(VerbNotCompiled)
      else if v.class_ == Content then Denied(ContentVerbOff)
      else if v.tool != "" && v.tool !in tools then Denied(ToolNotConfigured)
      else match CheckedArgs(v, raw, scopes) case Denied(r) => Denied(r) case Ok(args) => Ok(Call(v, args))
  }

  // ---- what the schema means ------------------------------------------------------------------------

  /** `s` is text the schema allows for `a`. */
  predicate AllowedText(a: Arg, s: string, scopes: Scopes) {
    && (a.maxLen > 0 ==> |s| <= a.maxLen)
    && '\0' !in s && '\n' !in s && '\r' !in s
    && (a.kind == KindDepotPath ==> PathForm(s))
    && MatchesPattern(a.pattern, s)
    && (a.scope == ScopeDepot ==> Accepted(s, scopes.depotScope))
    && (a.scope == ScopeBuildTypes ==> s in scopes.allowedBuildTypes)
    && (a.scope == ScopeRepos ==> s in scopes.repoAllowlist)
  }

  /** The JSON value `j` is a permitted way to write `x` as argument `a`. */
  predicate Meets(a: Arg, j: Json, scopes: Scopes, x: Value) {
    match x
    case VInt(n) => a.kind == KindInt && j == JInt(n) && a.min <= n <= a.max && -INT64_MAX - 1 <= n <= INT64_MAX
    case VBool(b) => a.kind == KindBool && (j == JBool(b) || (j == JNull && !b)) && !(a.mustBeFalse && b)
    case VString(s) =>
      a.kind in {KindString, KindDepotPath} && (j == JString(s) || (j == JNull && s == "")) && AllowedText(a, s, scopes)
  }

  lemma {:induction false} ValidateMeets(a: Arg, j: Json, scopes: Scopes, x: Value)
    ensures Validate(a, j, scopes) == Ok(x) <==> Meets(a, j, scopes, x)
  {
    if x.VString? {
      IsDepotPathExactly(x.s);
    }
  }

  /** The JSON value is of the argument's kind: for text a string or a null, which stands for the empty one. */
  predicate OfKind(a: Arg, j: Json) {
    match a.kind
    case KindInt => j.JInt? && -0x8000_0000_0000_0000 <= j.n < 0x8000_0000_0000_0000
    case KindBool => j.JBool? || j.JNull?
    case _ => j.JString? || j.JNull?
  }

  function TextOf(j: Json): string { if j.JString? then j.s else "" }

  predicate TooLong(a: Arg, s: string) { a.maxLen > 0 && |s| > a.maxLen }

  /** A control byte, not a depot path where one is due, or not of the pattern. */
  predicate BadText(a: Arg, s: string) {
    || '\0' in s || '\n' in s || '\r' in s
    || (a.kind == KindDepotPath && !PathForm(s)) || !MatchesPattern(a.pattern, s)
  }

  /** The reason each refused value is given, and the only one. */
  lemma {:induction false} ValidateRefuses(a: Arg, j: Json, scopes: Scopes)
    ensures var r, s, text := Validate(a, j, scopes), TextOf(j), a.kind in {KindString, KindDepotPath};
      && (r == Denied(ArgumentType) <==> !OfKind(a, j))
      && (r == Denied(ArgumentRange) <==>
           OfKind(a, j) && ((a.kind == KindInt && !(a.min <= j.n <= a.max)) || (text && TooLong(a, s))))
      && (r == Denied(ContentVerbOff) <==> a.kind == KindBool && j == JBool(true) && a.mustBeFalse)
      && (r == Denied(ArgumentPattern) <==> text && OfKind(a, j) && !TooLong(a, s) && BadText(a, s))
      && (r == Denied(OutOfScopePath) ==> a.scope == ScopeDepot && !Accepted(s, scopes.depotScope))
      && (r == Denied(OutOfScopeBuildType) ==> a.scope == ScopeBuildTypes && s !in scopes.allowedBuildTypes)
      && (r == Denied(OutOfScopeRepo) ==> a.scope == ScopeRepos && s !in scopes.repoAllowlist)
      && (r.Denied? ==> r.reason in {ArgumentType, ArgumentRange, ContentVerbOff, ArgumentPattern,
                                     OutOfScopePath, OutOfScopeBuildType, OutOfScopeRepo})
  {
    IsDepotPathExactly(TextOf(j));
  }

  /** No two arguments share a name. */
  predicate DistinctArgs(v: Verb) {
    forall i, j :: 0 <= i < j < |v.args| ==> v.args[i].name != v.args[j].name
  }

  /** The first `n` arguments of the schema are present when required, and those present are `out`. */
  predicate Fulfils(v: Verb, n: nat, supplied: map<string, Json>, scopes: Scopes, out: map<string, Value>)
    requires n <= |v.args|
  {
    && (forall i :: 0 <= i < n && v.args[i].required ==> v.args[i].name in supplied)
    && (forall i :: 0 <= i < n && v.args[i].name in supplied ==>
         v.args[i].name in out && Meets(v.args[i], supplied[v.args[i].name], scopes, out[v.args[i].name]))
    && (forall k :: k in out ==> k in supplied && exists i :: 0 <= i < n && v.args[i].name == k)
  }

  predicate Conforms(v: Verb, raw: RawArgs, scopes: Scopes, out: map<string, Value>) {
    && !raw.NotObject?
    && (forall k :: k in Supplied(raw) ==> Known(v, k))
    && Fulfils(v, |v.args|, Supplied(raw), scopes, out)
  }

  lemma {:induction false} CheckedFulfils(v: Verb, n: nat, supplied: map<string, Json>, scopes: Scopes)
    requires n <= |v.args| && DistinctArgs(v)
    ensures var r := CheckArgs(v, n, supplied, scopes); r.Ok? ==> Fulfils(v, n, supplied, scopes, r.value)
  {
    hide Validate, Meets;
    if n > 0 && CheckArgs(v, n, supplied, scopes).Ok? {
      CheckedFulfils(v, n - 1, supplied, scopes);
      var a := v.args[n - 1];
      if a.name in supplied {
        ValidateMeets(a, supplied[a.name], scopes, CheckArgs(v, n, supplied, scopes).value[a.name]);
      }
    }
  }

  /** Without its last argument, what fulfils a schema fulfils the rest of it. */
  lemma {:induction false} FulfilsRest(v: Verb, n: nat, supplied: map<string, Json>, scopes: Scopes,
          out: map<string, Value>)
    requires 0 < n <= |v.args| && DistinctArgs(v) && Fulfils(v, n, supplied, scopes, out)
    ensures Fulfils(v, n - 1, supplied, scopes, out - {v.args[n - 1].name})
    ensures v.args[n - 1].name !in supplied ==> out - {v.args[n - 1].name} == out
  {
    hide Meets;
  }

  lemma {:induction false} FulfilledIsChecked(v: Verb, n: nat, supplied: map<string, Json>, scopes: Scopes,
          out: map<string, Value>)
    requires n <= |v.args| && DistinctArgs(v) && Fulfils(v, n, supplied, scopes, out)
    ensures CheckArgs(v, n, supplied, scopes) == Ok(out)
  {
    hide Validate, Meets;
    if n == 0 {
      assert out == map[];
    } else {
      var a := v.args[n - 1];
      FulfilsRest(v, n, supplied, scopes, out);
      FulfilledIsChecked(v, n - 1, supplied, scopes, out - {a.name});
      if a.name in supplied {
        assert Validate(a, supplied[a.name], scopes) == Ok(out[a.name]) by {
          ValidateMeets(a, supplied[a.name], scopes, out[a.name]);
        }
        assert (out - {a.name})[a.name := out[a.name]] == out;
      }
    }
  }

  /** A table `index` can be built from: no verb twice, no argument of a verb twice. */
  predicate Indexed(vs: seq<Verb>) {
    && (forall i, j :: 0 <= i < j < |vs| ==> vs[i].name != vs[j].name)
    && (forall i :: 0 <= i < |vs| ==> DistinctArgs(vs[i]))
  }

  lemma {:induction false} LookupFinds(vs: seq<Verb>, v: Verb)
    requires v in vs && Indexed(vs)
    ensures Lookup(vs, v.name) == Some(v)
  {
    if vs[0] != v {
      var i :| 0 <= i < |vs| && vs[i] == v;
      assert vs[1..][i - 1] == v;
      LookupFinds(vs[1..], v);
    }
  }

  /**
   Exactly what a command may do: it is resolved to `call` if and only if the table holds that verb,
   compiled, not of the content class and with its tool enabled, and the arguments conform to its schema.
   */
  lemma {:induction false} ResolveExactly(vs: seq<Verb>, name: string, raw: RawArgs, scopes: Scopes,
          tools: set<string>, call: Call)
    requires Indexed(vs)
    ensures Resolve(vs, name, raw, scopes, tools) == Ok(call) <==>
      var v := call.verb;
      && v in vs && v.name == name && v.compiled && v.class_ != Content && (v.tool == "" || v.tool in tools)
      && Conforms(v, raw, scopes, call.args)
  {
    var v := call.verb;
    if Lookup(vs, name) == Some(v) {
      CheckedFulfils(v, |v.args|, Supplied(raw), scopes);
      if Conforms(v, raw, scopes, call.args) {
        FulfilledIsChecked(v, |v.args|, Supplied(raw), scopes, call.args);
      }
    } else if v in vs && v.name == name {
      LookupFinds(vs, v);
    }
  }

  // ---- reasons --------------------------------------------------------------------------------------

  lemma {:induction false} CheckArgsReasons(v: Verb, n: nat, supplied: map<string, Json>, scopes: Scopes)
    requires n <= |v.args|
    ensures var r := CheckArgs(v, n, supplied, scopes);
      r.Denied? ==> r.reason in {MissingArgument, ArgumentType, ArgumentRange, ArgumentPattern, ContentVerbOff,
                                 OutOfScopePath, OutOfScopeBuildType, OutOfScopeRepo}
  {
    if n == 0 {
    } else {
      CheckArgsReasons(v, n - 1, supplied, scopes);
    }
  }

  /**
   The layers, each blind to the later ones: an unknown or reserved name is refused alike whatever the
   tools, the scopes and the arguments; a missing tool alike whatever the arguments; and an unknown key
   alike whatever the values, and before any of them is looked at.
   */
  lemma {:induction false} LayersAreBlind(vs: seq<Verb>, name: string, raw: RawArgs, scopes: Scopes, tools: set<string>,
                       raw': RawArgs, scopes': Scopes, tools': set<string>)
    ensures var r, r' := Resolve(vs, name, raw, scopes, tools), Resolve(vs, name, raw', scopes', tools');
      && (r == Denied(UnknownVerb) <==> Lookup(vs, name) == None)
      && (r in {Denied(UnknownVerb), Denied(VerbNotCompiled)} ==> r' == r)
      && (r == Denied(ToolNotConfigured) && tools' == tools ==> r' == r)
      && (r == Denied(UnknownArgument) && tools' == tools
          && raw.Object? && raw'.Object? && raw'.fields.Keys == raw.fields.Keys
          ==> r' == r)
  {
    var found := Lookup(vs, name);
    if found.Some? {
      var v := found.value;
      CheckArgsReasons(v, |v.args|, Supplied(raw), scopes);
      CheckArgsReasons(v, |v.args|, Supplied(raw'), scopes');
    }
  }

  /** Argument `i` is missing though required, or refused for what it is. */
  predicate BadArg(v: Verb, i: nat, supplied: map<string, Json>, scopes: Scopes, reason: Reason)
    requires i < |v.args|
  {
    var a := v.args[i];
    if a.name in supplied then Validate(a, supplied[a.name], scopes) == Denied(reason)
    else a.required && reason == MissingArgument
  }

  /** It is, and none before it in the schema is bad for any reason. */
  ghost predicate FirstBad(v: Verb, i: nat, supplied: map<string, Json>, scopes: Scopes, reason: Reason)
    requires i < |v.args|
  {
    && BadArg(v, i, supplied, scopes, reason)
    && forall j, any :: 0 <= j < i ==> !BadArg(v, j, supplied, scopes, any)
  }

  lemma {:induction false} CheckArgsRefuses(v: Verb, n: nat, supplied: map<string, Json>, scopes: Scopes)
    requires n <= |v.args|
    ensures var r := CheckArgs(v, n, supplied, scopes);
      && (r.Ok? ==> forall j, any :: 0 <= j < n ==> !BadArg(v, j, supplied, scopes, any))
      && (r.Denied? ==> exists i :: 0 <= i < n && FirstBad(v, i, supplied, scopes, r.reason))
  {
    if n == 0 {
    } else {
      CheckArgsRefuses(v, n - 1, supplied, scopes);
      var r := CheckArgs(v, n, supplied, scopes);
      if CheckArgs(v, n - 1, supplied, scopes).Denied? {
        var i :| 0 <= i < n - 1 && FirstBad(v, i, supplied, scopes, r.reason);
        assert 0 <= i < n;
      } else if r.Denied? {
        var i := n - 1;
        assert FirstBad(v, i, supplied, scopes, r.reason);
      }
    }
  }

  /**
   The reason a command is refused with, layer by layer; of several bad arguments it is that of the first
   in the schema, whatever order they came in.
   */
  lemma {:induction false} ResolveRefuses(vs: seq<Verb>, name: string, raw: RawArgs, scopes: Scopes, tools: set<string>)
    requires Indexed(vs) && Resolve(vs, name, raw, scopes, tools).Denied?
    ensures var reason := Resolve(vs, name, raw, scopes, tools).reason;
      if forall v :: v in vs ==> v.name != name then reason == UnknownVerb else
      exists v :: v in vs && v.name == name &&
        if !v.compiled then reason == VerbNotCompiled
        else if v.class_ == Content then reason == ContentVerbOff
        else if v.tool != "" && v.tool !in tools then reason == ToolNotConfigured
        else if raw.NotObject? then reason == MalformedArgs
        else if exists k :: k in Supplied(raw) && !Known(v, k) then reason == UnknownArgument
        else exists i :: 0 <= i < |v.args| && FirstBad(v, i, Supplied(raw), scopes, reason)
  {
    if v :| v in vs && v.name == name {
      LookupFinds(vs, v);
      CheckArgsRefuses(v, |v.args|, Supplied(raw), scopes);
    }
  }

  /** What a JSON null is taken for: no integer, but `false` and the empty string. */
  lemma {:induction false} NullPasses(a: Arg, scopes: Scopes)
    ensures Validate(a, JNull, scopes) ==
      if a.kind == KindInt then Denied(ArgumentType)
      else if a.kind == KindBool then Ok(VBool(false))
      else Validate(a, JString(""), scopes)
  {}

  /** One path, and nothing else, as p4.changes takes it. */
  function ChangesOf(path: string): RawArgs { Object(map["path" := JString(path)]) }

  lemma {:induction false} ChangesArgs(path: string, scopes: Scopes)
    ensures CheckedArgs(P4_CHANGES, ChangesOf(path), scopes) ==
      match Validate(P4_CHANGES.args[0], JString(path), scopes)
      case Ok(x) => Ok(map["path" := x])
      case Denied(r) => Denied(r)
  {
    var v, supplied := P4_CHANGES, Supplied(ChangesOf(path));
    assert v.args[0].name == "path" && Known(v, "path");
    assert |"path"| != |"max"|;
    assert CheckArgs(v, 0, supplied, scopes) == Ok(map[]);
    assert CheckArgs(v, 2, supplied, scopes) == CheckArgs(v, 1, supplied, scopes);
  }

  /**
   Which path the changes can be asked for: exactly a depot path of at most 1024 bytes without control
   bytes that the scope accepts, once Perforce is enabled. Every other is refused.
   */
  lemma {:induction false} PathResolvesIff(vs: seq<Verb>, path: string, scopes: Scopes, tools: set<string>)
    requires Indexed(vs) && P4_CHANGES in vs
    ensures var r := Resolve(vs, "p4.changes", ChangesOf(path), scopes, tools);
      && (r.Ok? <==>
           && "perforce" in tools && |path| <= 1024 && '\0' !in path && '\n' !in path && '\r' !in path
           && PathForm(path) && Accepted(path, scopes.depotScope))
      && (r.Ok? ==> r.value == Call(P4_CHANGES, map["path" := VString(path)]))
  {
    LookupFinds(vs, P4_CHANGES);
    ChangesArgs(path, scopes);
    IsDepotPathExactly(path);
  }

  /** For example: a path that leaves its scope by a traversal segment. */
  lemma {:induction false} TraversalIsRefused(vs: seq<Verb>, path: string, scopes: Scopes, tools: set<string>)
    requires Indexed(vs) && P4_CHANGES in vs && path == "//depot/game/../x" && "perforce" in tools
    ensures Resolve(vs, "p4.changes", ChangesOf(path), scopes, tools) == Denied(ArgumentPattern)
  {
    LookupFinds(vs, P4_CHANGES);
    ChangesArgs(path, scopes);
    IsDepotPathExactly(path);
    assert TraversalAt(path, 12);
  }

  // ---- self-check -----------------------------------------------------------------------------------

  const BANNED: set<string> := {"params", "parameters", "properties", "env", "branchname", "branch_name", "comment",
                                "url", "host", "port", "command", "script", "args"}

  function LowerChar(c: char): char { if 'A' <= c <= 'Z' then c + 32 as char else c }

  /** `strings.ToLower` on ASCII. */
  function ToLower(s: string): (r: string)
    ensures |r| == |s| && forall i :: 0 <= i < |s| ==> r[i] == LowerChar(s[i])
  {
    seq(|s|, i requires 0 <= i < |s| => LowerChar(s[i]))
  }

  /** `b` is the name with its ASCII capitals made small. */
  predicate SmallOf(name: string, b: string) {
    && |b| == |name|
    && forall i :: 0 <= i < |name| ==>
         var n := name[i] as int; b[i] as int == if 0x41 <= n <= 0x5A then n + 0x20 else n
  }

  /** So a banned name is banned however it is capitalised. */
  lemma {:induction false} BannedInAnyCase(name: string)
    ensures ToLower(name) in BANNED <==> exists b :: b in BANNED && SmallOf(name, b)
  {
    assert SmallOf(name, ToLower(name));
    if b :| b in BANNED && SmallOf(name, b) {
      assert b == ToLower(name);
    }
  }

  predicate ArgPasses(a: Arg) {
    && ToLower(a.name) !in BANNED
    && (a.kind == KindInt ==> a.max > 0)
    && (a.kind == KindString ==> a.maxLen > 0)
  }

  predicate VerbPasses(v: Verb) {
    && !(v.compiled && v.mutating) && !(v.compiled && v.class_ == Content)
    && forall i :: 0 <= i < |v.args| ==> ArgPasses(v.args[i])
  }

  predicate Passes(vs: seq<Verb>) { forall i :: 0 <= i < |vs| ==> VerbPasses(vs[i]) }

  method Selfcheck(vs: seq<Verb>) returns (ok: bool)
    ensures ok == Passes(vs)
  {
    for i := 0 to |vs|
      invariant forall k :: 0 <= k < i ==> VerbPasses(vs[k])
    {
      var v := vs[i];
      if v.compiled && v.mutating { return false; }
      if v.compiled && v.class_ == Content { return false; }
      for j := 0 to |v.args|
        invariant forall k :: 0 <= k < j ==> ArgPasses(v.args[k])
      {
        var a := v.args[j];
        if ToLower(a.name) in BANNED { return false; }
        if a.kind == KindInt && a.max <= 0 { return false; }
        if a.kind == KindString && a.maxLen == 0 { return false; }
      }
    }
    ok := true;
  }

  /** What a compiled verb of this version may take: positive numbers, pinned switches, scoped paths. */
  predicate Harmless(a: Arg) {
    && (a.kind == KindInt ==> a.min >= 1)
    && (a.kind == KindBool ==> a.mustBeFalse)
    && a.kind != KindString
    && (a.kind == KindDepotPath ==> a.scope == ScopeDepot)
  }

  predicate Sound(v: Verb) {
    && VerbPasses(v) && DistinctArgs(v)
    && (v.compiled ==> 0 < v.defaultMaxBytes <= 0x40_0000 && forall i :: 0 <= i < |v.args| ==> Harmless(v.args[i]))
  }

  /** No banned name has one of these lengths. */
  lemma {:induction false} UnbannedByLength(s: string)
    requires |s| in {8, 9, 12, 13}
    ensures ToLower(s) !in BANNED
  {}

  /** Nor one of these beginnings at its length. */
  lemma {:induction false} UnbannedByLetter(s: string)
    requires 2 <= |s|
    requires (s[0], s[1]) in {('c', 'h'), ('p', 'a'), ('m', 'a'), ('d', 'e'), ('r', 'e'), ('j', 'o'), ('s', 'h')}
    requires |s| < 5 || s[0] != 'p'
    ensures ToLower(s) !in BANNED
  {}

  lemma {:induction false} SmallVerbsSound()
    ensures Sound(SYS_PING) && Sound(SYS_VERSION) && Sound(SYS_CAPABILITIES) && Sound(SERVER_INFO) && Sound(HORDE_INFO)
  {}

  lemma {:induction false} TeamCitySound()
    ensures Sound(BUILD_GET) && Sound(BUILD_QUEUE)
  {
    UnbannedByLength("build_id");
    UnbannedByLength("build_type_id");
  }

  lemma {:induction false} DescribeSound()
    ensures Sound(P4_DESCRIBE)
  {
    UnbannedByLetter("change");
    UnbannedByLength("max_files");
    UnbannedByLength("include_diff");
  }

  lemma {:induction false} ChangesSound()
    ensures Sound(P4_CHANGES)
  {
    UnbannedByLetter("path");
    UnbannedByLetter("max");
  }

  lemma {:induction false} ContentsSound()
    ensures Sound(P4_FILE_CONTENTS)
  {
    UnbannedByLetter("depot_path");
    UnbannedByLetter("rev");
    UnbannedByLength("max_bytes");
  }

  lemma {:induction false} OthersSound()
    ensures Sound(BUILD_TRIGGER) && Sound(COMMIT_GET)
  {
    UnbannedByLetter("job");
    UnbannedByLetter("repo");
    UnbannedByLetter("sha");
  }

  lemma {:induction false} NamesDistinct()
    ensures forall i, j :: 0 <= i < j < |VOCABULARY| ==> VOCABULARY[i].name != VOCABULARY[j].name
  {
  }

  /** A table that can be indexed, passes its own check and compiles in nothing but harmless verbs. */
  predicate SoundTable(vs: seq<Verb>) {
    Passes(vs) && Indexed(vs) && forall i :: 0 <= i < |vs| ==> Sound(vs[i])
  }

  /** The vocabulary of this build is one. */
  lemma {:induction false} VocabularyIsSound()
    ensures SoundTable(VOCABULARY)
  {
    SmallVerbsSound();
    TeamCitySound();
    DescribeSound();
    ChangesSound();
    ContentsSound();
    OthersSound();
    NamesDistinct();
  }

  /** The verbs that can be run at all, each with the tool it needs. */
  lemma {:induction false} RunnableVerbs(v: Verb)
    requires v in VOCABULARY
    ensures v.compiled <==>
      || (v.tool == "" && v.name in {"sys.ping", "sys.version", "sys.capabilities"})
      || (v.tool == "teamcity" && v.name in {"teamcity.server.info", "teamcity.build.get"})
      || (v.tool == "perforce" && v.name in {"p4.describe", "p4.changes"})
  {}

  /** What an accepted argument may be. */
  ghost predicate Permitted(x: Value, scopes: Scopes) {
    match x
    case VInt(n) => 1 <= n <= INT64_MAX
    case VBool(b) => !b
    case VString(s) =>
      && PathForm(s) && Accepted(s, scopes.depotScope)
      && (!Glued(s, scopes.depotScope) ==> forall path :: Matches(s, path) ==> Within(path, scopes.depotScope))
  }

  lemma {:induction false} MetIsPermitted(a: Arg, j: Json, scopes: Scopes, x: Value)
    requires Meets(a, j, scopes, x) && Harmless(a) && AllNormalized(scopes.depotScope)
    ensures Permitted(x, scopes)
  {
    if x.VString? {
      SoundUnlessGlued(x.s, scopes.depotScope);
    }
  }

  /**
   The promise of the allowlist: whatever a broker sends, an accepted command names a compiled verb
   that neither mutates nor returns content, carries no banned argument, leaves the diff switch off,
   and every depot path it can reach is in scope unless its wildcard is glued to the root of one.
   */
  lemma {:induction false} AcceptedCommands(vs: seq<Verb>, name: string, raw: RawArgs, scopes: Scopes,
          tools: set<string>,
                                            call: Call)
    requires SoundTable(vs) && AllNormalized(scopes.depotScope)
    requires Resolve(vs, name, raw, scopes, tools) == Ok(call)
    ensures call.verb in vs && call.verb.compiled && !call.verb.mutating && call.verb.class_ != Content
    ensures 0 < call.verb.defaultMaxBytes <= 0x40_0000
    ensures forall k :: k in call.args ==> ToLower(k) !in BANNED && Permitted(call.args[k], scopes)
  {
    ResolveExactly(vs, name, raw, scopes, tools, call);
    var v := call.verb;
    var n :| 0 <= n < |vs| && vs[n] == v;
    assert Sound(v);
    ArgsArePermitted(v, raw, scopes, call.args);
  }

  lemma {:induction false} ArgsArePermitted(v: Verb, raw: RawArgs, scopes: Scopes, args: map<string, Value>)
    requires Conforms(v, raw, scopes, args) && Sound(v) && v.compiled && AllNormalized(scopes.depotScope)
    ensures forall k :: k in args ==> ToLower(k) !in BANNED && Permitted(args[k], scopes)
  {
    forall k | k in args
      ensures ToLower(k) !in BANNED && Permitted(args[k], scopes)
    {
      var i :| 0 <= i < |v.args| && v.args[i].name == k;
      assert ArgPasses(v.args[i]) && Harmless(v.args[i]);
      MetIsPermitted(v.args[i], Supplied(raw)[k], scopes, args[k]);
    }
  }
}
