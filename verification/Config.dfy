/** The parts of connector.yml's validation that other guarantees rest on: token, scopes, limits. */
module Config {
  import opened Bytes
  import opened DepotScope

  // ---- the token --------------------------------------------------------------------------------

  predicate IdChar(c: char) { 'a' <= c <= 'z' || '0' <= c <= '9' || c == '-' }

  predicate SecretChar(c: char) { 'A' <= c <= 'Z' || 'a' <= c <= 'z' || '2' <= c <= '7' }

  predicate IsId(s: string) {
    1 <= |s| <= 63 && s[0] != '-' && forall i :: 0 <= i < |s| ==> IdChar(s[i])
  }

  predicate IsSecret(s: string) {
    32 <= |s| <= 128 && forall i :: 0 <= i < |s| ==> SecretChar(s[i])
  }

  /** `tokenPattern`: bsc_, an integration id, an underscore, a base32 secret. */
  predicate IsToken(t: string) {
    exists n :: 0 <= n < |t| && TokenWith(t, n)
  }

  /** The id is the `n` bytes behind the prefix. */
  predicate TokenWith(t: string, n: nat) {
    && 4 + n < |t| && t[..4] == "bsc_" && t[4 + n] == '_'
    && IsId(t[4..4 + n]) && IsSecret(t[4 + n + 1..])
  }

  function IntegrationID(token: string): string {
    var parts := Split(token, '_');
    if |parts| < 3 then "" else parts[1]
  }

  lemma {:induction false} TokenParts(id: string, secret: string)
    requires IsId(id) && IsSecret(secret)
    ensures Split("bsc" + ['_'] + id + ['_'] + secret, '_') == ["bsc", id, secret]
  {
    SplitConcat("bsc" + ['_'] + id, secret, '_');
    SplitConcat("bsc", id, '_');
    SplitWhole("bsc", '_');
    SplitWhole(id, '_');
    SplitWhole(secret, '_');
  }

  lemma {:induction false} JoinThree(a: string, b: string, c: string, sep: char)
    ensures Join([a, b, c], sep) == a + [sep] + b + [sep] + c
  {
    JoinConcat([a], [b, c], sep);
    JoinConcat([b], [c], sep);
    assert [a] + [b, c] == [a, b, c] && [b] + [c] == [b, c];
  }

  lemma {:induction false} JoinedToken(t: string, id: string, secret: string)
    requires t == "bsc" + ['_'] + id + ['_'] + secret && IsId(id) && IsSecret(secret)
    ensures IsToken(t)
  {
    var n := |id|;
    assert t[..4] == "bsc_" && t[4 + n] == '_';
    assert t[4..4 + n] == id;
    assert t[4 + n + 1..] == secret;
    assert TokenWith(t, n);
  }

  /** A token is exactly three parts joined by underscores, whatever the three may hold. */
  lemma {:induction false} TokenSplit(t: string)
    ensures IsToken(t) <==> var p := Split(t, '_'); |p| == 3 && p[0] == "bsc" && IsId(p[1]) && IsSecret(p[2])
    ensures IsToken(t) ==> IsId(IntegrationID(t)) && t == "bsc_" + IntegrationID(t) + "_" + Split(t, '_')[2]
  {
    if IsToken(t) {
      var n :| 0 <= n < |t| && TokenWith(t, n);
      TokenParts(t[4..4 + n], t[4 + n + 1..]);
      assert t == "bsc" + ['_'] + t[4..4 + n] + ['_'] + t[4 + n + 1..];
    }
    var p := Split(t, '_');
    if |p| == 3 && p[0] == "bsc" && IsId(p[1]) && IsSecret(p[2]) {
      JoinSplit(t, '_');
      JoinThree("bsc", p[1], p[2], '_');
      assert p == ["bsc", p[1], p[2]];
      JoinedToken(t, p[1], p[2]);
    }
  }

  /**
   The token by its ASCII codes: `bsc_`, an id of `n` lower-case letters, digits and dashes that does not
   begin with a dash, an underscore, and 32 to 128 letters and digits from 2 to 7.
   */
  predicate TokenCodes(t: string, n: nat) {
    && 1 <= n <= 63 && n + 37 <= |t| <= n + 133
    && [t[0] as int, t[1] as int, t[2] as int, t[3] as int, t[4 + n] as int] == [0x62, 0x73, 0x63, 0x5F, 0x5F]
    && (forall i :: 4 <= i < 4 + n ==>
         var c := t[i] as int; 0x61 <= c <= 0x7A || 0x30 <= c <= 0x39 || (c == 0x2D && i > 4))
    && forall i :: 5 + n <= i < |t| ==>
         var c := t[i] as int; 0x41 <= c <= 0x5A || 0x61 <= c <= 0x7A || 0x32 <= c <= 0x37
  }

  lemma {:induction false} TokenByCodes(t: string)
    ensures IsToken(t) <==> exists n :: TokenCodes(t, n)
  {
    forall n: nat
      ensures TokenWith(t, n) <==> TokenCodes(t, n)
    {
      if 4 + n < |t| {
        assert t[..4] == "bsc_" <==> t[0] == 'b' && t[1] == 's' && t[2] == 'c' && t[3] == '_';
        assert |t[4..4 + n]| == n && forall i :: 4 <= i < 4 + n ==> t[i] == t[4..4 + n][i - 4];
        assert forall i :: 5 + n <= i < |t| ==> t[i] == t[5 + n..][i - 5 - n];
      }
    }
  }

  // ---- scopes -----------------------------------------------------------------------------------

  datatype Error =
    | NoEndpoint | EndpointUnparsed | Insecure | NoHost | QueryString | UserInfo | Fragment
    | NoToken | BadToken | BadMaxConcurrent
    | PerforceIncomplete | NoScope | ScopeRelative | ScopeWildcard
    | TeamCityIncomplete | TeamCityURL

  /** What `url.Parse` finds in a URL. */
  datatype Url = Url(scheme: string, host: string, rawQuery: string, hasUser: bool, fragment: string)

  function ScopeError(p: string): Option<Error> {
    if !("//" <= p) then Some(ScopeRelative) else if HasWildcard(p) then Some(ScopeWildcard) else None
  }

  function WithSlash(p: string): string { if EndsInSlash(p) then p else p + "/" }

  /** The scopes after the loop: entries up to the first one refused are normalized, the others not. */
  function Slashed(scopes: seq<string>): seq<string> {
    if scopes == [] || ScopeError(scopes[0]).Some? then scopes else [WithSlash(scopes[0])] + Slashed(scopes[1..])
  }

  function FirstError(scopes: seq<string>): (e: Option<Error>)
    ensures e.Some? ==> e.value in {ScopeRelative, ScopeWildcard}
  {
    if scopes == [] then None
    else if ScopeError(scopes[0]).Some? then ScopeError(scopes[0])
    else FirstError(scopes[1..])
  }

  /** A scope keeps its segments, and so everything that is at or below it, when it is normalized. */
  lemma {:induction false} NormalizedScope(p: string)
    requires ScopeError(p).None?
    ensures Normalized(WithSlash(p)) && WithSlash(WithSlash(p)) == WithSlash(p)
    ensures Root(WithSlash(p)) == Root(p)
  {
    if !EndsInSlash(p) {
      var q := WithSlash(p);
      forall i | 0 <= i < |q|
        ensures !DotsAt(q, i)
      {
        assert !DotsAt(p, i);
      }
      assert q[..|q| - 1] == p;
    }
  }

  /** When no entry is refused every entry is normalized, and validating again changes nothing. */
  lemma {:induction false} SlashedIsNormalized(scopes: seq<string>)
    requires FirstError(scopes).None?
    ensures AllNormalized(Slashed(scopes)) && |Slashed(scopes)| == |scopes|
    ensures forall i :: 0 <= i < |scopes| ==> Root(Slashed(scopes)[i]) == Root(scopes[i])
    ensures FirstError(Slashed(scopes)).None? && Slashed(Slashed(scopes)) == Slashed(scopes)
  {
    if scopes == [] {
    } else {
      NormalizedScope(scopes[0]);
      SlashedIsNormalized(scopes[1..]);
      var s := Slashed(scopes);
      assert s[1..] == Slashed(scopes[1..]);
      forall i | 0 <= i < |s|
        ensures Normalized(s[i]) && Root(s[i]) == Root(scopes[i])
      {
        assert i > 0 ==> s[i] == s[1..][i - 1] && scopes[i] == scopes[1..][i - 1];
      }
    }
  }

  /** A star or three dots begin at index `i`. */
  predicate WildAt(p: string, i: nat)
    requires i < |p|
  {
    p[i] == '*' || (i + 2 < |p| && p[i] == '.' && p[i + 1] == '.' && p[i + 2] == '.')
  }

  /** What makes an entry no scope: it does not begin with two slashes, or it holds a wildcard. */
  predicate BadScope(p: string, e: Error) {
    var rooted := |p| >= 2 && p[0] == '/' && p[1] == '/';
    match e
    case ScopeRelative => !rooted
    case ScopeWildcard => rooted && exists i :: 0 <= i < |p| && WildAt(p, i)
    case _ => false
  }

  predicate GoodScope(p: string) { !BadScope(p, ScopeRelative) && !BadScope(p, ScopeWildcard) }

  lemma {:induction false} ScopeErrorMeans(p: string, e: Error)
    ensures ScopeError(p) == Some(e) <==> BadScope(p, e)
    ensures ScopeError(p) == None <==> GoodScope(p)
  {
    assert "//" <= p <==> |p| >= 2 && p[0] == '/' && p[1] == '/';
    forall i | 0 <= i < |p|
      ensures WildAt(p, i) <==> p[i] == '*' || DotsAt(p, i)
    {}
  }

  /**
   The loop stops at the first bad entry, if there is one: the entries before it have their slash, the
   others are as they were.
   */
  lemma {:induction false} LoopStopsAtFirst(scopes: seq<string>) returns (k: nat)
    ensures |Slashed(scopes)| == |scopes| >= k && (FirstError(scopes) == None <==> k == |scopes|)
    ensures k < |scopes| ==> BadScope(scopes[k], FirstError(scopes).value)
    ensures forall i :: 0 <= i < k ==> GoodScope(scopes[i])
    ensures forall i :: 0 <= i < |scopes| ==> Slashed(scopes)[i] == if i < k then WithSlash(scopes[i]) else scopes[i]
  {
    if scopes == [] {
      k := 0;
    } else {
      hide BadScope, GoodScope, ScopeError, WithSlash;
      ScopeErrorMeans(scopes[0], if ScopeError(scopes[0]).Some? then ScopeError(scopes[0]).value else NoScope);
      if ScopeError(scopes[0]).Some? {
        k := 0;
      } else {
        var rest := LoopStopsAtFirst(scopes[1..]);
        k := rest + 1;
        assert forall i :: 1 <= i < |scopes| ==>
          scopes[i] == scopes[1..][i - 1] && Slashed(scopes)[i] == Slashed(scopes[1..])[i - 1];
      }
    }
  }

  /** Some entry is bad for the reason `e` and none before it is bad. */
  ghost predicate FirstBadScope(scopes: seq<string>, e: Error) {
    exists k :: 0 <= k < |scopes| && BadScope(scopes[k], e) && forall i :: 0 <= i < k ==> GoodScope(scopes[i])
  }

  lemma {:induction false} FirstErrorMeans(scopes: seq<string>, e: Error)
    ensures FirstError(scopes) == Some(e) <==> FirstBadScope(scopes, e)
  {
    var k := LoopStopsAtFirst(scopes);
  }

  lemma {:induction false} SlashedFirst(scopes: seq<string>)
    ensures
      if scopes == [] then FirstError(scopes) == None && Slashed(scopes) == []
      else if ScopeError(scopes[0]).Some? then FirstError(scopes) == ScopeError(scopes[0]) && Slashed(scopes) == scopes
      else
        && FirstError(scopes) == FirstError(scopes[1..])
        && Slashed(scopes) == [WithSlash(scopes[0])] + Slashed(scopes[1..])
  {}

  lemma {:induction false} SlashedUpTo(scopes: seq<string>, i: nat)
    requires i < |scopes| && FirstError(scopes[..i]).None?
    ensures ScopeError(scopes[i]).Some? ==>
      FirstError(scopes) == ScopeError(scopes[i]) && Slashed(scopes) == Slashed(scopes[..i]) + scopes[i..]
    ensures ScopeError(scopes[i]).None? ==>
      FirstError(scopes[..i + 1]).None? && Slashed(scopes[..i + 1]) == Slashed(scopes[..i]) + [WithSlash(scopes[i])]
  {
    hide ScopeError, WithSlash, FirstError, Slashed;
    SlashedFirst(scopes);
    SlashedFirst(scopes[..i]);
    SlashedFirst(scopes[..i + 1]);
    assert scopes[..i + 1][1..] == scopes[1..][..i];
    if i > 0 {
      assert scopes[..i][1..] == scopes[1..][..i - 1];
      SlashedUpTo(scopes[1..], i - 1);
    } else {
      SlashedFirst(scopes[1..][..0]);
    }
  }

  lemma {:induction false} SetAt(done: seq<string>, rest: seq<string>, p: string)
    requires rest != []
    ensures (done + rest)[|done|] == rest[0]
    ensures (done + rest)[|done| := p] == done + [p] + rest[1..]
  {}

  function EndpointError(endpoint: string, parsed: Option<Url>): Option<Error> {
    if endpoint == "" then Some(NoEndpoint)
    else if parsed.None? then Some(EndpointUnparsed)
    else
      var u := parsed.value;
      if u.scheme != "wss" then Some(Insecure)
      else if u.host == "" then Some(NoHost)
      else if u.rawQuery != "" || '?' in endpoint then Some(QueryString)
      else if u.hasUser then Some(UserInfo)
      else if u.fragment != "" then Some(Fragment)
      else None
  }

  function TeamCityError(url: string, token: string, parsed: Option<Url>): Option<Error> {
    if url == "" || token == "" then Some(TeamCityIncomplete)
    else if parsed.None? || parsed.value.host == "" || parsed.value.scheme !in {"http", "https"} then Some(TeamCityURL)
    else None
  }

  class Config {
    var endpoint: string
    var token: string
    var maxConcurrent: int
    var perforceEnabled: bool
    var perforcePort: string
    var perforceUser: string
    var depotScope: seq<string>
    var teamCityEnabled: bool
    var teamCityUrl: string
    var teamCityToken: string

    // What the URL parser makes of the two URLs.
    var endpointParsed: Option<Url>
    var teamCityParsed: Option<Url>

    /** The checks that come before the scopes. */
    function EarlyRefusal(): Option<Error>
      reads this
    {
      if EndpointError(endpoint, endpointParsed).Some? then EndpointError(endpoint, endpointParsed)
      else if token == "" then Some(NoToken)
      else if !IsToken(token) then Some(BadToken)
      else if maxConcurrent < 1 || maxConcurrent > 32 then Some(BadMaxConcurrent)
      else if !perforceEnabled then None
      else if perforcePort == "" || perforceUser == "" then Some(PerforceIncomplete)
      else if depotScope == [] then Some(NoScope)
      else None
    }

    /** Why `Validate` refuses this configuration. */
    function Refusal(): Option<Error>
      reads this
    {
      if EarlyRefusal().Some? then EarlyRefusal()
      else if perforceEnabled && FirstError(depotScope).Some? then FirstError(depotScope)
      else if teamCityEnabled then TeamCityError(teamCityUrl, teamCityToken, teamCityParsed)
      else None
    }

    /** What each error means, by itself. */
    ghost predicate Fails(e: Error)
      reads this
    {
      match e
      case NoEndpoint => endpoint == ""
      case EndpointUnparsed => endpointParsed == None
      case Insecure => endpointParsed.Some? && endpointParsed.value.scheme != "wss"
      case NoHost => endpointParsed.Some? && endpointParsed.value.host == ""
      case QueryString => '?' in endpoint || (endpointParsed.Some? && endpointParsed.value.rawQuery != "")
      case UserInfo => endpointParsed.Some? && endpointParsed.value.hasUser
      case Fragment => endpointParsed.Some? && endpointParsed.value.fragment != ""
      case NoToken => token == ""
      case BadToken => !exists n :: TokenCodes(token, n)
      case BadMaxConcurrent => maxConcurrent <= 0 || 33 <= maxConcurrent
      case PerforceIncomplete => perforceEnabled && (perforcePort == "" || perforceUser == "")
      case NoScope => perforceEnabled && |depotScope| == 0
      case ScopeRelative => perforceEnabled && FirstBadScope(depotScope, ScopeRelative)
      case ScopeWildcard => perforceEnabled && FirstBadScope(depotScope, ScopeWildcard)
      case TeamCityIncomplete => teamCityEnabled && (teamCityUrl == "" || teamCityToken == "")
      case TeamCityURL =>
        teamCityEnabled && (teamCityParsed == None || teamCityParsed.value.host == ""
                            || (teamCityParsed.value.scheme != "http" && teamCityParsed.value.scheme != "https"))
    }

    /** The order of the checks. */
    static function Rank(e: Error): nat {
      match e
      case NoEndpoint => 0 case EndpointUnparsed => 1 case Insecure => 2 case NoHost => 3 case QueryString => 4
      case UserInfo => 5 case Fragment => 6 case NoToken => 7 case BadToken => 8 case BadMaxConcurrent => 9
      case PerforceIncomplete => 10 case NoScope => 11 case ScopeRelative => 12 case ScopeWildcard => 13
      case TeamCityIncomplete => 14 case TeamCityURL => 15
    }

    /** `e` is the first error, or None when there is none at all. */
    ghost predicate First(e: Option<Error>)
      reads this
    {
      match e
      case None => forall f :: !Fails(f)
      case Some(e) => Fails(e) && forall f :: Rank(f) < Rank(e) ==> !Fails(f)
    }

    lemma {:induction false} RefusalIsFirst()
      ensures First(Refusal())
    {
      hide FirstBadScope, FirstError, TokenCodes, IsToken;
      TokenByCodes(token);
      FirstErrorMeans(depotScope, ScopeRelative);
      FirstErrorMeans(depotScope, ScopeWildcard);
    }

    /**
     A success leaves every scope normalized, with its root; it means a verified endpoint that carries
     no credential, and a token in the form it is split by.
     */
    method Validate() returns (error: Option<Error>)
      modifies this`depotScope
      ensures error == old(Refusal()) && old(First(error))
      ensures depotScope ==
        if old(EarlyRefusal()).Some? || !perforceEnabled then old(depotScope) else Slashed(old(depotScope))
      ensures error == None ==>
        && endpointParsed.Some? && endpointParsed.value.scheme == "wss" && '?' !in endpoint
        && IsToken(token) && 1 <= maxConcurrent <= 32
      ensures error == None && perforceEnabled ==> depotScope != [] && AllNormalized(depotScope)
    {
      RefusalIsFirst();
      error := EndpointError(endpoint, endpointParsed);
      if error.Some? { return; }
      if token == "" { return Some(NoToken); }
      if !IsToken(token) { return Some(BadToken); }
      if maxConcurrent < 1 || maxConcurrent > 32 { return Some(BadMaxConcurrent); }
      if perforceEnabled {
        if perforcePort == "" || perforceUser == "" { return Some(PerforceIncomplete); }
        if |depotScope| == 0 { return Some(NoScope); }
        error := NormalizeScopes();
        if error.Some? { return; }
        SlashedIsNormalized(old(depotScope));
      }
      if teamCityEnabled {
        error := TeamCityError(teamCityUrl, teamCityToken, teamCityParsed);
      }
    }

    method NormalizeScopes() returns (error: Option<Error>)
      modifies this`depotScope
      ensures error == FirstError(old(depotScope)) && depotScope == Slashed(old(depotScope))
    {
      hide Slashed, FirstError;
      ghost var before := depotScope;
      SlashedFirst(before[..0]);
      for i := 0 to |depotScope|
        invariant |depotScope| == |before| && FirstError(before[..i]).None?
        invariant |Slashed(before[..i])| == i && depotScope == Slashed(before[..i]) + before[i..]
      {
        SlashedUpTo(before, i);
        SetAt(Slashed(before[..i]), before[i..], WithSlash(before[i]));
        assert before[i..][1..] == before[i + 1..];
        var p := depotScope[i];
        if !("//" <= p) { return Some(ScopeRelative); }
        if '*' in p || HasDots(p) { return Some(ScopeWildcard); }
        if !EndsInSlash(p) {
          depotScope := depotScope[i := p + "/"];
        }
      }
      assert before[..|before|] == before;
      error := None;
    }
  }
}
