/**
 Depot paths, the scopes of connector.yml, and the prefix test that stands between them. The main
 theorem says for which accepted patterns every path they match lies in scope.
 A string is the sequence of its bytes.
 */
module DepotScope {
  import opened Bytes

  // ---- strings ----------------------------------------------------------------------------------

  predicate ContainsAny(s: string, cs: string) {
    exists i :: 0 <= i < |s| && s[i] in cs
  }

  /** Three dots begin at index `i`. */
  predicate DotsAt(s: string, i: int) {
    0 <= i && i + 3 <= |s| && s[i] == '.' && s[i + 1] == '.' && s[i + 2] == '.'
  }

  predicate HasDots(s: string) {
    exists i :: 0 <= i < |s| && DotsAt(s, i)
  }

  /** `strings.IndexAny`, and `strings.IndexByte` for a single byte: None stands for -1. */
  function IndexAny(s: string, cs: string, from: nat): (r: Option<nat>)
    requires from <= |s|
    ensures r.Some? ==> from <= r.value < |s| && s[r.value] in cs
    ensures forall i :: from <= i < (if r.Some? then r.value else |s|) ==> s[i] !in cs
    decreases |s| - from
  {
    if from == |s| then None else if s[from] in cs then Some(from) else IndexAny(s, cs, from + 1)
  }

  /** `strings.Index(s, "...")` */
  function IndexDots(s: string, from: nat): (r: Option<nat>)
    requires from <= |s|
    ensures r.Some? ==> from <= r.value && DotsAt(s, r.value)
    ensures forall i :: from <= i < (if r.Some? then r.value else |s|) ==> !DotsAt(s, i)
    decreases |s| - from
  {
    if from == |s| then None else if DotsAt(s, from) then Some(from) else IndexDots(s, from + 1)
  }

  /** `strings.Split` on a one-byte separator. */
  function Split(s: string, sep: char): (parts: seq<string>)
    ensures parts != []
  {
    if s == [] then [[]] else
    var parts := Split(s[1..], sep);
    if s[0] == sep then [[]] + parts else [[s[0]] + parts[0]] + parts[1..]
  }

  function Join(parts: seq<string>, sep: char): string
    requires parts != []
  {
    if |parts| == 1 then parts[0] else parts[0] + [sep] + Join(parts[1..], sep)
  }

  lemma {:induction false} JoinSplit(s: string, sep: char)
    ensures Join(Split(s, sep), sep) == s
  {
    if s == [] {
    } else {
      JoinSplit(s[1..], sep);
      var parts := Split(s[1..], sep);
      if s[0] == sep {
        assert ([[]] + parts)[1..] == parts;
      } else {
        assert ([[s[0]] + parts[0]] + parts[1..])[1..] == parts[1..];
      }
    }
  }

  lemma {:induction false} SplitFirst(s: string, sep: char)
    ensures if s == [] then Split(s, sep) == [[]] else
      var parts := Split(s[1..], sep);
      Split(s, sep) == if s[0] == sep then [[]] + parts else [[s[0]] + parts[0]] + parts[1..]
  {}

  lemma {:induction false} SplitConcat(a: string, b: string, sep: char)
    ensures Split(a + [sep] + b, sep) == Split(a, sep) + Split(b, sep)
  {
    hide Split;
    var s, rest := a + [sep] + b, Split(b, sep);
    SplitFirst(s, sep);
    SplitFirst(a, sep);
    if a == [] {
      assert s[1..] == b;
    } else {
      assert s[1..] == a[1..] + [sep] + b;
      SplitConcat(a[1..], b, sep);
      var first := Split(a[1..], sep);
      assert (first + rest)[0] == first[0] && (first + rest)[1..] == first[1..] + rest;
      if s[0] == sep {
        Assoc([[]], first, rest);
      } else {
        Assoc([[s[0]] + first[0]], first[1..], rest);
      }
    }
  }

  lemma {:induction false} SplitWhole(s: string, sep: char)
    requires sep !in s
    ensures Split(s, sep) == [s]
  {
    if s == [] {
    } else {
      SplitWhole(s[1..], sep);
      assert s == [s[0]] + s[1..];
    }
  }

  lemma {:induction false} JoinConcat(a: seq<string>, b: seq<string>, sep: char)
    requires a != [] && b != []
    ensures Join(a + b, sep) == Join(a, sep) + [sep] + Join(b, sep)
  {
    assert (a + b)[1..] == a[1..] + b;
    if |a| > 1 {
      JoinConcat(a[1..], b, sep);
    } else {
      assert a[1..] == [] && a[1..] + b == b;
    }
  }

  // ---- the code ---------------------------------------------------------------------------------

  /** `validateDepotPath` accepts. */
  predicate IsDepotPath(s: string) {
    && "//" <= s
    && !ContainsAny(s, "@#%")
    && ".." !in Split(s[2..], '/') && "." !in Split(s[2..], '/')
  }

  function LiteralPrefix(s: string): string {
    match IndexAny(s, "*.", 0)
    case None => s
    case Some(i) =>
      if s[i] == '.' then
        match IndexDots(s, 0)
        case Some(j) => s[..j]
        case None => (match IndexAny(s, "*", 0) case Some(k) => s[..k] case None => s)
      else s[..i]
  }

  /** `strings.TrimSuffix(p, "/")` */
  function Root(p: string): string {
    if p != [] && p[|p| - 1] == '/' then p[..|p| - 1] else p
  }

  predicate EndsInSlash(p: string) { p != [] && p[|p| - 1] == '/' }

  /** At the scope's root or below it. */
  predicate Under(s: string, p: string) {
    EndsInSlash(p) && (s == Root(p) || p <= s)
  }

  predicate Within(s: string, scopes: seq<string>) {
    exists i :: 0 <= i < |scopes| && Under(s, scopes[i])
  }

  method WithinPrefixList(s: string, prefixes: seq<string>) returns (within: bool)
    ensures within == Within(s, prefixes)
  {
    for i := 0 to |prefixes|
      invariant !Within(s, prefixes[..i])
    {
      assert prefixes[..i + 1] == prefixes[..i] + [prefixes[i]];
      var p := prefixes[i];
      if p == [] || p[|p| - 1] != '/' {
        continue;
      }
      if s == Root(p) || p <= s {
        return true;
      }
    }
    assert prefixes[..|prefixes|] == prefixes;
    within := false;
  }

  // ---- depot paths ------------------------------------------------------------------------------

  /** A slash at index `i` with a segment `.` or `..` behind it. */
  predicate TraversalAt(s: string, i: int)
    requires 0 <= i < |s|
  {
    && s[i] == '/' && i + 1 < |s| && s[i + 1] == '.'
    && (i + 2 == |s| || s[i + 2] == '/' || (s[i + 2] == '.' && (i + 3 == |s| || s[i + 3] == '/')))
  }

  /** A depot path by its bytes: two slashes first, no revision specifier, no traversal segment. */
  predicate PathForm(s: string) {
    && |s| >= 2 && s[0] == '/' && s[1] == '/'
    && (forall i :: 0 <= i < |s| ==> s[i] != '@' && s[i] != '#' && s[i] != '%')
    && forall i :: 1 <= i < |s| ==> !TraversalAt(s, i)
  }

  /** `g` stands at the beginning of `s` and ends there or at a slash. */
  predicate Leads(g: string, s: string) { g <= s && (|g| == |s| || s[|g|] == '/') }

  /** `g` stands behind a slash in that way. */
  predicate Behind(g: string, s: string) {
    exists i :: 0 <= i < |s| && s[i] == '/' && Leads(g, s[i + 1..])
  }

  /** The first segment of a string is what stands at its beginning. */
  lemma {:induction false} FirstSegment(s: string, g: string)
    requires '/' !in g
    ensures Split(s, '/')[0] == g <==> Leads(g, s)
  {
    if s == [] {
    } else if s[0] != '/' && g != [] {
      FirstSegment(s[1..], g[1..]);
    }
  }

  /** The slashes of a string are its first byte, if that is one, and those of the rest. */
  lemma {:induction false} BehindShift(s: string, g: string)
    requires s != []
    ensures Behind(g, s) <==> (s[0] == '/' && Leads(g, s[1..])) || Behind(g, s[1..])
  {
    forall i | 0 <= i < |s[1..]|
      ensures s[1..][i] == s[i + 1] && s[1..][i + 1..] == s[i + 2..]
    {}
    if i :| 0 <= i < |s| && s[i] == '/' && Leads(g, s[i + 1..]) {
      if i > 0 {
        assert s[1..][i - 1] == '/' && Leads(g, s[1..][i - 1 + 1..]);
      }
    }
    if i :| 0 <= i < |s[1..]| && s[1..][i] == '/' && Leads(g, s[1..][i + 1..]) {
      assert s[i + 1] == '/' && Leads(g, s[i + 1 + 1..]);
    }
  }

  /** The others are what stands behind its slashes. */
  lemma {:induction false} OtherSegments(s: string, g: string)
    requires '/' !in g
    ensures g in Split(s, '/')[1..] <==> Behind(g, s)
  {
    if s == [] {
    } else {
      hide Behind, Leads;
      var parts := Split(s[1..], '/');
      BehindShift(s, g);
      FirstSegment(s[1..], g);
      OtherSegments(s[1..], g);
      assert Split(s, '/')[1..] == if s[0] == '/' then [parts[0]] + parts[1..] else parts[1..];
    }
  }

  lemma {:induction false} TraversalLeads(s: string, i: nat)
    requires i < |s|
    ensures TraversalAt(s, i) <==> s[i] == '/' && (Leads(".", s[i + 1..]) || Leads("..", s[i + 1..]))
  {}

  lemma {:induction false} TraversalIsBehind(s: string)
    requires s != []
    ensures (exists i :: 1 <= i < |s| && TraversalAt(s, i)) <==> Behind(".", s[1..]) || Behind("..", s[1..])
  {
    hide Leads, TraversalAt;
    var t := s[1..];
    forall i | 0 <= i < |t|
      ensures TraversalAt(s, i + 1) <==> t[i] == '/' && (Leads(".", t[i + 1..]) || Leads("..", t[i + 1..]))
    {
      TraversalLeads(s, i + 1);
      assert t[i + 1..] == s[i + 2..];
    }
    if i :| 1 <= i < |s| && TraversalAt(s, i) {
      assert TraversalAt(s, i - 1 + 1) && t[i - 1] == '/';
    }
    if i :| 0 <= i < |t| && t[i] == '/' && Leads(".", t[i + 1..]) {
      assert TraversalAt(s, i + 1);
    }
    if i :| 0 <= i < |t| && t[i] == '/' && Leads("..", t[i + 1..]) {
      assert TraversalAt(s, i + 1);
    }
  }

  /** `validateDepotPath` accepts exactly the depot paths of that form. */
  lemma {:induction false} IsDepotPathExactly(s: string)
    ensures IsDepotPath(s) <==> PathForm(s)
  {
    hide TraversalAt, Behind;
    assert "//" <= s <==> |s| >= 2 && s[0] == '/' && s[1] == '/';
    if "//" <= s {
      assert s[1..][1..] == s[2..];
      assert Split(s[1..], '/')[1..] == Split(s[2..], '/');
      OtherSegments(s[1..], ".");
      OtherSegments(s[1..], "..");
      TraversalIsBehind(s);
    }
  }

  // ---- segments ---------------------------------------------------------------------------------

  /** The string test is the segment test: the scope's segments begin the path's segments. */
  lemma {:induction false} UnderIsSegmentPrefix(s: string, p: string)
    requires EndsInSlash(p)
    ensures Under(s, p) <==> Split(Root(p), '/') <= Split(s, '/')
  {
    var root := Root(p);
    assert p == root + ['/'];
    if s != root && p <= s {
      assert s == root + ['/'] + s[|p|..];
      SplitConcat(root, s[|p|..], '/');
    }
    if Split(root, '/') <= Split(s, '/') {
      var rest := Split(s, '/')[|Split(root, '/')|..];
      assert Split(s, '/') == Split(root, '/') + rest;
      JoinSplit(s, '/');
      JoinSplit(root, '/');
      if rest == [] {
        assert Split(s, '/') == Split(root, '/');
      } else {
        JoinConcat(Split(root, '/'), rest, '/');
        assert s == p + Join(rest, '/');
      }
    }
  }

  lemma {:induction false} WithinIsSegmentPrefix(s: string, scopes: seq<string>)
    ensures Within(s, scopes) <==>
      exists i :: 0 <= i < |scopes| && EndsInSlash(scopes[i]) && Split(Root(scopes[i]), '/') <= Split(s, '/')
  {
    forall i | 0 <= i < |scopes| && EndsInSlash(scopes[i])
      ensures Under(s, scopes[i]) <==> Split(Root(scopes[i]), '/') <= Split(s, '/')
    {
      UnderIsSegmentPrefix(s, scopes[i]);
    }
  }

  // ---- what a pattern matches ---------------------------------------------------------------------

  /** `*` stands for any bytes without a slash, `...` for any bytes; three dots may also be read as such. */
  predicate Matches(pattern: string, path: string)
    decreases |pattern| + |path|
  {
    if pattern == [] then path == [] else
    || (path != [] && pattern[0] != '*' && path[0] == pattern[0] && Matches(pattern[1..], path[1..]))
    || (pattern[0] == '*' &&
        (Matches(pattern[1..], path) || (path != [] && path[0] != '/' && Matches(pattern, path[1..]))))
    || (DotsAt(pattern, 0) &&
        (Matches(pattern[3..], path) || (path != [] && Matches(pattern, path[1..]))))
  }

  predicate HasWildcard(s: string) { '*' in s || HasDots(s) }

  /** What config.Validate makes of a scope. */
  predicate Normalized(p: string) { "//" <= p && '*' !in p && !HasDots(p) && EndsInSlash(p) }

  predicate AllNormalized(scopes: seq<string>) {
    forall i :: 0 <= i < |scopes| ==> Normalized(scopes[i])
  }

  /** `p` begins the pattern before any wildcard. */
  predicate LiteralAt(pattern: string, p: string) {
    && p <= pattern && '*' !in p
    && forall i :: 0 <= i < |p| ==> !DotsAt(pattern, i)
  }

  lemma {:induction false} LiteralIsMatched(pattern: string, p: string, path: string)
    requires LiteralAt(pattern, p) && Matches(pattern, path)
    ensures p <= path && Matches(pattern[|p|..], path[|p|..])
    decreases |p|
  {
    if p == [] {
    } else {
      assert pattern[0] == p[0] && !DotsAt(pattern, 0) && pattern[0] in p;
      forall i | 0 <= i < |p[1..]|
        ensures !DotsAt(pattern[1..], i)
      {
        assert !DotsAt(pattern, i + 1);
      }
      LiteralIsMatched(pattern[1..], p[1..], path[1..]);
      assert pattern[1..][|p| - 1..] == pattern[|p|..] && path[1..][|p| - 1..] == path[|p|..];
    }
  }

  /**
   `LiteralPrefix` may still hold a `*` when a dot comes first, but it always stops where three dots
   begin; what follows it, if anything does, is a wildcard.
   */
  lemma {:induction false} LiteralPrefixStops(s: string)
    ensures var l := LiteralPrefix(s);
      && l <= s
      && (forall i :: 0 <= i < |l| ==> !DotsAt(s, i))
      && (l == s <==> !HasWildcard(s))
      && (l != s ==> DotsAt(s, |l|) || s[|l|] == '*')
  {
    var l := LiteralPrefix(s);
    if HasDots(s) {
      var i :| 0 <= i < |s| && DotsAt(s, i);
      assert s[i] in "*.";
    }
  }

  lemma {:induction false} DotsAreThree(s: string, i: int)
    ensures DotsAt(s, i) <==> 0 <= i && i + 3 <= |s| && s[i..i + 3] == "..."
  {}

  /** A star that `LiteralPrefix` overlooks: a dot stands before it, and three dots only behind it. */
  predicate Overlooked(s: string, i: int)
    requires 0 <= i < |s|
  {
    s[i] == '*' && '.' in s[..i] && HasDots(s) && forall j :: 0 <= j < i ==> s[j] != '*' && !DotsAt(s, j)
  }

  /**
   It is the text before the first wildcard, as its comment has it, except when the first star is overlooked:
   then it goes on to the three dots.
   */
  lemma {:induction false} LiteralPrefixExactly(s: string)
    ensures var l := LiteralPrefix(s);
      && ('*' in l <==> exists i :: 0 <= i < |s| && Overlooked(s, i))
      && ('*' in l ==> l != s && DotsAt(s, |l|))
  {
    var l := LiteralPrefix(s);
    LiteralPrefixStops(s);
    match IndexAny(s, "*.", 0)
    case None =>
    case Some(first) =>
      if '*' in l {
        var i := IndexAny(s, "*", 0).value;
        assert s[first] == '.' && first < i && s[first] in s[..i];
        assert Overlooked(s, i);
      }
      if i :| 0 <= i < |s| && Overlooked(s, i) {
        var d :| 0 <= d < i && s[d] == '.';
        assert s[first] == '.';
        var j := IndexDots(s, 0).value;
        assert l == s[..j] && j > i && l[i] == '*';
      }
  }

  /** For example the star in //d/a.*... */
  lemma {:induction false} StarIsOverlooked(s: string)
    requires s == "//d/a.*..."
    ensures LiteralPrefix(s) == "//d/a.*"
  {
    hide LiteralPrefix;
    var l := LiteralPrefix(s);
    LiteralPrefixStops(s);
    LiteralPrefixExactly(s);
    assert s[5] in s[..6] && DotsAt(s, 7) && Overlooked(s, 6);
    assert DotsAt(s, |l|) && |l| == 7;
  }

  // ---- soundness ----------------------------------------------------------------------------------

  /** `checkScope` for the depot scope. */
  predicate Accepted(pattern: string, scopes: seq<string>) { Within(LiteralPrefix(pattern), scopes) }

  /** A wildcard, and no scope ends before it: it is glued to the root of a scope, as in //depot/game... */
  predicate Glued(pattern: string, scopes: seq<string>) {
    HasWildcard(pattern) && forall i :: 0 <= i < |scopes| ==> !(scopes[i] <= LiteralPrefix(pattern))
  }

  lemma {:induction false} ScopeBeginsPath(pattern: string, p: string, path: string)
    requires Normalized(p) && p <= LiteralPrefix(pattern) && Matches(pattern, path)
    ensures Under(path, p)
  {
    LiteralPrefixStops(pattern);
    LiteralIsMatched(pattern, p, path);
  }

  lemma {:induction false} LiteralMatchesItself(pattern: string, path: string)
    requires !HasWildcard(pattern) && Matches(pattern, path)
    ensures path == pattern
  {
    LiteralPrefixStops(pattern);
    LiteralIsMatched(pattern, pattern, path);
  }

  /** Every path an accepted pattern matches is in scope, unless its wildcard is glued to a scope's root. */
  lemma {:induction false} AcceptedIsSound(pattern: string, scopes: seq<string>, path: string)
    requires AllNormalized(scopes) && Accepted(pattern, scopes) && !Glued(pattern, scopes)
    requires Matches(pattern, path)
    ensures Within(path, scopes)
  {
    LiteralPrefixStops(pattern);
    if HasWildcard(pattern) {
      var i :| 0 <= i < |scopes| && scopes[i] <= LiteralPrefix(pattern);
      ScopeBeginsPath(pattern, scopes[i], path);
    } else {
      LiteralMatchesItself(pattern, path);
    }
  }

  // ---- the exception --------------------------------------------------------------------------------

  /** Some path the pattern matches: every wildcard stands for nothing. */
  function Instance(pattern: string): string {
    if pattern == [] then []
    else if DotsAt(pattern, 0) then Instance(pattern[3..])
    else if pattern[0] == '*' then Instance(pattern[1..])
    else [pattern[0]] + Instance(pattern[1..])
  }

  lemma {:induction false} InstanceMatches(pattern: string)
    ensures Matches(pattern, Instance(pattern))
  {
    if pattern == [] {
    } else {
      if DotsAt(pattern, 0) {
        InstanceMatches(pattern[3..]);
      } else {
        InstanceMatches(pattern[1..]);
      }
    }
  }

  function Letters(n: nat): string { seq(n, _ => 'a') }

  lemma {:induction false} WildcardTakesLetters(pattern: string, n: nat)
    requires pattern != [] && (DotsAt(pattern, 0) || pattern[0] == '*')
    ensures Matches(pattern, Letters(n) + Instance(pattern))
  {
    if n == 0 {
      InstanceMatches(pattern);
      assert Letters(0) + Instance(pattern) == Instance(pattern);
    } else {
      WildcardTakesLetters(pattern, n - 1);
      assert (Letters(n) + Instance(pattern))[1..] == Letters(n - 1) + Instance(pattern);
    }
  }

  lemma {:induction false} PrefixThenMatches(p: string, pattern: string, path: string)
    requires '*' !in p && Matches(pattern, path)
    ensures Matches(p + pattern, p + path)
    decreases |p|
  {
    if p == [] {
      assert p + pattern == pattern && p + path == path;
    } else {
      PrefixThenMatches(p[1..], pattern, path);
      assert (p + pattern)[1..] == p[1..] + pattern && (p + path)[1..] == p[1..] + path;
    }
  }

  function Longest(scopes: seq<string>): (n: nat)
    ensures forall i :: 0 <= i < |scopes| ==> |scopes[i]| <= n
  {
    if scopes == [] then 0 else
    var n := Longest(scopes[1..]);
    if |scopes[0]| > n then |scopes[0]| else n
  }

  /** A path a glued pattern matches beside the scopes. */
  function Escape(pattern: string, scopes: seq<string>): string {
    var l := LiteralPrefix(pattern);
    LiteralPrefixStops(pattern);
    l + (Letters(Longest(scopes) + 1) + Instance(pattern[|l|..]))
  }

  lemma {:induction false} GluedEscapes(pattern: string, scopes: seq<string>)
    requires AllNormalized(scopes) && Accepted(pattern, scopes) && Glued(pattern, scopes)
    ensures Matches(pattern, Escape(pattern, scopes)) && !Within(Escape(pattern, scopes), scopes)
  {
    hide Matches, Instance, LiteralPrefix, HasWildcard, Letters;
    var l := LiteralPrefix(pattern);
    LiteralPrefixStops(pattern);
    var tail := pattern[|l|..];
    var n := Longest(scopes) + 1;
    WildcardTakesLetters(tail, n);
    PrefixThenMatches(l, tail, Letters(n) + Instance(tail));
    assert pattern == l + tail;
    forall i | 0 <= i < |scopes|
      ensures !Under(Escape(pattern, scopes), scopes[i])
    {
      NotUnder(scopes[i], l, n, Instance(tail));
    }
  }

  /** A scope that ends in a slash and does not end within `l` does not reach past the letters after it. */
  lemma {:induction false} NotUnder(p: string, l: string, n: nat, rest: string)
    requires EndsInSlash(p) && |p| < n && !(p <= l)
    ensures !Under(l + (Letters(n) + rest), p)
  {
    var path := l + (Letters(n) + rest);
    if |p| <= |l| {
      assert path[..|p|] == l[..|p|];
    } else {
      assert path[|p| - 1] == Letters(n)[|p| - 1 - |l|];
    }
  }

  /** The exact condition: an accepted pattern stays in scope if and only if it is not glued. */
  lemma {:induction false} SoundUnlessGlued(pattern: string, scopes: seq<string>)
    requires AllNormalized(scopes) && Accepted(pattern, scopes)
    ensures (forall path :: Matches(pattern, path) ==> Within(path, scopes)) <==> !Glued(pattern, scopes)
  {
    if Glued(pattern, scopes) {
      GluedEscapes(pattern, scopes);
    } else {
      forall path | Matches(pattern, path)
        ensures Within(path, scopes)
      {
        AcceptedIsSound(pattern, scopes, path);
      }
    }
  }

  /** The root of scope `i` with a wildcard right behind it, and no scope that ends within the root. */
  predicate GluedTo(pattern: string, scopes: seq<string>, i: nat)
    requires i < |scopes|
  {
    var root := Root(scopes[i]);
    && EndsInSlash(scopes[i]) && LiteralPrefix(pattern) == root
    && root <= pattern && |root| < |pattern| && (DotsAt(pattern, |root|) || pattern[|root|] == '*')
    && forall j :: 0 <= j < |scopes| ==> !(scopes[j] <= root)
  }

  /** The accepted patterns that are glued are exactly these. */
  lemma {:induction false} GluedIsRoot(pattern: string, scopes: seq<string>)
    ensures Accepted(pattern, scopes) && Glued(pattern, scopes) <==>
      exists i :: 0 <= i < |scopes| && GluedTo(pattern, scopes, i)
  {
    LiteralPrefixStops(pattern);
    if Accepted(pattern, scopes) && Glued(pattern, scopes) {
      var i :| 0 <= i < |scopes| && Under(LiteralPrefix(pattern), scopes[i]);
      assert GluedTo(pattern, scopes, i);
    }
  }

  /**
   What is accepted without being glued: the patterns that begin with a scope before any wildcard, and
   the root of a scope itself.
   */
  lemma {:induction false} AcceptedExactly(pattern: string, scopes: seq<string>)
    requires AllNormalized(scopes)
    ensures Accepted(pattern, scopes) && !Glued(pattern, scopes) <==>
      exists i :: 0 <= i < |scopes| && (LiteralAt(pattern, scopes[i]) || pattern == Root(scopes[i]))
  {
    var l := LiteralPrefix(pattern);
    LiteralPrefixStops(pattern);
    forall i | 0 <= i < |scopes|
      ensures LiteralAt(pattern, scopes[i]) <==> scopes[i] <= l
      ensures pattern == Root(scopes[i]) ==> !HasWildcard(pattern)
    {
      LiteralScope(pattern, scopes[i]);
      RootIsLiteral(scopes[i]);
    }
  }

  lemma {:induction false} LiteralScope(pattern: string, p: string)
    requires Normalized(p)
    ensures LiteralAt(pattern, p) <==> p <= LiteralPrefix(pattern)
  {
    var l := LiteralPrefix(pattern);
    LiteralPrefixStops(pattern);
  }

  lemma {:induction false} RootIsLiteral(p: string)
    requires Normalized(p)
    ensures !HasWildcard(Root(p))
  {
    forall i | 0 <= i < |Root(p)|
      ensures !DotsAt(Root(p), i)
    {
      assert !DotsAt(p, i);
    }
  }

  /** A star matches what holds no slash, and a pattern without a wildcard itself. */
  lemma {:induction false} StarMatches(path: string)
    ensures Matches("*", path) <==> '/' !in path
  {
    if path == [] {
      assert "*"[1..] == [] && Matches("*"[1..], path);
    } else {
      StarMatches(path[1..]);
      assert path == [path[0]] + path[1..];
    }
  }

  lemma {:induction false} LiteralMatches(pattern: string, path: string)
    requires !HasWildcard(pattern)
    ensures Matches(pattern, path) <==> path == pattern
  {
    PrefixThenMatches(pattern, "", "");
    assert pattern + "" == pattern;
    if Matches(pattern, path) {
      LiteralMatchesItself(pattern, path);
    }
  }

  lemma {:induction false} DotsMatchAll(path: string)
    ensures Matches("...", path)
  {
    if path == [] {
      assert "..."[3..] == [];
    } else {
      DotsMatchAll(path[1..]);
    }
  }

  const GAME: string := "//depot/game"

  lemma {:induction false} ExamplePrefix(s: string)
    requires s == GAME + "..."
    ensures LiteralPrefix(s) == GAME && HasWildcard(s)
  {
    assert DotsAt(s, 12) && s[12] == '.';
    assert forall i :: 0 <= i < 12 ==> s[i] == GAME[i] && GAME[i] != '.' && GAME[i] != '*';
  }

  lemma {:induction false} ExampleSegments(s: string)
    requires s == GAME + "..."
    ensures Split(s[2..], '/') == ["depot", "game..."]
  {
    hide Split;
    assert s[2..] == "depot" + ['/'] + "game...";
    SplitConcat("depot", "game...", '/');
    SplitWhole("depot", '/');
    SplitWhole("game...", '/');
  }

  lemma {:induction false} ExampleIsDepotPath(s: string)
    requires s == GAME + "..."
    ensures IsDepotPath(s)
  {
    ExampleSegments(s);
    hide Split;
    assert forall i :: 0 <= i < |s| ==> s[i] !in "@#%";
    assert |"depot"| == 5 && |"game..."| == 7;
  }

  lemma {:induction false} ExampleMatches(s: string)
    requires s == GAME + "..."
    ensures Matches(s, GAME + "secret/x")
  {
    hide Matches;
    DotsMatchAll("secret/x");
    PrefixThenMatches(GAME, "...", "secret/x");
  }

  lemma {:induction false} ExampleScope(p: string)
    requires p == GAME + "/"
    ensures Normalized(p) && Root(p) == GAME && !Under(GAME + "secret/x", p)
  {
    assert p[..12] == GAME && p[12] == '/';
    assert (GAME + "secret/x")[12] == 's';
    assert forall i :: 0 <= i < 13 ==> p[i] != '.' && p[i] != '*';
  }

  /** For example: with the scope //depot/game/ the pattern //depot/game... is accepted and escapes it. */
  lemma {:induction false} GluedExample(pattern: string, scope: string)
    requires pattern == GAME + "..." && scope == GAME + "/"
    ensures AllNormalized([scope]) && IsDepotPath(pattern) && Accepted(pattern, [scope]) && Glued(pattern, [scope])
    ensures Matches(pattern, GAME + "secret/x") && !Within(GAME + "secret/x", [scope])
  {
    hide Matches, IsDepotPath, Normalized, LiteralPrefix, HasWildcard;
    ExamplePrefix(pattern);
    ExampleIsDepotPath(pattern);
    ExampleMatches(pattern);
    ExampleScope(scope);
    assert Under(GAME, [scope][0]);
  }
}
