/**
 The sliding-window duplicate check: `claim` as a function of the map it keeps, histories of claims in
 the order they held the mutex, and what the window guarantees with and without ordered clocks.
 Instants are integers in nanoseconds.
 */
module Dedupe {
  import opened Bytes

  const WINDOW: int := 600_000_000_000
  const MAX_KEYS: nat := 4096

  type Seen = map<string, int>

  datatype Claim = Claim(id: string, now: int)

  datatype Answer = Answer(granted: bool, seen: Seen)

  predicate Stale(t: int, now: int) { now - t > WINDOW }

  /** The entries that survive pruning. */
  function Fresh(seen: Seen, now: int): Seen {
    map id | id in seen && !Stale(seen[id], now) :: seen[id]
  }

  /** Grants `id` unless it was granted within the window, and remembers the grant. */
  function Grant(seen: Seen, c: Claim): Answer {
    if c.id in seen && !Stale(seen[c.id], c.now) then Answer(false, seen) else Answer(true, seen[c.id := c.now])
  }

  /** `claim`: a full map is pruned first. */
  function Claimed(seen: Seen, c: Claim): Answer {
    Grant(if |seen| > MAX_KEYS then Fresh(seen, c.now) else seen, c)
  }

  // ---- histories --------------------------------------------------------------------------------

  /** The answers to a history of claims, in lock order, and the map after them. */
  datatype History = History(grants: seq<bool>, seen: Seen)

  function Answers(cs: seq<Claim>): (h: History)
    ensures |h.grants| == |cs|
  {
    if cs == [] then History([], map[]) else
    var before, a := Answers(cs[..|cs| - 1]), Claimed(Answers(cs[..|cs| - 1]).seen, cs[|cs| - 1]);
    History(before.grants + [a.granted], a.seen)
  }

  /** The same with a map that is never pruned. */
  function Reference(cs: seq<Claim>): (h: History)
    ensures |h.grants| == |cs|
  {
    if cs == [] then History([], map[]) else
    var before, a := Reference(cs[..|cs| - 1]), Grant(Reference(cs[..|cs| - 1]).seen, cs[|cs| - 1]);
    History(before.grants + [a.granted], a.seen)
  }

  /** Clock readings follow the order of the mutex. */
  ghost predicate Ordered(cs: seq<Claim>) {
    forall i, j :: 0 <= i < j < |cs| ==> cs[i].now <= cs[j].now
  }

  /** The kept map is the full one without some stale entries. */
  ghost predicate Trimmed(seen: Seen, full: Seen, now: int) {
    && (forall id :: id in seen ==> id in full && seen[id] == full[id])
    && (forall id :: id in full && id !in seen ==> Stale(full[id], now))
  }

  lemma {:induction false} TrimmedClaim(seen: Seen, full: Seen, before: int, c: Claim)
    requires Trimmed(seen, full, before) && before <= c.now
    ensures Claimed(seen, c).granted == Grant(full, c).granted
    ensures Trimmed(Claimed(seen, c).seen, Grant(full, c).seen, c.now)
  {}

  /** With ordered clocks pruning is invisible: every history gets the answers of the full map. */
  lemma {:induction false} PruningIsInvisible(cs: seq<Claim>)
    requires Ordered(cs)
    ensures Answers(cs).grants == Reference(cs).grants
    ensures cs != [] ==> Trimmed(Answers(cs).seen, Reference(cs).seen, cs[|cs| - 1].now)
  {
    if cs == [] {
    } else {
      var n := |cs| - 1;
      PruningIsInvisible(cs[..n]);
      TrimmedClaim(Answers(cs[..n]).seen, Reference(cs[..n]).seen, if n == 0 then cs[n].now else cs[n - 1].now, cs[n]);
    }
  }

  /** After claim `i` and before claim `n`, some claim read a clock more than the window past it. */
  ghost predicate Passed(cs: seq<Claim>, i: nat, n: nat)
    requires i < n <= |cs|
  {
    exists k :: i < k < n && Stale(cs[i].now, cs[k].now)
  }

  /** Every grant is still in the map unless such a claim came; every entry is some grant's. */
  ghost predicate Remembered(cs: seq<Claim>, h: History)
    requires |h.grants| == |cs|
  {
    && (forall i :: 0 <= i < |cs| && h.grants[i] ==>
         Passed(cs, i, |cs|) || (cs[i].id in h.seen && h.seen[cs[i].id] == cs[i].now))
    && (forall id :: id in h.seen ==> Granted(cs, h.grants, Claim(id, h.seen[id])))
  }

  ghost predicate Granted(cs: seq<Claim>, grants: seq<bool>, c: Claim)
    requires |grants| == |cs|
  {
    exists i :: 0 <= i < |cs| && grants[i] && cs[i] == c
  }

  lemma {:induction false} RememberedStep(cs: seq<Claim>, before: History, c: Claim)
    requires |before.grants| == |cs| && Remembered(cs, before)
    ensures var a := Claimed(before.seen, c);
      Remembered(cs + [c], History(before.grants + [a.granted], a.seen))
  {
    var a := Claimed(before.seen, c);
    var cs', h := cs + [c], History(before.grants + [a.granted], a.seen);
    forall i | 0 <= i < |cs'| && h.grants[i]
      ensures Passed(cs', i, |cs'|) || (cs'[i].id in h.seen && h.seen[cs'[i].id] == cs'[i].now)
    {
      if i < |cs| && Passed(cs, i, |cs|) {
        var k :| i < k < |cs| && Stale(cs[i].now, cs[k].now);
        assert Stale(cs'[i].now, cs'[k].now);
      } else if i < |cs| && Stale(cs[i].now, c.now) {
        assert Stale(cs'[i].now, cs'[|cs|].now);
      }
    }
    forall id | id in h.seen
      ensures Granted(cs', h.grants, Claim(id, h.seen[id]))
    {
      if id == c.id && a.granted {
        assert cs'[|cs|] == Claim(id, h.seen[id]);
      } else {
        assert Granted(cs, before.grants, Claim(id, before.seen[id]));
        var i :| 0 <= i < |cs| && before.grants[i] && cs[i] == Claim(id, before.seen[id]);
        assert h.grants[i] && cs'[i] == Claim(id, h.seen[id]);
      }
    }
  }

  lemma {:induction false} Remembers(cs: seq<Claim>)
    ensures Remembered(cs, Answers(cs))
  {
    if cs == [] {
    } else {
      var n := |cs| - 1;
      Remembers(cs[..n]);
      RememberedStep(cs[..n], Answers(cs[..n]), cs[n]);
      assert cs[..n] + [cs[n]] == cs;
    }
  }

  lemma {:induction false} GrantsArePrefix(cs: seq<Claim>, n: nat)
    requires n <= |cs|
    ensures Answers(cs[..n]).grants == Answers(cs).grants[..n]
  {
    if n < |cs| {
      var m := |cs| - 1;
      GrantsArePrefix(cs[..m], n);
      assert cs[..m][..n] == cs[..n];
    } else {
      assert cs[..n] == cs;
    }
  }

  /** The map as claim `j` finds it. */
  lemma {:induction false} AtClaim(cs: seq<Claim>, j: nat) returns (h: History)
    requires j < |cs|
    ensures h == Answers(cs[..j]) && h.grants == Answers(cs).grants[..j] && Remembered(cs[..j], h)
    ensures Answers(cs).grants[j] == Claimed(h.seen, cs[j]).granted
  {
    h := Answers(cs[..j]);
    GrantsArePrefix(cs, j);
    Remembers(cs[..j]);
    assert cs[..j + 1][..j] == cs[..j];
    assert Answers(cs[..j + 1]).grants[j] == Claimed(h.seen, cs[j]).granted;
    GrantsArePrefix(cs, j + 1);
  }

  /**
   Whatever the clocks read: between two grants of one id some claim, the second one included, read a
   clock more than the window past the first.
   */
  lemma {:induction false} GrantsAreApart(cs: seq<Claim>, i: nat, j: nat)
    requires i < j < |cs| && cs[i].id == cs[j].id && Answers(cs).grants[i] && Answers(cs).grants[j]
    ensures Passed(cs, i, j + 1)
  {
    var h := AtClaim(cs, j);
    assert h.grants[i] && cs[..j][i] == cs[i];
    if Passed(cs[..j], i, j) {
      var k :| i < k < j && Stale(cs[..j][i].now, cs[..j][k].now);
      assert Stale(cs[i].now, cs[k].now);
    } else {
      assert Stale(cs[i].now, cs[j].now);
    }
  }

  /** With ordered clocks, the two grants themselves are more than ten minutes apart. */
  lemma {:induction false} OrderedGrantsAreApart(cs: seq<Claim>, i: nat, j: nat)
    requires Ordered(cs) && i < j < |cs| && cs[i].id == cs[j].id
    requires Answers(cs).grants[i] && Answers(cs).grants[j]
    ensures cs[j].now - cs[i].now > 10 * 60 * 1_000_000_000
  {
    GrantsAreApart(cs, i, j);
  }

  lemma {:induction false} DeniedHasGrant(cs: seq<Claim>, h: History, c: Claim) returns (i: nat)
    requires |h.grants| == |cs| && Remembered(cs, h) && !Claimed(h.seen, c).granted
    ensures i < |cs| && h.grants[i] && cs[i].id == c.id && !Stale(cs[i].now, c.now)
  {
    assert Granted(cs, h.grants, Claim(c.id, h.seen[c.id]));
    i :| 0 <= i < |cs| && h.grants[i] && cs[i] == Claim(c.id, h.seen[c.id]);
  }

  /** No claim is denied without cause: its id was granted before, at most ten minutes ago by its clock. */
  lemma {:induction false} DeniedIsReplay(cs: seq<Claim>, j: nat) returns (i: nat)
    requires j < |cs| && !Answers(cs).grants[j]
    ensures i < j && Answers(cs).grants[i] && cs[i].id == cs[j].id
    ensures cs[j].now - cs[i].now <= 10 * 60 * 1_000_000_000
  {
    var h := AtClaim(cs, j);
    i := DeniedHasGrant(cs[..j], h, cs[j]);
  }

  // ---- the size of the map -----------------------------------------------------------------------

  /** The ids granted within the window before the last claim. */
  function RecentIds(cs: seq<Claim>): set<string>
    requires cs != []
  {
    set i | 0 <= i < |cs| && Answers(cs).grants[i] && !Stale(cs[i].now, cs[|cs| - 1].now) :: cs[i].id
  }

  lemma {:induction false} PrunedIsFresh(seen: Seen, c: Claim)
    requires |seen| > MAX_KEYS
    ensures var after := Claimed(seen, c).seen; forall id :: id in after ==> !Stale(after[id], c.now)
  {}

  lemma {:induction false} OneMoreKey(seen: Seen, c: Claim)
    requires |seen| <= MAX_KEYS
    ensures |Claimed(seen, c).seen| <= |seen| + 1
  {
    assert Claimed(seen, c).seen.Keys <= seen.Keys + {c.id};
    SubsetIsSmaller(Claimed(seen, c).seen.Keys, seen.Keys + {c.id});
  }

  /** The map outgrows its limit only by ids that were granted within the window. */
  lemma {:induction false} SeenIsBounded(cs: seq<Claim>)
    requires cs != []
    ensures |Answers(cs).seen| <= 4097 || |Answers(cs).seen| <= |RecentIds(cs)|
  {
    var n := |cs| - 1;
    var before, h := Answers(cs[..n]), Answers(cs);
    if |before.seen| > MAX_KEYS {
      PrunedIsFresh(before.seen, cs[n]);
      Remembers(cs);
      forall id | id in h.seen
        ensures id in RecentIds(cs)
      {
        assert Granted(cs, h.grants, Claim(id, h.seen[id]));
        var i :| 0 <= i < |cs| && h.grants[i] && cs[i] == Claim(id, h.seen[id]);
      }
      SubsetIsSmaller(h.seen.Keys, RecentIds(cs));
    } else {
      OneMoreKey(before.seen, cs[n]);
    }
  }
}
