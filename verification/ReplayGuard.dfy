/** The replay guard of the A2A verifier, and at-most-once admission over every run.

    The guard reads a clock in milliseconds, freshness one in nanoseconds; a header is its own
    key, its hash being ideal. */
module ReplayGuards {
  import opened Transcript

  const PRUNE_ABOVE := 4096

  /** What the guard remembers: when each key expires. */
  type Seen = map<Str, int>

  function Prune(seen: Seen, now: int): Seen {
    map k | k in seen && seen[k] > now :: seen[k]
  }

  function Swept(seen: Seen, now: int): Seen {
    if |seen| > PRUNE_ABOVE then Prune(seen, now) else seen
  }

  /** Whether the guard would call the key a replay. */
  predicate Remembered(seen: Seen, key: Str, now: int) {
    key in seen && seen[key] > now
  }

  function Remember(seen: Seen, key: Str, now: int, ttl: int): Seen {
    if Remembered(seen, key, now) then seen else seen[key := now + ttl]
  }

  class InMemoryReplayGuard {
    const ttl: int
    var seen: Seen

    constructor (ttlSecs: int)
      ensures ttl == ttlSecs * 1000 && seen == map[]
    {
      ttl := ttlSecs * 1000;
      seen := map[];
    }

    method RecordIfNew(key: Str, now: int) returns (isNew: bool)
      modifies this
      ensures isNew <==> !Remembered(Swept(old(seen), now), key, now)
      ensures seen == Remember(Swept(old(seen), now), key, now, ttl)
    {
      if |seen| > PRUNE_ABOVE {
        var before, todo := seen, seen.Keys;
        while todo != {}
          invariant todo <= before.Keys
          invariant seen == map k | k in before && (k in todo || before[k] > now) :: before[k]
          decreases |todo|
        {
          var k :| k in todo;
          todo := todo - {k};
          if before[k] <= now {
            seen := seen - {k};
          }
        }
      }
      if key in seen && seen[key] > now {
        return false;
      }
      seen := seen[key := now + ttl];
      isNew := true;
    }
  }

  // -- Pruning never shows ------------------------------------------------------------

  /** A call of the guard: a key and the time. */
  datatype Call = Call(key: Str, at: int)

  predicate NonDecreasing(calls: seq<Call>) {
    forall i, j | 0 <= i < j < |calls| :: calls[i].at <= calls[j].at
  }

  /** The guard after `calls`, which prunes when it is large, or never. */
  function Guard(calls: seq<Call>, ttl: int, prunes: bool): Seen {
    if calls == [] then map[]
    else
      var c := calls[|calls| - 1];
      var before := Guard(calls[..|calls| - 1], ttl, prunes);
      Remember(if prunes then Swept(before, c.at) else before, c.key, c.at, ttl)
  }

  /** Whether it answers that call `i` is new. */
  predicate IsNew(calls: seq<Call>, ttl: int, prunes: bool, i: nat)
    requires i < |calls|
  {
    var before := Guard(calls[..i], ttl, prunes);
    !Remembered(if prunes then Swept(before, calls[i].at) else before, calls[i].key, calls[i].at)
  }

  /** The pruned memory agrees with the full one on everything that is still live. */
  ghost predicate AgreeFrom(pruned: Seen, full: Seen, now: int) {
    && (forall k | k in pruned :: k in full && full[k] == pruned[k])
    && (forall k | k in full && full[k] > now :: k in pruned)
  }

  lemma {:induction false} PruningKeepsTheLive(calls: seq<Call>, ttl: int, now: int)
    requires NonDecreasing(calls) && (forall i | 0 <= i < |calls| :: calls[i].at <= now)
    ensures AgreeFrom(Guard(calls, ttl, true), Guard(calls, ttl, false), now)
  {
    if calls != [] {
      var init, c := calls[..|calls| - 1], calls[|calls| - 1];
      PruningKeepsTheLive(init, ttl, c.at);
      StepAgrees(Guard(init, ttl, true), Guard(init, ttl, false), c, ttl);
    }
  }

  lemma StepAgrees(pruned: Seen, full: Seen, c: Call, ttl: int)
    requires AgreeFrom(pruned, full, c.at)
    ensures Remembered(Swept(pruned, c.at), c.key, c.at) == Remembered(full, c.key, c.at)
    ensures AgreeFrom(Remember(Swept(pruned, c.at), c.key, c.at, ttl), Remember(full, c.key, c.at, ttl), c.at)
  {
  }

  /** Under a clock that does not go back, pruning never changes an answer. */
  lemma PruningNeverShows(calls: seq<Call>, ttl: int, i: nat)
    requires NonDecreasing(calls) && i < |calls|
    ensures IsNew(calls, ttl, true, i) == IsNew(calls, ttl, false, i)
  {
    PruningKeepsTheLive(calls[..i], ttl, calls[i].at);
    StepAgrees(Guard(calls[..i], ttl, true), Guard(calls[..i], ttl, false), calls[i], ttl);
  }

  // -- A key is new once per lifetime ----------------------------------------------------

  lemma {:induction false} NewIsRemembered(calls: seq<Call>, ttl: int, i: nat)
    requires NonDecreasing(calls) && i < |calls| && ttl > 0
    requires IsNew(calls, ttl, false, i)
    ensures var seen := Guard(calls, ttl, false);
      calls[i].key in seen && seen[calls[i].key] >= calls[i].at + ttl
  {
    var init := calls[..|calls| - 1];
    if i < |init| {
      assert init[..i] == calls[..i];
      NewIsRemembered(init, ttl, i);
    }
  }

  lemma {:induction false} OnlyCalledAreRemembered(calls: seq<Call>, ttl: int, prunes: bool, key: Str)
    requires key in Guard(calls, ttl, prunes)
    ensures exists c | c in calls :: c.key == key
  {
    var init, c := calls[..|calls| - 1], calls[|calls| - 1];
    assert c in calls;
    if c.key != key {
      OnlyCalledAreRemembered(init, ttl, prunes, key);
    }
  }

  /** A key never called before is new. */
  lemma FirstCallIsNew(calls: seq<Call>, ttl: int, i: nat)
    requires i < |calls| && forall j | 0 <= j < i :: calls[j].key != calls[i].key
    ensures IsNew(calls, ttl, true, i)
  {
    if calls[i].key in Guard(calls[..i], ttl, true) {
      OnlyCalledAreRemembered(calls[..i], ttl, true, calls[i].key);
    }
  }

  /** A key that was new is not new again before its lifetime has passed. */
  lemma NewAtMostOncePerLifetime(calls: seq<Call>, ttl: int, i: nat, j: nat)
    requires NonDecreasing(calls) && i < j < |calls| && ttl > 0 && calls[i].key == calls[j].key
    requires IsNew(calls, ttl, true, i) && IsNew(calls, ttl, true, j)
    ensures calls[j].at >= calls[i].at + ttl
  {
    PruningNeverShows(calls, ttl, i);
    PruningNeverShows(calls, ttl, j);
    var init := calls[..j];
    assert init[..i] == calls[..i];
    NewIsRemembered(init, ttl, i);
  }

  lemma {:induction false} RememberedWasNew(calls: seq<Call>, ttl: int, key: Str) returns (j: nat)
    requires key in Guard(calls, ttl, false)
    ensures j < |calls| && calls[j].key == key && IsNew(calls, ttl, false, j)
    ensures Guard(calls, ttl, false)[key] == calls[j].at + ttl
    decreases |calls|
  {
    var init, c := calls[..|calls| - 1], calls[|calls| - 1];
    var before := Guard(init, ttl, false);
    if c.key == key && !Remembered(before, key, c.at) {
      j := |init|;
    } else {
      j := RememberedWasNew(init, ttl, key);
      assert init[..j] == calls[..j];
    }
  }

  /** Under a clock that does not go back a key is new exactly when no call that found it new is
      younger than the lifetime: being called in between does not prolong it. */
  lemma NewExactly(calls: seq<Call>, ttl: int, i: nat)
    requires NonDecreasing(calls) && i < |calls| && ttl > 0
    ensures IsNew(calls, ttl, true, i)
       <==> forall j | 0 <= j < i && calls[j].key == calls[i].key && IsNew(calls, ttl, true, j) ::
              calls[j].at + ttl <= calls[i].at
  {
    forall j | 0 <= j < i && calls[j].key == calls[i].key && IsNew(calls, ttl, true, j) && IsNew(calls, ttl, true, i)
      ensures calls[j].at + ttl <= calls[i].at
    {
      NewAtMostOncePerLifetime(calls, ttl, j, i);
    }
    PruningNeverShows(calls, ttl, i);
    if !IsNew(calls, ttl, false, i) {
      var j := RememberedWasNew(calls[..i], ttl, calls[i].key);
      assert calls[..i][..j] == calls[..j];
      PruningNeverShows(calls, ttl, j);
    }
  }
}
