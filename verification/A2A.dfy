/** The A2A verifier: freshness and replay checks in the order it runs them, and why one
    header is admitted at most once.

    Freshness is judged before the guard is consulted. The window in which a header is fresh
    is shorter than `maxAge + 7` seconds and the guard remembers for at least `maxAge + 60`;
    the difference is how late the guard may be consulted. */
module A2A {
  import opened Wrappers
  import opened Transcript
  import opened Pop
  import opened ReplayGuards

  function GuardTtlSecs(maxAgeSecs: i64): int {
    if maxAgeSecs + 60 >= 120 then maxAgeSecs + 60 else 120
  }

  /** The guard's clock, in whole milliseconds. */
  function Millis(t: Instant): int {
    t / 1_000_000
  }

  /** One presentation of a header: what the other checks said, when freshness was judged,
      when the guard was consulted, and whether the credential is revoked. */
  datatype Attempt = Attempt(header: Str, otherChecks: bool, verifyAt: Instant, guardAt: Instant, revoked: bool)

  datatype Verdict = Allowed | NotVerified | Replayed | WasRevoked

  /** When the challenge in a header was issued. */
  type Issued = Str -> Instant

  predicate Verified(issued: Issued, maxAgeSecs: i64, a: Attempt) {
    a.otherChecks && Fresh(issued(a.header), a.verifyAt, maxAgeSecs)
  }

  class A2AVerifier {
    const issued: Issued
    const maxAgeSecs: i64
    const guard: InMemoryReplayGuard

    constructor (whenIssued: Issued, maxAge: i64)
      ensures issued == whenIssued && maxAgeSecs == maxAge && fresh(guard)
      ensures guard.ttl == GuardTtlSecs(maxAge) * 1000 && guard.seen == map[]
    {
      issued, maxAgeSecs := whenIssued, maxAge;
      guard := new InMemoryReplayGuard(GuardTtlSecs(maxAge));
    }

    /** A revoked credential has used up its header too. */
    method Authorize(a: Attempt) returns (v: Verdict)
      requires guard.ttl == GuardTtlSecs(maxAgeSecs) * 1000
      modifies guard
      ensures v == Judge(issued, maxAgeSecs, old(guard.seen), a)
      ensures guard.seen == MemoryAfter(issued, maxAgeSecs, old(guard.seen), a)
    {
      if !Verified(issued, maxAgeSecs, a) {
        return NotVerified;
      }
      var isNew := guard.RecordIfNew(a.header, Millis(a.guardAt));
      if !isNew {
        return Replayed;
      }
      v := if a.revoked then WasRevoked else Allowed;
    }
  }

  function MemoryAfter(issued: Issued, maxAgeSecs: i64, seen: Seen, a: Attempt): Seen {
    if Verified(issued, maxAgeSecs, a)
    then Remember(Swept(seen, Millis(a.guardAt)), a.header, Millis(a.guardAt), GuardTtlSecs(maxAgeSecs) * 1000)
    else seen
  }

  function Judge(issued: Issued, maxAgeSecs: i64, seen: Seen, a: Attempt): Verdict {
    if !Verified(issued, maxAgeSecs, a) then NotVerified
    else if Remembered(Swept(seen, Millis(a.guardAt)), a.header, Millis(a.guardAt)) then Replayed
    else if a.revoked then WasRevoked
    else Allowed
  }

  // -- Runs -----------------------------------------------------------------------------

  function Memory(issued: Issued, maxAgeSecs: i64, run: seq<Attempt>): Seen {
    if run == [] then map[]
    else MemoryAfter(issued, maxAgeSecs, Memory(issued, maxAgeSecs, run[..|run| - 1]), run[|run| - 1])
  }

  /** The verdict on attempt `i` of a run. */
  function VerdictOn(issued: Issued, maxAgeSecs: i64, run: seq<Attempt>, i: nat): Verdict
    requires i < |run|
  {
    Judge(issued, maxAgeSecs, Memory(issued, maxAgeSecs, run[..i]), run[i])
  }

  /** The calls of the guard that a run makes. */
  function CallsOf(issued: Issued, maxAgeSecs: i64, run: seq<Attempt>): seq<Call> {
    if run == [] then []
    else
      var last := run[|run| - 1];
      CallsOf(issued, maxAgeSecs, run[..|run| - 1])
      + (if Verified(issued, maxAgeSecs, last) then [Call(last.header, Millis(last.guardAt))] else [])
  }

  /** The clocks do not go back, and the guard is consulted within `delay` of the freshness
      check of its attempt. */
  ghost predicate Timed(run: seq<Attempt>, delay: int) {
    && (forall i, j | 0 <= i < j < |run| :: run[i].guardAt <= run[j].guardAt)
    && (forall i | 0 <= i < |run| :: run[i].verifyAt <= run[i].guardAt <= run[i].verifyAt + delay)
  }

  lemma {:induction false} MemoryIsGuard(issued: Issued, maxAgeSecs: i64, run: seq<Attempt>)
    ensures Memory(issued, maxAgeSecs, run)
         == Guard(CallsOf(issued, maxAgeSecs, run), GuardTtlSecs(maxAgeSecs) * 1000, true)
  {
    if run != [] {
      MemoryIsGuard(issued, maxAgeSecs, run[..|run| - 1]);
      var calls, last := CallsOf(issued, maxAgeSecs, run[..|run| - 1]), run[|run| - 1];
      if Verified(issued, maxAgeSecs, last) {
        assert (calls + [Call(last.header, Millis(last.guardAt))])[..|calls|] == calls;
      } else {
        assert calls + [] == calls;
      }
    }
  }

  lemma {:induction false} CallsPrefix(issued: Issued, maxAgeSecs: i64, run: seq<Attempt>, i: nat)
    requires i <= |run|
    ensures CallsOf(issued, maxAgeSecs, run[..i]) <= CallsOf(issued, maxAgeSecs, run)
    decreases |run|
  {
    if i < |run| {
      CallsPrefix(issued, maxAgeSecs, run[..|run| - 1], i);
      assert run[..|run| - 1][..i] == run[..i];
    } else {
      assert run[..i] == run;
    }
  }

  lemma {:induction false} CallsAreTimed(issued: Issued, maxAgeSecs: i64, run: seq<Attempt>, delay: int)
    requires Timed(run, delay)
    ensures NonDecreasing(CallsOf(issued, maxAgeSecs, run))
    ensures forall c | c in CallsOf(issued, maxAgeSecs, run) :: run != [] && c.at <= Millis(run[|run| - 1].guardAt)
  {
    if run != [] {
      CallsAreTimed(issued, maxAgeSecs, run[..|run| - 1], delay);
    }
  }

  /** The call an admitted attempt makes is one the guard finds new. */
  lemma AdmittedIsNew(issued: Issued, maxAgeSecs: i64, run: seq<Attempt>, i: nat) returns (at: nat)
    requires i < |run|
    requires VerdictOn(issued, maxAgeSecs, run, i).Allowed? || VerdictOn(issued, maxAgeSecs, run, i).WasRevoked?
    ensures var calls := CallsOf(issued, maxAgeSecs, run);
      at == |CallsOf(issued, maxAgeSecs, run[..i])| < |calls| && at + 1 == |CallsOf(issued, maxAgeSecs, run[..i + 1])|
      && calls[at] == Call(run[i].header, Millis(run[i].guardAt))
      && IsNew(calls, GuardTtlSecs(maxAgeSecs) * 1000, true, at)
  {
    var calls, before := CallsOf(issued, maxAgeSecs, run), CallsOf(issued, maxAgeSecs, run[..i]);
    at := |before|;
    assert run[..i + 1][..i] == run[..i];
    CallsPrefix(issued, maxAgeSecs, run, i + 1);
    CallsPrefix(issued, maxAgeSecs, run, i);
    assert calls[..at] == before;
    MemoryIsGuard(issued, maxAgeSecs, run[..i]);
  }

  /** How late the guard may be consulted after the freshness check, in nanoseconds: what the
      guard's lifetime leaves of the `maxAge + 7` seconds, up to its milliseconds. */
  function Promptness(maxAgeSecs: i64): int {
    GuardTtlSecs(maxAgeSecs) * 1_000_000_000 - (maxAgeSecs + 7) * 1_000_000_000 - 999_998
  }

  /** From a minute on, just under 53 seconds. */
  lemma PromptnessIs(maxAgeSecs: i64)
    ensures Promptness(maxAgeSecs)
         == if maxAgeSecs >= 60 then 52_999_000_002 else 112_999_000_002 - maxAgeSecs * 1_000_000_000
  {
  }

  lemma WindowIsShorter(issuedAt: Instant, maxAgeSecs: i64, first: Attempt, second: Attempt, delay: int)
    requires Fresh(issuedAt, first.verifyAt, maxAgeSecs) && Fresh(issuedAt, second.verifyAt, maxAgeSecs)
    requires first.verifyAt <= first.guardAt && second.guardAt <= second.verifyAt + delay
    requires delay <= Promptness(maxAgeSecs)
    ensures Millis(second.guardAt) < Millis(first.guardAt) + GuardTtlSecs(maxAgeSecs) * 1000
  {
  }

  lemma {:induction false} OnlyVerifiedAreRemembered(issued: Issued, maxAgeSecs: i64, run: seq<Attempt>, header: Str)
    requires header in Memory(issued, maxAgeSecs, run)
    ensures exists a | a in run :: a.header == header && Verified(issued, maxAgeSecs, a)
  {
    var init, last := run[..|run| - 1], run[|run| - 1];
    assert last in run;
    if header in Memory(issued, maxAgeSecs, init) {
      OnlyVerifiedAreRemembered(issued, maxAgeSecs, init, header);
    }
  }

  /** The guard refuses no one else: the first attempt of a header to verify is never a
      replay, whatever unverified attempts came before it. */
  lemma FirstVerifiedIsAdmitted(issued: Issued, maxAgeSecs: i64, run: seq<Attempt>, i: nat)
    requires i < |run| && Verified(issued, maxAgeSecs, run[i])
    requires forall j | 0 <= j < i && run[j].header == run[i].header :: !Verified(issued, maxAgeSecs, run[j])
    ensures VerdictOn(issued, maxAgeSecs, run, i) == if run[i].revoked then WasRevoked else Allowed
  {
    if run[i].header in Memory(issued, maxAgeSecs, run[..i]) {
      OnlyVerifiedAreRemembered(issued, maxAgeSecs, run[..i], run[i].header);
    }
  }

  /** What is admitted passed every other check, within the window, and a revoked credential is
      never allowed. */
  lemma AdmittedWasVerified(issued: Issued, maxAgeSecs: i64, run: seq<Attempt>, i: nat)
    requires i < |run| && maxAgeSecs >= 0
    requires VerdictOn(issued, maxAgeSecs, run, i).Allowed? || VerdictOn(issued, maxAgeSecs, run, i).WasRevoked?
    ensures var a := run[i];
      && a.otherChecks && (VerdictOn(issued, maxAgeSecs, run, i).WasRevoked? <==> a.revoked)
      && issued(a.header) - 6_000_000_000 < a.verifyAt < issued(a.header) + (maxAgeSecs + 1) * 1_000_000_000
  {
    FreshExact(issued(run[i].header), run[i].verifyAt, maxAgeSecs);
  }

  /** In any run under clocks that do not go back, one header is admitted at most once, if the
      guard is always consulted promptly. */
  lemma AdmittedAtMostOnce(issued: Issued, maxAgeSecs: i64, run: seq<Attempt>, delay: int, i: nat, j: nat)
    requires Timed(run, delay) && delay <= Promptness(maxAgeSecs)
    requires i < j < |run| && run[i].header == run[j].header
    requires VerdictOn(issued, maxAgeSecs, run, i).Allowed? || VerdictOn(issued, maxAgeSecs, run, i).WasRevoked?
    ensures !VerdictOn(issued, maxAgeSecs, run, j).Allowed? && !VerdictOn(issued, maxAgeSecs, run, j).WasRevoked?
  {
    if VerdictOn(issued, maxAgeSecs, run, j).Allowed? || VerdictOn(issued, maxAgeSecs, run, j).WasRevoked? {
      var x := AdmittedIsNew(issued, maxAgeSecs, run, i);
      var y := AdmittedIsNew(issued, maxAgeSecs, run, j);
      CallsPrefix(issued, maxAgeSecs, run[..j], i + 1);
      assert run[..j][..i + 1] == run[..i + 1];
      CallsAreTimed(issued, maxAgeSecs, run, delay);
      NewAtMostOncePerLifetime(CallsOf(issued, maxAgeSecs, run), GuardTtlSecs(maxAgeSecs) * 1000, x, y);
      WindowIsShorter(issued(run[i].header), maxAgeSecs, run[i], run[j], delay);
    }
  }

  /** Attempts of one header a lifetime apart are both allowed. */
  lemma AllowedTwice(issued: Issued, maxAgeSecs: i64, first: Attempt, second: Attempt)
    requires Verified(issued, maxAgeSecs, first) && Verified(issued, maxAgeSecs, second)
    requires first.header == second.header && !first.revoked && !second.revoked
    requires Millis(first.guardAt) + GuardTtlSecs(maxAgeSecs) * 1000 <= Millis(second.guardAt)
    ensures VerdictOn(issued, maxAgeSecs, [first, second], 0).Allowed?
    ensures VerdictOn(issued, maxAgeSecs, [first, second], 1).Allowed?
  {
    var run := [first, second];
    assert run[..0] == [] && run[..1] == [first] && [first][..0] == [];
    assert Memory(issued, maxAgeSecs, [first])
        == map[first.header := Millis(first.guardAt) + GuardTtlSecs(maxAgeSecs) * 1000];
  }

  /** Eight million million seconds, some 253 500 years, around the epoch: every instant of it
      is one that both runtimes' calendars hold. */
  predicate InCalendar(t: Instant) {
    -8_000_000_000_000_000_000_000 <= t <= 8_000_000_000_000_000_000_000
  }

  /** From the first instant of freshness to just beyond promptness from the last the guard's
      lifetime is over, if the first is the last nanosecond of its millisecond. */
  lemma LifetimeIsOver(start: Instant, maxAgeSecs: i64, last: Instant)
    requires start % 1_000_000 == 999_999
    requires last == start + 5_999_999_999 + (maxAgeSecs + 1) * 1_000_000_000 - 1 + Promptness(maxAgeSecs) + 1
    ensures last == start + GuardTtlSecs(maxAgeSecs) * 1_000_000_000 - 999_999
    ensures Millis(last) == Millis(start) + GuardTtlSecs(maxAgeSecs) * 1000
  {
  }

  /** And promptness is exactly what it takes: for every maximum age whose lifetime in the guard
      the calendar holds, one nanosecond later a header can be allowed twice, from every start
      that is the last nanosecond of a millisecond. */
  lemma LaterIsTooLate(start: Instant, maxAgeSecs: i64, header: Str)
    requires maxAgeSecs >= 0 && start % 1_000_000 == 999_999
    requires InCalendar(start) && start + GuardTtlSecs(maxAgeSecs) * 1_000_000_000 <= 8_000_000_000_000_000_000_000
    ensures var issuedAt: Instant := start + 5_999_999_999;
      var late: Instant := issuedAt + (maxAgeSecs + 1) * 1_000_000_000 - 1;
      var last: Instant := late + Promptness(maxAgeSecs) + 1;
      var first := Attempt(header, true, start, start, false);
      var second := Attempt(header, true, late, last, false);
      && InCalendar(issuedAt) && InCalendar(late) && InCalendar(last)
      && Timed([first, second], Promptness(maxAgeSecs) + 1)
      && VerdictOn((h: Str) => issuedAt, maxAgeSecs, [first, second], 0).Allowed?
      && VerdictOn((h: Str) => issuedAt, maxAgeSecs, [first, second], 1).Allowed?
  {
    var issuedAt: Instant := start + 5_999_999_999;
    var late: Instant := issuedAt + (maxAgeSecs + 1) * 1_000_000_000 - 1;
    var last: Instant := late + Promptness(maxAgeSecs) + 1;
    FreshExact(issuedAt, start, maxAgeSecs);
    FreshExact(issuedAt, late, maxAgeSecs);
    LifetimeIsOver(start, maxAgeSecs, last);
    AllowedTwice((h: Str) => issuedAt, maxAgeSecs, Attempt(header, true, start, start, false),
                 Attempt(header, true, late, last, false));
  }
}
