/**
  The time budget of curlPerform.  After every wait the loop either renews the budget, because sockets had events, or
  charges it with the time since the last charge.  Times are nanoseconds of the monotonic clock, budgets milliseconds.
*/
module Timeout {
  import opened Options

  const MS := 1_000_000
  const SECOND := 1_000_000_000

  /**
    What the loop subtracts, from the seconds and nanoseconds of the two readings; C division truncates, here of a
    positive number.
  */
  function Charge(from: nat, now: nat): int
  {
    var seconds := (now / SECOND - from / SECOND) * 1000;
    var diff := now % SECOND - from % SECOND;
    if diff < 0 then seconds - 1000 + (diff + SECOND) / MS else seconds
  }

  lemma Split(t: nat)
    ensures t == t / SECOND * SECOND + t % SECOND
  {
  }

  /**
    The charge never exceeds the time that passed, and it falls short by exactly the milliseconds by which the
    nanoseconds grew: never by a whole second, and not at all exactly when they grew by less than a millisecond.
  */
  lemma {:induction false} ChargeIsElapsed(from: nat, now: nat)
    requires from <= now
    ensures 0 <= Charge(from, now) <= (now - from) / MS
    ensures Charge(from, now) == (now - from) / MS <==> now % SECOND - from % SECOND < MS
    ensures var diff := now % SECOND - from % SECOND;
      (now - from) / MS - Charge(from, now) == if diff < 0 then 0 else diff / MS
    ensures (now - from) / MS - Charge(from, now) < 1000
  {
    var s, diff := now / SECOND - from / SECOND, now % SECOND - from % SECOND;
    Split(from);
    Split(now);
    assert now - from == s * SECOND + diff;
    if diff < 0 {
      Quotient(now - from, s * 1000 - 1000, diff + SECOND);
    } else {
      Quotient(now - from, s * 1000, diff);
    }
  }

  lemma Quotient(x: int, k: int, r: int)
    requires x == k * MS + r && 0 <= r
    ensures x / MS == k + r / MS
  {
    assert x == (k + r / MS) * MS + r % MS;
  }

  // ---------------------------------------------------------------- the loop

  /** What a round of the loop sees: whether sockets had events, the clock, and the timeout that applies now. */
  datatype Round = Round(events: bool, now: nat, budget: int)

  /** The remaining budget, the reading of the last charge, and when the budget was last set and to what. */
  datatype State = State(timeout: int, stamp: nat, since: nat, given: int)

  function Step(s: State, r: Round): State
  {
    if r.events then State(r.budget, s.stamp, r.now, r.budget)
    else s.(timeout := s.timeout - Charge(s.stamp, r.now), stamp := r.now)
  }

  function After(start: nat, budget: int, rounds: seq<Round>): State
  {
    if rounds == [] then State(budget, start, start, budget)
    else Step(After(start, budget, rounds[..|rounds| - 1]), rounds[|rounds| - 1])
  }

  predicate Expires(start: nat, budget: int, rounds: seq<Round>, i: nat)
    requires i < |rounds|
  {
    !rounds[i].events && After(start, budget, rounds[..i + 1]).timeout <= 0
  }

  /** The loop reports a timeout in round `i`. */
  ghost predicate Reports(start: nat, budget: int, rounds: seq<Round>, i: nat)
  {
    i < |rounds| && Expires(start, budget, rounds, i) && forall j :: 0 <= j < i ==> !Expires(start, budget, rounds, j)
  }

  /** curlPerform's accounting: the round in which the timeout is thrown, if it is. */
  method Account(start: nat, budget: int, rounds: seq<Round>) returns (fired: Option<nat>)
    ensures fired.Some? ==> Reports(start, budget, rounds, fired.value)
    ensures fired.None? ==> forall i :: 0 <= i < |rounds| ==> !Expires(start, budget, rounds, i)
    ensures Monotone(start, rounds) ==>
      forall i :: 0 <= i < |rounds| && Overdue(start, budget, rounds, i) ==> fired.Some? && fired.value <= i
  {
    forall i | Monotone(start, rounds) && 0 <= i < |rounds| && Overdue(start, budget, rounds, i)
      ensures Expires(start, budget, rounds, i)
    {
      OverdueExpires(start, budget, rounds, i);
    }
    var timeout, timeoutTimestamp := budget, start;
    for i := 0 to |rounds|
      invariant timeout == After(start, budget, rounds[..i]).timeout &&
        timeoutTimestamp == After(start, budget, rounds[..i]).stamp
      invariant forall j :: 0 <= j < i ==> !Expires(start, budget, rounds, j)
    {
      assert rounds[..i + 1][..i] == rounds[..i];
      if rounds[i].events {
        timeout := rounds[i].budget;
      } else {
        var current := rounds[i].now;
        timeout := timeout - (current / SECOND - timeoutTimestamp / SECOND) * 1000;
        var diff := current % SECOND - timeoutTimestamp % SECOND;
        if diff < 0 {
          timeout := timeout + 1000;
          timeout := timeout - (diff + SECOND) / MS;
        }
        if timeout <= 0 {
          return Some(i);
        }
        timeoutTimestamp := current;
      }
    }
    return None;
  }

  // ---------------------------------------------------------------- never early without events

  ghost predicate Monotone(start: nat, rounds: seq<Round>)
  {
    && (forall i :: 0 <= i < |rounds| ==> start <= rounds[i].now)
    && (forall i, j :: 0 <= i < j < |rounds| ==> rounds[i].now <= rounds[j].now)
  }

  ghost predicate Quiet(rounds: seq<Round>) { forall i :: 0 <= i < |rounds| ==> !rounds[i].events }

  lemma FloorSum(a: nat, b: nat)
    ensures a / MS + b / MS <= (a + b) / MS
  {
    Quotient(a + b, a / MS + b / MS, a % MS + b % MS);
  }

  /** Over rounds without events, everything charged together is at most the time since the start. */
  lemma {:induction false} ChargedAtMostElapsed(start: nat, budget: int, rounds: seq<Round>)
    requires Monotone(start, rounds) && Quiet(rounds)
    ensures var s := After(start, budget, rounds);
      && s.since == start && s.given == budget
      && s.stamp == (if rounds == [] then start else rounds[|rounds| - 1].now)
      && 0 <= budget - s.timeout <= (s.stamp - start) / MS
  {
    if rounds != [] {
      var n := |rounds| - 1;
      ChargedAtMostElapsed(start, budget, rounds[..n]);
      var s := After(start, budget, rounds[..n]);
      ChargeIsElapsed(s.stamp, rounds[n].now);
      FloorSum(s.stamp - start, rounds[n].now - s.stamp);
    }
  }

  // ---------------------------------------------------------------- late by a second per wait at most

  /** How many rounds without events there were since the last one with events. */
  function QuietTail(rounds: seq<Round>): nat
  {
    if rounds == [] || rounds[|rounds| - 1].events then 0 else 1 + QuietTail(rounds[..|rounds| - 1])
  }

  /** When the budget was last set and to what: at the last round with events, or at the start. */
  function LastSet(start: nat, budget: int, rounds: seq<Round>): (nat, int)
  {
    if rounds == [] then (start, budget)
    else if rounds[|rounds| - 1].events then (rounds[|rounds| - 1].now, rounds[|rounds| - 1].budget)
    else LastSet(start, budget, rounds[..|rounds| - 1])
  }

  /** The clock is past the setting of the budget by its length and a second for every wait since. */
  predicate Overdue(start: nat, budget: int, rounds: seq<Round>, i: nat)
    requires i < |rounds|
  {
    var (since, given) := LastSet(start, budget, rounds[..i + 1]);
    !rounds[i].events && rounds[i].now - since >= (given + 1000 * QuietTail(rounds[..i + 1])) * MS
  }

  lemma {:induction false} Within(from: nat, now: nat)
    requires from <= now
    ensures now - from <= (Charge(from, now) + 1000) * MS
  {
    ChargeIsElapsed(from, now);
    Quotient(now - from, (now - from) / MS, (now - from) % MS);
  }

  /** What was charged since the budget was set is the time since then, but for at most a second for every wait. */
  lemma {:induction false} ChargedAlmostElapsed(start: nat, budget: int, rounds: seq<Round>)
    requires Monotone(start, rounds)
    ensures var s, k := After(start, budget, rounds), QuietTail(rounds);
      && (s.since, s.given) == LastSet(start, budget, rounds)
      && s.stamp <= (if rounds == [] then start else rounds[|rounds| - 1].now)
      && s.stamp - s.since <= (s.given - s.timeout + 1000 * k) * MS
  {
    if rounds != [] {
      var n := |rounds| - 1;
      ChargedAlmostElapsed(start, budget, rounds[..n]);
      var s := After(start, budget, rounds[..n]);
      if !rounds[n].events { Within(s.stamp, rounds[n].now); }
    }
  }

  /** So a timeout is reported: an overdue wait without events expires, however the waits before it were cut. */
  lemma {:induction false} OverdueExpires(start: nat, budget: int, rounds: seq<Round>, i: nat)
    requires Monotone(start, rounds) && i < |rounds| && Overdue(start, budget, rounds, i)
    ensures Expires(start, budget, rounds, i)
  {
    ChargedAlmostElapsed(start, budget, rounds[..i + 1]);
    assert rounds[..i + 1][i] == rounds[i];
  }

  lemma {:induction false} QuietTailAll(start: nat, budget: int, rounds: seq<Round>)
    requires Quiet(rounds)
    ensures QuietTail(rounds) == |rounds| && LastSet(start, budget, rounds) == (start, budget)
  {
    if rounds != [] { QuietTailAll(start, budget, rounds[..|rounds| - 1]); }
  }

  /** Without events: a clock past the start by the budget and one second per wait has been reported. */
  lemma {:induction false} QuietIsReported(start: nat, budget: int, rounds: seq<Round>, i: nat)
    requires Monotone(start, rounds) && i < |rounds| && Quiet(rounds[..i + 1])
    requires rounds[i].now - start >= (budget + 1000 * (i + 1)) * MS
    ensures exists j :: 0 <= j <= i && Reports(start, budget, rounds, j)
  {
    QuietTailAll(start, budget, rounds[..i + 1]);
    assert rounds[..i + 1][i] == rounds[i];
    OverdueExpires(start, budget, rounds, i);
    FirstExpires(start, budget, rounds, i);
  }

  lemma {:induction false} FirstExpires(start: nat, budget: int, rounds: seq<Round>, i: nat)
    requires i < |rounds| && Expires(start, budget, rounds, i)
    ensures exists j :: 0 <= j <= i && Reports(start, budget, rounds, j)
  {
    if j :| 0 <= j < i && Expires(start, budget, rounds, j) {
      FirstExpires(start, budget, rounds, j);
    } else {
      assert Reports(start, budget, rounds, i);
    }
  }

  // ---------------------------------------------------------------- early reports

  /** A report is early when the budget was set less than its length ago. */
  ghost predicate Early(start: nat, budget: int, rounds: seq<Round>, i: nat)
  {
    Reports(start, budget, rounds, i) &&
    var s := After(start, budget, rounds[..i + 1]); rounds[i].now - s.since < s.given * MS
  }

  lemma {:induction false} QuietIsNeverEarly(start: nat, budget: int, rounds: seq<Round>, i: nat)
    requires Monotone(start, rounds) && i < |rounds| && Quiet(rounds[..i + 1])
    ensures !Early(start, budget, rounds, i)
  {
    var s := After(start, budget, rounds[..i + 1]);
    ChargedAtMostElapsed(start, budget, rounds[..i + 1]);
    assert rounds[..i + 1][i] == rounds[i];
    if s.timeout <= 0 {
      assert budget <= (rounds[i].now - start) / MS;
    }
  }

  // ---------------------------------------------------------------- and exactly then

  ghost predicate HasPattern(rounds: seq<Round>, p: seq<bool>)
  {
    |rounds| == |p| && forall i :: 0 <= i < |p| ==> rounds[i].events == p[i]
  }

  /** Some wait without events follows one with events. */
  ghost predicate Resumes(p: seq<bool>) { exists e :: 0 <= e && e + 1 < |p| && p[e] && !p[e + 1] }

  /** The clock stands still until round `e`, then shows as many seconds as the budget has milliseconds. */
  ghost function Jump(p: seq<bool>, e: nat, budget: nat): (rounds: seq<Round>)
    ensures HasPattern(rounds, p)
  {
    seq(|p|, i requires 0 <= i < |p| => Round(p[i], if i < e then 0 else budget * SECOND, budget))
  }

  lemma {:induction false} StandsStill(p: seq<bool>, e: nat, budget: nat, i: nat)
    requires 0 < budget && i <= e < |p|
    ensures After(0, budget, Jump(p, e, budget)[..i]) == State(budget, 0, 0, budget)
  {
    if i > 0 {
      var rounds := Jump(p, e, budget)[..i];
      assert rounds[..i - 1] == Jump(p, e, budget)[..i - 1];
      StandsStill(p, e, budget, i - 1);
      assert rounds[i - 1] == Round(p[i - 1], 0, budget);
    }
  }

  lemma {:induction false} JumpIsEarly(p: seq<bool>, e: nat, budget: nat)
    requires 0 < budget && e + 1 < |p| && p[e] && !p[e + 1]
    ensures Monotone(0, Jump(p, e, budget)) && Early(0, budget, Jump(p, e, budget), e + 1)
  {
    var rounds := Jump(p, e, budget);
    forall j | 0 <= j < e ensures !Expires(0, budget, rounds, j) { StandsStill(p, e, budget, j + 1); }
    StandsStill(p, e, budget, e);
    assert rounds[..e + 1][..e] == rounds[..e] && rounds[..e + 2][..e + 1] == rounds[..e + 1];
    assert Charge(0, budget * SECOND) == budget * 1000;
  }

  lemma {:induction false} QuietUpTo(p: seq<bool>, i: nat)
    requires !Resumes(p) && i < |p| && !p[i]
    ensures forall j :: 0 <= j <= i ==> !p[j]
  {
    if i > 0 {
      var e := i - 1;
      assert !p[e + 1];
      assert p[e] ==> Resumes(p);
      QuietUpTo(p, i - 1);
    }
  }

  /**
    Which calls can report a timeout early: exactly those in which a wait without events follows one with events,
    because the reading of the last charge is not renewed together with the budget.
  */
  lemma {:induction false} EarlyExactlyAfterEvents(p: seq<bool>, budget: nat)
    requires 0 < budget
    ensures Resumes(p) <==>
      exists rounds: seq<Round>, start: nat, i: nat :: HasPattern(rounds, p) && Monotone(start, rounds) &&
        Early(start, budget, rounds, i)
  {
    if Resumes(p) {
      var e :| 0 <= e && e + 1 < |p| && p[e] && !p[e + 1];
      JumpIsEarly(p, e, budget);
    } else {
      forall rounds: seq<Round>, start: nat, i: nat | HasPattern(rounds, p) &&
        Monotone(start, rounds) ensures !Early(start, budget, rounds, i) {
        if i < |p| && !p[i] {
          QuietUpTo(p, i);
          QuietIsNeverEarly(start, budget, rounds, i);
        }
      }
    }
  }
}
