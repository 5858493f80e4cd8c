/** The fixed-window rate limiter and the join failure throttle, over whole runs with a clock that never goes back. */
module RateLimit {
  import opened Model

  // ----- the limiter -----

  datatype Window = Window(start: int, count: nat)

  type Windows = map<string, Window>

  predicate Allows(ws: Windows, key: string, now: int, maxCount: int, windowLen: int) {
    key !in ws || now - ws[key].start >= windowLen || ws[key].count < maxCount
  }

  function AfterHit(ws: Windows, key: string, now: int, maxCount: int, windowLen: int): Windows {
    if key !in ws || now - ws[key].start >= windowLen then ws[key := Window(now, 1)]
    else if ws[key].count >= maxCount then ws
    else ws[key := Window(ws[key].start, ws[key].count + 1)]
  }

  class RateLimiter {
    var windows: Windows

    constructor ()
      ensures windows == map[]
    {
      windows := map[];
    }

    /** `now` is the clock reading the call takes. */
    method Allow(key: string, maxCount: int, windowLen: int, now: int) returns (ok: bool)
      modifies this
      ensures ok == Allows(old(windows), key, now, maxCount, windowLen)
      ensures windows == AfterHit(old(windows), key, now, maxCount, windowLen)
    {
      if key !in windows || now - windows[key].start >= windowLen {
        windows := windows[key := Window(now, 1)];
        return true;
      }
      var w := windows[key];
      if w.count >= maxCount {
        return false;
      }
      windows := windows[key := Window(w.start, w.count + 1)];
      return true;
    }
  }

  datatype Hit = Hit(key: string, time: int, maxCount: int, windowLen: int)

  ghost function Limited(hits: seq<Hit>): Windows {
    if hits == [] then map[]
    else
      var h := Last(hits);
      AfterHit(Limited(Front(hits)), h.key, h.time, h.maxCount, h.windowLen)
  }

  /** Hit i of the run is let through. */
  ghost predicate Passes(hits: seq<Hit>, i: nat)
    requires i < |hits|
  {
    Allows(Limited(hits[..i]), hits[i].key, hits[i].time, hits[i].maxCount, hits[i].windowLen)
  }

  ghost predicate Monotone(hits: seq<Hit>) {
    forall i, j :: 0 <= i < j < |hits| ==> hits[i].time <= hits[j].time
  }

  /** All hits on the key use one limit and one window. */
  ghost predicate OneLimit(hits: seq<Hit>, key: string, maxCount: int, windowLen: int) {
    forall i :: 0 <= i < |hits| && hits[i].key == key ==> hits[i].maxCount == maxCount && hits[i].windowLen == windowLen
  }

  /** How many hits on the key are let through in [from, to). */
  ghost function Passed(hits: seq<Hit>, key: string, from: int, to: int): nat {
    if hits == [] then 0
    else
      var h := Last(hits);
      Passed(Front(hits), key, from, to) +
      (if h.key == key && from <= h.time < to && Passes(hits, |hits| - 1) then 1 else 0)
  }

  lemma FrontLimit(hits: seq<Hit>, key: string, maxCount: int, windowLen: int)
    requires hits != [] && Monotone(hits) && OneLimit(hits, key, maxCount, windowLen)
    ensures Monotone(Front(hits)) && OneLimit(Front(hits), key, maxCount, windowLen)
    ensures Last(hits).key == key ==> Last(hits).maxCount == maxCount && Last(hits).windowLen == windowLen
    ensures hits[..|hits| - 1] == Front(hits)
  {
    forall i, j | 0 <= i < j < |Front(hits)| ensures Front(hits)[i].time <= Front(hits)[j].time {
      assert hits[i].time <= hits[j].time;
    }
    forall i | 0 <= i < |Front(hits)| && Front(hits)[i].key == key
      ensures Front(hits)[i].maxCount == maxCount && Front(hits)[i].windowLen == windowLen
    {
      assert hits[i].key == key;
    }
  }

  lemma {:induction false} NothingBefore(hits: seq<Hit>, key: string, from: int, to: int)
    requires forall i :: 0 <= i < |hits| ==> hits[i].time < from
    ensures Passed(hits, key, from, to) == 0
  {
    if hits != [] {
      NothingBefore(Front(hits), key, from, to);
    }
  }

  /**
   * How a half-open interval of one window's length splits: hits of the current
   * window, less its opening hit if that came earlier, and at most max-1 of an
   * older one.
   */
  lemma {:induction false} WindowSplit(hits: seq<Hit>, key: string, maxCount: int, windowLen: int, from: int)
    requires Monotone(hits) && OneLimit(hits, key, maxCount, windowLen)
    requires maxCount >= 1 && windowLen > 0
    ensures var n, ws := Passed(hits, key, from, from + windowLen), Limited(hits);
            && (key !in ws ==> n == 0)
            && (key in ws ==>
                 && 1 <= ws[key].count <= maxCount
                 && (exists i :: 0 <= i < |hits| && hits[i].time == ws[key].start)
                 && (ws[key].start < from ==> n < ws[key].count)
                 && (from <= ws[key].start < from + windowLen ==> n < maxCount + ws[key].count)
                 && n < 2 * maxCount)
  {
    if hits != [] {
      FrontLimit(hits, key, maxCount, windowLen);
      WindowSplit(Front(hits), key, maxCount, windowLen, from);
      var h, ws := Last(hits), Limited(Front(hits));
      assert hits[|hits| - 1] == h;
      if h.time < from {
        NothingBefore(Front(hits), key, from, from + windowLen);
      }
      if key in ws {
        var i :| 0 <= i < |Front(hits)| && Front(hits)[i].time == ws[key].start;
        assert hits[i].time <= h.time;
      }
    }
  }

  /** In every run, no interval of one window's length lets through more than 2*max-1 hits on a key. */
  lemma RateBound(hits: seq<Hit>, key: string, maxCount: int, windowLen: int, from: int)
    requires Monotone(hits) && OneLimit(hits, key, maxCount, windowLen)
    requires maxCount >= 1 && windowLen > 0
    ensures Passed(hits, key, from, from + windowLen) <= 2 * maxCount - 1
  {
    WindowSplit(hits, key, maxCount, windowLen, from);
  }

  // ----- nobody is refused for less -----

  /** What a window counts was let through since it opened. */
  lemma {:induction false} CountWasPassed(hits: seq<Hit>, key: string, from: int, to: int)
    requires Monotone(hits) && forall i :: 0 <= i < |hits| ==> hits[i].time < to
    requires key in Limited(hits) && from <= Limited(hits)[key].start
    ensures Limited(hits)[key].count <= Passed(hits, key, from, to)
    ensures Limited(hits)[key].start <= Last(hits).time
  {
    var f, h := Front(hits), Last(hits);
    assert hits[|hits| - 1] == h && hits[..|hits| - 1] == f;
    if key in Limited(f) && from <= Limited(f)[key].start {
      FrontMonotone(hits);
      CountWasPassed(f, key, from, to);
    }
  }

  lemma FrontMonotone(hits: seq<Hit>)
    requires Monotone(hits) && hits != []
    ensures Monotone(Front(hits)) && (|hits| > 1 ==> Last(Front(hits)).time <= Last(hits).time)
  {
    forall i, j | 0 <= i < j < |Front(hits)| ensures Front(hits)[i].time <= Front(hits)[j].time {
      assert hits[i].time <= hits[j].time;
    }
    if |hits| > 1 {
      assert hits[|hits| - 2].time <= hits[|hits| - 1].time;
    }
  }

  /** A hit is refused only if the limit's worth of hits on its key was let through within the last window's length. */
  lemma RefusedMeansFull(hits: seq<Hit>, i: nat)
    requires Monotone(hits) && i < |hits| && !Passes(hits, i)
    ensures var h := hits[i]; Passed(hits[..i], h.key, h.time - h.windowLen + 1, h.time + 1) >= h.maxCount
  {
    var h, past := hits[i], hits[..i];
    assert forall j, k :: 0 <= j < k < |past| ==> hits[j].time <= hits[k].time;
    forall j | 0 <= j < |past| ensures past[j].time < h.time + 1 {
      assert hits[j].time <= hits[i].time;
    }
    CountWasPassed(past, h.key, h.time - h.windowLen + 1, h.time + 1);
  }

  // ----- the bound is met -----

  function Burst(key: string, time: int, n: nat, maxCount: int, windowLen: int): seq<Hit> {
    seq(n, _ => Hit(key, time, maxCount, windowLen))
  }

  /** One opening hit, the rest of its window at the last moment, and a full window right after. */
  function WorstRun(key: string, maxCount: nat, windowLen: nat): seq<Hit>
    requires maxCount >= 1 && windowLen >= 2
  {
    Burst(key, 0, 1, maxCount, windowLen)
    + Burst(key, windowLen - 1, maxCount - 1, maxCount, windowLen)
    + Burst(key, windowLen, maxCount, maxCount, windowLen)
  }

  lemma {:induction false} BurstPasses(hits: seq<Hit>, key: string, time: int, n: nat,
                                       maxCount: int, windowLen: int, from: int)
    requires windowLen > 0 && from <= time < from + windowLen
    requires key in Limited(hits) && time - Limited(hits)[key].start < windowLen
    requires Limited(hits)[key].count + n <= maxCount
    ensures var all := hits + Burst(key, time, n, maxCount, windowLen);
            && Passed(all, key, from, from + windowLen) == Passed(hits, key, from, from + windowLen) + n
            && key in Limited(all)
            && Limited(all)[key] == Window(Limited(hits)[key].start, Limited(hits)[key].count + n)
  {
    var all := hits + Burst(key, time, n, maxCount, windowLen);
    if n == 0 {
      assert all == hits;
    } else {
      BurstPasses(hits, key, time, n - 1, maxCount, windowLen, from);
      assert Front(all) == hits + Burst(key, time, n - 1, maxCount, windowLen);
      assert all[..|all| - 1] == Front(all);
    }
  }

  /** The bound of RateBound is tight for every limit. */
  lemma RateBoundTight(key: string, maxCount: nat, windowLen: nat)
    requires maxCount >= 1 && windowLen >= 2
    ensures var hits := WorstRun(key, maxCount, windowLen); var from := windowLen - 1;
            && Monotone(hits) && OneLimit(hits, key, maxCount, windowLen)
            && Passed(hits, key, from, from + windowLen) == 2 * maxCount - 1
  {
    WorstRunShape(key, maxCount, windowLen);
    LateBurst(key, maxCount, windowLen);
    FullWindow(Burst(key, 0, 1, maxCount, windowLen) + Burst(key, windowLen - 1, maxCount - 1, maxCount, windowLen),
               key, maxCount, windowLen);
  }

  /** The rest of the first window, at its last moment. */
  lemma LateBurst(key: string, maxCount: nat, windowLen: nat)
    requires maxCount >= 1 && windowLen >= 2
    ensures var hits := Burst(key, 0, 1, maxCount, windowLen)
                        + Burst(key, windowLen - 1, maxCount - 1, maxCount, windowLen);
            && key in Limited(hits) && Limited(hits)[key].start == 0
            && Passed(hits, key, windowLen - 1, windowLen - 1 + windowLen) == maxCount - 1
  {
    OpeningHit(key, maxCount, windowLen);
    var first := Burst(key, 0, 1, maxCount, windowLen);
    BurstPasses(first, key, windowLen - 1, maxCount - 1, maxCount, windowLen, windowLen - 1);
  }

  /** A full window of hits right after the one opened at 0. */
  lemma FullWindow(hits: seq<Hit>, key: string, maxCount: nat, windowLen: nat)
    requires maxCount >= 1 && windowLen >= 2 && key in Limited(hits) && Limited(hits)[key].start == 0
    ensures var from := windowLen - 1;
            Passed(hits + Burst(key, windowLen, maxCount, maxCount, windowLen), key, from, from + windowLen)
            == Passed(hits, key, from, from + windowLen) + maxCount
  {
    var opening := hits + [Hit(key, windowLen, maxCount, windowLen)];
    var all := hits + Burst(key, windowLen, maxCount, maxCount, windowLen);
    NewWindow(hits, key, maxCount, windowLen);
    BurstGrows(hits, key, windowLen, maxCount, maxCount, windowLen);
    FinishWindow(opening, all, key, maxCount, windowLen);
  }

  lemma FinishWindow(opening: seq<Hit>, all: seq<Hit>, key: string, maxCount: nat, windowLen: nat)
    requires maxCount >= 1 && windowLen >= 2 && key in Limited(opening) && Limited(opening)[key] == Window(windowLen, 1)
    requires all == opening + Burst(key, windowLen, maxCount - 1, maxCount, windowLen)
    ensures var from := windowLen - 1;
            Passed(all, key, from, from + windowLen) == Passed(opening, key, from, from + windowLen) + maxCount - 1
  {
    BurstPasses(opening, key, windowLen, maxCount - 1, maxCount, windowLen, windowLen - 1);
  }

  lemma BurstGrows(hits: seq<Hit>, key: string, time: int, n: nat, maxCount: int, windowLen: int)
    requires n > 0
    ensures hits + [Hit(key, time, maxCount, windowLen)] + Burst(key, time, n - 1, maxCount, windowLen)
            == hits + Burst(key, time, n, maxCount, windowLen)
  {}

  lemma WorstRunShape(key: string, maxCount: nat, windowLen: nat)
    requires maxCount >= 1 && windowLen >= 2
    ensures var hits := WorstRun(key, maxCount, windowLen);
            Monotone(hits) && OneLimit(hits, key, maxCount, windowLen)
  {}

  lemma OpeningHit(key: string, maxCount: nat, windowLen: nat)
    requires maxCount >= 1 && windowLen >= 2
    ensures var first := Burst(key, 0, 1, maxCount, windowLen);
            key in Limited(first) && Limited(first)[key] == Window(0, 1)
            && Passed(first, key, windowLen - 1, windowLen - 1 + windowLen) == 0
  {
    var first := Burst(key, 0, 1, maxCount, windowLen);
    assert Front(first) == [];
    NothingBefore(first, key, windowLen - 1, windowLen - 1 + windowLen);
  }

  lemma NewWindow(hits: seq<Hit>, key: string, maxCount: nat, windowLen: nat)
    requires windowLen >= 2 && key in Limited(hits) && Limited(hits)[key].start == 0
    ensures var from := windowLen - 1;
            var all := hits + [Hit(key, windowLen, maxCount, windowLen)];
            && Passed(all, key, from, from + windowLen) == Passed(hits, key, from, from + windowLen) + 1
            && key in Limited(all) && Limited(all)[key] == Window(windowLen, 1)
  {
    var all := hits + [Hit(key, windowLen, maxCount, windowLen)];
    assert Front(all) == hits && all[..|all| - 1] == hits;
  }

  // ----- other keys do not matter -----

  ghost function OnlyKey(hits: seq<Hit>, key: string): seq<Hit> {
    if hits == [] then []
    else OnlyKey(Front(hits), key) + (if Last(hits).key == key then [Last(hits)] else [])
  }

  /** A key's window, and so every verdict on it, depends on the hits on that key alone. */
  lemma {:induction false} KeysAreIndependent(hits: seq<Hit>, key: string)
    ensures var a, b := Limited(hits), Limited(OnlyKey(hits, key));
            (key in a <==> key in b) && (key in a ==> a[key] == b[key])
    ensures forall now, m, w ::
              Allows(Limited(hits), key, now, m, w) <==> Allows(Limited(OnlyKey(hits, key)), key, now, m, w)
  {
    if hits != [] {
      KeysAreIndependent(Front(hits), key);
      if Last(hits).key == key {
        assert Front(OnlyKey(hits, key)) == OnlyKey(Front(hits), key);
      } else {
        assert OnlyKey(hits, key) == OnlyKey(Front(hits), key);
      }
    }
  }

  // ----- the join throttle -----

  const NANOS: int := 1_000_000_000
  const FAILURE_WINDOW: int := 600 * NANOS
  const MAX_FAILURES: int := 5

  datatype Failures = Failures(counts: map<string, int>, last: map<string, int>) {
    function Count(key: string): int {
      if key in counts then counts[key] else 0
    }
    /** A key without a recorded failure reads as the zero time, long before any clock reading. */
    function Remaining(key: string, now: int): int {
      if key in last then FAILURE_WINDOW - (now - last[key]) else -1
    }
  }

  predicate IsBlocked(f: Failures, key: string, max: int, now: int) {
    f.Count(key) >= max && f.Remaining(key, now) > 0
  }

  /** A block that has run out is forgotten when it is looked at. */
  function AfterCheck(f: Failures, key: string, max: int, now: int): Failures {
    if f.Count(key) >= max && f.Remaining(key, now) <= 0 then f.(counts := f.counts - {key}) else f
  }

  function AfterFailure(f: Failures, key: string, now: int): Failures {
    Failures(f.counts[key := f.Count(key) + 1], f.last[key := now])
  }

  function AfterReset(f: Failures, key: string): Failures {
    Failures(f.counts - {key}, f.last - {key})
  }

  function RetrySeconds(remaining: int): int {
    remaining / NANOS + 1
  }

  class FailureTracker {
    var failures: map<string, int>
    var last: map<string, int>

    constructor ()
      ensures State() == Failures(map[], map[])
    {
      failures := map[];
      last := map[];
    }

    ghost function State(): Failures
      reads this
    {
      Failures(failures, last)
    }

    method Blocked(key: string, max: int, now: int) returns (blocked: bool, retry: int)
      modifies this
      ensures blocked == IsBlocked(old(State()), key, max, now)
      ensures retry == if blocked then RetrySeconds(old(State()).Remaining(key, now)) else 0
      ensures State() == AfterCheck(old(State()), key, max, now)
    {
      if (if key in failures then failures[key] else 0) < max {
        return false, 0;
      }
      var remaining := if key in last then FAILURE_WINDOW - (now - last[key]) else -1;
      if remaining <= 0 {
        failures := failures - {key};
        return false, 0;
      }
      return true, remaining / NANOS + 1;
    }

    method RecordFailure(key: string, now: int)
      modifies this
      ensures State() == AfterFailure(old(State()), key, now)
    {
      failures := failures[key := (if key in failures then failures[key] else 0) + 1];
      last := last[key := now];
    }

    method Reset(key: string)
      modifies this
      ensures State() == AfterReset(old(State()), key)
    {
      failures := failures - {key};
      last := last - {key};
    }
  }

  datatype JoinAnswer = TooManyFailures(retry: int) | PasswordRequired | WrongPassword | Throttled | Joined

  const JOIN_RATE := 30
  const MINUTE: int := 60 * NANOS

  /** One join attempt as the two throttles see it. */
  datatype Attempt = Attempt(key: string, time: int, hasPassword: bool, rightPassword: bool)

  function Answer(f: Failures, ws: Windows, a: Attempt): JoinAnswer {
    if IsBlocked(f, a.key, MAX_FAILURES, a.time) then TooManyFailures(RetrySeconds(f.Remaining(a.key, a.time)))
    else if !a.hasPassword then PasswordRequired
    else if !a.rightPassword then WrongPassword
    else if !Allows(ws, "join|" + a.key, a.time, JOIN_RATE, MINUTE) then Throttled
    else Joined
  }

  function AfterAttempt(f: Failures, ws: Windows, a: Attempt): Failures {
    var f1 := AfterCheck(f, a.key, MAX_FAILURES, a.time);
    match Answer(f, ws, a)
    case WrongPassword => AfterFailure(f1, a.key, a.time)
    case Joined => AfterReset(f1, a.key)
    case _ => f1
  }

  /** The limiter is asked only about attempts with the right password. */
  function LimiterAfter(f: Failures, ws: Windows, a: Attempt): Windows {
    if Answer(f, ws, a).Throttled? || Answer(f, ws, a).Joined?
    then AfterHit(ws, "join|" + a.key, a.time, JOIN_RATE, MINUTE)
    else ws
  }

  /** The order of checks in joinNetwork; each call reads the clock once. */
  method Join(tracker: FailureTracker, limiter: RateLimiter, a: Attempt) returns (answer: JoinAnswer)
    modifies tracker, limiter
    ensures answer == Answer(old(tracker.State()), old(limiter.windows), a)
    ensures tracker.State() == AfterAttempt(old(tracker.State()), old(limiter.windows), a)
    ensures limiter.windows == LimiterAfter(old(tracker.State()), old(limiter.windows), a)
  {
    var blocked, retry := tracker.Blocked(a.key, MAX_FAILURES, a.time);
    if blocked {
      return TooManyFailures(retry);
    }
    if !a.hasPassword {
      return PasswordRequired;
    }
    if !a.rightPassword {
      tracker.RecordFailure(a.key, a.time);
      return WrongPassword;
    }
    var ok := limiter.Allow("join|" + a.key, JOIN_RATE, MINUTE, a.time);
    if !ok {
      return Throttled;
    }
    tracker.Reset(a.key);
    return Joined;
  }

  ghost function Tracked(run: seq<Attempt>): (Failures, Windows) {
    if run == [] then (Failures(map[], map[]), map[])
    else
      var (f, ws) := Tracked(Front(run));
      (AfterAttempt(f, ws, Last(run)), LimiterAfter(f, ws, Last(run)))
  }

  /** The answer attempt i of the run gets. */
  ghost function AnswerTo(run: seq<Attempt>, i: nat): JoinAnswer
    requires i < |run|
  {
    var (f, ws) := Tracked(run[..i]);
    Answer(f, ws, run[i])
  }

  ghost predicate Ordered(run: seq<Attempt>) {
    forall i, j :: 0 <= i < j < |run| ==> run[i].time <= run[j].time
  }

  ghost predicate NobodyJoins(run: seq<Attempt>, key: string) {
    forall i: nat :: i < |run| && run[i].key == key ==> !AnswerTo(run, i).Joined?
  }

  /** Failures recorded for the key in [from, to). */
  ghost function Recorded(run: seq<Attempt>, key: string, from: int, to: int): nat {
    if run == [] then 0
    else
      Recorded(Front(run), key, from, to) +
      (if Last(run).key == key && from <= Last(run).time < to && AnswerTo(run, |run| - 1).WrongPassword? then 1 else 0)
  }

  lemma FrontAttempts(run: seq<Attempt>, key: string)
    requires run != [] && Ordered(run) && NobodyJoins(run, key)
    ensures Ordered(Front(run)) && NobodyJoins(Front(run), key)
    ensures run[..|run| - 1] == Front(run)
    ensures Last(run).key == key ==> !AnswerTo(run, |run| - 1).Joined?
  {
    forall i, j | 0 <= i < j < |Front(run)| ensures Front(run)[i].time <= Front(run)[j].time {
      assert run[i].time <= run[j].time;
    }
    forall i: nat | i < |Front(run)| && Front(run)[i].key == key ensures !AnswerTo(Front(run), i).Joined? {
      assert Front(run)[..i] == run[..i];
      assert !AnswerTo(run, i).Joined?;
    }
  }

  /** Five failures fill a batch; the next batch starts a full window after the last of them. */
  ghost predicate InBatches(run: seq<Attempt>, key: string, from: int) {
    var f, n := Tracked(run).0, Recorded(run, key, from, from + FAILURE_WINDOW);
    && 0 <= f.Count(key) <= MAX_FAILURES && n <= MAX_FAILURES
    && (n > 0 ==> key in f.last && from <= f.last[key])
    && (key in f.last ==> run != [] && f.last[key] <= Last(run).time)
    && (f.Count(key) > 0 ==> key in f.last)
    && (n <= f.Count(key) || (run != [] && Last(run).time >= from + FAILURE_WINDOW))
  }

  lemma {:induction false} AlwaysInBatches(run: seq<Attempt>, key: string, from: int)
    requires Ordered(run) && NobodyJoins(run, key)
    ensures InBatches(run, key, from)
  {
    if run != [] {
      FrontAttempts(run, key);
      AlwaysInBatches(Front(run), key, from);
      if |run| > 1 {
        assert Last(Front(run)) == run[|run| - 2] && run[|run| - 2].time <= run[|run| - 1].time;
      }
    }
  }

  /** As long as nobody joins, no ten-minute interval records more than five failures for a key. */
  lemma FailureBound(run: seq<Attempt>, key: string, from: int)
    requires Ordered(run) && NobodyJoins(run, key)
    ensures Recorded(run, key, from, from + FAILURE_WINDOW) <= 5
  {
    AlwaysInBatches(run, key, from);
  }

  /**
   * The retry value is honest: between 1 and 601 seconds, the key is still
   * blocked a second before it and free once it has passed, if nothing fails
   * meanwhile.
   */
  lemma RetryIsHonest(f: Failures, key: string, now: int, later: int)
    requires IsBlocked(f, key, MAX_FAILURES, now) && f.last[key] <= now <= later
    ensures var retry := RetrySeconds(f.Remaining(key, now));
            && 1 <= retry <= 601
            && (later >= now + retry * NANOS ==> !IsBlocked(f, key, MAX_FAILURES, later))
            && (later < now + (retry - 1) * NANOS ==> IsBlocked(f, key, MAX_FAILURES, later))
  {
    var remaining := f.Remaining(key, now);
    assert 0 <= remaining - remaining / NANOS * NANOS < NANOS;
  }

  // ----- nobody is throttled without cause -----

  /** The failures on a key since the last join on it, and when the last of them was. */
  ghost function FailuresSinceJoin(run: seq<Attempt>, key: string): (nat, Option<int>) {
    if run == [] then (0, None)
    else
      var (n, at) := FailuresSinceJoin(Front(run), key);
      if Last(run).key != key then (n, at)
      else
        match AnswerTo(run, |run| - 1)
        case WrongPassword => (n + 1, Some(Last(run).time))
        case Joined => (0, None)
        case _ => (n, at)
  }

  /** The tracker counts at most those, and knows the last of them; a join makes it forget. */
  lemma {:induction false} TrackerIsFair(run: seq<Attempt>, key: string)
    ensures var f := Tracked(run).0; var (n, at) := FailuresSinceJoin(run, key);
            && f.Count(key) <= n
            && at == if key in f.last then Some(f.last[key]) else None
  {
    if run != [] {
      TrackerIsFair(Front(run), key);
      assert run[..|run| - 1] == Front(run);
    }
  }

  /**
   * An attempt is refused for failures only if five were recorded since the last
   * join, the last of them under ten minutes ago.
   */
  lemma RefusedForFailures(run: seq<Attempt>, i: nat)
    requires i < |run| && AnswerTo(run, i).TooManyFailures?
    ensures var (n, at) := FailuresSinceJoin(run[..i], run[i].key);
            n >= 5 && at.Some? && run[i].time - at.value < 600 * 1_000_000_000
  {
    TrackerIsFair(run[..i], run[i].key);
  }

  /** What else an answer tells: a password is demanded, judged, and only the right one gets in. */
  lemma AnswerTells(run: seq<Attempt>, i: nat)
    requires i < |run|
    ensures var a, answer := run[i], AnswerTo(run, i);
            && (answer.PasswordRequired? ==> !a.hasPassword)
            && (answer.WrongPassword? ==> a.hasPassword && !a.rightPassword)
            && (answer.Throttled? || answer.Joined? ==> a.hasPassword && a.rightPassword)
  {}

  /** The questions put to the rate limiter: by attempts that got that far. */
  ghost function JoinHits(run: seq<Attempt>): seq<Hit> {
    if run == [] then []
    else
      var a, answer := Last(run), AnswerTo(run, |run| - 1);
      JoinHits(Front(run)) +
      (if answer.Throttled? || answer.Joined? then [HitOf(a)] else [])
  }

  ghost function HitOf(a: Attempt): Hit {
    Hit("join|" + a.key, a.time, JOIN_RATE, MINUTE)
  }

  /** Joins on the key in [from, to). */
  ghost function Joins(run: seq<Attempt>, key: string, from: int, to: int): nat {
    if run == [] then 0
    else
      Joins(Front(run), key, from, to) +
      (if Last(run).key == key && from <= Last(run).time < to && AnswerTo(run, |run| - 1).Joined? then 1 else 0)
  }

  /** The joins are the hits the limiter lets through. */
  lemma {:induction false} JoinsArePassed(run: seq<Attempt>, key: string, from: int, to: int)
    ensures Passed(JoinHits(run), "join|" + key, from, to) == Joins(run, key, from, to)
  {
    if run != [] {
      var f, a := Front(run), Last(run);
      JoinsArePassed(f, key, from, to);
      LimiterIsAsked(f);
      JoinKey(a.key, key);
      OneMoreHit(JoinHits(f), HitOf(a), "join|" + key, from, to);
      LastAnswer(run);
    }
  }

  /** The limiter's windows are those of the hits put to it. */
  lemma {:induction false} LimiterIsAsked(run: seq<Attempt>)
    ensures Limited(JoinHits(run)) == Tracked(run).1
  {
    if run != [] {
      var f, a := Front(run), Last(run);
      LimiterIsAsked(f);
      OneMoreHit(JoinHits(f), HitOf(a), "", 0, 0);
      LastAnswer(run);
    }
  }

  lemma LastAnswer(run: seq<Attempt>)
    requires run != []
    ensures var answer := Answer(Tracked(Front(run)).0, Tracked(Front(run)).1, Last(run));
            && AnswerTo(run, |run| - 1) == answer
            && JoinHits(run) ==
                 JoinHits(Front(run)) + (if answer.Throttled? || answer.Joined? then [HitOf(Last(run))] else [])
            && (!(answer.Throttled? || answer.Joined?) ==> JoinHits(run) == JoinHits(Front(run)))
  {
    assert run[..|run| - 1] == Front(run);
  }

  lemma OneMoreHit(hits: seq<Hit>, h: Hit, key: string, from: int, to: int)
    ensures var ok := Allows(Limited(hits), h.key, h.time, h.maxCount, h.windowLen);
            && Limited(hits + [h]) == AfterHit(Limited(hits), h.key, h.time, h.maxCount, h.windowLen)
            && Passed(hits + [h], key, from, to) ==
                 Passed(hits, key, from, to) + (if h.key == key && from <= h.time < to && ok then 1 else 0)
  {
    assert Front(hits + [h]) == hits && (hits + [h])[..|hits|] == hits;
  }

  lemma JoinKey(a: string, b: string)
    ensures "join|" + a == "join|" + b ==> a == b
  {
    assert ("join|" + a)[5..] == a && ("join|" + b)[5..] == b;
  }

  lemma {:induction false} JoinHitsOrdered(run: seq<Attempt>)
    requires Ordered(run)
    ensures Monotone(JoinHits(run))
    ensures forall h :: h in JoinHits(run) ==>
              && h.maxCount == JOIN_RATE && h.windowLen == MINUTE
              && exists i :: 0 <= i < |run| && run[i].time == h.time
  {
    if run != [] {
      var f, hits := Front(run), JoinHits(run);
      forall i, j | 0 <= i < j < |f| ensures f[i].time <= f[j].time {
        assert run[i].time <= run[j].time;
      }
      JoinHitsOrdered(f);
      forall i, j | 0 <= i < j < |hits| ensures hits[i].time <= hits[j].time {
        assert hits[i] in JoinHits(f);
        var k :| 0 <= k < |f| && f[k].time == hits[i].time;
        assert run[k].time <= run[|run| - 1].time;
        if j < |JoinHits(f)| {
          assert JoinHits(f)[i].time <= JoinHits(f)[j].time;
        }
      }
      forall h | h in hits ensures exists i :: 0 <= i < |run| && run[i].time == h.time {
        if h in JoinHits(f) {
          var k :| 0 <= k < |f| && f[k].time == h.time;
          assert run[k].time == h.time;
        } else {
          assert run[|run| - 1].time == h.time;
        }
      }
    }
  }

  /**
   * The join limit on both sides, in every run: no minute sees more than 59
   * joins on a key, and an attempt with the right password is throttled only if
   * 30 joined within the last minute.
   */
  lemma JoinRate(run: seq<Attempt>, key: string, from: int, i: nat)
    requires Ordered(run) && i < |run|
    ensures Joins(run, key, from, from + MINUTE) <= 59
    ensures var a := run[i];
            AnswerTo(run, i).Throttled? ==> Joins(run[..i], a.key, a.time - MINUTE + 1, a.time + 1) >= 30
  {
    JoinHitsOrdered(run);
    JoinsArePassed(run, key, from, from + MINUTE);
    RateBound(JoinHits(run), "join|" + key, JOIN_RATE, MINUTE, from);
    if AnswerTo(run, i).Throttled? {
      ThrottledMeansFull(run, i);
    }
  }

  lemma {:induction false} JoinHitsBefore(run: seq<Attempt>, to: int)
    requires forall k :: 0 <= k < |run| ==> run[k].time < to
    ensures forall k :: 0 <= k < |JoinHits(run)| ==> JoinHits(run)[k].time < to
  {
    if run != [] {
      JoinHitsBefore(Front(run), to);
    }
  }

  lemma ThrottledMeansFull(run: seq<Attempt>, i: nat)
    requires Ordered(run) && i < |run| && AnswerTo(run, i).Throttled?
    ensures var a := run[i]; Joins(run[..i], a.key, a.time - MINUTE + 1, a.time + 1) >= 30
  {
    var a, past := run[i], run[..i];
    var hits, from, to := JoinHits(past), a.time - MINUTE + 1, a.time + 1;
    assert Ordered(past) && forall k :: 0 <= k < i ==> run[k].time <= a.time;
    JoinHitsOrdered(past);
    JoinsArePassed(past, a.key, from, to);
    JoinHitsBefore(past, to);
    LimiterIsAsked(past);
    CountWasPassed(hits, "join|" + a.key, from, to);
  }
}
