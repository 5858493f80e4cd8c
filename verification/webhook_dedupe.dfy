/** The webhook delivery cache: purging never changes an answer, and an id is processed once a day at most. */
module WebhookDedupe {
  import opened Model

  const TTL: int := 24 * 3600 * 1_000_000_000
  const PURGE_ABOVE := 4096

  /** Deliveries without an id are never deduplicated. */
  function KeyOf(provider: string, id: string): Option<string> {
    if id == "" then None else Some(provider + "|" + id)
  }

  function Purged(seen: map<string, int>, now: int): map<string, int> {
    map k | k in seen && now - seen[k] <= TTL :: seen[k]
  }

  /** The cache a call looks into; `purges` false is the version that never purges. */
  function Consulted(seen: map<string, int>, now: int, purges: bool): map<string, int> {
    if purges && |seen| > PURGE_ABOVE then Purged(seen, now) else seen
  }

  predicate IsDuplicate(seen: map<string, int>, key: Option<string>, now: int, purges: bool) {
    key.Some? &&
    var m := Consulted(seen, now, purges);
    key.value in m && now - m[key.value] <= TTL
  }

  function AfterSeen(seen: map<string, int>, key: Option<string>, now: int, purges: bool): map<string, int> {
    if key.None? then seen
    else
      var m := Consulted(seen, now, purges);
      if IsDuplicate(seen, key, now, purges) then m else m[key.value := now]
  }

  class DeliveryCache {
    var seen: map<string, int>

    constructor ()
      ensures seen == map[]
    {
      seen := map[];
    }

    method Seen(provider: string, id: string, now: int) returns (duplicate: bool)
      modifies this
      ensures duplicate == IsDuplicate(old(seen), KeyOf(provider, id), now, true)
      ensures seen == AfterSeen(old(seen), KeyOf(provider, id), now, true)
    {
      if id == "" {
        return false;
      }
      var key := provider + "|" + id;
      if |seen| > PURGE_ABOVE {
        ghost var before := seen;
        var rest := seen.Keys;
        while rest != {}
          invariant rest <= seen.Keys <= before.Keys
          invariant forall k :: k in seen ==> seen[k] == before[k]
          invariant forall k :: k in before && k !in rest ==> (k in seen <==> now - before[k] <= TTL)
          decreases |rest|
        {
          var k :| k in rest;
          if now - seen[k] > TTL {
            seen := seen - {k};
          }
          rest := rest - {k};
        }
        assert seen == Purged(before, now);
      }
      if key in seen && now - seen[key] <= TTL {
        return true;
      }
      seen := seen[key := now];
      return false;
    }
  }

  // ----- whole runs -----

  datatype Delivery = Delivery(key: Option<string>, time: int)

  ghost function CacheAfter(run: seq<Delivery>, purges: bool): map<string, int> {
    if run == [] then map[] else AfterSeen(CacheAfter(Front(run), purges), Last(run).key, Last(run).time, purges)
  }

  ghost predicate Refused(run: seq<Delivery>, i: nat, purges: bool)
    requires i < |run|
  {
    IsDuplicate(CacheAfter(run[..i], purges), run[i].key, run[i].time, purges)
  }

  ghost predicate Ordered(run: seq<Delivery>) {
    forall i, j :: 0 <= i < j < |run| ==> run[i].time <= run[j].time
  }

  /** Delivery j carries the key and was processed. */
  ghost predicate ProcessedAs(run: seq<Delivery>, j: nat, key: string, purges: bool) {
    j < |run| && run[j].key == Some(key) && !Refused(run, j, purges)
  }

  ghost function Refusals(run: seq<Delivery>, purges: bool): (answers: seq<bool>)
    ensures |answers| == |run| && forall i :: 0 <= i < |run| ==> answers[i] == Refused(run, i, purges)
  {
    seq(|run|, i requires 0 <= i < |run| => Refused(run, i, purges))
  }

  /** Delivery j is among the first n, carries the key, and was not refused. */
  ghost predicate Counts(run: seq<Delivery>, answers: seq<bool>, n: nat, j: nat, key: string) {
    j < n <= |run| == |answers| && run[j].key == Some(key) && !answers[j]
  }

  /** Of the first n deliveries, the cache remembers processed ones only, and every one that still counts at `now`. */
  ghost predicate Remembers(m: map<string, int>, run: seq<Delivery>, answers: seq<bool>, n: nat, now: int) {
    && (forall k :: k in m ==> exists j: nat :: Counts(run, answers, n, j, k) && run[j].time == m[k])
    && (forall j: nat, k :: Counts(run, answers, n, j, k) && now - run[j].time <= TTL ==> k in m && m[k] >= run[j].time)
  }

  lemma {:induction false} CacheRemembers(run: seq<Delivery>, n: nat, now: int, purges: bool)
    requires Ordered(run) && n <= |run| && (n > 0 ==> run[n - 1].time <= now)
    ensures Remembers(CacheAfter(run[..n], purges), run, Refusals(run, purges), n, now)
  {
    if n > 0 {
      CacheRemembers(run, n - 1, run[n - 1].time, purges);
      assert Front(run[..n]) == run[..n - 1];
      StepRemembers(run, Refusals(run, purges), n, now, CacheAfter(run[..n - 1], purges), purges);
    }
  }

  lemma StepRemembers(run: seq<Delivery>, answers: seq<bool>, n: nat, now: int, m0: map<string, int>, purges: bool)
    requires Ordered(run) && 0 < n <= |run| == |answers| && run[n - 1].time <= now
    requires answers[n - 1] == IsDuplicate(m0, run[n - 1].key, run[n - 1].time, purges)
    requires Remembers(m0, run, answers, n - 1, run[n - 1].time)
    ensures Remembers(AfterSeen(m0, run[n - 1].key, run[n - 1].time, purges), run, answers, n, now)
  {
    var m := AfterSeen(m0, run[n - 1].key, run[n - 1].time, purges);
    forall k | k in m ensures exists j: nat :: Counts(run, answers, n, j, k) && run[j].time == m[k] {
      if k in m0 && m[k] == m0[k] {
        var j: nat :| Counts(run, answers, n - 1, j, k) && run[j].time == m0[k];
        assert Counts(run, answers, n, j, k);
      } else {
        assert Counts(run, answers, n, n - 1, k);
      }
    }
    forall j: nat, k | Counts(run, answers, n, j, k) && now - run[j].time <= TTL ensures k in m && m[k] >= run[j].time {
      if j < n - 1 {
        assert Counts(run, answers, n - 1, j, k);
      }
    }
  }

  /**
   * The exact meaning of an answer: a delivery is refused if and only if one
   * with the same key was processed within the last 24 hours. It does not
   * mention the purge.
   */
  lemma RefusedIff(run: seq<Delivery>, i: nat, purges: bool)
    requires Ordered(run) && i < |run|
    ensures Refused(run, i, purges) <==>
              run[i].key.Some? &&
              exists j: nat ::
                j < i && ProcessedAs(run, j, run[i].key.value, purges) && run[i].time - run[j].time <= TTL
  {
    CacheRemembers(run, i, run[i].time, purges);
    if run[i].key.Some? {
      var key, answers := run[i].key.value, Refusals(run, purges);
      assert forall j: nat :: j < i ==> (Counts(run, answers, i, j, key) <==> ProcessedAs(run, j, key, purges));
    }
  }

  /** Deliveries without an id always go through, and deliveries with one can be refused. */
  lemma NoIdNoRefusal(run: seq<Delivery>, i: nat, provider: string, id: string, purges: bool)
    requires Ordered(run) && i < |run| && run[i].key == KeyOf(provider, id)
    ensures id == "" ==> !Refused(run, i, purges)
    ensures id != "" ==> run[i].key == Some(provider + "|" + id)
  {
    RefusedIff(run, i, purges);
  }

  /** Purging is invisible: every delivery of every run gets the answer the never-purging cache gives. */
  lemma {:induction false} PurgeIsInvisible(run: seq<Delivery>, i: nat)
    requires Ordered(run) && i < |run|
    ensures Refused(run, i, true) <==> Refused(run, i, false)
    decreases i
  {
    forall j: nat | j < i ensures Refused(run, j, true) <==> Refused(run, j, false) {
      PurgeIsInvisible(run, j);
    }
    assert forall j: nat, key :: j < i ==> (ProcessedAs(run, j, key, true) <==> ProcessedAs(run, j, key, false));
    RefusedIff(run, i, true);
    RefusedIff(run, i, false);
  }

  /** Two deliveries processed under one id are more than 24 hours apart. */
  lemma ProcessedApart(run: seq<Delivery>, i: nat, j: nat, key: string)
    requires Ordered(run) && i < j
    requires ProcessedAs(run, i, key, true) && ProcessedAs(run, j, key, true)
    ensures run[j].time - run[i].time > TTL
  {
    RefusedIff(run, j, true);
  }

  /** Providers without a bar never share a key with another provider or id. */
  lemma KeyInjective(p: string, id: string, q: string, jd: string)
    requires '|' !in p && '|' !in q && id != "" && KeyOf(p, id) == KeyOf(q, jd)
    ensures p == q && id == jd
  {
    var a, b := p + "|" + id, q + "|" + jd;
    assert a == b && a[|p|] == '|' && b[|q|] == '|';
    assert forall k :: 0 <= k < |p| ==> a[k] == p[k];
    assert forall k :: 0 <= k < |q| ==> b[k] == q[k];
    assert |p| == |q|;
    assert p == a[..|p|] && q == b[..|p|] && id == a[|p| + 1..] && jd == b[|p| + 1..];
  }
}
