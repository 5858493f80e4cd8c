/** When the relay keeps the order it promises: exactly when no envelope is sent past a waiting queue. */
module RelayOrder {
  import opened Model
  import opened Relay
  import opened RelayProtocol

  /** The state before the i-th step. */
  ghost function Before(online: bool, steps: seq<Step>, i: nat): State
    requires i <= |steps|
  {
    Exec(online, steps[..i])
  }

  ghost predicate AcceptsOn(step: Step, c: string) {
    step.Outbound? && step.env.channelID == c
  }

  /** Outbound is called for c inside a gap, so that it sends past the queue. */
  ghost predicate OvertakesAt(online: bool, steps: seq<Step>, c: string, i: nat)
    requires i < |steps|
  {
    AcceptsOn(steps[i], c) && Gap(Before(online, steps, i), c)
  }

  ghost predicate NoOvertaking(online: bool, steps: seq<Step>, c: string) {
    forall i: nat :: i < |steps| ==> !OvertakesAt(online, steps, c, i)
  }

  /** Every envelope accepted on c carries an id not accepted on c before. */
  ghost predicate FreshIds(online: bool, steps: seq<Step>, c: string) {
    forall i: nat :: i < |steps| && AcceptsOn(steps[i], c) ==>
      !HasId(Before(online, steps, i).LogOf(c).accepted, steps[i].env.id)
  }

  lemma FrontRun(online: bool, steps: seq<Step>, c: string)
    requires steps != []
    ensures NoOvertaking(online, steps, c) <==>
              NoOvertaking(online, Front(steps), c) && !OvertakesAt(online, steps, c, |steps| - 1)
    ensures FreshIds(online, steps, c) ==> FreshIds(online, Front(steps), c)
  {
    forall i: nat | i < |steps| - 1
      ensures Before(online, steps, i) == Before(online, Front(steps), i)
    {
      assert Front(steps)[..i] == steps[..i];
    }
    if NoOvertaking(online, steps, c) {
      forall i: nat | i < |Front(steps)| ensures !OvertakesAt(online, Front(steps), c, i) {
        assert !OvertakesAt(online, steps, c, i);
      }
    }
    if NoOvertaking(online, Front(steps), c) && !OvertakesAt(online, steps, c, |steps| - 1) {
      forall i: nat | i < |steps| ensures !OvertakesAt(online, steps, c, i) {
        if i < |steps| - 1 {
          assert !OvertakesAt(online, Front(steps), c, i);
        }
      }
    }
  }

  /** One step on the pipeline of a reachable state. */
  lemma StepOnPipeline(online: bool, steps: seq<Step>, c: string)
    requires steps != []
    ensures var s, s' := Exec(online, Front(steps)), Exec(online, steps);
            var v, v' := ViewOf(s, c), ViewOf(s', c);
            var step := Last(steps);
            && (!AcceptsOn(step, c) ==> v'.log.accepted == v.log.accepted && v'.Pipeline() == v.Pipeline())
            && (AcceptsOn(step, c) ==> v'.log.accepted == v.log.accepted + [step.env])
            && (AcceptsOn(step, c) && !Gap(s, c) ==> v'.Pipeline() == v.Pipeline() + [step.env])
            && (AcceptsOn(step, c) && Gap(s, c) ==>
                  && v.queue != [] && v.Pipeline() == v.log.acked + v.queue
                  && v'.Pipeline() == v.log.acked + [step.env] + v.queue)
  {
    var s, step := Exec(online, Front(steps)), Last(steps);
    AlwaysInv(online, Front(steps), c);
    UnmarkedIsIdle(s, c);
    if Enabled(s, step) {
      Refines(s, step, c);
      if Touches(s, step, c) {
        ActOnPipeline(ViewOf(s, c), step, s.shared.online);
      }
    }
  }

  lemma SameElements(p: seq<Envelope>, a: seq<Envelope>, id: string)
    requires multiset(p) == multiset(a)
    ensures HasId(p, id) <==> HasId(a, id)
  {
    if i: nat :| i < |p| && p[i].id == id {
      assert p[i] in multiset(p);
      assert p[i] in a;
    }
    if i: nat :| i < |a| && a[i].id == id {
      assert a[i] in multiset(a);
      assert a[i] in p;
    }
  }

  /**
   * The order promise, exactly: the envelopes accepted on a channel leave in the
   * order of acceptance if and only if Outbound was never called inside a gap.
   * One overtaking is never undone.
   */
  lemma {:induction false} OrderKeptIff(online: bool, steps: seq<Step>, c: string)
    requires FreshIds(online, steps, c)
    ensures var v := ViewOf(Exec(online, steps), c);
            v.Pipeline() == v.log.accepted <==> NoOvertaking(online, steps, c)
  {
    if steps != [] {
      FrontRun(online, steps, c);
      OrderKeptIff(online, Front(steps), c);
      StepOnPipeline(online, steps, c);
      AlwaysInv(online, Front(steps), c);
      assert Before(online, steps, |steps| - 1) == Exec(online, Front(steps));
      var v, v' := ViewOf(Exec(online, Front(steps)), c), ViewOf(Exec(online, steps), c);
      if AcceptsOn(Last(steps), c) {
        if Gap(Exec(online, Front(steps)), c) {
          JumpBreaksOrder(v, v', Last(steps).env);
        } else {
          AppendBoth(v.Pipeline(), v.log.accepted, Last(steps).env);
        }
      }
    }
  }

  /** A new envelope put before a waiting one cannot come last. */
  lemma JumpBreaksOrder(v: View, v': View, env: Envelope)
    requires v.Conserved() && !HasId(v.log.accepted, env.id)
    requires v'.log.accepted == v.log.accepted + [env]
    requires v.queue != [] && v.Pipeline() == v.log.acked + v.queue
    requires v'.Pipeline() == v.log.acked + [env] + v.queue
    ensures v'.Pipeline() != v'.log.accepted
  {
    ConservedIff(v);
    SameElements(v.Pipeline(), v.log.accepted, env.id);
    var p := v.Pipeline();
    assert Last(p) == Last(v.queue) == Last(v'.Pipeline());
    assert p[|p| - 1].id != env.id;
  }

  lemma AppendBoth<T>(a: seq<T>, b: seq<T>, x: T)
    ensures a + [x] == b + [x] <==> a == b
  {
    if a + [x] == b + [x] {
      assert a == (a + [x])[..|a|] && b == (b + [x])[..|b|];
    }
  }

  /** What was accepted has left in order whenever nothing is held or queued. */
  lemma AckedInOrderIff(online: bool, steps: seq<Step>, c: string)
    requires FreshIds(online, steps, c)
    requires var s := Exec(online, steps); c !in s.shared.sending && s.shared.Queue(c) == []
    ensures var l := Exec(online, steps).LogOf(c);
            l.acked == l.accepted <==> NoOvertaking(online, steps, c)
  {
    OrderKeptIff(online, steps, c);
    AlwaysInv(online, steps, c);
    UnmarkedIsIdle(Exec(online, steps), c);
    var v := ViewOf(Exec(online, steps), c);
    assert v.Pipeline() == v.log.acked;
  }

  lemma {:induction false} NoOvertakingKeepsOrder(online: bool, steps: seq<Step>, c: string)
    requires NoOvertaking(online, steps, c)
    ensures var v := ViewOf(Exec(online, steps), c); v.Pipeline() == v.log.accepted
  {
    if steps != [] {
      FrontRun(online, steps, c);
      NoOvertakingKeepsOrder(online, Front(steps), c);
      StepOnPipeline(online, steps, c);
      assert Before(online, steps, |steps| - 1) == Exec(online, Front(steps));
    }
  }

  // ----- what the hub sees -----

  /** h is a with every element repeated at least once, in place. */
  ghost predicate Stutters(h: seq<Envelope>, a: seq<Envelope>) {
    if h == [] then a == []
    else a != [] && Last(h) == Last(a) && (Stutters(Front(h), a) || Stutters(Front(h), Front(a)))
  }

  /** The hub saw the acknowledged envelopes in order, and perhaps already the next one. */
  ghost predicate SeenInOrder(v: View) {
    var rest := v.Held() + v.queue;
    Stutters(v.log.hub, v.log.acked) || (rest != [] && Stutters(v.log.hub, v.log.acked + [rest[0]]))
  }

  lemma StuttersMore(h: seq<Envelope>, a: seq<Envelope>, e: Envelope)
    requires Stutters(h, a) || Stutters(h, a + [e])
    ensures Stutters(h + [e], a + [e])
  {
    assert Front(h + [e]) == h && Front(a + [e]) == a;
  }

  lemma ActKeepsSeen(v: View, step: Step, online: bool)
    requires Fits(v, step) && SeenInOrder(v) && !Jumps(v, step, online)
    ensures SeenInOrder(Act(v, step, online))
  {
    var rest := v.Held() + v.queue;
    var v' := Act(v, step, online);
    var rest' := v'.Held() + v'.queue;
    if step.Send? {
      assert rest[0] == v.sender.value.env;
      if !step.outcome.Lost? {
        StuttersMore(v.log.hub, v.log.acked, rest[0]);
      }
    } else if rest != [] {
      assert rest' != [] && rest'[0] == rest[0];
    }
  }

  lemma {:induction false} SeenInOrderAlways(online: bool, steps: seq<Step>, c: string)
    requires NoOvertaking(online, steps, c)
    ensures SeenInOrder(ViewOf(Exec(online, steps), c))
  {
    if steps != [] {
      var s, step := Exec(online, Front(steps)), Last(steps);
      FrontRun(online, steps, c);
      SeenInOrderAlways(online, Front(steps), c);
      AlwaysInv(online, Front(steps), c);
      UnmarkedIsIdle(s, c);
      assert Before(online, steps, |steps| - 1) == s;
      if Enabled(s, step) {
        Refines(s, step, c);
        if Touches(s, step, c) {
          ActKeepsSeen(ViewOf(s, c), step, s.shared.online);
        }
      }
    }
  }

  /** The first sighting of every id. */
  ghost function Firsts(h: seq<Envelope>): seq<Envelope> {
    if h == [] then []
    else if HasId(Front(h), Last(h).id) then Firsts(Front(h))
    else Firsts(Front(h)) + [Last(h)]
  }

  /** Between two sightings of one id nothing else is seen. */
  ghost predicate RepeatsAdjacent(h: seq<Envelope>) {
    forall i, j, k :: 0 <= i < j < k < |h| && h[i].id == h[k].id ==> h[j].id == h[i].id
  }

  lemma {:induction false} StutterIds(h: seq<Envelope>, a: seq<Envelope>, id: string)
    requires Stutters(h, a)
    ensures HasId(h, id) <==> HasId(a, id)
  {
    if h != [] {
      var a1 := if Stutters(Front(h), a) then a else Front(a);
      StutterIds(Front(h), a1, id);
      HasIdFront(h, id);
      HasIdFront(a, id);
    }
  }

  lemma HasIdFront(es: seq<Envelope>, id: string)
    requires es != []
    ensures HasId(es, id) <==> HasId(Front(es), id) || Last(es).id == id
  {
    if i: nat :| i < |es| && es[i].id == id {
      if i < |es| - 1 {
        assert Front(es)[i].id == id;
      }
    }
    if i: nat :| i < |Front(es)| && Front(es)[i].id == id {
      assert es[i].id == id;
    }
    if Last(es).id == id {
      assert es[|es| - 1].id == id;
    }
  }

  /** With distinct ids, dropping repeats undoes a stutter. */
  lemma {:induction false} StutterFirsts(h: seq<Envelope>, a: seq<Envelope>)
    requires Stutters(h, a) && DistinctIds(a)
    ensures Firsts(h) == a
  {
    if h != [] {
      var f, id := Front(h), Last(h).id;
      HasIdFront(a, id);
      if Stutters(f, a) {
        StutterFirsts(f, a);
        StutterIds(f, a, id);
      } else {
        StutterFirsts(f, Front(a));
        StutterIds(f, Front(a), id);
        assert !HasId(Front(a), id);
      }
    }
  }

  lemma {:induction false} StutterRepeats(h: seq<Envelope>, a: seq<Envelope>)
    requires Stutters(h, a) && DistinctIds(a)
    ensures RepeatsAdjacent(h)
  {
    if h != [] {
      var f, id := Front(h), Last(h).id;
      if Stutters(f, a) {
        StutterRepeats(f, a);
        forall i, j, k | 0 <= i < j < k < |h| && h[i].id == h[k].id ensures h[j].id == h[i].id {
          assert h[|f| - 1].id == id;
          if k == |f| && j < k - 1 {
            assert f[i].id == f[k - 1].id;
          }
          if k < |f| {
            assert f[i].id == f[k].id;
          }
        }
      } else {
        StutterRepeats(f, Front(a));
        StutterIds(f, Front(a), id);
        assert !HasId(f, id);
        forall i, j, k | 0 <= i < j < k < |h| && h[i].id == h[k].id ensures h[j].id == h[i].id {
          assert f[i].id == h[i].id;
          assert k < |f|;
          assert f[k].id == h[k].id;
        }
      }
    }
  }

  lemma {:induction false} AcceptedDistinct(online: bool, steps: seq<Step>, c: string)
    requires FreshIds(online, steps, c)
    ensures DistinctIds(Exec(online, steps).LogOf(c).accepted)
  {
    if steps != [] {
      FrontRun(online, steps, c);
      AcceptedDistinct(online, Front(steps), c);
      StepOnPipeline(online, steps, c);
      assert Before(online, steps, |steps| - 1) == Exec(online, Front(steps));
      var l, l' := Exec(online, Front(steps)).LogOf(c).accepted, Exec(online, steps).LogOf(c).accepted;
      assert l == ViewOf(Exec(online, Front(steps)), c).log.accepted;
      assert l' == ViewOf(Exec(online, steps), c).log.accepted;
      forall i, j | 0 <= i < j < |l'| ensures l'[i].id != l'[j].id {
        if AcceptsOn(Last(steps), c) && j == |l| {
          assert l[i].id != Last(steps).env.id;
        }
      }
    }
  }

  /**
   * Order preserved, at least once, with repeats a receiver can drop: without
   * overtaking, the hub's log for a channel, first sightings only, is a prefix
   * of what was accepted there, and repeats of an id are adjacent.
   */
  lemma HubSeesPrefix(online: bool, steps: seq<Step>, c: string)
    requires NoOvertaking(online, steps, c) && FreshIds(online, steps, c)
    ensures var l := Exec(online, steps).LogOf(c);
            && Firsts(l.hub) <= l.accepted && RepeatsAdjacent(l.hub)
            && l.acked <= Firsts(l.hub) && |Firsts(l.hub)| <= |l.acked| + 1
  {
    SeenInOrderAlways(online, steps, c);
    NoOvertakingKeepsOrder(online, steps, c);
    AcceptedDistinct(online, steps, c);
    SeenPrefix(ViewOf(Exec(online, steps), c));
  }

  lemma SeenPrefix(v: View)
    requires SeenInOrder(v) && v.Pipeline() == v.log.accepted && DistinctIds(v.log.accepted)
    ensures var l := v.log;
            && Firsts(l.hub) <= l.accepted && RepeatsAdjacent(l.hub)
            && l.acked <= Firsts(l.hub) && |Firsts(l.hub)| <= |l.acked| + 1
  {
    var rest := v.Held() + v.queue;
    var seen := if Stutters(v.log.hub, v.log.acked) then v.log.acked else v.log.acked + [rest[0]];
    assert seen == v.log.accepted[..|seen|];
    StutterFirsts(v.log.hub, seen);
    StutterRepeats(v.log.hub, seen);
  }

  // ----- the hub's log at rest: an equivalence -----

  /** The ids of a are among the ids of h, in order. */
  ghost predicate WithinIds(a: seq<Envelope>, h: seq<Envelope>) {
    if a == [] then true
    else h != [] && (WithinIds(a, Front(h)) || (Last(a).id == Last(h).id && WithinIds(Front(a), Front(h))))
  }

  lemma WithinGrows(a: seq<Envelope>, h: seq<Envelope>, e: Envelope)
    requires WithinIds(a, h)
    ensures WithinIds(a, h + [e]) && WithinIds(a + [e], h + [e])
  {
    assert Front(h + [e]) == h && Front(a + [e]) == a;
  }

  lemma ActKeepsWithin(v: View, step: Step, online: bool)
    requires Fits(v, step) && WithinIds(v.log.acked, v.log.hub)
    ensures WithinIds(Act(v, step, online).log.acked, Act(v, step, online).log.hub)
  {
    if step.Send? && !step.outcome.Lost? {
      WithinGrows(v.log.acked, v.log.hub, v.sender.value.env);
    }
  }

  /** Whatever happens, the hub has seen the acknowledged envelopes in the order of their acknowledgement. */
  lemma {:induction false} AckedWithinHub(online: bool, steps: seq<Step>, c: string)
    ensures var l := Exec(online, steps).LogOf(c); WithinIds(l.acked, l.hub)
  {
    if steps != [] {
      var s, step := Exec(online, Front(steps)), Last(steps);
      AckedWithinHub(online, Front(steps), c);
      AlwaysInv(online, Front(steps), c);
      if Enabled(s, step) {
        Refines(s, step, c);
        if Touches(s, step, c) {
          ActKeepsWithin(ViewOf(s, c), step, s.shared.online);
        }
      }
    }
  }

  lemma {:induction false} WithinHas(a: seq<Envelope>, h: seq<Envelope>, id: string)
    requires WithinIds(a, h) && HasId(a, id)
    ensures HasId(h, id)
  {
    HasIdFront(h, id);
    HasIdFront(a, id);
    if WithinIds(a, Front(h)) {
      WithinHas(a, Front(h), id);
    } else if Last(a).id != id {
      WithinHas(Front(a), Front(h), id);
    }
  }

  lemma {:induction false} FirstsHave(h: seq<Envelope>, id: string)
    ensures HasId(Firsts(h), id) <==> HasId(h, id)
  {
    if h != [] {
      FirstsHave(Front(h), id);
      HasIdFront(h, id);
      if !HasId(Front(h), Last(h).id) {
        HasIdFront(Firsts(h), id);
        assert Front(Firsts(h)) == Firsts(Front(h));
      }
    }
  }

  ghost predicate SameIdsInOrder(a: seq<Envelope>, b: seq<Envelope>) {
    |a| == |b| && forall i :: 0 <= i < |a| ==> a[i].id == b[i].id
  }

  /** Distinct ids that cover a log without interleaved repeats, in its order, are its first sightings. */
  lemma {:induction false} WithinIsFirsts(a: seq<Envelope>, h: seq<Envelope>)
    requires WithinIds(a, h) && DistinctIds(a) && RepeatsAdjacent(h)
    requires forall id :: HasId(h, id) ==> HasId(a, id)
    ensures SameIdsInOrder(a, Firsts(h))
  {
    if h == [] {
      NoIdsLeft(a, h);
    } else {
      var f, id := Front(h), Last(h).id;
      AdjacentFront(h);
      forall x ensures HasId(h, x) <==> HasId(f, x) || x == id {
        HasIdFront(h, x);
      }
      if HasId(f, id) {
        if !WithinIds(a, f) {
          WithinSkips(a, f);
        }
        WithinIsFirsts(a, f);
      } else {
        LastIsNew(a, h);
        WithinIsFirsts(Front(a), f);
      }
    }
  }

  lemma NoIdsLeft(a: seq<Envelope>, h: seq<Envelope>)
    requires h == [] && WithinIds(a, h)
    ensures a == []
  {}

  lemma AdjacentFront(h: seq<Envelope>)
    requires RepeatsAdjacent(h) && h != []
    ensures RepeatsAdjacent(Front(h))
    ensures HasId(Front(h), Last(h).id) ==> Last(Front(h)).id == Last(h).id
  {
    var f := Front(h);
    forall i, j, k | 0 <= i < j < k < |f| && f[i].id == f[k].id ensures f[j].id == f[i].id {
      assert h[i].id == h[k].id;
    }
    if i: nat :| i < |f| && f[i].id == Last(h).id {
      if i < |f| - 1 {
        assert h[i].id == h[|f|].id;
      }
    }
  }

  /** When the log's last id repeats the one before it, the last sighting is not needed. */
  lemma WithinSkips(a: seq<Envelope>, f: seq<Envelope>)
    requires a != [] && f != [] && DistinctIds(a) && Last(a).id == Last(f).id && WithinIds(Front(a), f)
    ensures WithinIds(a, f)
  {
    if Front(a) != [] {
      assert a[|a| - 2].id != a[|a| - 1].id;
      assert Last(Front(a)) == a[|a| - 2];
    }
  }

  /** When it is new, it is the last of the covering ids. */
  lemma LastIsNew(a: seq<Envelope>, h: seq<Envelope>)
    requires h != [] && WithinIds(a, h) && DistinctIds(a) && !HasId(Front(h), Last(h).id)
    requires forall id :: HasId(h, id) ==> HasId(a, id)
    ensures a != [] && Last(a).id == Last(h).id && WithinIds(Front(a), Front(h)) && DistinctIds(Front(a))
    ensures forall id :: HasId(Front(h), id) ==> HasId(Front(a), id)
  {
    var id := Last(h).id;
    HasIdFront(h, id);
    assert HasId(a, id);
    if WithinIds(a, Front(h)) {
      WithinHas(a, Front(h), id);
    }
    forall x | HasId(Front(h), x) ensures HasId(Front(a), x) {
      HasIdFront(h, x);
      HasIdFront(a, x);
    }
  }

  lemma {:induction false} DistinctCount(a: seq<Envelope>, e: Envelope)
    requires DistinctIds(a)
    ensures multiset(a)[e] <= 1
  {
    if a != [] {
      DistinctCount(Front(a), e);
      SplitLast(a);
      if e == Last(a) {
        assert e !in Front(a);
      }
    }
  }

  /** A rearrangement of distinct ids, with the ids in the same order, is no rearrangement. */
  lemma SameOrderSame(a: seq<Envelope>, b: seq<Envelope>)
    requires multiset(a) == multiset(b) && DistinctIds(b) && SameIdsInOrder(a, b)
    ensures a == b
  {
    forall i | 0 <= i < |a| ensures a[i] == b[i] {
      assert a[i] in multiset(a);
      var j :| 0 <= j < |b| && b[j] == a[i];
      assert b[j].id == b[i].id;
    }
  }

  lemma CountsTwice(a: seq<Envelope>, i: nat, j: nat)
    requires i < j < |a|
    ensures a[i] == a[j] ==> multiset(a)[a[i]] >= 2
  {
    assert a == a[..j] + a[j..] && a[i] in a[..j] && a[j] in a[j..];
    assert multiset(a) == multiset(a[..j]) + multiset(a[j..]);
  }

  lemma RearrangedDistinct(a: seq<Envelope>, b: seq<Envelope>)
    requires multiset(a) == multiset(b) && DistinctIds(b)
    ensures DistinctIds(a)
  {
    forall i, j | 0 <= i < j < |a| ensures a[i].id != a[j].id {
      assert a[i] in multiset(a) && a[j] in multiset(a);
      var x, y :| 0 <= x < |b| && 0 <= y < |b| && b[x] == a[i] && b[y] == a[j];
      DistinctCount(b, a[i]);
      CountsTwice(a, i, j);
    }
  }

  /**
   * At rest the order a receiver sees is an exact witness: the hub's log, first
   * sightings only, is what was accepted, with repeats of an id adjacent, if and
   * only if nothing was ever sent past a waiting queue.
   */
  lemma HubOrderIff(online: bool, steps: seq<Step>, c: string)
    requires FreshIds(online, steps, c)
    requires var s := Exec(online, steps); c !in s.shared.sending && s.shared.Queue(c) == []
    ensures var l := Exec(online, steps).LogOf(c);
            Firsts(l.hub) == l.accepted && RepeatsAdjacent(l.hub) <==> NoOvertaking(online, steps, c)
  {
    var l := Exec(online, steps).LogOf(c);
    AckedInOrderIff(online, steps, c);
    AcceptedDistinct(online, steps, c);
    QuietMeansDelivered(online, steps, c);
    if NoOvertaking(online, steps, c) {
      HubSeesPrefix(online, steps, c);
    }
    if Firsts(l.hub) == l.accepted && RepeatsAdjacent(l.hub) {
      AckedWithinHub(online, steps, c);
      SeenIsAcked(l);
    }
  }

  lemma SeenIsAcked(l: Log)
    requires Firsts(l.hub) == l.accepted && RepeatsAdjacent(l.hub) && DistinctIds(l.accepted)
    requires WithinIds(l.acked, l.hub) && multiset(l.accepted) == multiset(l.acked)
    ensures l.acked == l.accepted
  {
    RearrangedDistinct(l.acked, l.accepted);
    forall id | HasId(l.hub, id) ensures HasId(l.acked, id) {
      FirstsHave(l.hub, id);
      SameElements(l.accepted, l.acked, id);
    }
    WithinIsFirsts(l.acked, l.hub);
    SameOrderSame(l.acked, l.accepted);
  }

  // ----- the promise does not hold as it stands -----

  lemma Then(online: bool, steps: seq<Step>, step: Step)
    ensures Exec(online, steps + [step]) == Taken(Exec(online, steps), step)
  {
    assert Front(steps + [step]) == steps;
  }

  lemma ThenTwo(online: bool, steps: seq<Step>, x: Step, y: Step)
    ensures Exec(online, steps + [x, y]) == Taken(Taken(Exec(online, steps), x), y)
  {
    Then(online, steps, x);
    Then(online, steps + [x], y);
    assert steps + [x] + [y] == steps + [x, y];
  }

  lemma QueuedWhileOffline(a: Envelope)
    ensures var c := a.channelID; var s := Exec(false, [Outbound(a), HubOnline]);
            && s.shared.online && s.shared.Queue(c) == [a] && s.shared.sending == {}
            && s.threads == [] && s.LogOf(c) == Log([a], [], [])
  {
    ThenTwo(false, [], Outbound(a), HubOnline);
    assert [] + [Outbound(a), HubOnline] == [Outbound(a), HubOnline];
  }

  /** Accepted between the reconnect and its drain, b reaches the hub before the waiting a. */
  lemma ReconnectOvertakes(a: Envelope, b: Envelope)
    requires a.channelID == b.channelID
    ensures var steps := [Outbound(a), HubOnline, Outbound(b), Send(0, Delivered)];
            Exec(false, steps).LogOf(a.channelID) == Log([a, b], [b], [b])
  {
    var first := [Outbound(a), HubOnline];
    QueuedWhileOffline(a);
    ThenTwo(false, first, Outbound(b), Send(0, Delivered));
    SentDirectly(Exec(false, first), b);
    assert first + [Outbound(b), Send(0, Delivered)] == [Outbound(a), HubOnline, Outbound(b), Send(0, Delivered)];
  }

  /** With the hub up and the channel unmarked, Outbound's envelope goes out at once. */
  lemma SentDirectly(s: State, b: Envelope)
    requires SendsDirectly(s.shared, b.channelID)
    ensures var c := b.channelID; var l := s.LogOf(c);
            Taken(Taken(s, Outbound(b)), Send(|s.threads|, Delivered)).LogOf(c) ==
              Log(l.accepted + [b], l.acked + [b], l.hub + [b])
  {
    var s1 := Taken(s, Outbound(b));
    assert s1.threads[|s.threads|] == Thread(b.channelID, Sending(b));
  }

  /** A sender that found its queue empty is about to leave. */
  lemma AboutToLeave(a: Envelope)
    ensures var s := Exec(true, [Outbound(a), Send(0, Delivered), Take(0)]);
            var c := a.channelID;
            && s.shared.online && s.shared.Queue(c) == [] && s.shared.sending == {c}
            && s.threads == [Thread(c, Leaving(1, false))] && s.LogOf(c) == Log([a], [a], [a])
  {
    var s0, s1, s2 := Outbound(a), Send(0, Delivered), Take(0);
    Then(true, [], s0);
    Then(true, [s0], s1);
    Then(true, [s0, s1], s2);
    assert [] + [s0] == [s0] && [s0] + [s1] == [s0, s1] && [s0, s1] + [s2] == [s0, s1, s2];
  }

  /**
   * It takes no outage: b arrives between the sender's empty check and its
   * leaving, and stays queued while the later d goes out.
   */
  lemma LateAppendOvertaken(a: Envelope, b: Envelope, d: Envelope)
    requires a.channelID == b.channelID == d.channelID
    ensures var steps := [Outbound(a), Send(0, Delivered), Take(0), Outbound(b), Step.Leave(0),
                          Outbound(d), Send(1, Delivered)];
            Exec(true, steps).LogOf(a.channelID) == Log([a, b, d], [a, d], [a, d])
  {
    AboutToLeave(a);
    var r0 := [Outbound(a), Send(0, Delivered), Take(0)];
    var r1, r2, r3, r4 := r0 + [Outbound(b)], r0 + [Outbound(b), Step.Leave(0)],
                          r0 + [Outbound(b), Step.Leave(0), Outbound(d)],
                          r0 + [Outbound(b), Step.Leave(0), Outbound(d), Send(1, Delivered)];
    Then(true, r0, Outbound(b));
    Then(true, r1, Step.Leave(0));
    Then(true, r2, Outbound(d));
    Then(true, r3, Send(1, Delivered));
    assert r1 + [Step.Leave(0)] == r2 && r2 + [Outbound(d)] == r3 && r3 + [Send(1, Delivered)] == r4;
    assert r4 == [Outbound(a), Send(0, Delivered), Take(0), Outbound(b), Step.Leave(0),
                  Outbound(d), Send(1, Delivered)];
  }

  /** b waits behind a, whose sending fails. */
  lemma QueuedBehind(a: Envelope, b: Envelope)
    requires a.channelID == b.channelID
    ensures var c := a.channelID; var s := Exec(true, [Outbound(a), Outbound(b)]);
            && s.shared.online && s.shared.queues.Keys == {c} && s.shared.Queue(c) == [b] && s.shared.sending == {c}
            && s.threads == [Thread(c, Sending(a))] && !s.draining
  {
    ThenTwo(true, [], Outbound(a), Outbound(b));
    assert [] + [Outbound(a), Outbound(b)] == [Outbound(a), Outbound(b)];
  }

  lemma FailsOnce(s: State, t: nat, env: Envelope)
    requires t < |s.threads| && s.threads[t].at == Sending(env)
    ensures Taken(Taken(s, Send(t, Lost)), MarkOffline(t)) ==
              Move(s, t, Returning(env)).(shared := SetOnline(s.shared, false))
  {}

  /** A drain passes over a channel that is still marked. */
  lemma DrainPasses(s: State, c: string)
    requires !s.draining && c in s.shared.sending && s.shared.queues.Keys == {c}
    ensures Taken(Taken(s, HubOnline), DrainAll([c])) == s.(shared := SetOnline(s.shared, true))
  {
    var s1 := Taken(s, HubOnline);
    assert Front([c]) == [] && DrainChannels(s1, [c]) == s1;
  }

  lemma GivesUp(s: State, t: nat, env: Envelope)
    requires t < |s.threads| && s.threads[t].at == Returning(env)
    ensures var c := s.threads[t].channel;
            Taken(Taken(s, Return(t)), Step.Leave(t)).shared == Relay.Leave(PutBack(s.shared, c, env), c)
  {}

  /**
   * A drain passes over a sender that is failing just then, and the sender
   * leaves both envelopes behind: the hub is up, nobody sends, and no drain is
   * due.
   */
  lemma DrainMissesFailing(a: Envelope, b: Envelope)
    requires a.channelID == b.channelID
    ensures var c := a.channelID;
            var steps := [Outbound(a), Outbound(b)] + [Send(0, Lost), MarkOffline(0)] + [HubOnline, DrainAll([c])]
                         + [Return(0), Step.Leave(0)];
            var s := Exec(true, steps);
            Gap(s, c) && s.shared.Queue(c) == [a, b]
  {
    var c := a.channelID;
    var r1 := [Outbound(a), Outbound(b)];
    var r2 := r1 + [Send(0, Lost), MarkOffline(0)];
    var r3 := r2 + [HubOnline, DrainAll([c])];
    QueuedBehind(a, b);
    ThenTwo(true, r1, Send(0, Lost), MarkOffline(0));
    FailsOnce(Exec(true, r1), 0, a);
    ThenTwo(true, r2, HubOnline, DrainAll([c]));
    DrainPasses(Exec(true, r2), c);
    ThenTwo(true, r3, Return(0), Step.Leave(0));
    GivesUp(Exec(true, r3), 0, a);
  }
}
