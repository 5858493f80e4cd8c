/** What a history cursor is worth once messages have been deleted, and others have arrived, behind it. */
module HistoryDeletion {
  import opened Model
  import opened Decimal
  import opened History
  import opened Store
  import opened Unread

  /** `now` is what became of `all`: some of its rows, in order, and behind them rows that came later. */
  ghost predicate Outlives(all: seq<Envelope>, now: seq<Envelope>) {
    && Increasing(all) && Increasing(now)
    && (forall e :: e in now ==> e in all || forall f :: f in all ==> f.stamp < e.stamp)
  }

  function Newest(es: seq<Envelope>, n: nat): seq<Envelope> {
    es[Max(0, |es| - n)..]
  }

  /** What a cursor handed out at position p of `all` promises: the newest survivors before that position. */
  function Promised(all: seq<Envelope>, now: seq<Envelope>, p: nat, limit: int): seq<Envelope>
    requires 1 <= p <= |all|
  {
    Newest(Surviving(all[..p - 1], now), EffectiveLimit(limit))
  }

  lemma {:induction false} BelowPrefix(rows: seq<Envelope>, bound: Option<int>)
    requires Increasing(rows)
    ensures Below(rows, bound) <= rows
    ensures forall e :: e in Below(rows, bound) <==> e in rows && (bound.Some? ==> e.stamp < bound.value)
  {
    if rows != [] {
      BelowPrefix(Front(rows), bound);
      SplitLast(rows);
      if bound.None? || Last(rows).stamp < bound.value {
        BelowAll(rows, bound);
      }
    }
  }

  lemma Prefixes(all: seq<Envelope>, p: nat)
    requires Increasing(all) && 1 <= p <= |all|
    ensures Increasing(all[..p - 1])
    ensures forall e :: e in all[..p - 1] <==> e in all && e.stamp < all[p - 1].stamp
  {
    forall e ensures e in all[..p - 1] <==> e in all && e.stamp < all[p - 1].stamp {
      if e in all {
        var i :| 0 <= i < |all| && all[i] == e;
        if i < p - 1 {
          assert all[..p - 1][i] == e;
        }
      }
    }
  }

  /** The survivors before the cursor are the first rows of what is there now, up to the row the cursor names. */
  lemma SurvivorsAreBelow(all: seq<Envelope>, now: seq<Envelope>, p: nat)
    requires Outlives(all, now) && 1 <= p <= |all|
    ensures var q := Surviving(all[..p - 1], now);
            q == Below(now, Some(all[p - 1].stamp)) && q <= now && Increasing(q)
            && (forall e :: e in q <==> e in all[..p - 1] && e in now)
  {
    var bound := all[p - 1].stamp;
    Prefixes(all, p);
    SurvivingIs(all[..p - 1], now);
    BelowPrefix(now, Some(bound));
    assert all[p - 1] in all;
    SortedUnique(Surviving(all[..p - 1], now), Below(now, Some(bound)));
  }

  lemma {:induction false} SurvivingShorter(log: seq<Envelope>, es: seq<Envelope>)
    ensures |Surviving(log, es)| <= |log|
    ensures |Surviving(log, es)| == |log| <==> forall e :: e in log ==> e in es
    ensures |Surviving(log, es)| == |log| ==> Surviving(log, es) == log
  {
    if log != [] {
      SurvivingShorter(Front(log), es);
      SplitLast(log);
    }
  }

  /**
   * The in-memory cursor, exactly: it is refused when fewer rows are left than
   * its position counts, and it shows what it promised if and only if it is not
   * refused and no row before its position was deleted.
   */
  lemma DeletionShiftsCursor(all: seq<Envelope>, now: seq<Envelope>, p: nat, limit: int)
    requires Outlives(all, now) && |all| < MAX_INT64 && 1 < p <= |all|
    ensures var answer := MemPage(now, Itoa(p), limit);
            && (answer.None? <==> p > |now|)
            && (answer.Some? ==> answer.value.items == now[Max(0, p - 1 - EffectiveLimit(limit))..p - 1])
            && (answer.Some? && answer.value.items == Promised(all, now, p, limit) <==>
                  (forall e :: e in all[..p - 1] ==> e in now) && p <= |now|)
  {
    MemShows(now, p, limit);
    if p <= |now| {
      PromisedIff(all, now, p, limit);
    }
  }

  lemma PromisedIff(all: seq<Envelope>, now: seq<Envelope>, p: nat, limit: int)
    requires Outlives(all, now) && 1 < p <= |all| && p <= |now|
    ensures now[Max(0, p - 1 - EffectiveLimit(limit))..p - 1] == Promised(all, now, p, limit) <==>
              forall e :: e in all[..p - 1] ==> e in now
  {
    SurvivorsLead(all, now, p);
    ShownIsPromised(now, Surviving(all[..p - 1], now), p, EffectiveLimit(limit));
  }

  /** The survivors before the cursor come first, and are p - 1 exactly when none is missing. */
  lemma SurvivorsLead(all: seq<Envelope>, now: seq<Envelope>, p: nat)
    requires Outlives(all, now) && 1 <= p <= |all|
    ensures var q := Surviving(all[..p - 1], now);
            && q <= now && |q| <= p - 1
            && (|q| == p - 1 <==> forall e :: e in all[..p - 1] ==> e in now)
  {
    SurvivorsAreBelow(all, now, p);
    SurvivingShorter(all[..p - 1], now);
  }

  lemma MemShows(now: seq<Envelope>, p: nat, limit: int)
    requires 1 <= p < MAX_INT64
    ensures var answer := MemPage(now, Itoa(p), limit);
            && (answer.None? <==> p > |now|)
            && (answer.Some? ==> answer.value.items == now[Max(0, p - 1 - EffectiveLimit(limit))..p - 1])
  {
    ParseItoa(p);
    ItoaChars(p);
  }

  /** Ending at position p is right exactly when p - 1 rows precede the cursor. */
  lemma ShownIsPromised(now: seq<Envelope>, q: seq<Envelope>, p: nat, n: nat)
    requires Increasing(now) && q <= now && |q| <= p - 1 && 1 < p <= |now| && n > 0
    ensures now[Max(0, p - 1 - n)..p - 1] == Newest(q, n) <==> |q| == p - 1
  {
    var shown, promised := now[Max(0, p - 1 - n)..p - 1], Newest(q, n);
    assert Last(shown) == now[p - 2];
    if |q| == p - 1 {
      assert q == now[..p - 1];
    } else if promised != [] {
      assert Last(promised) == q[|q| - 1] == now[|q| - 1];
      assert now[|q| - 1].stamp < now[p - 2].stamp;
    }
  }

  /** The SQL cursor keeps its promise always, even when its own row is gone. */
  lemma PgSurvivesDeletion(all: seq<Envelope>, now: seq<Envelope>, p: nat, limit: int)
    requires Outlives(all, now) && 1 <= p <= |all| && IsInt64(all[p - 1].stamp)
    ensures var answer := PgPage(now, Itoa(all[p - 1].stamp), limit);
            answer.Some? && answer.value.items == Promised(all, now, p, limit)
  {
    var q := Surviving(all[..p - 1], now);
    SurvivorsAreBelow(all, now, p);
    assert q == now[..|q|];
    PgFrom(now, all[p - 1].stamp, |q|, limit);
    NewestIs(now, |q|, EffectiveLimit(limit));
  }

  lemma NewestIs(now: seq<Envelope>, k: nat, n: nat)
    requires k <= |now|
    ensures now[Max(0, k - n)..k] == Newest(now[..k], n)
  {}

  // ----- a retention sweep and new messages between two pages -----

  lemma SweptOutlives(all: seq<Envelope>, more: seq<Envelope>, cutoff: int)
    requires Increasing(all + more) && DistinctIds(all)
    ensures Outlives(all, KeptSince(all, cutoff) + more)
  {
    var kept := KeptSince(all, cutoff);
    IncreasingParts(all, more);
    KeptOrder(all, cutoff);
    KeptIn(all, cutoff);
    forall e, f | e in kept && f in more ensures e.stamp < f.stamp {
      assert e in all;
    }
    JoinIncreasing(kept, more);
  }

  lemma IncreasingParts(a: seq<Envelope>, b: seq<Envelope>)
    requires Increasing(a + b)
    ensures Increasing(a) && Increasing(b)
    ensures forall e, f :: e in a && f in b ==> e.stamp < f.stamp
  {
    var s := a + b;
    forall i, j | 0 <= i < j < |a| ensures a[i].stamp < a[j].stamp {
      assert s[i].stamp < s[j].stamp;
    }
    forall i, j | 0 <= i < j < |b| ensures b[i].stamp < b[j].stamp {
      assert s[|a| + i].stamp < s[|a| + j].stamp;
    }
    forall e, f | e in a && f in b ensures e.stamp < f.stamp {
      var i, j :| 0 <= i < |a| && 0 <= j < |b| && a[i] == e && b[j] == f;
      assert s[i].stamp < s[|a| + j].stamp;
    }
  }

  lemma JoinIncreasing(a: seq<Envelope>, b: seq<Envelope>)
    requires Increasing(a) && Increasing(b)
    requires forall e, f :: e in a && f in b ==> e.stamp < f.stamp
    ensures Increasing(a + b)
  {
    var s := a + b;
    forall i, j | 0 <= i < j < |s| ensures s[i].stamp < s[j].stamp {
      if i < |a| <= j {
        assert s[i] in a && s[j] in b;
      }
    }
  }

  /**
   * After a sweep by creation time and any number of new messages: the in-memory
   * cursor holds if and only if no message before it had expired and the channel
   * is still long enough to reach it; the SQL cursor holds in any case.
   */
  lemma SweepShiftsCursor(all: seq<Envelope>, more: seq<Envelope>, cutoff: int, p: nat, limit: int)
    requires Increasing(all + more) && DistinctIds(all) && |all| < MAX_INT64
    requires 1 < p <= |all| && IsInt64(all[p - 1].stamp)
    ensures var now := KeptSince(all, cutoff) + more;
            var mem, pg := MemPage(now, Itoa(p), limit), PgPage(now, Itoa(all[p - 1].stamp), limit);
            && (mem.Some? && mem.value.items == Promised(all, now, p, limit) <==>
                  (forall i :: 0 <= i < p - 1 ==> all[i].createdAt >= cutoff) && p <= |now|)
            && pg.Some? && pg.value.items == Promised(all, now, p, limit)
  {
    var now := KeptSince(all, cutoff) + more;
    SweptOutlives(all, more, cutoff);
    DeletionShiftsCursor(all, now, p, limit);
    PgSurvivesDeletion(all, now, p, limit);
    forall i | 0 <= i < p - 1 ensures all[i] in now <==> all[i].createdAt >= cutoff {
      KeptIn(all, cutoff);
      IncreasingParts(all, more);
      assert all[i] in all && all[i] in all[..p - 1];
    }
    assert forall i :: 0 <= i < p - 1 ==> all[i] in all[..p - 1];
  }

  // ----- any run of the store between two pages -----

  lemma {:induction false} OldRows(s: State, ops: seq<Op>, c: string)
    requires ChannelInv(s, c)
    ensures ChannelInv(Run(s, ops), c) && s.Top(c) <= Run(s, ops).Top(c)
    ensures forall e :: e in Run(s, ops).Envs(c) ==> e in s.Envs(c) || e.stamp > s.Top(c)
  {
    if ops != [] {
      var now, op := Run(s, Front(ops)), Last(ops);
      OldRows(s, Front(ops), c);
      ApplyKeeps(now, op, c);
      TopForward(now, op, c);
      if !(op.AppendOp? && op.e.channelID == c && IsNew(now, op.e)) {
        NothingNew(now, op, c);
      }
    }
  }

  lemma RunOutlives(past: seq<Op>, ops: seq<Op>, c: string)
    ensures Outlives(Run(EMPTY, past).Envs(c), Run(Run(EMPTY, past), ops).Envs(c))
  {
    AlwaysChannelInv(past, c);
    OldRows(Run(EMPTY, past), ops, c);
  }

  /** The same for whatever the store does between the two requests: appends, sweeps, wipes, deletions. */
  lemma RunShiftsCursor(past: seq<Op>, ops: seq<Op>, c: string, p: nat, limit: int)
    requires var all := Run(EMPTY, past).Envs(c);
             |all| < MAX_INT64 && 1 < p <= |all| && IsInt64(all[p - 1].stamp)
    ensures var all, now := Run(EMPTY, past).Envs(c), Run(Run(EMPTY, past), ops).Envs(c);
            var mem, pg := MemPage(now, Itoa(p), limit), PgPage(now, Itoa(all[p - 1].stamp), limit);
            && (mem.Some? && mem.value.items == Promised(all, now, p, limit) <==>
                  (forall e :: e in all[..p - 1] ==> e in now) && p <= |now|)
            && pg.Some? && pg.value.items == Promised(all, now, p, limit)
  {
    var all, now := Run(EMPTY, past).Envs(c), Run(Run(EMPTY, past), ops).Envs(c);
    RunOutlives(past, ops, c);
    DeletionShiftsCursor(all, now, p, limit);
    PgSurvivesDeletion(all, now, p, limit);
  }
}
