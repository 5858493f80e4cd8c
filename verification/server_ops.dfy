/** What the server does with the store beyond single calls: read marks and the retention sweep. */
module ServerOps {
  import opened Model
  import opened Decimal
  import opened Store
  import opened Unread
  import opened MemoryStore

  // ----- read marks -----

  method MarkReadToMax(store: MemStore, u: string, c: string)
    modifies store
    ensures store.Tables() == Mark(old(store.Tables()), u, c, old(store.Tables()).Top(c))
  {
    var top := store.ChannelMaxSeq(c);
    store.MarkRead(u, c, top);
  }

  /** A foreign or unknown id is refused and moves nothing. */
  method MarkReadByEnvelope(store: MemStore, u: string, c: string, id: string) returns (ok: bool)
    requires ChannelInv(store.Tables(), c) && CursorInv(store.Tables(), u, c)
    modifies store
    ensures ok <==> HasId(old(store.Tables()).Envs(c), id)
    ensures !ok ==> store.Tables() == old(store.Tables())
    ensures ok ==> ReadsUpTo(old(store.Tables()), store.Tables(), u, c, id)
  {
    var found := store.EnvelopeByID(c, id);
    match found {
      case None => return false;
      case Some(e) =>
        ghost var es := store.Tables().Envs(c);
        ghost var i :| 0 <= i < |es| && es[i] == e;
        ghost var before := store.Tables();
        MarkByEnvelopeReads(before, u, c, i);
        store.MarkRead(u, c, e.stamp);
        assert ReadThrough(before, store.Tables(), u, c, i);
        return true;
    }
  }

  /** The envelope with the id and all before it are read now, and none after it that was not read before. */
  ghost predicate ReadsUpTo(s: State, s': State, u: string, c: string, id: string) {
    && s'.Envs(c) == s.Envs(c)
    && (exists i :: 0 <= i < |s.Envs(c)| && s.Envs(c)[i].id == id && ReadThrough(s, s', u, c, i))
  }

  ghost predicate ReadThrough(s: State, s': State, u: string, c: string, i: nat) {
    forall j :: 0 <= j < |s.Envs(c)| ==>
      (s.Envs(c)[j].stamp <= s'.Cursor(u, c) <==> j <= i || s.Envs(c)[j].stamp <= s.Cursor(u, c))
  }

  // ----- the retention sweep -----

  const DAY: int := 24 * 3600 * 1_000_000_000
  const MAX_DAYS := 106751

  /** Two's complement on 64 bits, as time.Duration arithmetic wraps. */
  function Wrap64(i: int): int {
    (i - MIN_INT64) % 0x1_0000_0000_0000_0000 + MIN_INT64
  }

  /** now.Add(-Duration(days) * 24 * Hour). */
  function Cutoff(now: int, days: int): int {
    now + Wrap64(-days * DAY)
  }

  /** The cutoff lies `days` days back exactly up to 106751 days; beyond, the product no longer fits. */
  lemma CutoffExactIff(now: int, days: nat)
    ensures Cutoff(now, days) == now - days * DAY <==> days <= MAX_DAYS
  {}

  /** The nanoseconds of that many days, on 64 bits without a sign. */
  function Wrapped(days: nat): nat {
    (days * DAY) % 0x1_0000_0000_0000_0000
  }

  /** Where the cutoff lies, for every number of days: behind by the wrapped product, or ahead by what it lacks. */
  lemma CutoffIs(now: int, days: nat)
    ensures Cutoff(now, days) == now - Wrapped(days) +
              (if Wrapped(days) <= -MIN_INT64 then 0 else 0x1_0000_0000_0000_0000)
  {}

  /** The cutoff lies in the future exactly when the wrapped product exceeds half the range. */
  lemma CutoffAheadIff(now: int, days: nat)
    ensures Cutoff(now, days) > now <==> Wrapped(days) > -MIN_INT64
  {
    CutoffIs(now, days);
  }

  /** Then a deletion empties any channel, since no message was created in the future. */
  lemma {:induction false} AheadEmpties(es: seq<Envelope>, now: int, cutoff: int)
    requires forall e :: e in es ==> e.createdAt <= now
    requires cutoff > now
    ensures KeptSince(es, cutoff) == []
  {
    if es != [] {
      AheadEmpties(Front(es), now, cutoff);
    }
  }

  /** So what a sweep with that retention leaves of a channel, for every number of days. */
  lemma SweepKeeps(s: State, c: string, now: int)
    requires c in s.channels && s.channels[c].retentionDays.Some? && s.channels[c].retentionDays.value > 0
    requires forall e :: e in s.Envs(c) ==> e.createdAt <= now
    ensures var w := Wrapped(s.channels[c].retentionDays.value);
            SweepOne(s, c, now).Envs(c) == if w <= -MIN_INT64 then KeptSince(s.Envs(c), now - w) else []
  {
    var days := s.channels[c].retentionDays.value;
    CutoffIs(now, days);
    if Wrapped(days) > -MIN_INT64 {
      AheadEmpties(s.Envs(c), now, Cutoff(now, days));
    }
  }

  /** Three retentions beyond 106751 days: everything goes, 25 minutes stay, centuries stay. */
  lemma CutoffWraps(now: int)
    ensures Cutoff(now, MAX_DAYS + 1) > now + 106000 * DAY
    ensures Cutoff(now, 213504) == now - 1_526_290_448_384
    ensures Cutoff(now, 320000) < now - 106000 * DAY
  {}

  /** What the sweep does to one channel. */
  function SweepOne(s: State, c: string, now: int): State {
    if c !in s.channels || s.channels[c].retentionDays.None? then s
    else if s.channels[c].retentionDays.value == 0 then Wipe(s, {c})
    else DeleteBefore(s, c, Cutoff(now, s.channels[c].retentionDays.value))
  }

  function Sweep(s: State, order: seq<string>, now: int): State {
    if order == [] then s else SweepOne(Sweep(s, Front(order), now), Last(order), now)
  }

  /** `order` is the order in which the store lists the channels that have a retention. */
  method SweepEnvelopeRetention(store: MemStore, order: seq<string>, now: int)
    requires forall c :: c in order ==> c in store.channels
    modifies store
    ensures store.Tables() == Sweep(old(store.Tables()), order, now)
  {
    ghost var s := store.Tables();
    for i := 0 to |order|
      invariant store.Tables() == Sweep(s, order[..i], now)
      invariant store.channels == s.channels
    {
      assert Front(order[..i + 1]) == order[..i];
      var c := order[i];
      assert c in order;
      match store.channels[c].retentionDays {
        case None =>
        case Some(days) =>
          if days == 0 {
            store.DeleteEnvelopes(c);
          } else {
            var dropped := store.DeleteEnvelopesBefore(c, Cutoff(now, days));
          }
      }
    }
    assert order[..|order|] == order;
  }

  /** What a channel keeps under its retention. */
  ghost predicate Retained(s: State, s': State, c: string, now: int) {
    c in s.channels && s.channels[c].retentionDays.Some? ==>
      var days := s.channels[c].retentionDays.value;
      && (days == 0 ==> s'.Envs(c) == [])
      && (days != 0 ==> s'.Envs(c) == KeptSince(s.Envs(c), Cutoff(now, days)))
      && (1 <= days <= MAX_DAYS ==> s'.Envs(c) == KeptSince(s.Envs(c), now - days * DAY))
  }

  lemma SweepOneEffect(s: State, d: string, now: int, c: string)
    ensures var s' := SweepOne(s, d, now);
            && s'.channels == s.channels && s'.chanSeq == s.chanSeq && s'.cursors == s.cursors
            && (c != d || c !in s.channels || s.channels[c].retentionDays.None? ==> s'.Envs(c) == s.Envs(c))
            && (c == d ==> Retained(s, s', c, now))
  {
    if d in s.channels && s.channels[d].retentionDays.Some? && s.channels[d].retentionDays.value >= 0 {
      CutoffExactIff(now, s.channels[d].retentionDays.value);
    }
  }

  /**
   * Whatever the order, a sweep leaves each listed channel with exactly its
   * envelopes within its retention, and touches no other channel's.
   */
  lemma {:induction false} SweepEffect(s: State, order: seq<string>, now: int, c: string)
    requires forall i, j :: 0 <= i < j < |order| ==> order[i] != order[j]
    ensures var s' := Sweep(s, order, now);
            && s'.channels == s.channels && s'.chanSeq == s.chanSeq && s'.cursors == s.cursors
            && (c !in order || c !in s.channels || s.channels[c].retentionDays.None? ==> s'.Envs(c) == s.Envs(c))
            && (c in order ==> Retained(s, s', c, now))
  {
    if order != [] {
      SweepEffect(s, Front(order), now, c);
      SplitLast(order);
      SweepOneEffect(Sweep(s, Front(order), now), Last(order), now, c);
    }
  }
}
