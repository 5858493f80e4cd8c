/** Unread counts are exact, and marking reads what it says. */
module Unread {
  import opened Model
  import opened History
  import opened Store

  function After(es: seq<Envelope>, cursor: int): seq<Envelope> {
    if es == [] then [] else After(Front(es), cursor) + (if Last(es).stamp > cursor then [Last(es)] else [])
  }

  /** The stored copies the run appended to the channel, in order. */
  function Appended(s: State, ops: seq<Op>, c: string): seq<Envelope> {
    if ops == [] then [] else Appended(s, Front(ops), c) + Added(Run(s, Front(ops)), Last(ops), c)
  }

  /** The copy one operation stores on the channel, if any. */
  function Added(s: State, op: Op, c: string): seq<Envelope> {
    if op.AppendOp? && op.e.channelID == c && IsNew(s, op.e) then [Stamped(s, op.e)] else []
  }

  function Surviving(log: seq<Envelope>, es: seq<Envelope>): seq<Envelope> {
    if log == [] then [] else Surviving(Front(log), es) + (if Last(log) in es then [Last(log)] else [])
  }

  lemma {:induction false} AfterIs(es: seq<Envelope>, cursor: int)
    requires Increasing(es)
    ensures Increasing(After(es, cursor))
    ensures forall e :: e in After(es, cursor) <==> e in es && e.stamp > cursor
  {
    if es != [] {
      AfterIs(Front(es), cursor);
      SplitLast(es);
      var f := After(Front(es), cursor);
      forall i | 0 <= i < |f| ensures f[i].stamp < Last(es).stamp {
        assert f[i] in Front(es);
      }
    }
  }

  lemma {:induction false} SurvivingIs(log: seq<Envelope>, es: seq<Envelope>)
    requires Increasing(log)
    ensures Increasing(Surviving(log, es))
    ensures forall e :: e in Surviving(log, es) <==> e in log && e in es
  {
    if log != [] {
      SurvivingIs(Front(log), es);
      SplitLast(log);
      var f := Surviving(Front(log), es);
      forall i | 0 <= i < |f| ensures f[i].stamp < Last(log).stamp {
        assert f[i] in Front(log);
      }
    }
  }

  /** Two increasing lists with the same elements are the same list. */
  lemma {:induction false} SortedUnique(a: seq<Envelope>, b: seq<Envelope>)
    requires Increasing(a) && Increasing(b)
    requires forall e :: e in a <==> e in b
    ensures a == b
  {
    if b != [] {
      assert b[0] in b;
    }
    if a != [] {
      assert Last(a) in b;
      assert Last(b) in a;
      var i :| 0 <= i < |b| && b[i] == Last(a);
      var j :| 0 <= j < |a| && a[j] == Last(b);
      assert Last(a) == Last(b);
      FrontWithout(a);
      FrontWithout(b);
      SortedUnique(Front(a), Front(b));
      SplitLast(a);
      SplitLast(b);
    }
  }

  lemma FrontWithout(a: seq<Envelope>)
    requires a != [] && Increasing(a)
    ensures Increasing(Front(a))
    ensures forall e :: e in Front(a) <==> e in a && e != Last(a)
  {
    SplitLast(a);
    forall e | e in Front(a) ensures e != Last(a) {
      var i :| 0 <= i < |Front(a)| && Front(a)[i] == e;
      assert a[i].stamp < a[|a| - 1].stamp;
    }
  }

  // ----- exactness -----

  function UnreadCount(es: seq<Envelope>, cursor: int): nat {
    if es == [] then 0 else UnreadCount(Front(es), cursor) + (if Last(es).stamp > cursor then 1 else 0)
  }

  lemma {:induction false} CountIsLength(es: seq<Envelope>, cursor: int)
    ensures UnreadCount(es, cursor) == |After(es, cursor)|
  {
    if es != [] {
      CountIsLength(Front(es), cursor);
    }
  }

  /** The user reads nothing on the channel in this run; fetches, other users and other channels are free. */
  ghost predicate NoMark(ops: seq<Op>, u: string, c: string) {
    forall i :: 0 <= i < |ops| ==> !(ops[i].MarkOp? && ops[i].u == u && ops[i].c == c)
  }

  /** `log` holds everything the channel has past sequence number m, and perhaps what is gone again. */
  ghost predicate Logs(s: State, log: seq<Envelope>, c: string, m: int) {
    && ChannelInv(s, c) && m <= s.Top(c)
    && Increasing(log) && (forall e :: e in log ==> m < e.stamp <= s.Top(c))
    && (forall e :: e in s.Envs(c) && e.stamp > m ==> e in log)
  }

  lemma LogsStart(s: State, c: string, m: int)
    requires ChannelInv(s, c) && m <= s.Top(c)
    ensures Logs(s, After(s.Envs(c), m), c, m)
    ensures m == s.Top(c) ==> After(s.Envs(c), m) == []
  {
    AfterIs(s.Envs(c), m);
    var past := After(s.Envs(c), m);
    assert past != [] ==> past[0] in past;
  }

  lemma LogsStep(s: State, log: seq<Envelope>, op: Op, c: string, m: int)
    requires Logs(s, log, c, m)
    ensures Logs(Apply(s, op), log + Added(s, op, c), c, m)
  {
    ApplyKeeps(s, op, c);
    TopForward(s, op, c);
    if op.AppendOp? && op.e.channelID == c && IsNew(s, op.e) {
      assert forall i :: 0 <= i < |log| ==> log[i] in log;
    } else {
      NothingNew(s, op, c);
      assert log + [] == log;
    }
  }

  lemma TopForward(s: State, op: Op, c: string)
    ensures s.Top(c) <= Apply(s, op).Top(c)
  {
    if op.FetchOp? {
      FetchTouchesCursors(s, op.u, op.visited);
    }
  }

  lemma {:induction false} LogsRun(s: State, log: seq<Envelope>, ops: seq<Op>, c: string, m: int)
    requires Logs(s, log, c, m)
    ensures Logs(Run(s, ops), log + Appended(s, ops, c), c, m)
  {
    if ops == [] {
      assert log + [] == log;
    } else {
      LogsRun(s, log, Front(ops), c, m);
      var now, sofar := Run(s, Front(ops)), Appended(s, Front(ops), c);
      LogsStep(now, log + sofar, Last(ops), c, m);
      assert log + sofar + Added(now, Last(ops), c) == log + (sofar + Added(now, Last(ops), c));
    }
  }

  /** Only the user's own mark moves a cursor that exists. */
  lemma KeepsCursor(s: State, op: Op, u: string, c: string)
    requires CursorInv(s, u, c) && s.HasRow(u, c)
    requires !(op.MarkOp? && op.u == u && op.c == c)
    ensures Apply(s, op).HasRow(u, c) && Apply(s, op).Cursor(u, c) == s.Cursor(u, c)
  {
    match op
    case MarkOp(v, d, at) => MarkIs(s, v, d, at, u, c);
    case BaselineOp(v, d) => BaselineForward(s, v, d, u, c);
    case FetchOp(v, visited) => FetchBaselines(s, v, visited, u, c);
    case _ =>
  }

  /** Only storing a new copy puts anything into a channel. */
  lemma NothingNew(s: State, op: Op, c: string)
    requires !(op.AppendOp? && op.e.channelID == c && IsNew(s, op.e))
    ensures forall e :: e in Apply(s, op).Envs(c) ==> e in s.Envs(c)
  {
    forall e | e in Apply(s, op).Envs(c) && e !in s.Envs(c) ensures false {
      OnlyAppendsAdd(s, op, c, e);
    }
  }

  /** A channel's copies are numbered 1, 2, 3, ... over its whole life, whatever is deleted in between. */
  lemma {:induction false} NumbersCount(ops: seq<Op>, c: string)
    ensures var log := Appended(EMPTY, ops, c);
            && Run(EMPTY, ops).Top(c) == |log|
            && forall i :: 0 <= i < |log| ==> log[i].stamp == i + 1
  {
    if ops != [] {
      NumbersCount(Front(ops), c);
      AddedNumber(Run(EMPTY, Front(ops)), Last(ops), c);
    }
  }

  lemma AddedNumber(s: State, op: Op, c: string)
    ensures var added := Added(s, op, c);
            && Apply(s, op).Top(c) == s.Top(c) + |added|
            && (added != [] ==> added[0].stamp == s.Top(c) + 1)
  {
    if op.FetchOp? {
      FetchTouchesCursors(s, op.u, op.visited);
    }
  }

  lemma {:induction false} CursorStays(s: State, ops: seq<Op>, u: string, c: string)
    requires CursorInv(s, u, c) && s.HasRow(u, c) && NoMark(ops, u, c)
    ensures var s' := Run(s, ops);
            CursorInv(s', u, c) && s'.HasRow(u, c) && s'.Cursor(u, c) == s.Cursor(u, c)
  {
    if ops != [] {
      CursorStays(s, Front(ops), u, c);
      assert !(ops[|ops| - 1].MarkOp? && ops[|ops| - 1].u == u && ops[|ops| - 1].c == c);
      KeepsCursor(Run(s, Front(ops)), Last(ops), u, c);
      ApplyForward(Run(s, Front(ops)), Last(ops), u, c);
    }
  }

  /**
   * Over any run whatever: if the user's cursor ends up at m, the unread
   * envelopes are exactly those past m at the start and those stored since, as
   * far as they survive, in order; their number is what the inbox shows.
   */
  lemma UnreadFrom(s: State, ops: seq<Op>, u: string, c: string, m: int)
    requires ChannelInv(s, c) && m <= s.Top(c) && Run(s, ops).Cursor(u, c) == m
    ensures var s' := Run(s, ops); var log := After(s.Envs(c), m) + Appended(s, ops, c);
            && After(s'.Envs(c), m) == Surviving(log, s'.Envs(c))
            && UnreadCount(s'.Envs(c), m) == |Surviving(log, s'.Envs(c))|
  {
    var s', log := Run(s, ops), After(s.Envs(c), m) + Appended(s, ops, c);
    LogsStart(s, c, m);
    LogsRun(s, After(s.Envs(c), m), ops, c, m);
    AfterIs(s'.Envs(c), m);
    SurvivingIs(log, s'.Envs(c));
    SortedUnique(After(s'.Envs(c), m), Surviving(log, s'.Envs(c)));
    CountIsLength(s'.Envs(c), m);
  }

  /**
   * From a caught-up cursor on, over any run of appends, deletions, wipes,
   * fetches and other users' marks, the unread envelopes are exactly those
   * appended since that still survive.
   */
  lemma UnreadIsExact(s: State, ops: seq<Op>, u: string, c: string)
    requires ChannelInv(s, c) && s.HasRow(u, c) && s.Cursor(u, c) == s.Top(c)
    requires NoMark(ops, u, c)
    ensures var s' := Run(s, ops); var survivors := Surviving(Appended(s, ops, c), s'.Envs(c));
            && After(s'.Envs(c), s'.Cursor(u, c)) == survivors
            && UnreadCount(s'.Envs(c), s'.Cursor(u, c)) == |survivors|
  {
    CursorStays(s, ops, u, c);
    UnreadFrom(s, ops, u, c, s.Top(c));
    LogsStart(s, c, s.Top(c));
    assert [] + Appended(s, ops, c) == Appended(s, ops, c);
  }

  /** A first fetch puts the user where UnreadIsExact starts. */
  lemma FirstFetchCatchesUp(s: State, u: string, c: string, visited: seq<string>)
    requires CursorInv(s, u, c) && c in visited && !s.HasRow(u, c)
    ensures var t := Fetch(s, u, visited); t.HasRow(u, c) && t.Cursor(u, c) == t.Top(c)
  {
    FetchBaselines(s, u, visited, u, c);
  }

  /**
   * A mark-all reads the counter and then marks at what it read, m. The cursor is
   * at least there afterwards, and there is a row exactly when there was one or
   * the channel had ever held anything when the counter was read.
   */
  lemma MarkAllCatchesUpIff(s: State, u: string, c: string, m: int)
    requires CursorInv(s, u, c) && 0 <= m <= s.Top(c)
    ensures var t := Mark(s, u, c, m);
            && t.Cursor(u, c) == (if m > s.Cursor(u, c) then m else s.Cursor(u, c))
            && (t.HasRow(u, c) <==> s.HasRow(u, c) || m > 0)
  {
    SetCursorIs(s, u, c, m, u, c);
  }

  /**
   * Over whole runs: whatever happened before a user's first fetch of a channel,
   * the count shown after it, and after any further run without a mark of
   * theirs, is the number of envelopes stored since that first fetch that are
   * still there.
   */
  lemma UnreadSinceFirstFetch(past: seq<Op>, visited: seq<string>, ops: seq<Op>, u: string, c: string)
    requires !Run(EMPTY, past).HasRow(u, c) && c in visited && NoMark(ops, u, c)
    ensures var start := Fetch(Run(EMPTY, past), u, visited); var now := Run(start, ops);
            UnreadCount(now.Envs(c), now.Cursor(u, c)) == |Surviving(Appended(start, ops, c), now.Envs(c))|
  {
    var s := Run(EMPTY, past);
    AlwaysChannelInv(past, c);
    AlwaysCursorInv(past, u, c);
    ApplyKeeps(s, FetchOp(u, visited), c);
    FirstFetchCatchesUp(s, u, c, visited);
    UnreadIsExact(Fetch(s, u, visited), ops, u, c);
  }

  /** A mark-all by user u of channel c in a run: the counter is read first, then anything happens, then the mark. */
  function WithMarkAll(between: seq<Op>, u: string, c: string, m: int, ops: seq<Op>): seq<Op> {
    between + [MarkOp(u, c, m)] + ops
  }

  /**
   * The same from a mark-all on, whose two store calls may have other calls
   * between them: nothing stored after the counter was read counts as read. The
   * channel must have held something or been seen by the user, and nothing else
   * may have taken the cursor further meanwhile.
   */
  lemma UnreadSinceMarkAll(past: seq<Op>, between: seq<Op>, ops: seq<Op>, u: string, c: string)
    requires var m := Run(EMPTY, past).Top(c); var s := Run(Run(EMPTY, past), between);
             (s.HasRow(u, c) || m > 0) && s.Cursor(u, c) <= m
    requires NoMark(ops, u, c)
    ensures var start := Run(EMPTY, past); var all := WithMarkAll(between, u, c, start.Top(c), ops);
            var now := Run(start, all);
            UnreadCount(now.Envs(c), now.Cursor(u, c)) == |Surviving(Appended(start, all, c), now.Envs(c))|
  {
    var start := Run(EMPTY, past);
    var all := WithMarkAll(between, u, c, start.Top(c), ops);
    RunSplit(EMPTY, past, between);
    AlwaysCursorInv(past + between, u, c);
    RunForward(past, between, u, c);
    AlwaysChannelInv(past, c);
    MarkAllHolds(start, between, ops, u, c, start.Top(c));
    UnreadFrom(start, all, u, c, start.Top(c));
    LogsStart(start, c, start.Top(c));
    assert [] + Appended(start, all, c) == Appended(start, all, c);
  }

  /** The cursor a mark-all leaves is where the run leaves it. */
  lemma MarkAllHolds(start: State, between: seq<Op>, ops: seq<Op>, u: string, c: string, m: int)
    requires var s := Run(start, between);
             CursorInv(s, u, c) && 0 <= m <= s.Top(c) && (s.HasRow(u, c) || m > 0) && s.Cursor(u, c) <= m
    requires NoMark(ops, u, c)
    ensures Run(start, WithMarkAll(between, u, c, m, ops)).Cursor(u, c) == m
  {
    var s := Run(start, between);
    RunSplit(start, between, [MarkOp(u, c, m)]);
    RunSplit(start, between + [MarkOp(u, c, m)], ops);
    RunOne(s, MarkOp(u, c, m));
    MarkAllCatchesUpIff(s, u, c, m);
    MarkIs(s, u, c, m, u, c);
    CursorStays(Mark(s, u, c, m), ops, u, c);
  }

  lemma RunOne(s: State, op: Op)
    ensures Run(s, [op]) == Apply(s, op)
  {
    assert Front([op]) == [];
  }

  lemma {:induction false} RunSplit(s: State, a: seq<Op>, b: seq<Op>)
    ensures Run(s, a + b) == Run(Run(s, a), b)
  {
    if b == [] {
      assert a + b == a;
    } else {
      RunSplit(s, a, Front(b));
      assert Front(a + b) == a + Front(b);
    }
  }

  lemma TopIfAny(s: State, c: string)
    requires ChannelInv(s, c)
    ensures s.Envs(c) != [] ==> s.Top(c) >= 1
  {
    if s.Envs(c) != [] {
      assert s.Envs(c)[0].stamp >= 1;
    }
  }

  /** Without a row the mark-all is lost: what arrives next counts as read at the first fetch. */
  lemma MarkAllForgotten(s: State, u: string, e: Envelope)
    requires var c := e.channelID; ChannelInv(s, c) && !s.HasRow(u, c) && s.Top(c) == 0 && IsNew(s, e)
    ensures var c := e.channelID;
            var t := Fetch(Append(Mark(s, u, c, s.Top(c)), e), u, [c]);
            t.Envs(c) == [Stamped(s, e)] && UnreadCount(t.Envs(c), t.Cursor(u, c)) == 0
  {
    var c := e.channelID;
    var t0 := Append(s, e);
    var visited := [c];
    assert Front(visited) == [];
    assert Fetch(t0, u, Front(visited)) == t0;
    BaselineForward(t0, u, c, u, c);
    TopIfAny(s, c);
  }

  /** Marking by envelope reads that envelope and all before it, and none after it unless read before. */
  lemma MarkByEnvelopeReads(s: State, u: string, c: string, i: nat)
    requires ChannelInv(s, c) && CursorInv(s, u, c) && i < |s.Envs(c)|
    ensures var s' := Mark(s, u, c, s.Envs(c)[i].stamp);
            && s'.Envs(c) == s.Envs(c)
            && forall j :: 0 <= j < |s.Envs(c)| ==>
                 (s.Envs(c)[j].stamp <= s'.Cursor(u, c) <==> j <= i || s.Envs(c)[j].stamp <= s.Cursor(u, c))
  {
    MarkIs(s, u, c, s.Envs(c)[i].stamp, u, c);
    var es := s.Envs(c);
    forall j | 0 <= j < |es| ensures j <= i <==> es[j].stamp <= es[i].stamp {
      assert j < i ==> es[j].stamp < es[i].stamp;
      assert i < j ==> es[i].stamp < es[j].stamp;
    }
  }
}
