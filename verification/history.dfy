/** Chat history, newest page first, in its two implementations: by position in memory, by sequence number in SQL. */
module History {
  import opened Model
  import opened Decimal

  datatype Page = Page(items: seq<Envelope>, nextCursor: string)

  function EffectiveLimit(limit: int): nat {
    if limit <= 0 then 50 else limit
  }

  function Max(a: int, b: int): int {
    if a < b then b else a
  }

  // ----- in memory: a cursor is the 1-based position of the oldest item shown -----

  /** Where the page ends, or None for a cursor the store does not know. */
  function MemEnd(n: nat, before: string): Option<nat> {
    if before == "" then Some(n)
    else
      match ParseInt64(before)
      case None => None
      case Some(p) => if 1 <= p <= n then Some(p - 1) else None
  }

  function MemPage(all: seq<Envelope>, before: string, limit: int): Option<Page> {
    match MemEnd(|all|, before)
    case None => None
    case Some(end) =>
      var start := Max(0, end - EffectiveLimit(limit));
      Some(Page(all[start..end], if start > 0 then Itoa(start + 1) else ""))
  }

  // ----- in SQL: a cursor is the sequence number of the oldest item shown -----

  ghost predicate Increasing(rows: seq<Envelope>) {
    forall i, j :: 0 <= i < j < |rows| ==> rows[i].stamp < rows[j].stamp
  }

  /** WHERE seq < bound. */
  function Below(rows: seq<Envelope>, bound: Option<int>): seq<Envelope> {
    if rows == [] then []
    else Below(Front(rows), bound) + (if bound.None? || Last(rows).stamp < bound.value then [Last(rows)] else [])
  }

  /** ORDER BY seq DESC LIMIT n, for rows stored in increasing order. */
  function NewestFirst(rows: seq<Envelope>, n: nat): (newest: seq<Envelope>)
    ensures |newest| == if n < |rows| then n else |rows|
    ensures forall i :: 0 <= i < |newest| ==> newest[i] == rows[|rows| - 1 - i]
  {
    if n == 0 || rows == [] then [] else [Last(rows)] + NewestFirst(Front(rows), n - 1)
  }

  /** The page the query result stands for. */
  function ChatPage(newest: seq<Envelope>, limit: nat): Page
    requires limit > 0
  {
    var shown := if |newest| > limit then newest[..limit] else newest;
    Page(Reversed(shown), if |newest| > limit then Itoa(newest[limit - 1].stamp) else "")
  }

  function Reversed(s: seq<Envelope>): (r: seq<Envelope>)
    ensures |r| == |s| && forall i :: 0 <= i < |s| ==> r[i] == s[|s| - 1 - i]
  {
    if s == [] then [] else [Last(s)] + Reversed(Front(s))
  }

  /** buildChatPage: trim the look-ahead row, remember the oldest shown, reverse. */
  method BuildChatPage(newest: seq<Envelope>, limit: nat) returns (page: Page)
    requires limit > 0
    ensures page == ChatPage(newest, limit)
  {
    var next, rest := "", newest;
    if |rest| > limit {
      next := Itoa(rest[limit - 1].stamp);
      rest := rest[..limit];
    }
    var items := [];
    var i := |rest|;
    while i > 0
      invariant 0 <= i <= |rest|
      invariant items == Reversed(rest)[..|rest| - i]
    {
      i := i - 1;
      items := items + [rest[i]];
    }
    page := Page(items, next);
  }

  function PgPage(rows: seq<Envelope>, before: string, limit: int): Option<Page> {
    var bound := ParseInt64(before);
    if before != "" && bound.None? then None
    else
      var matching := Below(rows, if before == "" then None else bound);
      Some(ChatPage(NewestFirst(matching, EffectiveLimit(limit) + 1), EffectiveLimit(limit)))
  }

  lemma {:induction false} BelowIsPrefix(rows: seq<Envelope>, p: nat)
    requires Increasing(rows) && p < |rows|
    ensures Below(rows, Some(rows[p].stamp)) == rows[..p]
  {
    var bound := Some(rows[p].stamp);
    if p == |rows| - 1 {
      BelowAll(Front(rows), bound);
    } else {
      BelowIsPrefix(Front(rows), p);
      assert Front(rows)[..p] == rows[..p];
    }
  }

  lemma {:induction false} BelowAll(rows: seq<Envelope>, bound: Option<int>)
    requires bound.Some? ==> forall i :: 0 <= i < |rows| ==> rows[i].stamp < bound.value
    ensures Below(rows, bound) == rows
  {
    if rows != [] {
      BelowAll(Front(rows), bound);
      SplitLast(rows);
    }
  }

  /** A page holds as many rows as asked for, 50 if not asked, unless it is the last. */
  lemma PagesAreFull(sql: bool, all: seq<Envelope>, before: string, limit: int)
    ensures var a := Ask(sql, all, before, limit); var size := if limit <= 0 then 50 else limit;
            a.Some? ==> |a.value.items| <= size && (a.value.nextCursor != "" ==> |a.value.items| == size)
  {}

  /** A cursor is refused exactly if it is no 64-bit numeral, or in memory no position of the list. */
  lemma RefusedIff(sql: bool, all: seq<Envelope>, before: string, limit: int)
    ensures Ask(sql, all, before, limit).None? <==>
              before != "" && forall p :: ParseInt64(before) == Some(p) ==> !sql && (p < 1 || p > |all|)
  {}

  // ----- the two agree -----

  /** The list fits the integer types of the code. */
  ghost predicate Fits(all: seq<Envelope>) {
    |all| < MAX_INT64 && Increasing(all) && forall i :: 0 <= i < |all| ==> IsInt64(all[i].stamp)
  }

  /** Both cursors name the row at the same place, or both ask for the newest page. */
  ghost predicate SamePlace(all: seq<Envelope>, mem: string, pg: string) {
    || (mem == "" && pg == "")
    || (exists p: nat :: p < |all| && mem == Itoa(p + 1) && pg == Itoa(all[p].stamp))
  }

  /** The memory page that ends before position p + 1. */
  lemma MemServes(all: seq<Envelope>, before: string, end: nat, limit: int)
    requires |all| < MAX_INT64 && end <= |all|
    requires if before == "" then end == |all| else end < |all| && before == Itoa(end + 1)
    ensures var start := Max(0, end - EffectiveLimit(limit));
            MemPage(all, before, limit) == Some(Page(all[start..end], if start > 0 then Itoa(start + 1) else ""))
  {
    ParseItoa(end + 1);
  }

  lemma TrimmedPage(all: seq<Envelope>, end: nat, limit: nat)
    requires end <= |all| && limit > 0
    ensures var page := ChatPage(NewestFirst(all[..end], limit + 1), limit);
            var start := Max(0, end - limit);
            page.items == all[start..end] && page.nextCursor == if start > 0 then Itoa(all[start].stamp) else ""
  {
    var newest := NewestFirst(all[..end], limit + 1);
    var page, start := ChatPage(newest, limit), Max(0, end - limit);
    assert |newest| == if limit < end then limit + 1 else end;
    assert |page.items| == end - start;
    forall i | 0 <= i < end - start ensures page.items[i] == all[start + i] {}
    assert page.items == all[start..end];
  }

  /** The SQL page below a bound that the first `end` rows meet. */
  lemma PgFrom(rows: seq<Envelope>, bound: int, end: nat, limit: int)
    requires IsInt64(bound) && end <= |rows| && Below(rows, Some(bound)) == rows[..end]
    ensures var start := Max(0, end - EffectiveLimit(limit));
            PgPage(rows, Itoa(bound), limit) ==
              Some(Page(rows[start..end], if start > 0 then Itoa(rows[start].stamp) else ""))
  {
    ParseItoa(bound);
    ItoaChars(bound);
    TrimmedPage(rows, end, EffectiveLimit(limit));
  }

  /** The SQL page before the row at `end`. */
  lemma PgServes(all: seq<Envelope>, before: string, end: nat, limit: int)
    requires Fits(all) && end <= |all|
    requires if before == "" then end == |all| else end < |all| && before == Itoa(all[end].stamp)
    ensures var start := Max(0, end - EffectiveLimit(limit));
            PgPage(all, before, limit) == Some(Page(all[start..end], if start > 0 then Itoa(all[start].stamp) else ""))
  {
    if before == "" {
      BelowAll(all, None);
      assert all[..|all|] == all;
      TrimmedPage(all, end, EffectiveLimit(limit));
    } else {
      BelowIsPrefix(all, end);
      PgFrom(all, all[end].stamp, end, limit);
    }
  }

  /**
   * At corresponding cursors both implementations serve the same items and hand
   * out corresponding cursors.
   */
  lemma PagersAgree(all: seq<Envelope>, mem: string, pg: string, limit: int)
    requires Fits(all) && SamePlace(all, mem, pg)
    ensures var a, b := MemPage(all, mem, limit), PgPage(all, pg, limit);
            && a.Some? && b.Some? && a.value.items == b.value.items
            && SamePlace(all, a.value.nextCursor, b.value.nextCursor)
  {
    var end: nat := |all|;
    if !(mem == "" && pg == "") {
      end :| end < |all| && mem == Itoa(end + 1) && pg == Itoa(all[end].stamp);
      ItoaChars(end + 1);
      ItoaChars(all[end].stamp);
    }
    MemServes(all, mem, end, limit);
    PgServes(all, pg, end, limit);
  }

  lemma PlacePersists(all: seq<Envelope>, more: seq<Envelope>, mem: string, pg: string)
    requires SamePlace(all, mem, pg) && all <= more
    ensures SamePlace(more, mem, pg)
  {}

  // ----- the walk, with appends in between -----

  /** A client asks with "" and then with every cursor it is given, while the channel only grows. */
  ghost predicate IsWalk(sql: bool, lists: seq<seq<Envelope>>, limits: seq<int>, answers: seq<Option<Page>>) {
    && 0 < |answers| == |lists| == |limits| && Fits(Last(lists))
    && if |answers| == 1 then answers[0] == Ask(sql, lists[0], "", limits[0])
       else
         && IsWalk(sql, Front(lists), Front(limits), Front(answers))
         && Last(Front(lists)) <= Last(lists)
         && Last(Front(answers)).Some? && Last(Front(answers)).value.nextCursor != ""
         && Last(answers) == Ask(sql, Last(lists), Last(Front(answers)).value.nextCursor, Last(limits))
  }

  ghost function Ask(sql: bool, all: seq<Envelope>, before: string, limit: int): Option<Page> {
    if sql then PgPage(all, before, limit) else MemPage(all, before, limit)
  }

  /** The pages received, oldest first. */
  ghost function Collected(answers: seq<Option<Page>>): seq<Envelope> {
    if answers == [] then []
    else (if Last(answers).Some? then Last(answers).value.items else []) + Collected(Front(answers))
  }

  /** How far back a cursor still has to go. */
  ghost predicate Leaves(cursor: string, start: nat) {
    if start == 0 then cursor == "" else cursor == Itoa(start + 1)
  }

  lemma {:induction false} MemWalk(lists: seq<seq<Envelope>>, limits: seq<int>, answers: seq<Option<Page>>)
    returns (start: nat)
    requires IsWalk(false, lists, limits, answers)
    ensures start <= |lists[0]| && lists[0] <= Last(lists)
    ensures Last(answers).Some? && Leaves(Last(answers).value.nextCursor, start)
    ensures Collected(answers) == lists[0][start..]
    ensures start > 0 ==> |answers| <= |lists[0]| - start
  {
    var limit := Last(limits);
    if |answers| == 1 {
      start := Max(0, |lists[0]| - EffectiveLimit(limit));
      MemServes(lists[0], "", |lists[0]|, limit);
      assert Collected(Front(answers)) == [];
    } else {
      var end := MemWalk(Front(lists), Front(limits), Front(answers));
      start := Max(0, end - EffectiveLimit(limit));
      MemContinues(lists[0], Last(lists), end, Last(Front(answers)).value.nextCursor, limit);
    }
  }

  lemma MemContinues(base: seq<Envelope>, all: seq<Envelope>, end: nat, cursor: string, limit: int)
    requires base <= all && end < |base| && Fits(all) && cursor != "" && Leaves(cursor, end)
    ensures var start: nat := Max(0, end - EffectiveLimit(limit)); var answer := MemPage(all, cursor, limit);
            && answer.Some? && Leaves(answer.value.nextCursor, start)
            && answer.value.items + base[end..] == base[start..]
            && (start > 0 ==> start < end)
  {
    MemServes(all, cursor, end, limit);
  }

  /**
   * Reading history backwards while messages arrive: every cursor handed out is
   * accepted, and once none is handed out the pages, oldest first, are exactly
   * the channel as it stood at the first request. A walk of n requests that is
   * not finished has shown at least n messages.
   */
  lemma MemWalkIsComplete(lists: seq<seq<Envelope>>, limits: seq<int>, answers: seq<Option<Page>>)
    requires IsWalk(false, lists, limits, answers)
    ensures Last(answers).Some?
    ensures Last(answers).value.nextCursor == "" ==> Collected(answers) == lists[0]
    ensures Last(answers).value.nextCursor != "" ==> |answers| <= |Collected(answers)| < |lists[0]|
  {
    var start := MemWalk(lists, limits, answers);
    ItoaChars(start + 1);
  }

  /** A walk in SQL is matched, request by request, by the walk in memory. */
  lemma {:induction false} WalksAgree(lists: seq<seq<Envelope>>, limits: seq<int>, answers: seq<Option<Page>>)
    returns (mem: seq<Option<Page>>)
    requires IsWalk(true, lists, limits, answers)
    ensures IsWalk(false, lists, limits, mem)
    ensures Collected(mem) == Collected(answers)
    ensures Last(answers).Some? && Last(mem).Some? && Last(mem).value.items == Last(answers).value.items
    ensures SamePlace(Last(lists), Last(mem).value.nextCursor, Last(answers).value.nextCursor)
  {
    var all, limit := Last(lists), Last(limits);
    if |answers| == 1 {
      PagersAgree(all, "", "", limit);
      mem := [MemPage(all, "", limit)];
      assert Collected(Front(mem)) == Collected(Front(answers)) == [];
    } else {
      var f := WalksAgree(Front(lists), Front(limits), Front(answers));
      var mc, pc := Last(f).value.nextCursor, Last(Front(answers)).value.nextCursor;
      PlacePersists(Last(Front(lists)), all, mc, pc);
      PagersAgree(all, mc, pc, limit);
      mem := f + [MemPage(all, mc, limit)];
      assert Front(mem) == f;
    }
  }

  /** So the SQL walk is complete too. */
  lemma PgWalkIsComplete(lists: seq<seq<Envelope>>, limits: seq<int>, answers: seq<Option<Page>>)
    requires IsWalk(true, lists, limits, answers)
    ensures Last(answers).Some?
    ensures Last(answers).value.nextCursor == "" ==> Collected(answers) == lists[0]
  {
    var mem := WalksAgree(lists, limits, answers);
    MemWalkIsComplete(lists, limits, mem);
    if Last(answers).value.nextCursor == "" && Last(mem).value.nextCursor != "" {
      var p: nat :| p < |Last(lists)| && Last(answers).value.nextCursor == Itoa(Last(lists)[p].stamp);
      ItoaChars(Last(lists)[p].stamp);
    }
  }

  /** The cursor with which an implementation asks for what precedes the row at `start`; "" if nothing does. */
  ghost function CursorAt(sql: bool, all: seq<Envelope>, start: nat): string
    requires start < |all| || start == 0
  {
    if start == 0 then "" else if sql then Itoa(all[start].stamp) else Itoa(start + 1)
  }

  lemma AskServes(sql: bool, all: seq<Envelope>, before: string, end: nat, limit: int)
    requires Fits(all) && end <= |all|
    requires if before == "" then end == |all| else 0 < end < |all| && before == CursorAt(sql, all, end)
    ensures var start: nat := Max(0, end - EffectiveLimit(limit)); var answer := Ask(sql, all, before, limit);
            && answer.Some? && (start < |all| || start == 0) && answer.value.nextCursor == CursorAt(sql, all, start)
            && (start > 0 ==> answer.value.nextCursor != "" && start < end)
  {
    var start: nat := Max(0, end - EffectiveLimit(limit));
    if sql {
      PgServes(all, before, end, limit);
    } else {
      MemServes(all, before, end, limit);
    }
    ItoaChars(start + 1);
    if 0 < start {
      ItoaChars(all[start].stamp);
    }
  }

  /** Reading back always ends: on a channel that stands still every unfinished walk can be finished. */
  lemma {:induction false} WalkOn(sql: bool, all: seq<Envelope>, limit: int, lists: seq<seq<Envelope>>,
                                  limits: seq<int>, answers: seq<Option<Page>>, start: nat)
    returns (lists': seq<seq<Envelope>>, limits': seq<int>, answers': seq<Option<Page>>)
    requires IsWalk(sql, lists, limits, answers) && Last(lists) == all && start < |all| && Last(answers).Some?
    requires start > 0 ==> Last(answers).value.nextCursor != ""
    requires Last(answers).value.nextCursor == CursorAt(sql, all, start)
    ensures IsWalk(sql, lists', limits', answers') && lists <= lists' && answers <= answers' && Last(lists') == all
    ensures Last(answers').Some? && Last(answers').value.nextCursor == ""
    decreases start
  {
    if start == 0 {
      return lists, limits, answers;
    }
    var cursor := Last(answers).value.nextCursor;
    var next := Ask(sql, all, cursor, limit);
    AskServes(sql, all, cursor, start, limit);
    WalkLonger(sql, lists, limits, answers, all, limit);
    lists', limits', answers' :=
      WalkOn(sql, all, limit, lists + [all], limits + [limit], answers + [next], Max(0, start - EffectiveLimit(limit)));
  }

  lemma WalkLonger(sql: bool, lists: seq<seq<Envelope>>, limits: seq<int>, answers: seq<Option<Page>>,
                   all: seq<Envelope>, limit: int)
    requires IsWalk(sql, lists, limits, answers) && Last(lists) <= all && Fits(all)
    requires Last(answers).Some? && Last(answers).value.nextCursor != ""
    ensures var next := Ask(sql, all, Last(answers).value.nextCursor, limit);
            IsWalk(sql, lists + [all], limits + [limit], answers + [next])
  {
    var next := Ask(sql, all, Last(answers).value.nextCursor, limit);
    assert Front(lists + [all]) == lists && Front(limits + [limit]) == limits && Front(answers + [next]) == answers;
  }

  /** From the first request on, in either implementation, for every channel and page size. */
  lemma WalkFinishes(sql: bool, all: seq<Envelope>, limit: int)
    returns (lists: seq<seq<Envelope>>, limits: seq<int>, answers: seq<Option<Page>>)
    requires Fits(all)
    ensures IsWalk(sql, lists, limits, answers) && lists[0] == all
    ensures Last(answers).Some? && Last(answers).value.nextCursor == ""
  {
    var first := Ask(sql, all, "", limit);
    AskServes(sql, all, "", |all|, limit);
    lists, limits, answers := [all], [limit], [first];
    if all != [] {
      lists, limits, answers := WalkOn(sql, all, limit, lists, limits, answers, Max(0, |all| - EffectiveLimit(limit)));
    }
  }
}
