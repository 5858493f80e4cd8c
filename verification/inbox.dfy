/** The aggregate inbox: the in-place sort, one page, and the walk over pages while rows move. */
module Inbox {
  import opened Model
  import opened Decimal
  import opened InboxKey

  // ----- the in-place sort -----

  ghost predicate InOrder(vs: seq<Item>) {
    forall p, q :: 0 <= p < q < |vs| ==> !Precedes(vs[q].Key(), vs[p].Key())
  }

  ghost predicate DistinctRows(vs: seq<Item>) {
    forall p, q :: 0 <= p < q < |vs| ==> vs[p].networkID != vs[q].networkID || vs[p].id != vs[q].id
  }

  ghost predicate StrictlySorted(vs: seq<Item>) {
    forall p, q :: 0 <= p < q < |vs| ==> Precedes(vs[p].Key(), vs[q].Key())
  }

  /** Rows keep their identity and differ in it, so sorting them leaves one order only. */
  lemma SortedIsStrict(vs: seq<Item>)
    requires InOrder(vs) && DistinctRows(vs)
    ensures StrictlySorted(vs)
  {
    forall p, q | 0 <= p < q < |vs| ensures Precedes(vs[p].Key(), vs[q].Key()) {
      PrecedesTotal(vs[p].Key(), vs[q].Key());
    }
  }

  lemma NotAfterTrans(a: CursorKey, b: CursorKey, c: CursorKey)
    requires !Precedes(b, a) && !Precedes(c, b)
    ensures !Precedes(c, a)
  {
    PrecedesTotal(a, b);
    PrecedesTotal(b, c);
    if Precedes(c, a) && a != b && b != c {
      PrecedesTrans(a, b, c);
      PrecedesTotal(a, c);
    }
  }

  /** All in order but for the row at j, which still sinks towards the front. */
  ghost predicate Sinking(vs: seq<Item>, n: nat, j: nat) {
    && j < n <= |vs|
    && (forall p, q :: 0 <= p < q < n && q != j ==> !Precedes(vs[q].Key(), vs[p].Key()))
  }

  lemma SinkStep(vs: seq<Item>, n: nat, j: nat)
    requires j > 0 && Sinking(vs, n, j) && Precedes(vs[j].Key(), vs[j - 1].Key())
    ensures Sinking(vs[j := vs[j - 1]][j - 1 := vs[j]], n, j - 1)
  {
    PrecedesTotal(vs[j].Key(), vs[j - 1].Key());
  }

  lemma SinkDone(vs: seq<Item>, n: nat, j: nat)
    requires Sinking(vs, n, j) && (j == 0 || !Precedes(vs[j].Key(), vs[j - 1].Key()))
    ensures InOrder(vs[..n])
  {
    forall p | 0 <= p < j ensures !Precedes(vs[j].Key(), vs[p].Key()) {
      if p < j - 1 {
        NotAfterTrans(vs[p].Key(), vs[j - 1].Key(), vs[j].Key());
      }
    }
  }

  lemma SwapPermutes(vs: seq<Item>, j: nat)
    requires 0 < j < |vs|
    ensures multiset(vs[j := vs[j - 1]][j - 1 := vs[j]]) == multiset(vs)
  {}

  /** In order means: newest activity first, at equal activity network ids descending, then ids descending. */
  lemma InOrderIff(vs: seq<Item>)
    ensures InOrder(vs) <==>
              forall p, q :: 0 <= p < q < |vs| ==>
                && vs[p].nano >= vs[q].nano
                && (vs[p].nano == vs[q].nano ==> !StrLess(vs[p].networkID, vs[q].networkID))
                && (vs[p].nano == vs[q].nano && vs[p].networkID == vs[q].networkID ==> !StrLess(vs[p].id, vs[q].id))
  {
    forall p, q | 0 <= p < q < |vs|
      ensures !Precedes(vs[q].Key(), vs[p].Key()) <==>
                && vs[p].nano >= vs[q].nano
                && (vs[p].nano == vs[q].nano ==> !StrLess(vs[p].networkID, vs[q].networkID))
                && (vs[p].nano == vs[q].nano && vs[p].networkID == vs[q].networkID ==> !StrLess(vs[p].id, vs[q].id))
    {
      StrLessTotal(vs[p].networkID, vs[q].networkID);
    }
  }

  /** sortInboxViews: swap each row towards the front while it precedes its neighbour. */
  method SortInboxViews(a: array<Item>)
    modifies a
    ensures InOrder(a[..])
    ensures forall p, q :: 0 <= p < q < a.Length ==> a[p].nano >= a[q].nano
    ensures multiset(a[..]) == multiset(old(a[..]))
  {
    var i := 1;
    while i < a.Length
      invariant 1 <= i && (a.Length > 0 ==> i <= a.Length)
      invariant InOrder(a[..if i <= a.Length then i else a.Length])
      invariant multiset(a[..]) == multiset(old(a[..]))
    {
      var j := i;
      while j > 0 && Precedes(a[j].Key(), a[j - 1].Key())
        invariant 0 <= j <= i
        invariant Sinking(a[..], i + 1, j)
        invariant multiset(a[..]) == multiset(old(a[..]))
      {
        ghost var vs := a[..];
        SinkStep(vs, i + 1, j);
        SwapPermutes(vs, j);
        a[j], a[j - 1] := a[j - 1], a[j];
        assert a[..] == vs[j := vs[j - 1]][j - 1 := vs[j]];
        j := j - 1;
      }
      SinkDone(a[..], i + 1, j);
      assert a[..][..i + 1] == a[..i + 1];
      i := i + 1;
    }
    assert a[..if i <= a.Length then i else a.Length] == a[..];
    InOrderIff(a[..]);
  }

  // ----- one page -----

  datatype Page = Page(items: seq<Item>, lastKey: CursorKey, hasMore: bool)

  /** The first row strictly below the cursor. */
  function StartAt(vs: seq<Item>, after: Option<CursorKey>): (i: nat)
    ensures i <= |vs|
    ensures after.Some? ==> forall j :: 0 <= j < i ==> !Precedes(after.value, vs[j].Key())
    ensures after.Some? && i < |vs| ==> Precedes(after.value, vs[i].Key())
    ensures after.None? ==> i == 0
  {
    if after.None? || vs == [] || Precedes(after.value, vs[0].Key()) then 0
    else 1 + StartAt(vs[1..], after)
  }

  function Min(a: int, b: int): int {
    if a < b then a else b
  }

  function PageOf(vs: seq<Item>, after: Option<CursorKey>, limit: nat): Page {
    var start := StartAt(vs, after);
    var end := Min(start + limit, |vs|);
    Page(vs[start..end], if end > start then vs[end - 1].Key() else CursorKey(0, "", ""), end < |vs|)
  }

  lemma StartAtIs(vs: seq<Item>, after: CursorKey, i: nat)
    requires i <= |vs|
    requires forall j :: 0 <= j < i ==> !Precedes(after, vs[j].Key())
    requires i < |vs| ==> Precedes(after, vs[i].Key())
    ensures StartAt(vs, Some(after)) == i
  {}

  method SliceInbox(views: seq<Item>, after: CursorKey, hasCursor: bool, limit: nat) returns (page: Page)
    ensures page == PageOf(views, if hasCursor then Some(after) else None, limit)
  {
    var start := 0;
    if hasCursor {
      while start < |views| && !Precedes(after, views[start].Key())
        invariant start <= |views|
        invariant forall j :: 0 <= j < start ==> !Precedes(after, views[j].Key())
      {
        start := start + 1;
      }
      StartAtIs(views, after, start);
    }
    var end := start + limit;
    if end > |views| {
      end := |views|;
    }
    var items := [];
    for k := start to end
      invariant items == views[start..k]
    {
      items := items + [views[k]];
    }
    var lastKey := CursorKey(0, "", "");
    if end > start {
      lastKey := views[end - 1].Key();
    }
    page := Page(items, lastKey, end < |views|);
  }

  const DEFAULT_LIMIT := 50
  const MAX_LIMIT := 100

  function Clamp(limit: int): nat {
    if limit <= 0 then DEFAULT_LIMIT else Min(limit, MAX_LIMIT)
  }

  /** The answer to one request: rows, and the cursor of the next page or "". */
  datatype Response = Response(items: seq<Item>, nextCursor: string)

  function Paginate(vs: seq<Item>, limit: int, cursor: string): Option<Response> {
    if cursor != "" && Decode(cursor).None? then None
    else
      var page := PageOf(vs, if cursor == "" then None else Decode(cursor), Clamp(limit));
      Some(Response(page.items, if page.hasMore then Encode(page.lastKey) else ""))
  }

  /** A page holds as many rows as asked for, 50 if not asked and 100 at most, unless it is the last. */
  lemma PagesAreFull(vs: seq<Item>, limit: int, cursor: string)
    ensures var a := Paginate(vs, limit, cursor);
            var size := if limit <= 0 then 50 else if limit > 100 then 100 else limit;
            a.Some? ==> |a.value.items| <= size && (a.value.nextCursor != "" ==> |a.value.items| == size)
  {}

  // ----- the walk -----

  /** A walk: each page is cut from the rows as they stand at that moment, below the last key of the page before. */
  ghost predicate IsWalk(snaps: seq<seq<Item>>, limits: seq<nat>, pages: seq<Page>) {
    && 0 < |pages| == |snaps| == |limits|
    && Last(limits) > 0 && StrictlySorted(Last(snaps))
    && if |pages| == 1 then pages[0] == PageOf(snaps[0], None, limits[0])
       else
         && IsWalk(Front(snaps), Front(limits), Front(pages))
         && Last(Front(pages)).hasMore
         && Last(pages) == PageOf(Last(snaps), Some(Last(Front(pages)).lastKey), Last(limits))
  }

  ghost function Emitted(pages: seq<Page>): seq<Item> {
    if pages == [] then [] else Emitted(Front(pages)) + Last(pages).items
  }

  /** The key is shown by some row of the snapshot. */
  ghost predicate Shows(vs: seq<Item>, k: CursorKey) {
    exists i :: 0 <= i < |vs| && vs[i].Key() == k
  }

  /** The key is not below the cursor k1: a walk standing at k1 has passed it. */
  ghost predicate Passed(k: CursorKey, k1: CursorKey) {
    k == k1 || Precedes(k, k1)
  }

  /** Where the rows below the cursor start, in sorted rows. */
  lemma StartCuts(vs: seq<Item>, after: CursorKey, i: nat)
    requires StrictlySorted(vs) && i < |vs|
    ensures Precedes(after, vs[i].Key()) <==> StartAt(vs, Some(after)) <= i
  {
    var start := StartAt(vs, Some(after));
    if start < i {
      PrecedesTrans(after, vs[start].Key(), vs[i].Key());
    }
  }

  /** The page ends with its last key, which every row of it has passed and no later row has. */
  lemma PageEnds(vs: seq<Item>, after: Option<CursorKey>, limit: nat)
    requires StrictlySorted(vs) && limit > 0
    ensures var p := PageOf(vs, after, limit);
            && StrictlySorted(p.items)
            && (p.hasMore ==> p.items != [])
            && (p.items != [] ==> Last(p.items).Key() == p.lastKey)
            && (forall i :: 0 <= i < |p.items| ==> Passed(p.items[i].Key(), p.lastKey))
  {}

  lemma PageIsBelow(vs: seq<Item>, after: CursorKey, limit: nat)
    requires StrictlySorted(vs)
    ensures forall x :: x in PageOf(vs, Some(after), limit).items ==> Precedes(after, x.Key())
  {
    var p, start := PageOf(vs, Some(after), limit), StartAt(vs, Some(after));
    forall i | 0 <= i < |p.items| ensures Precedes(after, p.items[i].Key()) {
      StartCuts(vs, after, start + i);
    }
  }

  /** The page leaves out no row between the cursor and its own last key. */
  lemma PageIsComplete(vs: seq<Item>, after: Option<CursorKey>, limit: nat, k: CursorKey)
    requires StrictlySorted(vs) && limit > 0 && Shows(vs, k)
    requires after.Some? ==> Precedes(after.value, k)
    requires PageOf(vs, after, limit).hasMore ==> Passed(k, PageOf(vs, after, limit).lastKey)
    ensures Shows(PageOf(vs, after, limit).items, k)
  {
    var p, start := PageOf(vs, after, limit), StartAt(vs, after);
    var end := Min(start + limit, |vs|);
    var i :| 0 <= i < |vs| && vs[i].Key() == k;
    if after.Some? {
      StartCuts(vs, after.value, i);
    }
    if i >= end {
      PrecedesTotal(k, p.lastKey);
    }
    assert p.items[i - start].Key() == k;
  }

  ghost predicate AlwaysShown(snaps: seq<seq<Item>>, k: CursorKey) {
    forall i :: 0 <= i < |snaps| ==> Shows(snaps[i], k)
  }

  /** After any number of pages: what came out is sorted, and complete down to where the walk stands. */
  ghost predicate WalkSoFar(snaps: seq<seq<Item>>, pages: seq<Page>)
    requires pages != []
  {
    var out, last := Emitted(pages), Last(pages);
    && StrictlySorted(out)
    && (last.hasMore ==> forall i :: 0 <= i < |out| ==> Passed(out[i].Key(), last.lastKey))
    && (forall k :: AlwaysShown(snaps, k) && (last.hasMore ==> Passed(k, last.lastKey)) ==> Shows(out, k))
  }

  lemma {:induction false} WalkKeeps(snaps: seq<seq<Item>>, limits: seq<nat>, pages: seq<Page>)
    requires IsWalk(snaps, limits, pages)
    ensures WalkSoFar(snaps, pages)
  {
    var n := |pages|;
    var vs, page := Last(snaps), Last(pages);
    if n == 1 {
      assert snaps == [vs] && pages == [page];
      WalkStarts(vs, limits[0]);
    } else {
      var f := Front(pages);
      WalkKeeps(Front(snaps), Front(limits), f);
      WalkStep(snaps, f, page, vs, Last(f).lastKey, Last(limits));
      assert f + [page] == pages;
    }
  }

  lemma WalkStarts(vs: seq<Item>, limit: nat)
    requires StrictlySorted(vs) && limit > 0
    ensures WalkSoFar([vs], [PageOf(vs, None, limit)])
  {
    var page := PageOf(vs, None, limit);
    assert Emitted([page]) == Emitted([]) + page.items == page.items;
    PageEnds(vs, None, limit);
    forall k | AlwaysShown([vs], k) && (page.hasMore ==> Passed(k, page.lastKey))
      ensures Shows(page.items, k)
    {
      assert Shows([vs][0], k);
      PageIsComplete(vs, None, limit, k);
    }
  }

  lemma ShowsApp(a: seq<Item>, b: seq<Item>, k: CursorKey)
    requires Shows(a, k) || Shows(b, k)
    ensures Shows(a + b, k)
  {
    if i: nat :| i < |a| && a[i].Key() == k {
      assert (a + b)[i].Key() == k;
    } else {
      var j: nat :| j < |b| && b[j].Key() == k;
      assert (a + b)[|a| + j].Key() == k;
    }
  }

  lemma WalkStep(snaps: seq<seq<Item>>, pages: seq<Page>, page: Page, vs: seq<Item>, k0: CursorKey, limit: nat)
    requires pages != [] && snaps != [] && vs == Last(snaps) && WalkSoFar(Front(snaps), pages)
    requires StrictlySorted(vs) && limit > 0
    requires Last(pages).hasMore && Last(pages).lastKey == k0 && page == PageOf(vs, Some(k0), limit)
    ensures WalkSoFar(snaps, pages + [page])
  {
    var out, all := Emitted(pages), pages + [page];
    assert Front(all) == pages;
    assert Emitted(all) == out + page.items;
    PageEnds(vs, Some(k0), limit);
    PageIsBelow(vs, k0, limit);
    JoinSorted(out, page.items, k0);
    if page.hasMore {
      assert Last(page.items) in page.items;
      forall i | 0 <= i < |out| + |page.items| ensures Passed((out + page.items)[i].Key(), page.lastKey) {
        if i < |out| && out[i].Key() != k0 {
          PrecedesTrans(out[i].Key(), k0, page.lastKey);
        }
      }
    }
    forall k | AlwaysShown(snaps, k) && (page.hasMore ==> Passed(k, page.lastKey)) ensures Shows(Emitted(all), k) {
      assert AlwaysShown(Front(snaps), k);
      assert Shows(snaps[|snaps| - 1], k);
      PrecedesTotal(k, k0);
      if !Passed(k, k0) {
        PageIsComplete(vs, Some(k0), limit, k);
      }
      ShowsApp(out, page.items, k);
    }
  }

  lemma JoinSorted(a: seq<Item>, b: seq<Item>, k0: CursorKey)
    requires StrictlySorted(a) && StrictlySorted(b)
    requires forall i :: 0 <= i < |a| ==> Passed(a[i].Key(), k0)
    requires forall x :: x in b ==> Precedes(k0, x.Key())
    ensures StrictlySorted(a + b)
  {
    forall p, q | 0 <= p < |a| && 0 <= q < |b| ensures Precedes(a[p].Key(), b[q].Key()) {
      assert b[q] in b;
      if a[p].Key() != k0 {
        PrecedesTrans(a[p].Key(), k0, b[q].Key());
      }
    }
  }

  ghost predicate ShowsOnce(vs: seq<Item>, k: CursorKey) {
    exists i :: 0 <= i < |vs| && vs[i].Key() == k && forall j :: 0 <= j < |vs| && vs[j].Key() == k ==> j == i
  }

  /**
   * Whatever happens to the rows between requests, a walk shows rows in strictly
   * descending order, so nothing twice; and once it is finished, every key that
   * every snapshot showed has come out, exactly once.
   */
  lemma WalkUnderChange(snaps: seq<seq<Item>>, limits: seq<nat>, pages: seq<Page>)
    requires IsWalk(snaps, limits, pages)
    ensures StrictlySorted(Emitted(pages))
    ensures !Last(pages).hasMore ==> forall k :: AlwaysShown(snaps, k) ==> ShowsOnce(Emitted(pages), k)
  {
    WalkKeeps(snaps, limits, pages);
    var out := Emitted(pages);
    forall k | Shows(out, k) ensures ShowsOnce(out, k) {
      var i :| 0 <= i < |out| && out[i].Key() == k;
      forall j | 0 <= j < |out| && out[j].Key() == k ensures j == i {
        PrecedesTotal(out[i].Key(), out[j].Key());
      }
    }
  }

  /** A walk over rows that stand still, with one page size. */
  ghost predicate IsStillWalk(vs: seq<Item>, limit: nat, pages: seq<Page>) {
    && limit > 0 && pages != [] && StrictlySorted(vs)
    && if |pages| == 1 then pages[0] == PageOf(vs, None, limit)
       else
         && IsStillWalk(vs, limit, Front(pages))
         && Last(Front(pages)).hasMore
         && Last(pages) == PageOf(vs, Some(Last(Front(pages)).lastKey), limit)
  }

  /** n * limit, one page at a time. */
  ghost function Upto(n: nat, limit: nat): nat {
    if n == 0 then 0 else Upto(n - 1, limit) + limit
  }

  lemma {:induction false} UptoIs(n: nat, limit: nat)
    ensures Upto(n, limit) == n * limit
  {
    if n > 0 {
      UptoIs(n - 1, limit);
      assert n * limit == (n - 1) * limit + limit;
    }
  }

  /** The first s rows are out, and the page stops there. */
  ghost predicate StandsAt(vs: seq<Item>, s: nat, out: seq<Item>, page: Page) {
    && out == vs[..Min(s, |vs|)]
    && (page.hasMore <==> s < |vs|)
    && (page.hasMore ==> s > 0 && page.lastKey == vs[s - 1].Key())
  }

  /** On rows that stand still, n pages hold exactly the first n * limit rows. */
  lemma {:induction false} StillPages(vs: seq<Item>, limit: nat, pages: seq<Page>)
    requires IsStillWalk(vs, limit, pages)
    ensures StandsAt(vs, Upto(|pages|, limit), Emitted(pages), Last(pages))
    ensures |pages| > 1 ==> Upto(|pages| - 1, limit) < |vs|
  {
    if |pages| == 1 {
      FirstPage(vs, limit);
      assert Emitted(Front(pages)) == [] && Emitted(pages) == pages[0].items;
      assert Upto(1, limit) == Upto(0, limit) + limit;
    } else {
      StillPages(vs, limit, Front(pages));
      StillNext(vs, limit, Upto(|pages| - 1, limit), Front(pages), Last(pages));
      SplitLast(pages);
    }
  }

  lemma StillNext(vs: seq<Item>, limit: nat, s: nat, pages: seq<Page>, page: Page)
    requires StrictlySorted(vs) && limit > 0 && pages != []
    requires StandsAt(vs, s, Emitted(pages), Last(pages)) && Last(pages).hasMore
    requires page == PageOf(vs, Some(Last(pages).lastKey), limit)
    ensures s < |vs| && StandsAt(vs, s + limit, Emitted(pages + [page]), page)
  {
    StillStep(vs, limit, s, Emitted(pages));
    assert Front(pages + [page]) == pages;
  }

  lemma FirstPage(vs: seq<Item>, limit: nat)
    requires limit > 0
    ensures StandsAt(vs, limit, PageOf(vs, None, limit).items, PageOf(vs, None, limit))
  {}

  lemma StillStep(vs: seq<Item>, limit: nat, s: nat, out: seq<Item>)
    requires StrictlySorted(vs) && 0 < s < |vs| && limit > 0 && out == vs[..s]
    ensures var p := PageOf(vs, Some(vs[s - 1].Key()), limit);
            StandsAt(vs, s + limit, out + p.items, p)
  {
    StillStart(vs, s);
  }

  lemma StillStart(vs: seq<Item>, s: nat)
    requires StrictlySorted(vs) && 0 < s < |vs|
    ensures StartAt(vs, Some(vs[s - 1].Key())) == s
  {
    forall j | 0 <= j < s ensures !Precedes(vs[s - 1].Key(), vs[j].Key()) {
      PrecedesTotal(vs[s - 1].Key(), vs[j].Key());
    }
    StartAtIs(vs, vs[s - 1].Key(), s);
  }

  /** max(1, ceil(n / limit)). */
  function PagesFor(n: nat, limit: nat): nat
    requires limit > 0
  {
    if n == 0 then 1 else (n + limit - 1) / limit
  }

  /** A finished walk over n rows that stand still took max(1, ceil(n / limit)) pages and showed them all. */
  lemma StillWalkLength(vs: seq<Item>, limit: nat, pages: seq<Page>)
    requires IsStillWalk(vs, limit, pages) && !Last(pages).hasMore
    ensures Emitted(pages) == vs
    ensures |pages| == PagesFor(|vs|, limit)
  {
    StillPages(vs, limit, pages);
    if vs != [] {
      PagesForIs(|vs|, limit, |pages|);
    }
  }

  lemma PagesForIs(n: nat, limit: nat, k: nat)
    requires limit > 0 && k > 0 && n > 0 && n <= Upto(k, limit) && (k > 1 ==> Upto(k - 1, limit) < n)
    ensures PagesFor(n, limit) == k
  {
    UptoIs(k, limit);
    UptoIs(k - 1, limit);
    DivIs(n + limit - 1, limit, k);
  }

  lemma DivIs(a: nat, d: nat, q: nat)
    requires d > 0 && q * d <= a < q * d + d
    ensures a / d == q
  {
    var r := a / d;
    assert r * d <= a < r * d + d;
    MulAtMost(r + 1, q, d);
    MulAtMost(q + 1, r, d);
  }

  lemma MulAtMost(x: int, y: int, d: nat)
    ensures x <= y ==> x * d <= y * d
    ensures (x + 1) * d == x * d + d
  {}

  // ----- the walk as clients make it: by cursor strings -----

  /** Times fit in 64 bits and network ids carry no NUL. */
  ghost predicate Encodable(vs: seq<Item>) {
    forall i :: 0 <= i < |vs| ==> IsInt64(vs[i].nano) && '\0' !in vs[i].networkID
  }

  /** A client sends "" first, then each nextCursor it is given. */
  ghost predicate IsClientWalk(snaps: seq<seq<Item>>, limits: seq<int>, answers: seq<Option<Response>>) {
    && 0 < |answers| == |snaps| == |limits|
    && StrictlySorted(Last(snaps)) && Encodable(Last(snaps))
    && if |answers| == 1 then answers[0] == Paginate(snaps[0], limits[0], "")
       else
         && IsClientWalk(Front(snaps), Front(limits), Front(answers))
         && Last(Front(answers)).Some? && Last(Front(answers)).value.nextCursor != ""
         && Last(answers) == Paginate(Last(snaps), Last(limits), Last(Front(answers)).value.nextCursor)
  }

  /** The client got the page: its rows, and a cursor exactly when more follow. */
  ghost predicate Answers(a: Option<Response>, p: Page) {
    && a.Some? && a.value.items == p.items
    && (p.hasMore ==> a.value.nextCursor == Encode(p.lastKey) != "")
    && (!p.hasMore ==> a.value.nextCursor == "")
  }

  ghost predicate Resumable(p: Page) {
    IsInt64(p.lastKey.nano) && '\0' !in p.lastKey.networkID
  }

  ghost predicate AllAnswered(answers: seq<Option<Response>>, pages: seq<Page>) {
    && |answers| == |pages|
    && (answers != [] ==> AllAnswered(Front(answers), Front(pages)) && Answers(Last(answers), Last(pages)))
  }

  /**
   * Following cursor strings is the keyset walk: no request is refused, and the
   * rows received are those of the pages WalkUnderChange speaks of.
   */
  lemma {:induction false} ClientWalkIsWalk(snaps: seq<seq<Item>>, limits: seq<int>, answers: seq<Option<Response>>)
    returns (clamped: seq<nat>, pages: seq<Page>)
    requires IsClientWalk(snaps, limits, answers)
    ensures IsWalk(snaps, clamped, pages)
    ensures AllAnswered(answers, pages)
    ensures Last(pages).hasMore ==> Resumable(Last(pages))
  {
    if |answers| == 1 {
      FirstAnswer(snaps, limits, answers);
      clamped, pages := [Clamp(limits[0])], [PageOf(snaps[0], None, Clamp(limits[0]))];
    } else {
      var c, ps := ClientWalkIsWalk(Front(snaps), Front(limits), Front(answers));
      NextAnswer(snaps, limits, answers, ps);
      var limit := Clamp(Last(limits));
      var page := PageOf(Last(snaps), Some(Last(ps).lastKey), limit);
      WalkOn(Front(snaps), c, ps, Last(snaps), limit);
      clamped, pages := c + [limit], ps + [page];
      GlueAnswers(Front(answers), ps, Last(answers), page);
      SplitLast(snaps);
      SplitLast(answers);
    }
  }

  lemma GlueAnswers(answers: seq<Option<Response>>, pages: seq<Page>, a: Option<Response>, p: Page)
    requires AllAnswered(answers, pages) && Answers(a, p)
    ensures AllAnswered(answers + [a], pages + [p])
  {
    assert Front(answers + [a]) == answers && Front(pages + [p]) == pages;
  }

  lemma FirstAnswer(snaps: seq<seq<Item>>, limits: seq<int>, answers: seq<Option<Response>>)
    requires IsClientWalk(snaps, limits, answers) && |answers| == 1
    ensures var p := PageOf(snaps[0], None, Clamp(limits[0]));
            IsWalk(snaps, [Clamp(limits[0])], [p]) && AllAnswered(answers, [p]) && (p.hasMore ==> Resumable(p))
  {
    var p := PageOf(snaps[0], None, Clamp(limits[0]));
    AnswerIsPage(snaps[0], limits[0], None, "");
    assert AllAnswered(Front(answers), Front([p]));
  }

  lemma NextAnswer(snaps: seq<seq<Item>>, limits: seq<int>, answers: seq<Option<Response>>, pages: seq<Page>)
    requires IsClientWalk(snaps, limits, answers) && |answers| > 1
    requires AllAnswered(Front(answers), pages)
    requires Last(pages).hasMore ==> Resumable(Last(pages))
    ensures Last(pages).hasMore
    ensures var p := PageOf(Last(snaps), Some(Last(pages).lastKey), Clamp(Last(limits)));
            Answers(Last(answers), p) && (p.hasMore ==> Resumable(p))
  {
    var key := Last(pages).lastKey;
    assert Answers(Last(Front(answers)), Last(pages));
    CursorRoundTripIff(key);
    AnswerIsPage(Last(snaps), Last(limits), Some(key), Encode(key));
  }

  lemma WalkOn(snaps: seq<seq<Item>>, limits: seq<nat>, pages: seq<Page>, vs: seq<Item>, limit: nat)
    requires IsWalk(snaps, limits, pages) && Last(pages).hasMore && limit > 0 && StrictlySorted(vs)
    ensures IsWalk(snaps + [vs], limits + [limit], pages + [PageOf(vs, Some(Last(pages).lastKey), limit)])
  {
    assert Front(snaps + [vs]) == snaps && Front(limits + [limit]) == limits;
    assert Front(pages + [PageOf(vs, Some(Last(pages).lastKey), limit)]) == pages;
  }

  lemma AnswerIsPage(vs: seq<Item>, limit: int, after: Option<CursorKey>, cursor: string)
    requires StrictlySorted(vs) && Encodable(vs)
    requires if cursor == "" then after == None else after.Some? && Decode(cursor) == after
    ensures var p := PageOf(vs, after, Clamp(limit));
            && Answers(Paginate(vs, limit, cursor), p)
            && (p.hasMore ==> Resumable(p))
  {
    var p := PageOf(vs, after, Clamp(limit));
    PageEnds(vs, after, Clamp(limit));
    if p.hasMore {
      CursorRoundTripIff(p.lastKey);
    }
  }

  /** The rows a client has received; a refused request brings none. */
  ghost function Received(answers: seq<Option<Response>>): seq<Item> {
    if answers == [] then []
    else Received(Front(answers)) + (if Last(answers).Some? then Last(answers).value.items else [])
  }

  lemma {:induction false} ReceivedIsEmitted(answers: seq<Option<Response>>, pages: seq<Page>)
    requires AllAnswered(answers, pages)
    ensures Received(answers) == Emitted(pages)
  {
    if answers != [] {
      ReceivedIsEmitted(Front(answers), Front(pages));
    }
  }

  /**
   * End to end, over cursor strings and rows that change between requests: no
   * request is refused, rows arrive in strictly descending order, and a finished
   * walk has brought every key that was there throughout, exactly once.
   */
  lemma ClientWalkUnderChange(snaps: seq<seq<Item>>, limits: seq<int>, answers: seq<Option<Response>>)
    requires IsClientWalk(snaps, limits, answers)
    ensures Last(answers).Some? && StrictlySorted(Received(answers))
    ensures Last(answers).value.nextCursor == "" ==>
              forall k :: AlwaysShown(snaps, k) ==> ShowsOnce(Received(answers), k)
  {
    var clamped, pages := ClientWalkIsWalk(snaps, limits, answers);
    ReceivedIsEmitted(answers, pages);
    WalkUnderChange(snaps, clamped, pages);
    assert Answers(Last(answers), Last(pages));
  }

  // ----- walks end -----

  lemma StillWalkLonger(vs: seq<Item>, limit: nat, pages: seq<Page>)
    requires IsStillWalk(vs, limit, pages) && Last(pages).hasMore
    ensures IsStillWalk(vs, limit, pages + [PageOf(vs, Some(Last(pages).lastKey), limit)])
  {
    assert Front(pages + [PageOf(vs, Some(Last(pages).lastKey), limit)]) == pages;
  }

  /** Over rows that stand still, every unfinished walk can be finished. */
  lemma {:induction false} StillWalkOn(vs: seq<Item>, limit: nat, pages: seq<Page>) returns (more: seq<Page>)
    requires IsStillWalk(vs, limit, pages)
    ensures IsStillWalk(vs, limit, more) && !Last(more).hasMore
    decreases if Upto(|pages|, limit) < |vs| then |vs| - Upto(|pages|, limit) else 0
  {
    StillPages(vs, limit, pages);
    if Last(pages).hasMore {
      StillWalkLonger(vs, limit, pages);
      more := StillWalkOn(vs, limit, pages + [PageOf(vs, Some(Last(pages).lastKey), limit)]);
    } else {
      more := pages;
    }
  }

  /** The request with a key's cursor is answered with the page below that key. */
  lemma AnswerAfter(vs: seq<Item>, limit: int, key: CursorKey) returns (answer: Option<Response>)
    requires StrictlySorted(vs) && Encodable(vs) && IsInt64(key.nano) && '\0' !in key.networkID
    ensures answer == Paginate(vs, limit, Encode(key))
    ensures var p := PageOf(vs, Some(key), Clamp(limit)); Answers(answer, p) && (p.hasMore ==> Resumable(p))
  {
    answer := Paginate(vs, limit, Encode(key));
    CursorRoundTripIff(key);
    AnswerIsPage(vs, limit, Some(key), Encode(key));
  }

  lemma ClientWalkLonger(snaps: seq<seq<Item>>, limits: seq<int>, answers: seq<Option<Response>>,
                         vs: seq<Item>, limit: int, next: Option<Response>)
    requires IsClientWalk(snaps, limits, answers) && StrictlySorted(vs) && Encodable(vs)
    requires Last(answers).Some? && Last(answers).value.nextCursor != ""
    requires next == Paginate(vs, limit, Last(answers).value.nextCursor)
    ensures IsClientWalk(snaps + [vs], limits + [limit], answers + [next])
  {
    assert Front(snaps + [vs]) == snaps && Front(limits + [limit]) == limits && Front(answers + [next]) == answers;
  }

  /** Every walk over keys is one a client can make with cursor strings. */
  lemma {:induction false} ClientMakes(vs: seq<Item>, limit: int, pages: seq<Page>)
    returns (snaps: seq<seq<Item>>, limits: seq<int>, answers: seq<Option<Response>>)
    requires IsStillWalk(vs, Clamp(limit), pages) && Encodable(vs)
    ensures IsClientWalk(snaps, limits, answers) && AllAnswered(answers, pages)
    ensures Last(pages).hasMore ==> Resumable(Last(pages))
  {
    if |pages| == 1 {
      snaps, limits, answers := [vs], [limit], [Paginate(vs, limit, "")];
      FirstAnswer(snaps, limits, answers);
      assert pages == [pages[0]];
    } else {
      var f := Front(pages);
      snaps, limits, answers := ClientMakes(vs, limit, f);
      var next := AnswerAfter(vs, limit, Last(f).lastKey);
      ClientWalkLonger(snaps, limits, answers, vs, limit, next);
      GlueAnswers(answers, f, next, Last(pages));
      SplitLast(pages);
      snaps, limits, answers := snaps + [vs], limits + [limit], answers + [next];
    }
  }

  /**
   * A client that follows its cursors over rows that stand still gets to the
   * end, whatever page size it asks for: with all rows, in order, and no request
   * more than the clamped page size makes necessary.
   */
  lemma ClientWalkFinishes(vs: seq<Item>, limit: int)
    returns (snaps: seq<seq<Item>>, limits: seq<int>, answers: seq<Option<Response>>)
    requires StrictlySorted(vs) && Encodable(vs)
    ensures IsClientWalk(snaps, limits, answers)
    ensures Last(answers).Some? && Last(answers).value.nextCursor == "" && Received(answers) == vs
    ensures |answers| == PagesFor(|vs|, Clamp(limit))
  {
    var pages;
    pages, snaps, limits, answers := WalkToTheEnd(vs, limit);
    StillWalkLength(vs, Clamp(limit), pages);
  }

  lemma WalkToTheEnd(vs: seq<Item>, limit: int)
    returns (pages: seq<Page>, snaps: seq<seq<Item>>, limits: seq<int>, answers: seq<Option<Response>>)
    requires StrictlySorted(vs) && Encodable(vs)
    ensures IsStillWalk(vs, Clamp(limit), pages) && !Last(pages).hasMore
    ensures IsClientWalk(snaps, limits, answers) && Received(answers) == Emitted(pages) && |answers| == |pages|
    ensures Last(answers).Some? && Last(answers).value.nextCursor == ""
  {
    pages := StillWalkOn(vs, Clamp(limit), [PageOf(vs, None, Clamp(limit))]);
    snaps, limits, answers := ClientMakes(vs, limit, pages);
    AllReceived(answers, pages);
  }

  lemma AllReceived(answers: seq<Option<Response>>, pages: seq<Page>)
    requires AllAnswered(answers, pages) && pages != [] && !Last(pages).hasMore
    ensures Received(answers) == Emitted(pages) && |answers| == |pages|
    ensures Last(answers).Some? && Last(answers).value.nextCursor == ""
  {
    ReceivedIsEmitted(answers, pages);
    assert Answers(Last(answers), Last(pages));
  }
}
