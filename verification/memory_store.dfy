/** The in-memory store as the class it is, proved against the operations in Store. */
module MemoryStore {
  import opened Model
  import opened History
  import opened Store
  import opened Unread

  /** The most channels one inbox fetch looks at. */
  const INBOX_MAX_ENTRIES := 500

  datatype InboxEntry = InboxEntry(channel: Channel, last: Option<Envelope>, unread: nat)

  /** The channels of the networks where the user is a member, in iteration order. */
  function UserChannels(s: State, u: string, order: seq<string>): seq<string> {
    if order == [] then []
    else
      var c := Last(order);
      UserChannels(s, u, Front(order)) +
      (if c in s.channels && IsMemberOf(s, u, s.channels[c].networkID) then [c] else [])
  }

  predicate IsMemberOf(s: State, u: string, n: string) {
    exists k :: k in s.members && s.members[k].id == u && s.members[k].networkID == n
  }

  function Visited(s: State, u: string, order: seq<string>): seq<string> {
    var all := UserChannels(s, u, order);
    if |all| > INBOX_MAX_ENTRIES then all[..INBOX_MAX_ENTRIES] else all
  }

  /** Some membership row of the network carries the user's id. */
  ghost predicate HoldsRow(members: map<string, Member>, u: string, n: string) {
    exists k :: k in members && members[k].id == u && members[k].networkID == n
  }

  /** The user's channels are those of the iteration order in whose network the user holds a row. */
  lemma {:induction false} UserChannelsAre(s: State, u: string, order: seq<string>, c: string)
    ensures c in UserChannels(s, u, order) <==>
              c in order && c in s.channels && HoldsRow(s.members, u, s.channels[c].networkID)
  {
    if order != [] {
      UserChannelsAre(s, u, Front(order), c);
      SplitLast(order);
    }
  }

  lemma {:induction false} UserChannelsOnce(s: State, u: string, order: seq<string>)
    requires forall i, j :: 0 <= i < j < |order| ==> order[i] != order[j]
    ensures var all := UserChannels(s, u, order);
            forall i, j :: 0 <= i < j < |all| ==> all[i] != all[j]
  {
    if order != [] {
      UserChannelsOnce(s, u, Front(order));
      UserChannelsAre(s, u, Front(order), Last(order));
    }
  }

  /** A fetch visits the user's channels, each once, and all of them unless they are more than it may. */
  lemma VisitedAre(s: State, u: string, order: seq<string>, c: string)
    requires forall i, j :: 0 <= i < j < |order| ==> order[i] != order[j]
    ensures var visited, all := Visited(s, u, order), UserChannels(s, u, order);
            var mine := c in order && c in s.channels && HoldsRow(s.members, u, s.channels[c].networkID);
            && (c in visited ==> mine) && (mine && |visited| < INBOX_MAX_ENTRIES ==> c in visited)
            && |visited| == (if |all| <= INBOX_MAX_ENTRIES then |all| else INBOX_MAX_ENTRIES)
            && (|all| <= INBOX_MAX_ENTRIES && mine ==> c in visited)
            && forall i, j :: 0 <= i < j < |visited| ==> visited[i] != visited[j]
  {
    UserChannelsAre(s, u, order, c);
    UserChannelsOnce(s, u, order);
  }

  /** An entry shows the channel's newest envelope, and counts what lies past the user's cursor. */
  lemma EntryTells(s: State, u: string, c: string)
    requires c in s.channels && ChannelInv(s, c)
    ensures var entry, es := EntryFor(s, u, c), s.Envs(c);
            && entry.channel == s.channels[c] && (entry.last == None <==> es == [])
            && (entry.last.Some? ==>
                  entry.last.value in es && forall e :: e in es ==> e.stamp <= entry.last.value.stamp)
            && entry.unread == |After(es, s.Cursor(u, c))|
  {
    CountIsLength(s.Envs(c), s.Cursor(u, c));
  }

  /** Fetching again changes nothing of what a channel shows to a user who has seen it. */
  lemma SeenAgain(s: State, visited: seq<string>, u: string, c: string)
    requires CursorInv(s, u, c) && s.HasRow(u, c) && c in s.channels
    ensures var t := Fetch(s, u, visited);
            c in t.channels && t.Envs(c) == s.Envs(c) && EntryFor(t, u, c) == EntryFor(s, u, c)
  {
    FetchTouchesCursors(s, u, visited);
    FetchBaselines(s, u, visited, u, c);
  }

  /** A user whose cursor was placed by a first fetch keeps the row and the invariant. */
  lemma FirstFetchLasts(past: seq<Op>, first: seq<string>, ops: seq<Op>, u: string, c: string)
    requires !Run(EMPTY, past).HasRow(u, c) && c in first && NoMark(ops, u, c)
    ensures var s := Run(Fetch(Run(EMPTY, past), u, first), ops); CursorInv(s, u, c) && s.HasRow(u, c)
  {
    AlwaysCursorInv(past, u, c);
    FetchBaselines(Run(EMPTY, past), u, first, u, c);
    CursorStays(Fetch(Run(EMPTY, past), u, first), ops, u, c);
  }

  /**
   * What a later fetch shows of a channel, from the user's first fetch of it on:
   * its unread count is the number of envelopes stored since and still there.
   */
  lemma EntryIsExact(past: seq<Op>, first: seq<string>, ops: seq<Op>, visited: seq<string>, u: string, c: string)
    requires !Run(EMPTY, past).HasRow(u, c) && c in first && NoMark(ops, u, c)
    requires c in Run(Fetch(Run(EMPTY, past), u, first), ops).channels
    ensures var start := Fetch(Run(EMPTY, past), u, first);
            var now := Fetch(Run(start, ops), u, visited);
            && c in now.channels
            && EntryFor(now, u, c).unread == |Surviving(Appended(start, ops, c), now.Envs(c))|
  {
    UnreadSinceFirstFetch(past, first, ops, u, c);
    FirstFetchLasts(past, first, ops, u, c);
    SeenAgain(Run(Fetch(Run(EMPTY, past), u, first), ops), visited, u, c);
  }

  function EntryFor(s: State, u: string, c: string): InboxEntry
    requires c in s.channels
  {
    var es := s.Envs(c);
    InboxEntry(s.channels[c], if es == [] then None else Some(Last(es)), UnreadCount(es, s.Cursor(u, c)))
  }

  /** The entries shown are those of the visited channels, every one with a cursor row by now. */
  ghost predicate Listed(s: State, u: string, visited: seq<string>, entries: seq<InboxEntry>) {
    && |entries| == |visited|
    && forall i :: 0 <= i < |visited| ==>
         visited[i] in s.channels && s.HasRow(u, visited[i]) && entries[i] == EntryFor(s, u, visited[i])
  }

  /** Looking at another channel changes no entry already made. */
  lemma ListedStays(s: State, u: string, c: string, visited: seq<string>, entries: seq<InboxEntry>)
    requires Listed(s, u, visited, entries)
    ensures Listed(Baseline(s, u, c), u, visited, entries)
  {
    forall i | 0 <= i < |visited|
      ensures Baseline(s, u, c).HasRow(u, visited[i])
      ensures Baseline(s, u, c).Cursor(u, visited[i]) == s.Cursor(u, visited[i])
    {
      SetCursorIs(s, u, c, s.Top(c), u, visited[i]);
    }
  }

  lemma VisitedIs(s: State, u: string, order: seq<string>, n: nat)
    requires var all := |UserChannels(s, u, order)|;
             n == all <= INBOX_MAX_ENTRIES || n == INBOX_MAX_ENTRIES <= all
    ensures UserChannels(s, u, order)[..n] == Visited(s, u, order)
  {}

  /** Nobody is shown a channel of a network without a membership row of theirs. */
  lemma ListedAreMine(s: State, now: State, u: string, order: seq<string>, entries: seq<InboxEntry>)
    requires Listed(now, u, Visited(s, u, order), entries) && now.channels == s.channels
    ensures forall i :: 0 <= i < |entries| ==> HoldsRow(s.members, u, entries[i].channel.networkID)
  {
    var visited := Visited(s, u, order);
    forall i | 0 <= i < |entries|
      ensures HoldsRow(s.members, u, entries[i].channel.networkID)
    {
      UserChannelsAre(s, u, order, visited[i]);
      assert visited[i] in UserChannels(s, u, order);
      assert entries[i] == EntryFor(now, u, visited[i]);
    }
  }

  /** Part of the way through a fetch. */
  ghost predicate Visiting(s: State, now: State, u: string, done: seq<string>, entries: seq<InboxEntry>) {
    now == Fetch(s, u, done) && Listed(now, u, done, entries)
  }

  lemma VisitStep(s: State, now: State, u: string, done: seq<string>, entries: seq<InboxEntry>, c: string)
    requires Visiting(s, now, u, done, entries) && c in now.channels
    ensures var next := Baseline(now, u, c);
            Visiting(s, next, u, done + [c], entries + [EntryFor(next, u, c)])
  {
    ListedStays(now, u, c, done, entries);
    assert Front(done + [c]) == done;
  }

  lemma MinusTwice<K, V>(m: map<K, V>, a: set<K>, b: set<K>)
    ensures m - a - b == m - (a + b)
  {}

  /** `kept := all[:0]`: compact a list into the front of its own backing array. */
  method CompactInPlace(a: array<Envelope>, cutoff: int) returns (n: nat, dropped: seq<string>)
    modifies a
    ensures n <= a.Length && a[..n] == KeptSince(old(a[..]), cutoff)
    ensures (set id | id in dropped) == DroppedIds(old(a[..]), cutoff)
    ensures |dropped| == a.Length - n
  {
    n := 0;
    dropped := [];
    ghost var was := a[..];
    for i := 0 to a.Length
      invariant n <= i && forall j :: i <= j < a.Length ==> a[j] == was[j]
      invariant a[..n] == KeptSince(was[..i], cutoff)
      invariant (set id | id in dropped) == DroppedIds(was[..i], cutoff)
      invariant |dropped| == i - n
    {
      assert Front(was[..i + 1]) == was[..i];
      var e := a[i];
      assert e == was[i];
      if e.createdAt < cutoff {
        dropped := dropped + [e.id];
      } else {
        a[n] := e;
        n := n + 1;
      }
    }
    assert was[..a.Length] == was;
  }

  class MemStore {
    var channels: map<string, Channel>
    var members: map<string, Member>
    var envs: map<string, seq<Envelope>>
    var envIDs: map<string, set<string>>
    var chanSeq: map<string, int>
    var cursors: Cursors

    constructor ()
      ensures Tables() == EMPTY
    {
      channels, members, envs, envIDs, chanSeq, cursors := map[], map[], map[], map[], map[], map[];
    }

    ghost function Tables(): State
      reads this
    {
      State(channels, members, envs, envIDs, chanSeq, cursors)
    }

    method AppendEnvelope(e: Envelope) returns (stored: bool)
      modifies this
      ensures stored == IsNew(old(Tables()), e)
      ensures Tables() == Append(old(Tables()), e)
      ensures stored ==> Last(Tables().Envs(e.channelID)).(stamp := e.stamp) == e
    {
      if e.id !in Tables().Ids(e.channelID) {
        AppendIs(Tables(), e);
      }
      var c := e.channelID;
      var seen := if c in envIDs then envIDs[c] else {};
      if e.id in seen {
        return false;
      }
      envIDs := envIDs[c := seen + {e.id}];
      chanSeq := chanSeq[c := (if c in chanSeq then chanSeq[c] else 0) + 1];
      envs := envs[c := (if c in envs then envs[c] else []) + [e.(stamp := chanSeq[c])]];
      return true;
    }

    method Envelopes(c: string, before: string, limit: int) returns (page: Option<Page>)
      ensures page == MemPage(Tables().Envs(c), before, limit)
    {
      var all := if c in envs then envs[c] else [];
      var size := if limit <= 0 then 50 else limit;
      var end := |all|;
      match MemEnd(|all|, before) {
        case None => return None;
        case Some(n) => end := n;
      }
      var start := end - size;
      if start < 0 {
        start := 0;
      }
      var items := [];
      for i := start to end
        invariant items == all[start..i]
      {
        items := items + [all[i]];
      }
      return Some(Page(items, if start > 0 then Decimal.Itoa(start + 1) else ""));
    }

    method DeleteEnvelopesBefore(c: string, cutoff: int) returns (dropped: nat)
      modifies this
      ensures Tables() == DeleteBefore(old(Tables()), c, cutoff)
      ensures dropped == |old(Tables()).Envs(c)| - |Tables().Envs(c)|
    {
      var all := if c in envs then envs[c] else [];
      var buffer := new Envelope[|all|](i requires 0 <= i < |all| => all[i]);
      assert buffer[..] == all;
      var n, gone := CompactInPlace(buffer, cutoff);
      if c in envIDs {
        envIDs := envIDs[c := envIDs[c] - (set id | id in gone)];
      }
      envs := envs[c := buffer[..n]];
      return |gone|;
    }

    method DeleteEnvelopes(c: string)
      modifies this
      ensures Tables() == Wipe(old(Tables()), {c})
    {
      envs := envs - {c};
      envIDs := envIDs - {c};
    }

    method DeleteChannel(c: string)
      modifies this
      ensures Tables() == DropChannel(old(Tables()), c)
    {
      channels := channels - {c};
      envs := envs - {c};
      envIDs := envIDs - {c};
    }

    method DeleteMembersOf(n: string)
      modifies this`members
      ensures members == DropNetwork(old(Tables()), n).members
    {
      ghost var before := members;
      var keys := members.Keys;
      while keys != {}
        invariant keys <= members.Keys <= before.Keys
        invariant forall k :: k in members ==> members[k] == before[k]
        invariant forall k :: k in before && k !in keys ==> (k in members <==> !HasNetworkPrefix(k, n))
        decreases |keys|
      {
        var k :| k in keys;
        if HasNetworkPrefix(k, n) {
          members := members - {k};
        }
        keys := keys - {k};
      }
    }

    method DeleteChannelsOf(n: string)
      modifies this`channels, this`envs, this`envIDs
      ensures var s := old(Tables()); var gone := ChannelsOf(s, n);
              channels == s.channels - gone && envs == s.envs - gone && envIDs == s.envIDs - gone
      ensures forall c :: c in channels <==> c in old(channels) && old(channels)[c].networkID != n
    {
      ghost var s := Tables();
      ghost var gone: set<string> := {};
      var ids := channels.Keys;
      while ids != {}
        invariant ids <= channels.Keys <= s.channels.Keys
        invariant forall c :: c in gone ==> c in s.channels && s.channels[c].networkID == n
        invariant forall c :: c in s.channels && c !in ids && s.channels[c].networkID == n ==> c in gone
        invariant channels == s.channels - gone && envs == s.envs - gone && envIDs == s.envIDs - gone
        decreases |ids|
      {
        var c :| c in ids;
        if channels[c].networkID == n {
          MinusTwice(s.channels, gone, {c});
          MinusTwice(s.envs, gone, {c});
          MinusTwice(s.envIDs, gone, {c});
          channels := channels - {c};
          envs := envs - {c};
          envIDs := envIDs - {c};
          gone := gone + {c};
        }
        ids := ids - {c};
      }
      assert gone == ChannelsOf(s, n);
    }

    method DeleteNetworkData(n: string)
      modifies this
      ensures Tables() == DropNetwork(old(Tables()), n)
      ensures forall c :: c in channels <==> c in old(channels) && old(channels)[c].networkID != n
    {
      DeleteMembersOf(n);
      DeleteChannelsOf(n);
    }

    method ChannelMaxSeq(c: string) returns (seq_: int)
      ensures seq_ == Tables().Top(c)
    {
      return if c in chanSeq then chanSeq[c] else 0;
    }

    method MarkRead(u: string, c: string, at: int)
      modifies this`cursors
      ensures Tables() == Mark(old(Tables()), u, c, at)
    {
      var top := if c in chanSeq then chanSeq[c] else 0;
      var to := at;
      if to > top {
        to := top;
      }
      var cur := if u in cursors && c in cursors[u] then cursors[u][c] else 0;
      if to <= cur {
        return;
      }
      var row := if u in cursors then cursors[u] else map[];
      cursors := cursors[u := row[c := to]];
    }

    method BaselineRead(u: string, c: string) returns (cursor: int)
      modifies this`cursors
      ensures Tables() == Baseline(old(Tables()), u, c)
      ensures cursor == Tables().Cursor(u, c)
    {
      if u in cursors && c in cursors[u] {
        return cursors[u][c];
      }
      cursor := if c in chanSeq then chanSeq[c] else 0;
      var row := if u in cursors then cursors[u] else map[];
      cursors := cursors[u := row[c := cursor]];
    }

    method UserChannelsOf(u: string, order: seq<string>) returns (mine: seq<string>)
      ensures mine == UserChannels(Tables(), u, order)
      ensures forall c :: c in mine <==>
                c in order && c in channels && HoldsRow(members, u, channels[c].networkID)
    {
      var nets: set<string> := {};
      var keys := members.Keys;
      while keys != {}
        invariant keys <= members.Keys
        invariant forall n :: n in nets <==>
                    exists k :: k in members && k !in keys && members[k].id == u && members[k].networkID == n
        decreases |keys|
      {
        var k :| k in keys;
        if members[k].id == u {
          nets := nets + {members[k].networkID};
        }
        keys := keys - {k};
      }
      mine := [];
      for i := 0 to |order|
        invariant mine == UserChannels(Tables(), u, order[..i])
      {
        assert Front(order[..i + 1]) == order[..i];
        if order[i] in channels && channels[order[i]].networkID in nets {
          mine := mine + [order[i]];
        }
      }
      assert order[..|order|] == order;
      forall c ensures c in mine <==>
                 c in order && c in channels && HoldsRow(members, u, channels[c].networkID)
      {
        UserChannelsAre(Tables(), u, order, c);
      }
    }

    method CountUnread(c: string, cursor: int) returns (n: nat)
      ensures n == UnreadCount(Tables().Envs(c), cursor)
    {
      var es := if c in envs then envs[c] else [];
      n := 0;
      for i := 0 to |es|
        invariant n == UnreadCount(es[..i], cursor)
      {
        assert Front(es[..i + 1]) == es[..i];
        if es[i].stamp > cursor {
          n := n + 1;
        }
      }
      assert es[..|es|] == es;
    }

    method VisitChannel(u: string, c: string) returns (entry: InboxEntry)
      requires c in channels
      modifies this`cursors
      ensures Tables() == Baseline(old(Tables()), u, c)
      ensures entry == EntryFor(Tables(), u, c)
    {
      var cursor := BaselineRead(u, c);
      var es := if c in envs then envs[c] else [];
      var unread := CountUnread(c, cursor);
      return InboxEntry(channels[c], if es == [] then None else Some(Last(es)), unread);
    }

    /** The loop of InboxEntries: visit the channels in turn, up to the most a fetch looks at. */
    method VisitChannels(u: string, mine: seq<string>) returns (entries: seq<InboxEntry>)
      requires forall c :: c in mine ==> c in channels
      modifies this`cursors
      ensures |entries| <= |mine| && (|entries| == |mine| <= INBOX_MAX_ENTRIES || |entries| == INBOX_MAX_ENTRIES)
      ensures Visiting(old(Tables()), Tables(), u, mine[..|entries|], entries)
    {
      ghost var s := Tables();
      entries := [];
      var i := 0;
      while i < |mine|
        invariant i <= |mine| && i < INBOX_MAX_ENTRIES && i == |entries|
        invariant Visiting(s, Tables(), u, mine[..i], entries)
      {
        VisitStep(s, Tables(), u, mine[..i], entries, mine[i]);
        assert mine[..i + 1] == mine[..i] + [mine[i]];
        var entry := VisitChannel(u, mine[i]);
        entries := entries + [entry];
        i := i + 1;
        if |entries| >= INBOX_MAX_ENTRIES {
          break;
        }
      }
    }

    /** `order` is the order in which the runtime happens to iterate the channel map. */
    method InboxEntries(u: string, order: seq<string>) returns (entries: seq<InboxEntry>)
      modifies this`cursors
      ensures var visited := Visited(old(Tables()), u, order);
              && Tables() == Fetch(old(Tables()), u, visited)
              && Listed(Tables(), u, visited, entries)
      ensures forall i :: 0 <= i < |entries| ==> HoldsRow(members, u, entries[i].channel.networkID)
    {
      ghost var s := Tables();
      var mine := UserChannelsOf(u, order);
      entries := VisitChannels(u, mine);
      VisitedIs(s, u, order, |entries|);
      ListedAreMine(s, Tables(), u, order, entries);
    }

    method EnvelopeByID(c: string, id: string) returns (found: Option<Envelope>)
      ensures var es := Tables().Envs(c);
              && (found.None? <==> !HasId(es, id))
              && (found.Some? ==> found.value in es && found.value.id == id)
    {
      var es := if c in envs then envs[c] else [];
      for i := 0 to |es|
        invariant forall j :: 0 <= j < i ==> es[j].id != id
      {
        if es[i].id == id {
          return Some(es[i]);
        }
      }
      return None;
    }
  }
}
