/** The in-memory store as values: its tables, one function per operation, and what every run keeps. */
module Store {
  import opened Model
  import opened History

  datatype Channel = Channel(id: string, networkID: string, name: string, retentionDays: Option<int>)

  datatype Member = Member(id: string, networkID: string, displayName: string)

  type Cursors = map<string, map<string, int>>

  datatype State = State(
    channels: map<string, Channel>,
    members: map<string, Member>,
    envs: map<string, seq<Envelope>>,
    envIDs: map<string, set<string>>,
    chanSeq: map<string, int>,
    cursors: Cursors)
  {
    function Envs(c: string): seq<Envelope> {
      if c in envs then envs[c] else []
    }
    function Ids(c: string): set<string> {
      if c in envIDs then envIDs[c] else {}
    }
    /** The newest sequence number ever given out on the channel. */
    function Top(c: string): int {
      if c in chanSeq then chanSeq[c] else 0
    }
    predicate HasRow(u: string, c: string) {
      u in cursors && c in cursors[u]
    }
    function Cursor(u: string, c: string): int {
      if HasRow(u, c) then cursors[u][c] else 0
    }
  }

  // ----- one function per operation -----

  function Stamped(s: State, e: Envelope): Envelope {
    e.(stamp := s.Top(e.channelID) + 1)
  }

  predicate IsNew(s: State, e: Envelope) {
    e.id !in s.Ids(e.channelID)
  }

  function Append(s: State, e: Envelope): State {
    var c := e.channelID;
    if !IsNew(s, e) then s
    else s.(envIDs := s.envIDs[c := s.Ids(c) + {e.id}],
            chanSeq := s.chanSeq[c := s.Top(c) + 1],
            envs := s.envs[c := s.Envs(c) + [Stamped(s, e)]])
  }

  /** The envelopes created at the cutoff or later, in order. */
  function KeptSince(es: seq<Envelope>, cutoff: int): seq<Envelope> {
    if es == [] then []
    else KeptSince(Front(es), cutoff) + (if Last(es).createdAt < cutoff then [] else [Last(es)])
  }

  function DroppedIds(es: seq<Envelope>, cutoff: int): set<string> {
    if es == [] then {}
    else DroppedIds(Front(es), cutoff) + (if Last(es).createdAt < cutoff then {Last(es).id} else {})
  }

  function DeleteBefore(s: State, c: string, cutoff: int): State {
    s.(envs := s.envs[c := KeptSince(s.Envs(c), cutoff)],
       envIDs := if c in s.envIDs then s.envIDs[c := s.Ids(c) - DroppedIds(s.Envs(c), cutoff)] else s.envIDs)
  }

  function Wipe(s: State, cs: set<string>): State {
    s.(envs := s.envs - cs, envIDs := s.envIDs - cs)
  }

  function DropChannel(s: State, c: string): State {
    Wipe(s, {c}).(channels := s.channels - {c})
  }

  function ChannelsOf(s: State, n: string): set<string> {
    set c | c in s.channels && s.channels[c].networkID == n
  }

  predicate HasNetworkPrefix(key: string, n: string) {
    |key| > |n| && key[..|n|] == n && key[|n|] == '\0'
  }

  function DropNetwork(s: State, n: string): State {
    var gone := ChannelsOf(s, n);
    Wipe(s, gone).(channels := s.channels - gone,
                   members := map k | k in s.members && !HasNetworkPrefix(k, n) :: s.members[k])
  }

  function SetCursor(cursors: Cursors, u: string, c: string, at: int): Cursors {
    cursors[u := (if u in cursors then cursors[u] else map[])[c := at]]
  }

  function Mark(s: State, u: string, c: string, at: int): State {
    var clamped := if at > s.Top(c) then s.Top(c) else at;
    if clamped <= s.Cursor(u, c) then s else s.(cursors := SetCursor(s.cursors, u, c, clamped))
  }

  function Baseline(s: State, u: string, c: string): State {
    if s.HasRow(u, c) then s else s.(cursors := SetCursor(s.cursors, u, c, s.Top(c)))
  }

  /** A fetch of the inbox baselines every channel it visits. */
  function Fetch(s: State, u: string, visited: seq<string>): State {
    if visited == [] then s else Baseline(Fetch(s, u, Front(visited)), u, Last(visited))
  }

  datatype Op =
    | AppendOp(e: Envelope)
    | DeleteBeforeOp(c: string, cutoff: int)
    | WipeOp(c: string)
    | DropChannelOp(c: string)
    | DropNetworkOp(n: string)
    | MarkOp(u: string, c: string, at: int)
    | BaselineOp(u: string, c: string)
    | FetchOp(u: string, visited: seq<string>)
    | TablesOp(channels: map<string, Channel>, members: map<string, Member>)  // any edit of channels and members

  function Apply(s: State, op: Op): State {
    match op
    case AppendOp(e) => Append(s, e)
    case DeleteBeforeOp(c, cutoff) => DeleteBefore(s, c, cutoff)
    case WipeOp(c) => Wipe(s, {c})
    case DropChannelOp(c) => DropChannel(s, c)
    case DropNetworkOp(n) => DropNetwork(s, n)
    case MarkOp(u, c, at) => Mark(s, u, c, at)
    case BaselineOp(u, c) => Baseline(s, u, c)
    case FetchOp(u, visited) => Fetch(s, u, visited)
    case TablesOp(channels, members) => s.(channels := channels, members := members)
  }

  const EMPTY := State(map[], map[], map[], map[], map[], map[])

  function Run(s: State, ops: seq<Op>): State {
    if ops == [] then s else Apply(Run(s, Front(ops)), Last(ops))
  }

  // ----- what single operations do and leave alone -----

  /** A new envelope is stored behind the others as it came, with nothing changed but its number. */
  lemma AppendIs(s: State, e: Envelope)
    requires e.id !in s.Ids(e.channelID)
    ensures var c := e.channelID; var before, after := s.Envs(c), Append(s, e).Envs(c);
            && |after| == |before| + 1 && Front(after) == before
            && Last(after).(stamp := e.stamp) == e && Last(after).stamp == s.Top(c) + 1
  {
    assert Append(s, e).Envs(e.channelID) == s.Envs(e.channelID) + [Stamped(s, e)];
  }

  /** The rest of the store stays, all of it for an id seen before. */
  lemma AppendElsewhere(s: State, e: Envelope, d: string)
    ensures var s' := Append(s, e);
            && (e.id in s.Ids(e.channelID) ==> s' == s)
            && (d != e.channelID ==> s'.Envs(d) == s.Envs(d) && s'.Ids(d) == s.Ids(d) && s'.Top(d) == s.Top(d))
            && s'.channels == s.channels && s'.members == s.members && s'.cursors == s.cursors
  {}

  /** Only the named channel loses its row, its list and its ids. */
  lemma DropChannelIs(s: State, c: string, d: string)
    ensures var s' := DropChannel(s, c);
            && c !in s'.channels && s'.Envs(c) == [] && s'.Ids(c) == {}
            && (d != c ==> s'.Envs(d) == s.Envs(d) && s'.Ids(d) == s.Ids(d) && (d in s'.channels <==> d in s.channels))
            && (d != c && d in s.channels ==> s'.channels[d] == s.channels[d])
            && s'.members == s.members && s'.chanSeq == s.chanSeq && s'.cursors == s.cursors
  {}

  /** Only the channels of the named network lose theirs. */
  lemma DropNetworkIs(s: State, n: string, c: string)
    ensures var s' := DropNetwork(s, n);
            && (c in s.channels && s.channels[c].networkID == n ==>
                  c !in s'.channels && s'.Envs(c) == [] && s'.Ids(c) == {})
            && (c in s.channels && s.channels[c].networkID != n ==>
                  c in s'.channels && s'.channels[c] == s.channels[c])
            && (c !in s.channels || s.channels[c].networkID != n ==>
                  s'.Envs(c) == s.Envs(c) && s'.Ids(c) == s.Ids(c))
            && s'.chanSeq == s.chanSeq && s'.cursors == s.cursors
  {}

  function MemberKey(n: string, id: string): string {
    n + "\0" + id
  }

  /** A member key belongs to a network by prefix; without NULs in network ids that means what it should. */
  lemma PrefixIffSameNetwork(n: string, id: string, m: string)
    requires '\0' !in n && '\0' !in m
    ensures HasNetworkPrefix(MemberKey(n, id), m) <==> n == m
  {
    var key := MemberKey(n, id);
    assert key[|n|] == '\0' && key[..|n|] == n;
    assert forall k :: 0 <= k < |n| ==> key[k] == n[k];
    if HasNetworkPrefix(key, m) {
      assert forall k :: 0 <= k < |m| ==> key[k] == m[k];
      assert |m| == |n|;
    }
  }

  /** And only its members' rows go. */
  lemma DropNetworkMembers(s: State, n: string, m: string, id: string)
    requires '\0' !in n && '\0' !in m
    ensures var s', key := DropNetwork(s, n), MemberKey(m, id);
            && (key in s'.members <==> key in s.members && m != n)
            && (key in s'.members ==> s'.members[key] == s.members[key])
  {
    PrefixIffSameNetwork(m, id, n);
  }

  /** Whatever is stored was handed in by some append, the number aside. */
  lemma {:induction false} StoredWasSent(ops: seq<Op>, c: string, x: Envelope)
    requires x in Run(EMPTY, ops).Envs(c)
    ensures exists i :: 0 <= i < |ops| && ops[i].AppendOp? && ops[i].e.(stamp := x.stamp) == x
  {
    var s, op := Run(EMPTY, Front(ops)), Last(ops);
    assert ops[|ops| - 1] == op;
    if x in s.Envs(c) {
      StoredWasSent(Front(ops), c, x);
      var i :| 0 <= i < |Front(ops)| && Front(ops)[i].AppendOp? && Front(ops)[i].e.(stamp := x.stamp) == x;
      assert ops[i] == Front(ops)[i];
    } else {
      OnlyAppendsAdd(s, op, c, x);
    }
  }

  lemma OnlyAppendsAdd(s: State, op: Op, c: string, x: Envelope)
    requires x in Apply(s, op).Envs(c) && x !in s.Envs(c)
    ensures op.AppendOp? && op.e.channelID == c && IsNew(s, op.e) && op.e.(stamp := x.stamp) == x
  {
    match op
    case DeleteBeforeOp(d, cutoff) => KeptIn(s.Envs(c), cutoff);
    case FetchOp(v, visited) => FetchTouchesCursors(s, v, visited);
    case _ =>
  }

  // ----- the invariant -----

  ghost predicate SameIds(es: seq<Envelope>, ids: set<string>) {
    forall id :: id in ids <==> HasId(es, id)
  }

  /** List, seen ids and counter of a channel agree. */
  ghost predicate ChannelInv(s: State, c: string) {
    var es := s.Envs(c);
    && SameIds(es, s.Ids(c)) && DistinctIds(es)
    && Increasing(es) && 0 <= s.Top(c)
    && (forall i :: 0 <= i < |es| ==> 1 <= es[i].stamp <= s.Top(c) && es[i].channelID == c)
  }

  /** A user's cursor is never ahead of the channel's counter. */
  ghost predicate CursorInv(s: State, u: string, c: string) {
    0 <= s.Cursor(u, c) <= s.Top(c)
  }

  lemma {:induction false} KeptIn(es: seq<Envelope>, cutoff: int)
    ensures forall e :: e in KeptSince(es, cutoff) <==> e in es && e.createdAt >= cutoff
  {
    if es != [] {
      KeptIn(Front(es), cutoff);
      SplitLast(es);
    }
  }

  lemma {:induction false} DroppedAre(es: seq<Envelope>, cutoff: int)
    ensures forall id :: id in DroppedIds(es, cutoff) <==> exists e :: e in es && e.createdAt < cutoff && e.id == id
  {
    if es != [] {
      DroppedAre(Front(es), cutoff);
      SplitLast(es);
    }
  }

  /** A deletion keeps a subsequence: sorted stays sorted, distinct stays distinct. */
  lemma {:induction false} KeptOrder(es: seq<Envelope>, cutoff: int)
    requires Increasing(es) && DistinctIds(es)
    ensures Increasing(KeptSince(es, cutoff)) && DistinctIds(KeptSince(es, cutoff))
  {
    if es != [] {
      var f, kept := Front(es), KeptSince(Front(es), cutoff);
      KeptOrder(f, cutoff);
      KeptIn(f, cutoff);
      forall i | 0 <= i < |kept| ensures kept[i].stamp < Last(es).stamp && kept[i].id != Last(es).id {
        assert kept[i] in f;
      }
    }
  }

  lemma HasIdIn(es: seq<Envelope>, id: string)
    ensures HasId(es, id) <==> exists e :: e in es && e.id == id
  {
    if e :| e in es && e.id == id {
      var i :| 0 <= i < |es| && es[i] == e;
      assert es[i].id == id;
    }
  }

  /** Forgetting the ids of what was deleted leaves exactly the ids of what was kept. */
  lemma KeptIds(es: seq<Envelope>, ids: set<string>, cutoff: int)
    requires SameIds(es, ids) && DistinctIds(es)
    ensures SameIds(KeptSince(es, cutoff), ids - DroppedIds(es, cutoff))
  {
    var kept := KeptSince(es, cutoff);
    KeptIn(es, cutoff);
    DroppedAre(es, cutoff);
    forall id ensures id in ids - DroppedIds(es, cutoff) <==> HasId(kept, id) {
      HasIdIn(es, id);
      HasIdIn(kept, id);
      if e :| e in kept && e.id == id {
        forall f | f in es && f.id == id ensures f == e {
          var i, j :| 0 <= i < |es| && 0 <= j < |es| && es[i] == e && es[j] == f;
          assert i < j || j < i || i == j;
        }
      }
    }
  }

  lemma AppendKeeps(s: State, e: Envelope, c: string)
    requires ChannelInv(s, c)
    ensures ChannelInv(Append(s, e), c)
  {
    if e.channelID == c && IsNew(s, e) {
      var es, s' := s.Envs(c), Append(s, e);
      var longer := es + [Stamped(s, e)];
      forall id ensures id in s'.Ids(c) <==> HasId(longer, id) {
        HasIdIn(es, id);
        HasIdIn(longer, id);
      }
      forall i | 0 <= i < |es| ensures es[i].id != e.id {
        assert HasId(es, es[i].id);
      }
    }
  }

  lemma DeleteKeeps(s: State, d: string, cutoff: int, c: string)
    requires ChannelInv(s, c)
    ensures ChannelInv(DeleteBefore(s, d, cutoff), c)
  {
    var s' := DeleteBefore(s, d, cutoff);
    if d == c {
      var es, kept := s.Envs(c), KeptSince(s.Envs(c), cutoff);
      KeptOrder(es, cutoff);
      KeptIn(es, cutoff);
      KeptIds(es, s.Ids(c), cutoff);
      forall i | 0 <= i < |kept| ensures 1 <= kept[i].stamp <= s.Top(c) && kept[i].channelID == c {
        assert kept[i] in es;
      }
    }
  }

  /** Wiping, dropping a channel or a network: the list and its ids go, counter and cursors stay. */
  lemma WipeKeeps(s: State, s': State, cs: set<string>, c: string)
    requires ChannelInv(s, c)
    requires s'.envs == s.envs - cs && s'.envIDs == s.envIDs - cs && s'.chanSeq == s.chanSeq
    ensures ChannelInv(s', c)
  {
  }

  lemma {:induction false} FetchTouchesCursors(s: State, u: string, visited: seq<string>)
    ensures Fetch(s, u, visited) == s.(cursors := Fetch(s, u, visited).cursors)
  {
    if visited != [] {
      FetchTouchesCursors(s, u, Front(visited));
    }
  }

  lemma ApplyKeeps(s: State, op: Op, c: string)
    requires ChannelInv(s, c)
    ensures ChannelInv(Apply(s, op), c)
  {
    match op
    case AppendOp(e) => AppendKeeps(s, e, c);
    case DeleteBeforeOp(d, cutoff) => DeleteKeeps(s, d, cutoff, c);
    case WipeOp(d) => WipeKeeps(s, Apply(s, op), {d}, c);
    case DropChannelOp(d) => WipeKeeps(s, Apply(s, op), {d}, c);
    case DropNetworkOp(n) => WipeKeeps(s, Apply(s, op), ChannelsOf(s, n), c);
    case MarkOp(u, d, at) =>
    case BaselineOp(u, d) =>
    case FetchOp(u, visited) => FetchTouchesCursors(s, u, visited);
    case TablesOp(_, _) =>
  }

  /** The tables of every channel agree in every reachable state. */
  lemma {:induction false} AlwaysChannelInv(ops: seq<Op>, c: string)
    ensures ChannelInv(Run(EMPTY, ops), c)
  {
    if ops != [] {
      AlwaysChannelInv(Front(ops), c);
      ApplyKeeps(Run(EMPTY, Front(ops)), Last(ops), c);
    }
  }

  // ----- nothing moves back -----

  /** Counters never fall, read rows never vanish, read cursors never move back. */
  ghost predicate OnlyForward(s: State, s': State, u: string, c: string) {
    && s.Top(c) <= s'.Top(c)
    && (s.HasRow(u, c) ==> s'.HasRow(u, c))
    && s.Cursor(u, c) <= s'.Cursor(u, c)
  }

  lemma SetCursorIs(s: State, v: string, d: string, at: int, u: string, c: string)
    ensures var s' := s.(cursors := SetCursor(s.cursors, v, d, at));
            && (s'.HasRow(u, c) <==> (u == v && c == d) || s.HasRow(u, c))
            && s'.Cursor(u, c) == if u == v && c == d then at else s.Cursor(u, c)
  {}

  lemma BaselineForward(s: State, v: string, d: string, u: string, c: string)
    requires CursorInv(s, u, c)
    ensures var s' := Baseline(s, v, d);
            && OnlyForward(s, s', u, c) && CursorInv(s', u, c) && s'.Top(c) == s.Top(c)
            && (s.HasRow(u, c) || u != v || c != d ==>
                 s'.Cursor(u, c) == s.Cursor(u, c) && (s'.HasRow(u, c) <==> s.HasRow(u, c)))
            && (!s.HasRow(u, c) && u == v && c == d ==> s'.HasRow(u, c) && s'.Cursor(u, c) == s.Top(c))
  {
    SetCursorIs(s, v, d, s.Top(d), u, c);
  }

  /** A fetch gives the channels it visits for the first time a cursor at their counter, and nothing else. */
  lemma {:induction false} FetchBaselines(s: State, v: string, visited: seq<string>, u: string, c: string)
    requires CursorInv(s, u, c)
    ensures var s' := Fetch(s, v, visited);
            && OnlyForward(s, s', u, c) && CursorInv(s', u, c) && s'.Top(c) == s.Top(c)
            && (s.HasRow(u, c) || u != v || c !in visited ==>
                 s'.Cursor(u, c) == s.Cursor(u, c) && (s'.HasRow(u, c) <==> s.HasRow(u, c)))
            && (!s.HasRow(u, c) && u == v && c in visited ==> s'.HasRow(u, c) && s'.Cursor(u, c) == s.Top(c))
  {
    if visited != [] {
      FetchBaselines(s, v, Front(visited), u, c);
      BaselineForward(Fetch(s, v, Front(visited)), v, Last(visited), u, c);
      SplitLast(visited);
    }
  }

  /** The exact effect of a mark: the cursor goes to the clamped position, or stays. */
  lemma MarkIs(s: State, v: string, d: string, at: int, u: string, c: string)
    requires CursorInv(s, u, c)
    ensures var s' := Mark(s, v, d, at); var clamped := if at > s.Top(c) then s.Top(c) else at;
            && OnlyForward(s, s', u, c) && CursorInv(s', u, c)
            && s'.Cursor(u, c) == if u == v && c == d && clamped > s.Cursor(u, c) then clamped else s.Cursor(u, c)
  {
    SetCursorIs(s, v, d, if at > s.Top(d) then s.Top(d) else at, u, c);
  }

  lemma ApplyForward(s: State, op: Op, u: string, c: string)
    requires CursorInv(s, u, c)
    ensures OnlyForward(s, Apply(s, op), u, c) && CursorInv(Apply(s, op), u, c)
  {
    match op
    case MarkOp(v, d, at) => MarkIs(s, v, d, at, u, c);
    case BaselineOp(v, d) => BaselineForward(s, v, d, u, c);
    case FetchOp(v, visited) => FetchBaselines(s, v, visited, u, c);
    case _ =>
  }

  lemma {:induction false} AlwaysCursorInv(ops: seq<Op>, u: string, c: string)
    ensures CursorInv(Run(EMPTY, ops), u, c)
  {
    if ops != [] {
      AlwaysCursorInv(Front(ops), u, c);
      ApplyForward(Run(EMPTY, Front(ops)), Last(ops), u, c);
    }
  }

  /** From any state a run has reached, the rest of the run only moves counters and cursors forward. */
  lemma {:induction false} RunForward(ops: seq<Op>, more: seq<Op>, u: string, c: string)
    ensures OnlyForward(Run(EMPTY, ops), Run(EMPTY, ops + more), u, c)
  {
    if more == [] {
      assert ops + more == ops;
    } else {
      RunForward(ops, Front(more), u, c);
      assert Front(ops + more) == ops + Front(more);
      AlwaysCursorInv(ops + Front(more), u, c);
      ApplyForward(Run(EMPTY, ops + Front(more)), Last(more), u, c);
    }
  }

  /**
   * No envelope is born already read: whatever was deleted, wiped or recreated
   * before, a stored envelope is past every user's cursor and past every
   * sequence number the channel has shown.
   */
  lemma BornUnread(ops: seq<Op>, e: Envelope, u: string)
    requires IsNew(Run(EMPTY, ops), e)
    ensures var s := Run(EMPTY, ops); var s' := Append(s, e); var c := e.channelID;
            && Last(s'.Envs(c)) == Stamped(s, e)
            && Stamped(s, e).stamp > s'.Cursor(u, c)
            && forall i :: 0 <= i < |s.Envs(c)| ==> Stamped(s, e).stamp > s.Envs(c)[i].stamp
  {
    AlwaysChannelInv(ops, e.channelID);
    AlwaysCursorInv(ops, u, e.channelID);
  }
}
