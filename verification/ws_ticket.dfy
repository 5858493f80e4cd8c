/**
 * One-time WebSocket tickets: sweeping never changes an answer, and a ticket
 * redeems once, in time, for its own token.
 */
module WsTicket {
  import opened Model

  const TTL: int := 60 * 1_000_000_000

  datatype Entry = Entry(token: string, exp: int)

  type Entries = map<string, Entry>

  function Swept(es: Entries, now: int): Entries {
    map k | k in es && now <= es[k].exp :: es[k]
  }

  /** `sweeps` false is the version that never sweeps. */
  function Issued(es: Entries, id: string, token: string, now: int, sweeps: bool): Entries {
    (if sweeps then Swept(es, now) else es)[id := Entry(token, now + TTL)]
  }

  function Redeemed(es: Entries, id: string, now: int): Option<string> {
    if id in es && now <= es[id].exp then Some(es[id].token) else None
  }

  class TicketStore {
    var entries: Entries

    constructor ()
      ensures entries == map[]
    {
      entries := map[];
    }

    /** `id` is the freshly drawn ticket, `now` the clock while the lock is held. */
    method Issue(token: string, id: string, now: int)
      modifies this
      ensures entries == Issued(old(entries), id, token, now, true)
    {
      ghost var before := entries;
      var rest := entries.Keys;
      while rest != {}
        invariant rest <= entries.Keys <= before.Keys
        invariant forall k :: k in entries ==> entries[k] == before[k]
        invariant forall k :: k in before && k !in rest ==> (k in entries <==> now <= before[k].exp)
        decreases |rest|
      {
        var k :| k in rest;
        if now > entries[k].exp {
          entries := entries - {k};
        }
        rest := rest - {k};
      }
      assert entries == Swept(before, now);
      entries := entries[id := Entry(token, now + TTL)];
    }

    method Consume(id: string, now: int) returns (token: Option<string>)
      modifies this
      ensures token == Redeemed(old(entries), id, now)
      ensures entries == old(entries) - {id}
    {
      var known := id in entries;
      var exp := 0;
      token := None;
      if known {
        exp := entries[id].exp;
        token := Some(entries[id].token);
        entries := entries - {id};
      }
      if !known || now > exp {
        return None;
      }
    }
  }

  // ----- whole runs -----

  datatype Event =
    | Issue(id: string, token: string, time: int)
    | Consume(id: string, time: int)

  ghost function After(run: seq<Event>, sweeps: bool): Entries {
    if run == [] then map[]
    else
      Stepped(After(Front(run), sweeps), Last(run), sweeps)
  }

  ghost function Stepped(es: Entries, e: Event, sweeps: bool): Entries {
    match e
    case Issue(id, token, time) => Issued(es, id, token, time, sweeps)
    case Consume(id, _) => es - {id}
  }

  /** What the i-th event, a redemption, answers. */
  ghost function Answer(run: seq<Event>, i: nat, sweeps: bool): Option<string>
    requires i < |run| && run[i].Consume?
  {
    Redeemed(After(run[..i], sweeps), run[i].id, run[i].time)
  }

  ghost predicate Ordered(run: seq<Event>) {
    forall i, j :: 0 <= i < j < |run| ==> run[i].time <= run[j].time
  }

  /** Every ticket id is drawn once. */
  ghost predicate FreshIds(run: seq<Event>) {
    forall i, j :: 0 <= i < j < |run| && run[i].Issue? && run[j].Issue? ==> run[i].id != run[j].id
  }

  /** The j-th event issued the ticket, and nobody has tried to redeem it before the n-th. */
  ghost predicate Unspent(run: seq<Event>, j: nat, id: string, n: nat) {
    && j < n <= |run| && run[j].Issue? && run[j].id == id
    && forall k :: j < k < n ==> !(run[k].Consume? && run[k].id == id)
  }

  /** The store holds unspent tickets only, and every unspent one that is still in time. */
  ghost predicate Holds(es: Entries, run: seq<Event>, n: nat, now: int)
    requires n <= |run|
  {
    && (forall id :: id in es ==>
          exists j: nat :: Unspent(run, j, id, n) && es[id] == Entry(run[j].token, run[j].time + TTL))
    && (forall j: nat, id :: Unspent(run, j, id, n) && now <= run[j].time + TTL ==>
          id in es && es[id] == Entry(run[j].token, run[j].time + TTL))
  }

  lemma {:induction false} StoreHolds(run: seq<Event>, n: nat, now: int, sweeps: bool)
    requires Ordered(run) && FreshIds(run) && n <= |run|
    requires n > 0 ==> run[n - 1].time <= now
    ensures Holds(After(run[..n], sweeps), run, n, now)
  {
    if n > 0 {
      var e := run[n - 1];
      StoreHolds(run, n - 1, e.time, sweeps);
      assert Front(run[..n]) == run[..n - 1];
      HoldsStep(After(run[..n - 1], sweeps), After(run[..n], sweeps), run, n, now, sweeps);
    }
  }

  lemma HoldsStep(es0: Entries, es: Entries, run: seq<Event>, n: nat, now: int, sweeps: bool)
    requires Ordered(run) && FreshIds(run) && 0 < n <= |run| && run[n - 1].time <= now
    requires es == Stepped(es0, run[n - 1], sweeps)
    requires Holds(es0, run, n - 1, run[n - 1].time)
    ensures Holds(es, run, n, now)
  {
    var e := run[n - 1];
    forall id | id in es
      ensures exists j: nat :: Unspent(run, j, id, n) && es[id] == Entry(run[j].token, run[j].time + TTL)
    {
      if e.Issue? && id == e.id {
        assert Unspent(run, n - 1, id, n);
      } else {
        var j: nat :| Unspent(run, j, id, n - 1) && es0[id] == Entry(run[j].token, run[j].time + TTL);
        assert Unspent(run, j, id, n);
      }
    }
    forall j: nat, id | Unspent(run, j, id, n) && now <= run[j].time + TTL
      ensures id in es && es[id] == Entry(run[j].token, run[j].time + TTL)
    {
      if j < n - 1 {
        assert Unspent(run, j, id, n - 1);
      }
    }
  }

  /**
   * The exact meaning of a redemption: it yields a token if and only if that
   * token's ticket was issued at most a minute ago and never presented since.
   */
  lemma RedeemsIff(run: seq<Event>, i: nat, sweeps: bool, token: string)
    requires Ordered(run) && FreshIds(run) && i < |run| && run[i].Consume?
    ensures Answer(run, i, sweeps) == Some(token) <==>
              exists j: nat ::
                Unspent(run, j, run[i].id, i) && run[j].token == token && run[i].time <= run[j].time + TTL
  {
    StoreHolds(run, i, run[i].time, sweeps);
  }

  /** Sweeping is invisible in every run. */
  lemma SweepIsInvisible(run: seq<Event>, i: nat)
    requires Ordered(run) && FreshIds(run) && i < |run| && run[i].Consume?
    ensures Answer(run, i, true) == Answer(run, i, false)
  {
    var a, b := Answer(run, i, true), Answer(run, i, false);
    if a.Some? {
      RedeemsIff(run, i, true, a.value);
      RedeemsIff(run, i, false, a.value);
    } else if b.Some? {
      RedeemsIff(run, i, true, b.value);
      RedeemsIff(run, i, false, b.value);
    }
  }

  /** A ticket redeems at most once. */
  lemma RedeemsOnce(run: seq<Event>, i: nat, j: nat)
    requires Ordered(run) && FreshIds(run) && i < j < |run|
    requires run[i].Consume? && run[j].Consume? && run[i].id == run[j].id
    requires Answer(run, i, true).Some?
    ensures Answer(run, j, true) == None
  {
    RedeemsIff(run, i, true, Answer(run, i, true).value);
    if Answer(run, j, true).Some? {
      RedeemsIff(run, j, true, Answer(run, j, true).value);
    }
  }
}
