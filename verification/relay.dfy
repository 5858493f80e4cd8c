/** The relay's shared fields, its lock sections, and the deliver loop run on its own. */
module Relay {
  import opened Model

  // ----- the fields guarded by the relay's mutex -----

  datatype Shared = Shared(online: bool, queues: map<string, seq<Envelope>>, sending: set<string>) {
    function Queue(c: string): seq<Envelope> {
      if c in queues then queues[c] else []
    }
  }

  // ----- one function per lock section -----

  function SetOnline(s: Shared, v: bool): Shared {
    s.(online := v)
  }

  function Push(s: Shared, c: string, q: seq<Envelope>): Shared {
    s.(queues := s.queues[c := q])
  }

  /** Outbound sends directly exactly when the hub is up and nobody sends on the channel. */
  predicate SendsDirectly(s: Shared, c: string) {
    s.online && c !in s.sending
  }

  function Enter(s: Shared, env: Envelope): Shared {
    var c := env.channelID;
    if SendsDirectly(s, c) then s.(sending := s.sending + {c})
    else Push(s, c, s.Queue(c) + [env])
  }

  function PutBack(s: Shared, c: string, env: Envelope): Shared {
    Push(s, c, [env] + s.Queue(c))
  }

  function Popped(s: Shared, c: string): Option<Envelope> {
    if s.Queue(c) == [] then None else Some(s.Queue(c)[0])
  }

  function Pop(s: Shared, c: string): Shared {
    if s.Queue(c) == [] then s else Push(s, c, s.Queue(c)[1..])
  }

  function Leave(s: Shared, c: string): Shared {
    s.(sending := s.sending - {c})
  }

  /** A drain spawns a sender for a channel with a queue and no sender. */
  predicate Drainable(s: Shared, c: string) {
    s.Queue(c) != [] && c !in s.sending
  }

  function DrainOne(s: Shared, c: string): Shared {
    if Drainable(s, c) then Push(s, c, s.Queue(c)[1..]).(sending := s.sending + {c}) else s
  }

  // ----- the hub, as far as the relay can see it -----

  /** Lost: the call failed and nothing arrived. LostReply: it failed although the hub has the envelope. */
  datatype Outcome = Delivered | LostReply | Lost

  class Hub {
    var script: seq<Outcome>
    var log: seq<Envelope>

    /** An exhausted script is a hub that stays unreachable. */
    method Send(env: Envelope) returns (ok: bool)
      modifies this
      ensures var out := if old(script) == [] then Lost else old(script)[0];
              && ok == out.Delivered?
              && log == old(log) + (if out.Lost? then [] else [env])
      ensures script == if old(script) == [] then [] else old(script)[1..]
    {
      ok := false;
      if script != [] {
        if !script[0].Lost? {
          log := log + [env];
        }
        ok := script[0].Delivered?;
        script := script[1..];
      }
    }
  }

  /** How many of the pending envelopes get through before the first failure. */
  function Through(pending: seq<Envelope>, script: seq<Outcome>): (k: nat)
    ensures k <= |pending|
    ensures k <= |script|
    ensures forall i :: 0 <= i < k ==> script[i].Delivered?
    ensures k < |pending| && k < |script| ==> !script[k].Delivered?
  {
    if pending == [] || script == [] || !script[0].Delivered? then 0
    else 1 + Through(pending[1..], script[1..])
  }

  lemma {:induction false} ThroughIs(pending: seq<Envelope>, script: seq<Outcome>, n: nat)
    requires n <= |pending| && n <= |script|
    requires forall i :: 0 <= i < n ==> script[i].Delivered?
    requires n == |pending| || n == |script| || !script[n].Delivered?
    ensures Through(pending, script) == n
  {
    if n > 0 {
      ThroughIs(pending[1..], script[1..], n - 1);
    }
  }

  /** The envelope the failing call still got to the hub, if any. */
  function Leaked(pending: seq<Envelope>, script: seq<Outcome>): (l: seq<Envelope>)
  {
    var k := Through(pending, script);
    if k < |pending| && k < |script| && script[k].LostReply? then [pending[k]] else []
  }

  /** What one undisturbed deliver leaves behind. */
  ghost predicate Flushed(before: Shared, after: Shared, first: Envelope, script: seq<Outcome>,
                          log0: seq<Envelope>, log1: seq<Envelope>)
  {
    var c := first.channelID;
    var pending := [first] + before.Queue(c);
    var k := Through(pending, script);
    && after.Queue(c) == pending[k..]
    && after.queues - {c} == before.queues - {c}
    && after.sending == before.sending - {c}
    && after.online == (before.online && k == |pending|)
    && log1 == log0 + pending[..k] + Leaked(pending, script)
  }

  /** Between two rounds of deliver's loop: n envelopes are through and env is the next one. */
  ghost predicate Flushing(before: Shared, now: Shared, first: Envelope, script: seq<Outcome>,
                           log0: seq<Envelope>, log1: seq<Envelope>, env: Option<Envelope>, n: nat) {
    var c := first.channelID;
    var pending := [first] + before.Queue(c);
    && n <= |pending| && n <= |script|
    && now.sending == before.sending && now.online == before.online
    && now.queues - {c} == before.queues - {c}
    && (env.Some? ==> n < |pending| && env.value == pending[n] && now.Queue(c) == pending[n + 1..])
    && (env.None? ==> n == |pending| && now.Queue(c) == [])
    && log1 == log0 + pending[..n]
    && forall i :: 0 <= i < n ==> script[i].Delivered?
  }

  lemma FlushAdvances(before: Shared, now: Shared, first: Envelope, script: seq<Outcome>,
                      log0: seq<Envelope>, log1: seq<Envelope>, env: Envelope, n: nat)
    requires n < |script| && script[n].Delivered?
    requires log1 != [] && Last(log1) == env && Flushing(before, now, first, script, log0, Front(log1), Some(env), n)
    ensures var c := first.channelID;
            Flushing(before, Pop(now, c), first, script, log0, log1, Popped(now, c), n + 1)
  {
    var pending := [first] + before.Queue(first.channelID);
    assert pending[..n + 1] == pending[..n] + [pending[n]];
    assert log1 == Front(log1) + [env];
  }

  lemma FlushEnds(before: Shared, now: Shared, first: Envelope, script: seq<Outcome>,
                  log0: seq<Envelope>, log1: seq<Envelope>, n: nat)
    requires Flushing(before, now, first, script, log0, log1, None, n)
    ensures Flushed(before, Leave(now, first.channelID), first, script, log0, log1)
  {
    ThroughIs([first] + before.Queue(first.channelID), script, n);
  }

  lemma FlushFails(before: Shared, now: Shared, first: Envelope, script: seq<Outcome>,
                   log0: seq<Envelope>, log1: seq<Envelope>, env: Envelope, n: nat)
    requires Flushing(before, now, first, script, log0, log1, Some(env), n)
    requires n == |script| || !script[n].Delivered?
    ensures var c := first.channelID;
            var leak := if n < |script| && script[n].LostReply? then [env] else [];
            Flushed(before, Leave(PutBack(SetOnline(now, false), c, env), c), first, script, log0, log1 + leak)
  {
    ThroughIs([first] + before.Queue(first.channelID), script, n);
  }

  class Relayer {
    var online: bool
    var queues: map<string, seq<Envelope>>
    var sending: set<string>
    const hub: Hub

    constructor (hub: Hub, online: bool)
      ensures this.hub == hub
      ensures Fields() == Shared(online, map[], {})
    {
      this.hub := hub;
      this.online := online;
      this.queues := map[];
      this.sending := {};
    }

    ghost function Fields(): Shared
      reads this
    {
      Shared(online, queues, sending)
    }

    /** Outbound up to the point where it either returns or goes on to deliver. */
    method Accept(env: Envelope) returns (direct: bool)
      modifies this
      ensures direct == SendsDirectly(old(Fields()), env.channelID)
      ensures Fields() == Enter(old(Fields()), env)
    {
      var c := env.channelID;
      if !online {
        queues := queues[c := (if c in queues then queues[c] else []) + [env]];
        return false;
      }
      if c in sending {
        queues := queues[c := (if c in queues then queues[c] else []) + [env]];
        return false;
      }
      sending := sending + {c};
      return true;
    }

    method MarkOffline()
      modifies this`online
      ensures !online
    {
      online := false;
    }

    method ReturnToQueue(c: string, env: Envelope)
      modifies this`queues
      ensures Fields() == PutBack(old(Fields()), c, env)
    {
      queues := queues[c := [env] + (if c in queues then queues[c] else [])];
    }

    method TakeNext(c: string) returns (env: Option<Envelope>)
      modifies this`queues
      ensures env == Popped(old(Fields()), c)
      ensures Fields() == Pop(old(Fields()), c)
    {
      if c in queues && |queues[c]| > 0 {
        env := Some(queues[c][0]);
        queues := queues[c := queues[c][1..]];
      } else {
        env := None;
      }
    }

    /**
     * deliver with no one else touching the relay: it stops, with either the
     * whole backlog sent, or the failed envelope back at the head of the rest.
     */
    method Deliver(first: Envelope)
      modifies this, hub
      ensures Flushed(old(Fields()), Fields(), first, old(hub.script), old(hub.log), hub.log)
    {
      var c := first.channelID;
      var env := Some(first);
      ghost var before, script, log := Fields(), hub.script, hub.log;
      ghost var n := 0;
      while env.Some?
        invariant n <= |script| && hub.script == script[n..]
        invariant Flushing(before, Fields(), first, script, log, hub.log, env, n)
        decreases 1 + |before.Queue(c)| - n
      {
        ghost var sofar := hub.log;
        var ok := hub.Send(env.value);
        if !ok {
          FlushFails(before, Fields(), first, script, log, sofar, env.value, n);
          MarkOffline();
          ReturnToQueue(c, env.value);
          break;
        }
        assert Front(hub.log) == sofar;
        FlushAdvances(before, Fields(), first, script, log, hub.log, env.value, n);
        env := TakeNext(c);
        n := n + 1;
      }
      if env.None? {
        FlushEnds(before, Fields(), first, script, log, hub.log, n);
      }
      sending := sending - {c};
    }

    method Outbound(env: Envelope)
      modifies this, hub
      ensures !SendsDirectly(old(Fields()), env.channelID) ==>
                Fields() == Enter(old(Fields()), env) && hub.log == old(hub.log)
      ensures SendsDirectly(old(Fields()), env.channelID) ==>
                Flushed(old(Fields()), Fields(), env, old(hub.script), old(hub.log), hub.log)
    {
      var direct := Accept(env);
      if direct {
        Deliver(env);
      }
    }

    /**
     * The single lock section of drainAll. `order` is the order in which the
     * runtime happens to iterate the queue map; `spawned` are the envelopes
     * handed to new senders.
     */
    method DrainAll(order: seq<string>) returns (total: nat, spawned: seq<Envelope>)
      requires forall c :: c in queues <==> c in order
      requires forall i, j :: 0 <= i < j < |order| ==> order[i] != order[j]
      modifies this
      ensures Fields() == Drain(old(Fields()), order)
      ensures spawned == Heads(old(Fields()), order)
      ensures total == Backlog(old(Fields()), order)
    {
      total := 0;
      spawned := [];
      ghost var before := Fields();
      for i := 0 to |order|
        invariant Fields() == Drain(before, order[..i])
        invariant spawned == Heads(before, order[..i])
        invariant total == Backlog(before, order[..i])
        invariant forall d :: d in queues <==> d in order
        invariant forall j :: i <= j < |order| ==>
                    && Fields().Queue(order[j]) == before.Queue(order[j])
                    && (order[j] in sending <==> order[j] in before.sending)
      {
        var c := order[i];
        assert order[..i + 1][..i] == order[..i];
        if |queues[c]| == 0 {
          continue;
        }
        total := total + |queues[c]|;
        if c in sending {
          continue;
        }
        sending := sending + {c};
        spawned := spawned + [queues[c][0]];
        queues := queues[c := queues[c][1..]];
      }
      assert order[..|order|] == order;
    }
  }

  /** drainAll as a fold over the iteration order. */
  function Drain(s: Shared, order: seq<string>): Shared {
    if order == [] then s else DrainOne(Drain(s, Front(order)), Last(order))
  }

  /** The heads a drain hands out, in iteration order. */
  function Heads(s: Shared, order: seq<string>): seq<Envelope> {
    if order == [] then []
    else Heads(s, Front(order)) + (if Drainable(s, Last(order)) then [s.Queue(Last(order))[0]] else [])
  }

  /** What drainAll announces: every queued envelope, busy channels included. */
  function Backlog(s: Shared, order: seq<string>): nat {
    if order == [] then 0 else Backlog(s, Front(order)) + |s.Queue(Last(order))|
  }

  /** The announced count, channel by channel. */
  lemma {:induction false} BacklogSums(s: Shared, a: seq<string>, b: seq<string>)
    ensures Backlog(s, a + b) == Backlog(s, a) + Backlog(s, b)
    ensures |a| == 1 ==> Backlog(s, a) == |s.Queue(a[0])|
  {
    if b == [] {
      assert a + b == a;
    } else {
      BacklogSums(s, a, Front(b));
      assert Front(a + b) == a + Front(b);
    }
    assert |a| == 1 ==> Front(a) == [];
  }

  /** The envelopes handed to new senders are the heads the drain takes off, and with the rest they are the backlog. */
  lemma {:induction false} DrainAccounts(s: Shared, order: seq<string>)
    requires forall i, j :: 0 <= i < j < |order| ==> order[i] != order[j]
    ensures Backlog(s, order) == |Heads(s, order)| + Backlog(Drain(s, order), order)
    ensures forall c :: c in order && Drainable(s, c) ==> s.Queue(c)[0] in Heads(s, order)
    ensures forall e :: e in Heads(s, order) ==> exists c :: c in order && Drainable(s, c) && e == s.Queue(c)[0]
  {
    if order != [] {
      var f, c := Front(order), Last(order);
      DrainAccounts(s, f);
      SplitLast(order);
      DrainEffect(s, f, c);
      BacklogOf(Drain(s, f), Drain(s, order), f, c);
    }
  }

  lemma {:induction false} BacklogOf(s: Shared, t: Shared, order: seq<string>, c: string)
    requires c !in order && forall d :: d != c ==> s.Queue(d) == t.Queue(d)
    ensures Backlog(s, order) == Backlog(t, order)
  {
    if order != [] {
      SplitLast(order);
      BacklogOf(s, t, Front(order), c);
    }
  }

  /** What one drain does to one channel, whatever the iteration order. */
  lemma {:induction false} DrainEffect(s: Shared, order: seq<string>, c: string)
    requires forall i, j :: 0 <= i < j < |order| ==> order[i] != order[j]
    ensures var t := Drain(s, order);
            && t.online == s.online
            && (c in order && Drainable(s, c) ==> t.Queue(c) == s.Queue(c)[1..] && c in t.sending)
            && (!(c in order && Drainable(s, c)) ==> t.Queue(c) == s.Queue(c) && (c in t.sending <==> c in s.sending))
  {
    if order != [] {
      DrainEffect(s, Front(order), c);
    }
  }
}
