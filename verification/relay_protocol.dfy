/**
 * The outbound relay as a step machine: one step per lock section or hub call,
 * interleaved in any order by any number of deliver goroutines, by callers of
 * Outbound and by the event loop.
 */
module RelayProtocol {
  import opened Model
  import opened Relay

  /** Where a deliver goroutine stands. */
  datatype Place =
    | Sending(env: Envelope)                          // hub.Send is next
    | Failed(env: Envelope)                           // Send failed; recording offline is next
    | Returning(env: Envelope)                        // putting env back is next
    | Taking                                          // Send succeeded; taking the next one is next
    | Leaving(since: nat, back: bool)                 // dropping the sending mark is next
    | Done
  {
    ghost function Held(): seq<Envelope> {
      match this
      case Sending(e) => [e]
      case Failed(e) => [e]
      case Returning(e) => [e]
      case _ => []
    }
  }

  datatype Thread = Thread(channel: string, at: Place)

  /** What happened on one channel: accepted by Outbound, acknowledged by Send, seen by the hub. */
  datatype Log = Log(accepted: seq<Envelope>, acked: seq<Envelope>, hub: seq<Envelope>)

  datatype State = State(shared: Shared, threads: seq<Thread>, draining: bool, logs: map<string, Log>)
  {
    ghost function LogOf(c: string): Log {
      if c in logs then logs[c] else Log([], [], [])
    }
  }

  datatype Step =
    | Outbound(env: Envelope)
    | Send(t: nat, outcome: Outcome)
    | MarkOffline(t: nat)
    | Return(t: nat)
    | Take(t: nat)
    | Leave(t: nat)
    | HubOffline
    | HubOnline
    | DrainAll(order: seq<string>)

  ghost predicate At(s: State, t: nat) {
    t < |s.threads| && !s.threads[t].at.Done?
  }

  ghost predicate Enabled(s: State, step: Step) {
    match step
    case Outbound(_) => true
    case Send(t, _) => At(s, t) && s.threads[t].at.Sending?
    case MarkOffline(t) => At(s, t) && s.threads[t].at.Failed?
    case Return(t) => At(s, t) && s.threads[t].at.Returning?
    case Take(t) => At(s, t) && s.threads[t].at.Taking?
    case Leave(t) => At(s, t) && s.threads[t].at.Leaving?
    // the event loop handles one event at a time
    case HubOffline => !s.draining
    case HubOnline => !s.draining
    case DrainAll(order) =>
      && s.draining
      && (forall c :: c in s.shared.queues ==> c in order)
      && (forall i, j :: 0 <= i < j < |order| ==> order[i] != order[j])
  }

  ghost function Move(s: State, t: nat, at: Place): State
    requires t < |s.threads|
  {
    s.(threads := s.threads[t := s.threads[t].(at := at)])
  }

  ghost function Note(s: State, c: string, l: Log): State {
    s.(logs := s.logs[c := l])
  }

  ghost function Spawn(s: State, c: string, env: Envelope): State {
    s.(threads := s.threads + [Thread(c, Sending(env))])
  }

  ghost function Accepted(s: State, env: Envelope): State {
    var c := env.channelID;
    var l := s.LogOf(c);
    var s1 := Note(s, c, l.(accepted := l.accepted + [env])).(shared := Enter(s.shared, env));
    if SendsDirectly(s.shared, c) then Spawn(s1, c, env) else s1
  }

  ghost function Sent(s: State, t: nat, outcome: Outcome): State
    requires At(s, t) && s.threads[t].at.Sending?
  {
    var c, env := s.threads[t].channel, s.threads[t].at.env;
    var l := s.LogOf(c);
    match outcome
    case Delivered => Move(Note(s, c, l.(acked := l.acked + [env], hub := l.hub + [env])), t, Taking)
    case LostReply => Move(Note(s, c, l.(hub := l.hub + [env])), t, Failed(env))
    case Lost => Move(s, t, Failed(env))
  }

  ghost function DrainChannel(s: State, c: string): State {
    if Drainable(s.shared, c)
    then Spawn(s.(shared := DrainOne(s.shared, c)), c, s.shared.Queue(c)[0])
    else s
  }

  ghost function DrainChannels(s: State, order: seq<string>): State {
    if order == [] then s else DrainChannel(DrainChannels(s, Front(order)), Last(order))
  }

  ghost function Next(s: State, step: Step): State
    requires Enabled(s, step)
  {
    match step
    case Outbound(env) => Accepted(s, env)
    case Send(t, outcome) => Sent(s, t, outcome)
    case MarkOffline(t) => Move(s, t, Returning(s.threads[t].at.env)).(shared := SetOnline(s.shared, false))
    case Return(t) =>
      var c := s.threads[t].channel;
      Move(s, t, Leaving(|s.LogOf(c).accepted|, true)).(shared := PutBack(s.shared, c, s.threads[t].at.env))
    case Take(t) =>
      var c := s.threads[t].channel;
      var at := match Popped(s.shared, c)
        case Some(e) => Sending(e)
        case None => Leaving(|s.LogOf(c).accepted|, false);
      Move(s, t, at).(shared := Pop(s.shared, c))
    case Leave(t) => Move(s, t, Done).(shared := Relay.Leave(s.shared, s.threads[t].channel))
    case HubOffline => s.(shared := SetOnline(s.shared, false))
    case HubOnline => s.(shared := SetOnline(s.shared, true), draining := true)
    case DrainAll(order) => DrainChannels(s, order).(draining := false)
  }

  // ----- runs -----

  ghost function Init(online: bool): State {
    State(Shared(online, map[], {}), [], false, map[])
  }

  /** A step that is not enabled does not happen. */
  ghost function Taken(s: State, step: Step): State {
    if Enabled(s, step) then Next(s, step) else s
  }

  /** Any list of steps is a run. */
  ghost function Exec(online: bool, steps: seq<Step>): State {
    if steps == [] then Init(online) else Taken(Exec(online, Front(steps)), Last(steps))
  }

  // ----- one channel as a sequential machine -----

  /** Thread t is a running deliver of channel c. */
  ghost predicate Serves(threads: seq<Thread>, t: nat, c: string) {
    t < |threads| && threads[t].channel == c && !threads[t].at.Done?
  }

  /** One running deliver per marked channel, none on the others. */
  ghost predicate SingleSender(s: State, c: string) {
    && (forall t: nat, u: nat :: Serves(s.threads, t, c) && Serves(s.threads, u, c) ==> t == u)
    && (c in s.shared.sending <==> exists t: nat :: Serves(s.threads, t, c))
  }

  /** What matters to one channel: where its sender stands, what waits, what happened. */
  datatype View = View(sender: Option<Place>, queue: seq<Envelope>, log: Log)
  {
    ghost function Held(): seq<Envelope> {
      if sender.Some? then sender.value.Held() else []
    }

    /** Everything accepted, in the order in which it will leave. */
    ghost function Pipeline(): seq<Envelope> {
      log.acked + Held() + queue
    }

    /** Nothing accepted is lost or doubled: it is acknowledged, in the sender's hands, or queued. */
    ghost predicate Conserved() {
      && multiset(log.accepted) == multiset(log.acked) + multiset(Held()) + multiset(queue)
      && multiset(log.acked) <= multiset(log.hub)
    }

    /** What a leaving sender has let pile up: its own put-back, or what came after it found nothing. */
    ghost predicate LeavesBehind() {
      sender.Some? && sender.value.Leaving? ==>
        && sender.value.since <= |log.accepted|
        && (sender.value.back ==> queue != [])
        && (!sender.value.back ==> queue == log.accepted[sender.value.since..])
    }
  }

  ghost function SenderOf(s: State, c: string): Option<Place> {
    if exists t: nat :: Serves(s.threads, t, c)
    then var t: nat :| Serves(s.threads, t, c); Some(s.threads[t].at)
    else None
  }

  ghost function ViewOf(s: State, c: string): View {
    View(SenderOf(s, c), s.shared.Queue(c), s.LogOf(c))
  }

  /** The channel a step works on. */
  ghost predicate Touches(s: State, step: Step, c: string)
    requires Enabled(s, step)
  {
    match step
    case Outbound(env) => env.channelID == c
    case Send(t, _) => s.threads[t].channel == c
    case MarkOffline(t) => s.threads[t].channel == c
    case Return(t) => s.threads[t].channel == c
    case Take(t) => s.threads[t].channel == c
    case Leave(t) => s.threads[t].channel == c
    case HubOffline => false
    case HubOnline => false
    case DrainAll(order) => c in order && Drainable(s.shared, c)
  }

  /** The channel's sender stands where the step needs it. */
  ghost predicate Fits(v: View, step: Step) {
    match step
    case Outbound(_) => true
    case Send(_, _) => v.sender.Some? && v.sender.value.Sending?
    case MarkOffline(_) => v.sender.Some? && v.sender.value.Failed?
    case Return(_) => v.sender.Some? && v.sender.value.Returning?
    case Take(_) => v.sender == Some(Taking)
    case Leave(_) => v.sender.Some? && v.sender.value.Leaving?
    case DrainAll(_) => v.sender.None? && v.queue != []
    case _ => false
  }

  /** The same step on the channel alone. */
  ghost function Act(v: View, step: Step, online: bool): View
    requires Fits(v, step)
  {
    match step
    case Outbound(env) =>
      var v1 := v.(log := v.log.(accepted := v.log.accepted + [env]));
      if online && v.sender.None? then v1.(sender := Some(Sending(env))) else v1.(queue := v.queue + [env])
    case Send(_, outcome) =>
      var env := v.sender.value.env;
      (match outcome
       case Delivered =>
         v.(sender := Some(Taking), log := v.log.(acked := v.log.acked + [env], hub := v.log.hub + [env]))
       case LostReply => v.(sender := Some(Failed(env)), log := v.log.(hub := v.log.hub + [env]))
       case Lost => v.(sender := Some(Failed(env))))
    case MarkOffline(_) => v.(sender := Some(Returning(v.sender.value.env)))
    case Return(_) => v.(sender := Some(Leaving(|v.log.accepted|, true)), queue := [v.sender.value.env] + v.queue)
    case Take(_) =>
      if v.queue == [] then v.(sender := Some(Leaving(|v.log.accepted|, false)))
      else v.(sender := Some(Sending(v.queue[0])), queue := v.queue[1..])
    case Leave(_) => v.(sender := None)
    case DrainAll(_) => v.(sender := Some(Sending(v.queue[0])), queue := v.queue[1..])
  }

  /** What the step does to the view of channel c. */
  ghost predicate Acts(s: State, step: Step, c: string)
    requires Enabled(s, step)
  {
    var v, v' := ViewOf(s, c), ViewOf(Next(s, step), c);
    if Touches(s, step, c) then Fits(v, step) && v' == Act(v, step, s.shared.online) else v' == v
  }

  // ----- the protocol refines the sequential machine on every channel -----

  lemma SenderIs(s: State, c: string, t: nat)
    requires SingleSender(s, c) && Serves(s.threads, t, c)
    ensures SenderOf(s, c) == Some(s.threads[t].at)
  {}

  lemma SameSenders(s: State, s': State, c: string)
    requires SingleSender(s, c)
    requires c in s'.shared.sending <==> c in s.shared.sending
    requires forall t: nat :: Serves(s'.threads, t, c) <==> Serves(s.threads, t, c)
    requires forall t: nat :: Serves(s.threads, t, c) ==> t < |s'.threads| && s'.threads[t] == s.threads[t]
    ensures SingleSender(s', c) && SenderOf(s', c) == SenderOf(s, c)
  {
    if t: nat :| Serves(s.threads, t, c) {
      SenderIs(s, c, t);
      SenderIs(s', c, t);
    }
  }

  lemma Moved(s: State, t: nat, at: Place, shared: Shared, logs: map<string, Log>)
    requires At(s, t) && !at.Done? && SingleSender(s, s.threads[t].channel)
    requires s.threads[t].channel in shared.sending
    ensures var c := s.threads[t].channel;
            var s' := Move(s, t, at).(shared := shared, logs := logs);
            && c in s.shared.sending
            && SenderOf(s, c) == Some(s.threads[t].at)
            && SingleSender(s', c) && SenderOf(s', c) == Some(at)
  {
    var c := s.threads[t].channel;
    var s' := Move(s, t, at).(shared := shared, logs := logs);
    assert Serves(s.threads, t, c) && Serves(s'.threads, t, c);
    assert forall u: nat :: Serves(s'.threads, u, c) <==> Serves(s.threads, u, c);
    SenderIs(s, c, t);
    SenderIs(s', c, t);
  }

  lemma Spawned(s: State, s1: State, c: string, env: Envelope)
    requires SingleSender(s, c) && c !in s.shared.sending
    requires s1.threads == s.threads && c in s1.shared.sending
    ensures var s' := Spawn(s1, c, env);
            SenderOf(s, c) == None && SingleSender(s', c) && SenderOf(s', c) == Some(Sending(env))
  {
    var s' := Spawn(s1, c, env);
    forall u: nat ensures Serves(s'.threads, u, c) <==> u == |s.threads| {
      assert !Serves(s.threads, u, c);
    }
    var last: nat := |s.threads|;
    assert Serves(s'.threads, last, c);
    SenderIs(s', c, last);
  }

  lemma Left(s: State, t: nat)
    requires At(s, t) && SingleSender(s, s.threads[t].channel)
    ensures var c := s.threads[t].channel;
            var s' := Move(s, t, Done).(shared := Relay.Leave(s.shared, c));
            && c in s.shared.sending
            && SenderOf(s, c) == Some(s.threads[t].at)
            && SingleSender(s', c) && SenderOf(s', c) == None
  {
    var c := s.threads[t].channel;
    var s' := Move(s, t, Done).(shared := Relay.Leave(s.shared, c));
    assert Serves(s.threads, t, c);
    forall u: nat ensures !Serves(s'.threads, u, c) {
      assert Serves(s.threads, u, c) ==> u == t;
    }
    SenderIs(s, c, t);
  }

  /** Senders of other channels do not count. */
  lemma MovedElsewhere(s: State, t: nat, at: Place, shared: Shared, logs: map<string, Log>, c: string)
    requires At(s, t) && s.threads[t].channel != c && SingleSender(s, c)
    requires c in shared.sending <==> c in s.shared.sending
    ensures var s' := Move(s, t, at).(shared := shared, logs := logs);
            SingleSender(s', c) && SenderOf(s', c) == SenderOf(s, c)
  {
    SameSenders(s, Move(s, t, at).(shared := shared, logs := logs), c);
  }

  lemma SpawnedElsewhere(s: State, s1: State, d: string, env: Envelope, c: string)
    requires d != c && SingleSender(s, c)
    requires s1.threads == s.threads && (c in s1.shared.sending <==> c in s.shared.sending)
    ensures var s' := Spawn(s1, d, env);
            SingleSender(s', c) && SenderOf(s', c) == SenderOf(s, c)
  {
    SameSenders(s, Spawn(s1, d, env), c);
  }

  lemma {:induction false} DrainRefines(s: State, order: seq<string>, c: string)
    requires forall i, j :: 0 <= i < j < |order| ==> order[i] != order[j]
    requires SingleSender(s, c)
    ensures var s', v := DrainChannels(s, order), ViewOf(s, c);
            && s'.shared == Drain(s.shared, order) && SingleSender(s', c)
            && (c in order && Drainable(s.shared, c) ==>
                 Fits(v, DrainAll(order)) && ViewOf(s', c) == Act(v, DrainAll(order), true))
            && (!(c in order && Drainable(s.shared, c)) ==> ViewOf(s', c) == v)
  {
    if order != [] {
      var s1 := DrainChannels(s, Front(order));
      var d := Last(order);
      DrainRefines(s, Front(order), c);
      DrainEffect(s.shared, Front(order), c);
      if Drainable(s1.shared, d) {
        var mid := s1.(shared := DrainOne(s1.shared, d));
        if d == c {
          Spawned(s1, mid, c, s1.shared.Queue(c)[0]);
        } else {
          SpawnedElsewhere(s1, mid, d, s1.shared.Queue(d)[0], c);
        }
      }
    }
  }

  lemma OutboundRefines(s: State, env: Envelope, c: string)
    requires SingleSender(s, c)
    ensures SingleSender(Next(s, Outbound(env)), c) && Acts(s, Outbound(env), c)
  {
    var d := env.channelID;
    var s1 := Accepted(s, env).(threads := s.threads);
    if SendsDirectly(s.shared, d) {
      if d == c {
        Spawned(s, s1, c, env);
      } else {
        SpawnedElsewhere(s, s1, d, env, c);
      }
    } else {
      SameSenders(s, s1, c);
    }
  }

  lemma SenderRefines(s: State, step: Step, t: nat, c: string)
    requires step.Send? || step.MarkOffline? || step.Return? || step.Take?
    requires t == step.t
    requires Enabled(s, step) && SingleSender(s, c)
    ensures SingleSender(Next(s, step), c) && Acts(s, step, c)
  {
    if s.threads[t].channel == c {
      OwnSenderRefines(s, step, t);
    } else {
      var s' := Next(s, step);
      assert s' == Move(s, t, s'.threads[t].at).(shared := s'.shared, logs := s'.logs);
      MovedElsewhere(s, t, s'.threads[t].at, s'.shared, s'.logs, c);
    }
  }

  lemma OwnSenderRefines(s: State, step: Step, t: nat)
    requires step.Send? || step.MarkOffline? || step.Return? || step.Take?
    requires t == step.t
    requires Enabled(s, step) && SingleSender(s, s.threads[t].channel)
    ensures var c := s.threads[t].channel;
            SingleSender(Next(s, step), c) && Acts(s, step, c)
  {
    var s' := Next(s, step);
    assert s' == Move(s, t, s'.threads[t].at).(shared := s'.shared, logs := s'.logs);
    assert Serves(s.threads, t, s.threads[t].channel);
    Moved(s, t, s'.threads[t].at, s'.shared, s'.logs);
  }

  /** Every interleaving looks to each channel like one sequential machine. */
  lemma Refines(s: State, step: Step, c: string)
    requires Enabled(s, step) && SingleSender(s, c)
    ensures SingleSender(Next(s, step), c) && Acts(s, step, c)
  {
    var s' := Next(s, step);
    match step
    case Outbound(env) => OutboundRefines(s, env, c);
    case Send(t, _) => SenderRefines(s, step, t, c);
    case MarkOffline(t) => SenderRefines(s, step, t, c);
    case Return(t) => SenderRefines(s, step, t, c);
    case Take(t) => SenderRefines(s, step, t, c);
    case Leave(t) =>
      if s.threads[t].channel == c {
        Left(s, t);
      } else {
        MovedElsewhere(s, t, Done, s'.shared, s'.logs, c);
      }
    case HubOffline => SameSenders(s, s', c);
    case HubOnline => SameSenders(s, s', c);
    case DrainAll(order) =>
      DrainRefines(s, order, c);
      SameSenders(DrainChannels(s, order), s', c);
  }

  // ----- what every run keeps -----

  ghost predicate Inv(s: State, c: string) {
    SingleSender(s, c) && ViewOf(s, c).Conserved() && ViewOf(s, c).LeavesBehind()
  }

  /** An accepted envelope is sent at once although others wait in the queue. */
  ghost predicate Jumps(v: View, step: Step, online: bool) {
    step.Outbound? && online && v.sender.None? && v.queue != []
  }

  /** The pipeline only ever grows, by the envelope just accepted: at its end, or past the queue. */
  lemma ActOnPipeline(v: View, step: Step, online: bool)
    requires Fits(v, step)
    ensures var v' := Act(v, step, online);
            && (!step.Outbound? ==> v'.log.accepted == v.log.accepted && v'.Pipeline() == v.Pipeline())
            && (step.Outbound? ==> v'.log == v.log.(accepted := v.log.accepted + [step.env]))
            && (step.Outbound? && !Jumps(v, step, online) ==> v'.Pipeline() == v.Pipeline() + [step.env])
            && (Jumps(v, step, online) ==>
                  v.Pipeline() == v.log.acked + v.queue && v'.Pipeline() == v.log.acked + [step.env] + v.queue)
  {
    var v' := Act(v, step, online);
    match step
    case Outbound(env) =>
      if !(online && v.sender.None?) {
        assert v.log.acked + v.Held() + (v.queue + [env]) == v.Pipeline() + [env];
      }
    case Send(_, _) =>
    case MarkOffline(_) =>
    case Return(_) => assert v.log.acked + [] + ([v.sender.value.env] + v.queue) == v.Pipeline();
    case Leave(_) =>
    case Take(_) => HeadMoves(v);
    case DrainAll(_) => HeadMoves(v);
  }

  lemma HeadMoves(v: View)
    ensures v.queue != [] ==> v.log.acked + [v.queue[0]] + v.queue[1..] == v.log.acked + [] + v.queue
  {}

  lemma ConservedIff(v: View)
    ensures v.Conserved() <==>
              multiset(v.log.accepted) == multiset(v.Pipeline()) && multiset(v.log.acked) <= multiset(v.log.hub)
  {
    assert multiset(v.Pipeline()) == multiset(v.log.acked) + multiset(v.Held()) + multiset(v.queue);
  }

  lemma ActKeepsHub(v: View, step: Step, online: bool)
    requires Fits(v, step) && multiset(v.log.acked) <= multiset(v.log.hub)
    ensures multiset(Act(v, step, online).log.acked) <= multiset(Act(v, step, online).log.hub)
  {}

  lemma ActConserves(v: View, step: Step, online: bool)
    requires Fits(v, step) && v.Conserved()
    ensures Act(v, step, online).Conserved()
  {
    var v' := Act(v, step, online);
    ConservedIff(v);
    ConservedIff(v');
    ActOnPipeline(v, step, online);
    ActKeepsHub(v, step, online);
    if Jumps(v, step, online) {
      assert multiset(v'.Pipeline()) == multiset(v.log.acked) + multiset{step.env} + multiset(v.queue);
    } else if step.Outbound? {
      assert multiset(v'.Pipeline()) == multiset(v.Pipeline()) + multiset{step.env};
    }
  }

  lemma ActLeavesBehind(v: View, step: Step, online: bool)
    requires Fits(v, step) && v.LeavesBehind()
    ensures Act(v, step, online).LeavesBehind()
  {}

  /**
   * Over every interleaving: a channel is marked exactly while one deliver runs
   * for it, and no accepted envelope is lost or doubled.
   */
  lemma {:induction false} AlwaysInv(online: bool, steps: seq<Step>, c: string)
    ensures Inv(Exec(online, steps), c)
  {
    if steps != [] {
      AlwaysInv(online, Front(steps), c);
      var s, step := Exec(online, Front(steps)), Last(steps);
      if Enabled(s, step) {
        Refines(s, step, c);
        if Touches(s, step, c) {
          ActConserves(ViewOf(s, c), step, s.shared.online);
          ActLeavesBehind(ViewOf(s, c), step, s.shared.online);
        }
      }
    }
  }

  /** With no sender and no queue, what was accepted is what was acknowledged, and the hub has all of it. */
  lemma QuietMeansDelivered(online: bool, steps: seq<Step>, c: string)
    ensures var s := Exec(online, steps); var l := s.LogOf(c);
            c !in s.shared.sending && s.shared.Queue(c) == [] ==>
              multiset(l.accepted) == multiset(l.acked) && multiset(l.accepted) <= multiset(l.hub)
  {
    AlwaysInv(online, steps, c);
  }

  // ----- gaps -----

  /** Online, with a queue and nobody sending it. */
  ghost predicate Gap(s: State, c: string) {
    s.shared.online && c !in s.shared.sending && s.shared.Queue(c) != []
  }

  /**
   * The only two ways into a gap: the hub comes back over an unattended queue,
   * or a sender leaves behind what it put back or what was accepted after it
   * found its queue empty.
   */
  lemma GapEntry(online: bool, steps: seq<Step>, step: Step, c: string)
    requires Enabled(Exec(online, steps), step) && !Gap(Exec(online, steps), c)
    ensures var s := Exec(online, steps);
            Gap(Next(s, step), c) <==>
              || (step.HubOnline? && c !in s.shared.sending && s.shared.Queue(c) != [])
              || (step.Leave? && s.threads[step.t].channel == c && s.shared.online
                  && (s.threads[step.t].at.back || s.threads[step.t].at.since < |s.LogOf(c).accepted|))
  {
    var s := Exec(online, steps);
    AlwaysInv(online, steps, c);
    Refines(s, step, c);
    UnmarkedIsIdle(s, c);
    UnmarkedIsIdle(Next(s, step), c);
    if Touches(s, step, c) {
      ActGap(ViewOf(s, c), step, s.shared.online);
      if step.Leave? {
        assert Serves(s.threads, step.t, c);
        SenderIs(s, c, step.t);
      }
    }
  }

  /**
   * The only ways out of a gap: the hub is recorded as gone, the drain after a
   * reconnect, or the next Outbound on the channel, whose sender then finds the
   * queue. Until one of them the envelopes stay where they are.
   */
  lemma GapExit(online: bool, steps: seq<Step>, step: Step, c: string)
    requires Enabled(Exec(online, steps), step) && Gap(Exec(online, steps), c)
    ensures var s := Exec(online, steps);
            Gap(Next(s, step), c) <==>
              !(step.HubOffline? || step.MarkOffline? || step.DrainAll? || (step.Outbound? && step.env.channelID == c))
  {
    var s := Exec(online, steps);
    AlwaysInv(online, steps, c);
    Refines(s, step, c);
    UnmarkedIsIdle(s, c);
    UnmarkedIsIdle(Next(s, step), c);
  }

  lemma UnmarkedIsIdle(s: State, c: string)
    requires SingleSender(s, c)
    ensures c !in s.shared.sending <==> SenderOf(s, c) == None
  {}

  /** On the channel alone, only a leaving sender makes the queue an unattended one. */
  lemma ActGap(v: View, step: Step, online: bool)
    requires Fits(v, step) && v.LeavesBehind()
    requires !(online && v.sender.None? && v.queue != [])
    ensures var v' := Act(v, step, online);
            online && v'.sender.None? && v'.queue != [] <==>
              online && step.Leave? && (v.sender.value.back || v.sender.value.since < |v.log.accepted|)
  {}

  lemma DrainClosesGaps(s: State, order: seq<string>, c: string)
    requires Enabled(s, DrainAll(order))
    ensures !Gap(Next(s, DrainAll(order)), c)
  {
    DrainShared(s, order);
    DrainEffect(s.shared, order, c);
  }

  lemma {:induction false} DrainShared(s: State, order: seq<string>)
    ensures DrainChannels(s, order).shared == Drain(s.shared, order)
  {
    if order != [] {
      DrainShared(s, Front(order));
    }
  }
}
