/**
 * From the store to the hub and to the browsers: every handler appends, and
 * only if the append stored something forwards and fans out. Handlers run
 * concurrently; each of those calls is one step.
 */
module Fanout {
  import opened Model
  import opened Store
  import MS = MemoryStore

  // ----- the two handlers run on their own -----

  /** What a handler hands on: to the relay's Outbound, and to the browser sessions. */
  class Effects {
    var outbound: seq<Envelope>
    var fanned: seq<Envelope>

    constructor ()
      ensures outbound == [] && fanned == []
    {
      outbound, fanned := [], [];
    }
  }

  /** sendMessage past its guards: relay and fan out exactly what was newly stored. */
  method SendMessage(store: MS.MemStore, out: Effects, e: Envelope) returns (stored: bool)
    modifies store, out
    ensures stored == IsNew(old(store.Tables()), e)
    ensures store.Tables() == Append(old(store.Tables()), e)
    ensures out.outbound == old(out.outbound) + (if stored then [e] else [])
    ensures out.fanned == old(out.fanned) + (if stored then [e] else [])
  {
    stored := store.AppendEnvelope(e);
    if stored {
      out.outbound := out.outbound + [e];
      out.fanned := out.fanned + [e];
    }
  }

  /** inbound: an envelope for an unknown channel is dropped; a known one is fanned out if new, never relayed back. */
  method Inbound(store: MS.MemStore, out: Effects, e: Envelope) returns (stored: bool)
    modifies store, out
    ensures stored == (e.channelID in old(store.channels) && IsNew(old(store.Tables()), e))
    ensures store.Tables() ==
              if e.channelID in old(store.channels) then Append(old(store.Tables()), e) else old(store.Tables())
    ensures out.outbound == old(out.outbound)
    ensures out.fanned == old(out.fanned) + (if stored then [e] else [])
  {
    if e.channelID !in store.channels {
      return false;
    }
    stored := store.AppendEnvelope(e);
    if stored {
      out.fanned := out.fanned + [e];
    }
  }

  // ----- all handlers at once -----

  datatype Place = ToForward | ToFan | Finished

  /** A handler whose append stored the envelope. */
  datatype Task = Task(c: string, id: string, at: Place)

  datatype Server = Server(store: State, tasks: seq<Task>)

  datatype Step =
    | Client(e: Envelope)                 // sendMessage's append
    | Hub(e: Envelope, known: bool)       // inbound's append; known: the channel lookup succeeded
    | Forward(t: nat)                     // the call of Outbound
    | Fan(t: nat)                         // the fan-out
    | Edit(op: Op)                        // any other store operation: deletions, wipes, marks, ...

  ghost predicate Stores(s: Server, step: Step) {
    (step.Client? && IsNew(s.store, step.e)) || (step.Hub? && step.known && IsNew(s.store, step.e))
  }

  ghost predicate Runs(s: Server, step: Step) {
    match step
    case Forward(t) => t < |s.tasks| && s.tasks[t].at == ToForward
    case Fan(t) => t < |s.tasks| && s.tasks[t].at == ToFan
    case Edit(op) => !op.AppendOp?
    case _ => true
  }

  /** A step that cannot run does nothing. */
  ghost function Next(s: Server, step: Step): Server {
    if !Runs(s, step) then s
    else
      match step
      case Client(e) =>
        if IsNew(s.store, e) then Server(Append(s.store, e), s.tasks + [Task(e.channelID, e.id, ToForward)]) else s
      case Hub(e, known) =>
        if known && IsNew(s.store, e) then Server(Append(s.store, e), s.tasks + [Task(e.channelID, e.id, ToFan)]) else s
      case Forward(t) => s.(tasks := s.tasks[t := s.tasks[t].(at := ToFan)])
      case Fan(t) => s.(tasks := s.tasks[t := s.tasks[t].(at := Finished)])
      case Edit(op) => s.(store := Apply(s.store, op))
  }

  ghost function Exec(steps: seq<Step>): Server {
    if steps == [] then Server(EMPTY, []) else Next(Exec(Front(steps)), Last(steps))
  }

  // ----- what one step does to one (channel, id) -----

  ghost predicate StoresAs(s: Server, step: Step, c: string, id: string) {
    Stores(s, step) && step.e.channelID == c && step.e.id == id
  }

  ghost predicate Removes(s: Server, step: Step, c: string, id: string) {
    id in s.store.Ids(c) && id !in Next(s, step).store.Ids(c)
  }

  ghost predicate Forwards(s: Server, step: Step, c: string, id: string) {
    step.Forward? && Runs(s, step) && s.tasks[step.t].c == c && s.tasks[step.t].id == id
  }

  ghost predicate Fans(s: Server, step: Step, c: string, id: string) {
    step.Fan? && Runs(s, step) && s.tasks[step.t].c == c && s.tasks[step.t].id == id
  }

  datatype Tally = Tally(stored: nat, local: nat, removed: nat, forwarded: nat, fanned: nat)

  ghost function Bit(b: bool): nat {
    if b then 1 else 0
  }

  /** How often each thing has happened to the pair. */
  ghost function Count(steps: seq<Step>, c: string, id: string): Tally {
    if steps == [] then Tally(0, 0, 0, 0, 0)
    else
      var n, s, step := Count(Front(steps), c, id), Exec(Front(steps)), Last(steps);
      Tally(n.stored + Bit(StoresAs(s, step, c, id)),
            n.local + Bit(StoresAs(s, step, c, id) && step.Client?),
            n.removed + Bit(Removes(s, step, c, id)),
            n.forwarded + Bit(Forwards(s, step, c, id)),
            n.fanned + Bit(Fans(s, step, c, id)))
  }

  ghost function Waiting(tasks: seq<Task>, c: string, id: string, at: Place): nat {
    if tasks == [] then 0
    else Waiting(Front(tasks), c, id, at) + Bit(Last(tasks) == Task(c, id, at))
  }

  lemma {:induction false} WaitingUpdate(tasks: seq<Task>, t: nat, task: Task, c: string, id: string, at: Place)
    requires t < |tasks|
    ensures Waiting(tasks[t := task], c, id, at) ==
              Waiting(tasks, c, id, at) - Bit(tasks[t] == Task(c, id, at)) + Bit(task == Task(c, id, at))
  {
    if t < |tasks| - 1 {
      WaitingUpdate(Front(tasks), t, task, c, id, at);
      assert Front(tasks[t := task]) == Front(tasks)[t := task];
    } else {
      assert Front(tasks[t := task]) == Front(tasks);
    }
  }

  lemma WaitingAppend(tasks: seq<Task>, task: Task, c: string, id: string, at: Place)
    ensures Waiting(tasks + [task], c, id, at) == Waiting(tasks, c, id, at) + Bit(task == Task(c, id, at))
  {
    assert Front(tasks + [task]) == tasks;
  }

  /** Nothing but an append makes an id seen. */
  lemma EditAddsNoId(s: State, op: Op, c: string, id: string)
    requires !op.AppendOp? && id in Apply(s, op).Ids(c)
    ensures id in s.Ids(c)
  {
    if op.FetchOp? {
      FetchTouchesCursors(s, op.u, op.visited);
    }
  }

  /** What was stored and not removed is still there. */
  ghost predicate StoreBalanced(steps: seq<Step>, c: string, id: string) {
    var n := Count(steps, c, id);
    n.stored == n.removed + Bit(id in Exec(steps).store.Ids(c))
  }

  /** What was stored and not yet handed on waits in a handler. */
  ghost predicate TasksBalanced(steps: seq<Step>, c: string, id: string) {
    var n, tasks := Count(steps, c, id), Exec(steps).tasks;
    && n.local == n.forwarded + Waiting(tasks, c, id, ToForward)
    && n.stored == n.fanned + Waiting(tasks, c, id, ToForward) + Waiting(tasks, c, id, ToFan)
  }

  lemma {:induction false} AlwaysStoreBalanced(steps: seq<Step>, c: string, id: string)
    ensures StoreBalanced(steps, c, id)
  {
    if steps != [] {
      AlwaysStoreBalanced(Front(steps), c, id);
      var s, step := Exec(Front(steps)), Last(steps);
      if step.Edit? && Runs(s, step) && id in Apply(s.store, step.op).Ids(c) {
        EditAddsNoId(s.store, step.op, c, id);
      }
    }
  }

  lemma {:induction false} AlwaysTasksBalanced(steps: seq<Step>, c: string, id: string)
    ensures TasksBalanced(steps, c, id)
  {
    if steps != [] {
      AlwaysTasksBalanced(Front(steps), c, id);
      var tasks, step := Exec(Front(steps)).tasks, Last(steps);
      match step
      case Client(e) =>
        WaitingAppend(tasks, Task(e.channelID, e.id, ToForward), c, id, ToForward);
        WaitingAppend(tasks, Task(e.channelID, e.id, ToForward), c, id, ToFan);
      case Hub(e, _) =>
        WaitingAppend(tasks, Task(e.channelID, e.id, ToFan), c, id, ToForward);
        WaitingAppend(tasks, Task(e.channelID, e.id, ToFan), c, id, ToFan);
      case Forward(t) => MovesOn(tasks, t, ToFan, c, id);
      case Fan(t) => MovesOn(tasks, t, Finished, c, id);
      case Edit(_) =>
    }
  }

  lemma MovesOn(tasks: seq<Task>, t: nat, at: Place, c: string, id: string)
    ensures t < |tasks| ==>
              && Waiting(tasks[t := tasks[t].(at := at)], c, id, ToForward) ==
                   Waiting(tasks, c, id, ToForward) - Bit(tasks[t] == Task(c, id, ToForward))
                   + Bit(tasks[t].(at := at) == Task(c, id, ToForward))
              && Waiting(tasks[t := tasks[t].(at := at)], c, id, ToFan) ==
                   Waiting(tasks, c, id, ToFan) - Bit(tasks[t] == Task(c, id, ToFan))
                   + Bit(tasks[t].(at := at) == Task(c, id, ToFan))
  {
    if t < |tasks| {
      WaitingUpdate(tasks, t, tasks[t].(at := at), c, id, ToForward);
      WaitingUpdate(tasks, t, tasks[t].(at := at), c, id, ToFan);
    }
  }

  /**
   * Exactly-once delivery, over every interleaving of client sends, retries, hub
   * echoes and redeliveries: a pair is fanned out at most once more than it was
   * removed from the store, and forwarded to the hub at most once per local
   * store, so never if it came from the hub.
   */
  lemma FanoutBound(steps: seq<Step>, c: string, id: string)
    ensures var n := Count(steps, c, id);
            && n.fanned <= n.stored <= n.removed + 1
            && n.forwarded <= n.local <= n.stored
  {
    AlwaysStoreBalanced(steps, c, id);
    AlwaysTasksBalanced(steps, c, id);
    LocalIsStored(steps, c, id);
  }

  lemma {:induction false} LocalIsStored(steps: seq<Step>, c: string, id: string)
    ensures Count(steps, c, id).local <= Count(steps, c, id).stored
  {
    if steps != [] {
      LocalIsStored(Front(steps), c, id);
    }
  }

  /** When all handlers are done, every stored copy has been fanned out once and every local one forwarded once. */
  lemma FanoutComplete(steps: seq<Step>, c: string, id: string)
    requires forall t :: 0 <= t < |Exec(steps).tasks| ==> Exec(steps).tasks[t].at == Finished
    ensures var n := Count(steps, c, id); n.fanned == n.stored && n.forwarded == n.local
  {
    AlwaysTasksBalanced(steps, c, id);
    NoneWaiting(Exec(steps).tasks, c, id);
  }

  lemma {:induction false} NoneWaiting(tasks: seq<Task>, c: string, id: string)
    requires forall t :: 0 <= t < |tasks| ==> tasks[t].at == Finished
    ensures Waiting(tasks, c, id, ToForward) == 0 && Waiting(tasks, c, id, ToFan) == 0
  {
    if tasks != [] {
      NoneWaiting(Front(tasks), c, id);
    }
  }

  /** A seen id stays seen until it is removed. */
  lemma {:induction false} StaysSeen(steps: seq<Step>, i: nat, c: string, id: string)
    requires i <= |steps| && id in Exec(steps[..i]).store.Ids(c)
    requires forall k :: i <= k < |steps| ==> !Removes(Exec(steps[..k]), steps[k], c, id)
    ensures id in Exec(steps).store.Ids(c)
  {
    if i == |steps| {
      assert steps[..i] == steps;
    } else {
      var f := Front(steps);
      assert forall k :: i <= k <= |f| ==> f[..k] == steps[..k];
      StaysSeen(f, i, c, id);
      assert !Removes(Exec(steps[..|f|]), steps[|f|], c, id);
    }
  }

  /** Two copies of one pair are stored only with a removal of it in between. */
  lemma StoresAreSeparated(steps: seq<Step>, i: nat, j: nat, c: string, id: string)
    requires i < j < |steps|
    requires StoresAs(Exec(steps[..i]), steps[i], c, id)
    requires StoresAs(Exec(steps[..j]), steps[j], c, id)
    ensures exists k :: i < k < j && Removes(Exec(steps[..k]), steps[k], c, id)
  {
    var f := steps[..j];
    assert forall k :: 0 <= k <= j ==> f[..k] == steps[..k];
    assert Front(steps[..i + 1]) == steps[..i];
    assert id in Exec(f[..i + 1]).store.Ids(c);
    if forall k :: i < k < j ==> !Removes(Exec(steps[..k]), steps[k], c, id) {
      StaysSeen(f, i + 1, c, id);
    }
  }

  lemma Then(steps: seq<Step>, step: Step)
    ensures Exec(steps + [step]) == Next(Exec(steps), step)
  {
    assert Front(steps + [step]) == steps;
  }

  lemma TwoCopies(e: Envelope)
    ensures var task := Task(e.channelID, e.id, ToForward);
            Exec([Client(e), Edit(WipeOp(e.channelID)), Client(e)]).tasks == [task, task]
  {
    var s0, s1, s2 := Client(e), Edit(WipeOp(e.channelID)), Client(e);
    Then([], s0);
    Then([s0], s1);
    Then([s0, s1], s2);
    assert [] + [s0] == [s0] && [s0] + [s1] == [s0, s1] && [s0, s1] + [s2] == [s0, s1, s2];
  }

  /**
   * Between the stores, not between the fan-outs: when two handlers overlap with
   * a wipe, both copies are fanned out after it, back to back.
   */
  lemma FanoutsCanBunch(e: Envelope)
    ensures var s := Exec([Client(e), Edit(WipeOp(e.channelID)), Client(e), Forward(0), Forward(1)]);
            && Fans(s, Fan(0), e.channelID, e.id)
            && Fans(Next(s, Fan(0)), Fan(1), e.channelID, e.id)
            && !Removes(s, Fan(0), e.channelID, e.id)
  {
    var stored := [Client(e), Edit(WipeOp(e.channelID)), Client(e)];
    TwoCopies(e);
    Then(stored, Forward(0));
    Then(stored + [Forward(0)], Forward(1));
    assert stored + [Forward(0)] + [Forward(1)] ==
           [Client(e), Edit(WipeOp(e.channelID)), Client(e), Forward(0), Forward(1)];
  }

  // ----- when two fan-outs do have a removal between them -----

  /** How many handlers still have the pair to fan out. */
  ghost function UnderWay(s: Server, c: string, id: string): nat {
    Waiting(s.tasks, c, id, ToForward) + Waiting(s.tasks, c, id, ToFan)
  }

  ghost function Stored(s: Server, c: string, id: string): nat {
    Bit(id in s.store.Ids(c))
  }

  ghost predicate FansAt(steps: seq<Step>, i: nat, c: string, id: string)
    requires i < |steps|
  {
    Fans(Exec(steps[..i]), steps[i], c, id)
  }

  ghost predicate RemovedBetween(steps: seq<Step>, i: nat, j: nat, c: string, id: string)
    requires i <= j <= |steps|
  {
    exists k :: i <= k < j && Removes(Exec(steps[..k]), steps[k], c, id)
  }

  /** Stored copies are accounted for: fanned out, or under way, less the one in the store. */
  lemma {:induction false} Accounts(steps: seq<Step>, c: string, id: string)
    ensures var n, s := Count(steps, c, id), Exec(steps);
            n.removed + Stored(s, c, id) == n.fanned + UnderWay(s, c, id)
  {
    AlwaysStoreBalanced(steps, c, id);
    AlwaysTasksBalanced(steps, c, id);
  }

  lemma {:induction false} CountStep(steps: seq<Step>, k: nat, c: string, id: string)
    requires k < |steps|
    ensures var n, n' := Count(steps[..k], c, id), Count(steps[..k + 1], c, id);
            && n'.removed == n.removed + Bit(Removes(Exec(steps[..k]), steps[k], c, id))
            && n'.fanned == n.fanned + Bit(FansAt(steps, k, c, id))
  {
    assert Front(steps[..k + 1]) == steps[..k];
  }

  lemma {:induction false} RemovedLater(steps: seq<Step>, i: nat, j: nat, c: string, id: string)
    requires i < j <= |steps|
    ensures RemovedBetween(steps, i, j, c, id) <==>
              RemovedBetween(steps, i, j - 1, c, id) || Removes(Exec(steps[..j - 1]), steps[j - 1], c, id)
  {}

  lemma {:induction false} CountBetween(steps: seq<Step>, i: nat, j: nat, c: string, id: string)
    requires i <= j <= |steps|
    ensures var n, n' := Count(steps[..i], c, id), Count(steps[..j], c, id);
            && n.removed <= n'.removed && n.fanned <= n'.fanned
            && (n.removed < n'.removed <==> RemovedBetween(steps, i, j, c, id))
            && ((forall k :: i <= k < j ==> !FansAt(steps, k, c, id)) ==> n.fanned == n'.fanned)
  {
    RemovedCount(steps, i, j, c, id);
    FannedCount(steps, i, j, c, id);
  }

  lemma {:induction false} RemovedCount(steps: seq<Step>, i: nat, j: nat, c: string, id: string)
    requires i <= j <= |steps|
    ensures var n, n' := Count(steps[..i], c, id).removed, Count(steps[..j], c, id).removed;
            n <= n' && (n < n' <==> RemovedBetween(steps, i, j, c, id))
  {
    if i < j {
      RemovedCount(steps, i, j - 1, c, id);
      CountStep(steps, j - 1, c, id);
      RemovedLater(steps, i, j, c, id);
    }
  }

  lemma {:induction false} FannedCount(steps: seq<Step>, i: nat, j: nat, c: string, id: string)
    requires i <= j <= |steps|
    ensures var n, n' := Count(steps[..i], c, id).fanned, Count(steps[..j], c, id).fanned;
            n <= n' && ((forall k :: i <= k < j ==> !FansAt(steps, k, c, id)) ==> n == n')
  {
    if i < j {
      FannedCount(steps, i, j - 1, c, id);
      CountStep(steps, j - 1, c, id);
    }
  }

  lemma {:induction false} WaitingSome(tasks: seq<Task>, t: nat, c: string, id: string, at: Place)
    requires t < |tasks| && tasks[t] == Task(c, id, at)
    ensures Waiting(tasks, c, id, at) >= 1
  {
    if t < |tasks| - 1 {
      WaitingSome(Front(tasks), t, c, id, at);
    }
  }

  /**
   * Exactly when a removal lies between a fan-out of a pair and the next one:
   * when the handlers under way, less the copy in the store, are no fewer at the
   * second than at the first.
   */
  lemma {:induction false} FanoutsSeparatedIff(steps: seq<Step>, i: nat, j: nat, c: string, id: string)
    requires i < j < |steps| && FansAt(steps, i, c, id) && FansAt(steps, j, c, id)
    requires forall k :: i < k < j ==> !FansAt(steps, k, c, id)
    ensures var s, s' := Exec(steps[..i]), Exec(steps[..j]);
            RemovedBetween(steps, i, j, c, id) <==>
              UnderWay(s', c, id) + Stored(s, c, id) >= UnderWay(s, c, id) + Stored(s', c, id)
  {
    Accounts(steps[..i], c, id);
    Accounts(steps[..j], c, id);
    CountStep(steps, i, c, id);
    CountBetween(steps, i, j, c, id);
    CountBetween(steps, i + 1, j, c, id);
  }

  /** The pair's only handler under way is about to fan it out, and the copy is still stored. */
  ghost predicate Lone(s: Server, c: string, id: string) {
    UnderWay(s, c, id) == 1 && Stored(s, c, id) == 1
  }

  /** Then every later fan-out of the pair comes after a removal. */
  lemma {:induction false} LoneIsSeparated(steps: seq<Step>, i: nat, j: nat, c: string, id: string)
    requires i < j < |steps| && FansAt(steps, i, c, id) && FansAt(steps, j, c, id)
    requires Lone(Exec(steps[..i]), c, id)
    ensures RemovedBetween(steps, i, j, c, id)
  {
    Accounts(steps[..i], c, id);
    Accounts(steps[..j], c, id);
    CountStep(steps, i, c, id);
    CountBetween(steps, i, j, c, id);
    CountBetween(steps, i + 1, j, c, id);
    WaitingSome(Exec(steps[..j]).tasks, steps[j].t, c, id, ToFan);
  }

  /** The run goes on and ends with a fan-out of the pair. */
  ghost predicate GoesOnToFan(steps: seq<Step>, more: seq<Step>, c: string, id: string) {
    more != [] && FansAt(steps + more, |steps| + |more| - 1, c, id)
  }

  /** However the run goes on after the fan-out by handler t, the next one of the pair follows a removal. */
  ghost predicate AlwaysSeparated(steps: seq<Step>, t: nat, c: string, id: string) {
    forall more :: GoesOnToFan(steps + [Fan(t)], more, c, id) ==>
      RemovedBetween(steps + [Fan(t)] + more, |steps|, |steps| + |more|, c, id)
  }

  /** That holds if and only if the fan-out is a lone one. */
  lemma {:induction false} SeparatedIffLone(steps: seq<Step>, t: nat, c: string, id: string)
    requires Fans(Exec(steps), Fan(t), c, id)
    ensures AlwaysSeparated(steps, t, c, id) <==> Lone(Exec(steps), c, id)
  {
    if Lone(Exec(steps), c, id) {
      forall more | GoesOnToFan(steps + [Fan(t)], more, c, id)
        ensures RemovedBetween(steps + [Fan(t)] + more, |steps|, |steps| + |more|, c, id)
      {
        LoneGoesOn(steps, t, more, c, id);
      }
    } else {
      var more := BunchingRun(steps, t, c, id);
      NothingRemoved(steps + [Fan(t)] + more, |steps|, |steps| + |more|, c, id);
    }
  }

  lemma {:induction false} LoneGoesOn(steps: seq<Step>, t: nat, more: seq<Step>, c: string, id: string)
    requires Fans(Exec(steps), Fan(t), c, id) && Lone(Exec(steps), c, id)
    requires GoesOnToFan(steps + [Fan(t)], more, c, id)
    ensures RemovedBetween(steps + [Fan(t)] + more, |steps|, |steps| + |more|, c, id)
  {
    var all := steps + [Fan(t)] + more;
    assert all[..|steps|] == steps && all[|steps|] == Fan(t);
    LoneIsSeparated(all, |steps|, |steps| + |more|, c, id);
  }

  lemma {:induction false} NothingRemoved(steps: seq<Step>, i: nat, j: nat, c: string, id: string)
    requires i <= j <= |steps| && forall k :: i <= k < j ==> !steps[k].Edit?
    ensures !RemovedBetween(steps, i, j, c, id)
  {}

  lemma {:induction false} FindWaiting(tasks: seq<Task>, c: string, id: string, at: Place) returns (t: nat)
    requires Waiting(tasks, c, id, at) > 0
    ensures t < |tasks| && tasks[t] == Task(c, id, at)
  {
    if Last(tasks) == Task(c, id, at) {
      t := |tasks| - 1;
    } else {
      t := FindWaiting(Front(tasks), c, id, at);
    }
  }

  /** Otherwise the run can go on to another fan-out of the pair with no removal in between. */
  lemma {:induction false} BunchingRun(steps: seq<Step>, t: nat, c: string, id: string) returns (more: seq<Step>)
    requires Fans(Exec(steps), Fan(t), c, id) && !Lone(Exec(steps), c, id)
    ensures GoesOnToFan(steps + [Fan(t)], more, c, id)
    ensures forall k :: 0 <= k < |more| ==> !more[k].Edit?
  {
    var base, s := steps + [Fan(t)], Exec(steps + [Fan(t)]);
    Then(steps, Fan(t));
    WaitingSome(Exec(steps).tasks, t, c, id, ToFan);
    MovesOn(Exec(steps).tasks, t, Finished, c, id);
    if Waiting(s.tasks, c, id, ToFan) > 0 {
      var u := FindWaiting(s.tasks, c, id, ToFan);
      more := [Fan(u)];
      assert (base + more)[..|base|] == base;
    } else if Waiting(s.tasks, c, id, ToForward) > 0 {
      var u := FindWaiting(s.tasks, c, id, ToForward);
      more := [Forward(u), Fan(u)];
      Then(base, Forward(u));
      assert (base + more)[..|base| + 1] == base + [Forward(u)];
    } else {
      var e := Envelope(id, c, "", "", 0, 0);
      more := [Hub(e, true), Fan(|s.tasks|)];
      Then(base, Hub(e, true));
      assert (base + more)[..|base| + 1] == base + [Hub(e, true)];
    }
  }
}
