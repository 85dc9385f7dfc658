/** The data in the slots over whole runs: a receiver is given the bytes that the sender handed over. */
module ActionDelivery {
  import opened Serialization
  import opened ActionMessages
  import opened ActionWorld
  import opened ActionRuns

  /** The slot of a message is live and holds what the sender stored in it. */
  predicate Holds(w: World, mail: Mail) {
    CarriesSlot(mail.message) ==>
      && GetStoreId(mail.message) in w.slots
      && w.slots[GetStoreId(mail.message)] == mail.data
  }

  ghost predicate Intact(w: World) {
    forall k :: 0 <= k < |w.pending| ==> Holds(w, w.pending[k])
  }

  /** What receivers were given is what was sent to them. */
  ghost predicate AsSent(log: seq<Delivery>) {
    forall k :: 0 <= k < |log| ==> log[k].data == log[k].mail.data
  }

  ghost predicate Delivers(s: System) {
    Intact(s.world) && AsSent(s.executions) && AsSent(s.deliveries)
  }

  // ---------- one step ----------

  lemma PostKeepsMail(w: World, to: QueueId, m: CommandMessage, sent: bool)
    requires Intact(w) && !CarriesSlot(m)
    ensures Intact(Post(w, to, m, sent))
  {
  }

  lemma HandOverKeepsMail(w: World, to: QueueId, sender: QueueId, kind: Command, fid: ActionId, data: seq<byte>,
                          choice: Option<StoreId>, sent: bool)
    requires Intact(w)
    ensures Intact(HandOver(w, to, sender, kind, fid, data, choice, sent))
  {
  }

  lemma {:induction false} ReportAllKeepsMail(w: World, queue: QueueId, reports: seq<ActionWorld.Report>)
    requires Intact(w)
    ensures Intact(ReportAll(w, queue, reports))
    decreases |reports|
  {
    if reports != [] {
      var r := reports[0];
      HandOverKeepsMail(w, r.to, if r.hideSender then NO_QUEUE else queue, DATA_REPLY, r.fid, r.data, r.choice, r.sent);
      ReportAllKeepsMail(ReportData(w, queue, r), queue, reports[1..]);
    }
  }

  /** A slot that a receiver has taken over is in no pending message. */
  lemma TakenIsNotCarried(w: World, leaked: multiset<StoreId>, id: StoreId, k: nat)
    requires Accounted(w, leaked + multiset{id}) && k < |w.pending| && CarriesSlot(w.pending[k].message)
    ensures GetStoreId(w.pending[k].message) != id
  {
    CarriedWithout(w.pending, k);
    assert multiset(w.slots.Keys)[id] <= 1;
  }

  lemma FreeKeepsMail(w: World, leaked: multiset<StoreId>, id: StoreId)
    requires Intact(w) && Accounted(w, leaked + multiset{id})
    ensures Intact(Free(w, id))
  {
    var w1 := Free(w, id);
    forall k | 0 <= k < |w1.pending|
      ensures Holds(w1, w1.pending[k])
    {
      assert Holds(w, w.pending[k]);
      if CarriesSlot(w.pending[k].message) {
        TakenIsNotCarried(w, leaked, id, k);
      }
    }
  }

  lemma RemovedKeepsMail(w: World, i: nat)
    requires Intact(w) && i < |w.pending|
    ensures Intact(Removed(w, i))
  {
  }

  lemma ExecutionKeepsMail(w: World, leaked: multiset<StoreId>, queue: QueueId, who: QueueId, fid: ActionId,
                           slot: StoreId, x: Execution)
    requires Intact(w) && Accounted(w, leaked + multiset{slot}) && slot in w.slots
    ensures Intact(PrepareExecution(w, queue, who, fid, slot, x))
  {
    ReportAllKeepsMail(w, queue, x.reports);
    ReportAllKeepsAccount(w, leaked + multiset{slot}, queue, x.reports);
    FreeKeepsMail(ReportAll(w, queue, x.reports), leaked, slot);
    var done := Free(ReportAll(w, queue, x.reports), slot);
    var completion := CompletionReply(queue, fid, true, x.result);
    PostKeepsMail(done, who, completion, x.firstSent);
    var finished := if x.result == EXECUTION_FINISHED then Post(done, who, completion, x.firstSent) else done;
    PostKeepsMail(finished, who, StepReply(queue, fid, 0, x.result), x.secondSent);
  }

  lemma SimpleExecutionKeepsMail(w: World, leaked: multiset<StoreId>, p: Progress, queue: QueueId, who: QueueId,
                                 fid: ActionId, slot: StoreId, x: Execution)
    requires Intact(w) && Accounted(w, leaked + multiset{slot}) && slot in w.slots
    ensures Intact(PrepareSimple(w, p, queue, who, fid, slot, x).0)
  {
    if p.isExecuting {
      FreeKeepsMail(w, leaked, slot);
      var busy := StepReply(queue, fid, 0, IS_BUSY);
      PostKeepsMail(Free(w, slot), who, busy, x.firstSent);
      PostKeepsMail(Post(Free(w, slot), who, busy, x.firstSent), who, StepReply(queue, fid, 0, DATA_DOES_NOT_EXIST),
                    x.secondSent);
    } else {
      ReportAllKeepsMail(w, queue, x.reports);
      ReportAllKeepsAccount(w, leaked + multiset{slot}, queue, x.reports);
      FreeKeepsMail(ReportAll(w, queue, x.reports), leaked, slot);
      var done := Free(ReportAll(w, queue, x.reports), slot);
      PostKeepsMail(done, who, CompletionReply(queue, fid, true, RETURN_OK), x.secondSent);
      PostKeepsMail(done, who, StepReply(queue, fid, 0, x.result), x.secondSent);
    }
  }

  lemma CommandDelivers(s: System, op: Op)
    requires Delivers(s) && op.CommandAction?
    ensures Delivers(Step(s, op))
  {
    HandOverKeepsMail(s.world, op.to, op.sender, EXECUTE_ACTION, op.fid, op.data, op.choice, op.sent);
    if op.known && Allocates(s.world, op.choice) && !op.serializes {
      var w1 := Step(s, op).world;
      forall k | 0 <= k < |w1.pending|
        ensures Holds(w1, w1.pending[k])
      {
        assert Holds(s.world, s.world.pending[k]);
      }
    }
  }

  lemma SendDelivers(s: System, op: Op)
    requires Delivers(s) && (op.Report? || op.StepSimple? || op.FinishSimple?)
    ensures Delivers(Step(s, op))
  {
    match op
    case Report(queue, r) =>
      HandOverKeepsMail(s.world, r.to, if r.hideSender then NO_QUEUE else queue, DATA_REPLY, r.fid, r.data, r.choice,
                        r.sent);
    case StepSimple(queue, result, sent) =>
      PostKeepsMail(s.world, s.progress.lastCommander,
                    StepReply(queue, s.progress.lastAction, s.progress.stepCount, result), sent);
    case FinishSimple(queue, result, sent) =>
      PostKeepsMail(s.world, s.progress.lastAction,
                    CompletionReply(queue, result, s.progress.lastCommander != 0, RETURN_OK), sent);
  }

  lemma ExecuteDelivers(s: System, op: Op)
    requires Delivers(s) && Accounted(s.world, s.leaked) && op.Execute?
    requires op.i < |s.world.pending| && s.world.pending[op.i].message.command == EXECUTE_ACTION
    ensures Delivers(Step(s, op))
  {
    var m := s.world.pending[op.i].message;
    assert Holds(s.world, s.world.pending[op.i]);
    ReceiveAccounts(s.world, s.leaked, op.i);
    RemovedKeepsMail(s.world, op.i);
    ExecutionKeepsMail(Removed(s.world, op.i), s.leaked, op.queue, m.sender, GetActionId(m), GetStoreId(m), op.x);
  }

  lemma ExecuteSimpleDelivers(s: System, op: Op)
    requires Delivers(s) && Accounted(s.world, s.leaked) && op.ExecuteSimple?
    requires op.i < |s.world.pending| && s.world.pending[op.i].message.command == EXECUTE_ACTION
    ensures Delivers(Step(s, op))
  {
    var m := s.world.pending[op.i].message;
    assert Holds(s.world, s.world.pending[op.i]);
    ReceiveAccounts(s.world, s.leaked, op.i);
    RemovedKeepsMail(s.world, op.i);
    SimpleExecutionKeepsMail(Removed(s.world, op.i), s.leaked, s.progress, op.queue, m.sender, GetActionId(m),
                             GetStoreId(m), op.x);
  }

  lemma ClearKeepsMail(w: World, leaked: multiset<StoreId>, i: nat)
    requires Intact(w) && Accounted(w, leaked) && i < |w.pending|
    ensures Intact(Clear(Removed(w, i), w.pending[i].message))
  {
    ReceiveAccounts(w, leaked, i);
    RemovedKeepsMail(w, i);
    if CarriesSlot(w.pending[i].message) {
      FreeKeepsMail(Removed(w, i), leaked, GetStoreId(w.pending[i].message));
    }
  }

  lemma ConsumeDelivers(s: System, op: Op)
    requires Delivers(s) && Accounted(s.world, s.leaked) && (op.Reply? || op.ClearMessage?)
    ensures Delivers(Step(s, op))
  {
    if op.i < |s.world.pending| {
      var m := s.world.pending[op.i].message;
      assert Holds(s.world, s.world.pending[op.i]);
      ClearKeepsMail(s.world, s.leaked, op.i);
      if op.Reply? && TakesReply(s.commander, m) {
        assert HandleReply(Removed(s.world, op.i), s.commander, m).0 == Clear(Removed(s.world, op.i), m);
      }
    }
  }

  lemma StepDelivers(s: System, op: Op)
    requires Delivers(s) && Accounted(s.world, s.leaked)
    ensures Delivers(Step(s, op))
  {
    if op.CommandAction? {
      CommandDelivers(s, op);
    } else if op.Execute? || op.ExecuteSimple? {
      if op.i < |s.world.pending| && s.world.pending[op.i].message.command == EXECUTE_ACTION {
        if op.Execute? { ExecuteDelivers(s, op); } else { ExecuteSimpleDelivers(s, op); }
      }
    } else if op.Reply? || op.ClearMessage? {
      ConsumeDelivers(s, op);
    } else {
      SendDelivers(s, op);
    }
  }

  // ---------- whole runs ----------

  /** Over any run of any calls with any outcomes, the slot of every pending message holds what its sender
      stored, and every owner has been given what the sender of the message stored for it. */
  lemma {:induction false} RunDelivers(s: System, ops: seq<Op>)
    requires Delivers(s) && Accounted(s.world, s.leaked)
    ensures Delivers(Run(s, ops))
    decreases |ops|
  {
    if ops != [] {
      StepDelivers(s, ops[0]);
      StepKeepsAccount(s, ops[0]);
      RunDelivers(Step(s, ops[0]), ops[1..]);
    }
  }

  /** No message is lost on the way to an owner: the receiver of an action command or a data reply is given
      the bytes that were sent. */
  lemma ReceiverIsGivenWhatWasSent(s: System, op: Op)
    requires Delivers(s) && (op.Execute? || op.Reply?) && op.i < |s.world.pending|
    requires var m := s.world.pending[op.i].message;
             if op.Execute? then m.command == EXECUTE_ACTION
             else TakesReply(s.commander, m) && m.command == DATA_REPLY
    ensures var mail := s.world.pending[op.i];
            Step(s, op).deliveries == s.deliveries + [Delivery(mail, mail.data)]
  {
    assert Holds(s.world, s.world.pending[op.i]);
  }

  // ---------- leaked slots ----------

  /** A leaked slot is in no pending message. */
  lemma LeakedIsNotCarried(w: World, leaked: multiset<StoreId>, i: nat, id: StoreId)
    requires Accounted(w, leaked) && id in leaked && i < |w.pending| && CarriesSlot(w.pending[i].message)
    ensures GetStoreId(w.pending[i].message) != id
  {
    CarriedWithout(w.pending, i);
    assert multiset(w.slots.Keys)[id] <= 1;
  }

  predicate KeepsSlot(w: World, w1: World, id: StoreId) {
    id in w.slots ==> id in w1.slots && w1.slots[id] == w.slots[id]
  }

  lemma {:induction false} ReportAllKeepsSlots(w: World, queue: QueueId, reports: seq<ActionWorld.Report>, id: StoreId)
    ensures KeepsSlot(w, ReportAll(w, queue, reports), id)
    decreases |reports|
  {
    if reports != [] {
      ReportAllKeepsSlots(ReportData(w, queue, reports[0]), queue, reports[1..], id);
    }
  }

  lemma StepKeepsLeakedSlot(s: System, op: Op, id: StoreId)
    requires Accounted(s.world, s.leaked) && id in s.leaked
    ensures id in Step(s, op).leaked && KeepsSlot(s.world, Step(s, op).world, id)
  {
    if (op.Execute? || op.ExecuteSimple?) && op.i < |s.world.pending| {
      ReportAllKeepsSlots(Removed(s.world, op.i), op.queue, op.x.reports, id);
    }
    if (op.Execute? || op.ExecuteSimple? || op.Reply? || op.ClearMessage?) && op.i < |s.world.pending|
       && CarriesSlot(s.world.pending[op.i].message) {
      LeakedIsNotCarried(s.world, s.leaked, op.i, id);
    }
  }

  /** A leaked slot stays taken for good, with the data it was filled with: no call frees it or writes to it. */
  lemma {:induction false} LeakedSlotsAreNeverFreed(s: System, ops: seq<Op>, id: StoreId)
    requires Accounted(s.world, s.leaked) && id in s.leaked
    ensures id in s.world.slots && id in Run(s, ops).world.slots
    ensures Run(s, ops).world.slots[id] == s.world.slots[id]
    decreases |ops|
  {
    assert id in multiset(s.world.slots.Keys);
    if ops != [] {
      StepKeepsLeakedSlot(s, ops[0], id);
      StepKeepsAccount(s, ops[0]);
      LeakedSlotsAreNeverFreed(Step(s, ops[0]), ops[1..], id);
    }
  }
}
