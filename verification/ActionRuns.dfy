/** Whole runs of commanding, executing, reporting, handling replies and clearing: who owns the slots. */
module ActionRuns {
  import opened Serialization
  import opened ActionMessages
  import opened ActionWorld

  // ---------- slots and messages ----------

  ghost function SlotOf(m: CommandMessage): multiset<StoreId> {
    if CarriesSlot(m) then multiset{GetStoreId(m)} else multiset{}
  }

  /** The slots that messages carry, with multiplicity. */
  ghost function Carried(pending: seq<Mail>): multiset<StoreId> {
    if pending == [] then multiset{}
    else SlotOf(pending[0].message) + Carried(pending[1..])
  }

  /** Every live slot is carried by exactly one pending message or is among the leaked ones, and every
      slot a message carries is live. */
  ghost predicate Accounted(w: World, leaked: multiset<StoreId>) {
    multiset(w.slots.Keys) == Carried(w.pending) + leaked
  }

  /** Live slots and slot-carrying messages are in bijection. */
  ghost predicate Owned(w: World) {
    Accounted(w, multiset{})
  }

  lemma {:induction false} CarriedConcat(a: seq<Mail>, b: seq<Mail>)
    ensures Carried(a + b) == Carried(a) + Carried(b)
  {
    if a == [] {
      assert a + b == b;
    } else {
      assert (a + b)[1..] == a[1..] + b;
      CarriedConcat(a[1..], b);
    }
  }

  function Without(pending: seq<Mail>, i: nat): seq<Mail>
    requires i < |pending|
  {
    seq(|pending| - 1, k requires 0 <= k < |pending| - 1 => pending[if k < i then k else k + 1])
  }

  lemma {:induction false} CarriedWithout(pending: seq<Mail>, i: nat)
    requires i < |pending|
    ensures Carried(pending) == Carried(Without(pending, i)) + SlotOf(pending[i].message)
    decreases i
  {
    var rest := pending[1..];
    if i == 0 {
      assert Without(pending, 0) == rest;
    } else {
      var kept := Without(pending, i);
      assert kept[1..] == Without(rest, i - 1);
      assert kept[0] == pending[0];
      CarriedWithout(rest, i - 1);
      Associative(SlotOf(pending[0].message), Carried(kept[1..]), SlotOf(pending[i].message));
    }
  }

  lemma Associative(x: multiset<StoreId>, y: multiset<StoreId>, z: multiset<StoreId>)
    ensures (x + y) + z == x + (y + z)
  {
  }

  lemma {:induction false} CarriedIff(pending: seq<Mail>, id: StoreId)
    ensures id in Carried(pending)
            <==> exists i :: 0 <= i < |pending| && CarriesSlot(pending[i].message) && GetStoreId(pending[i].message) == id
  {
    if pending != [] {
      CarriedIff(pending[1..], id);
      if id in Carried(pending[1..]) {
        var i :| 0 <= i < |pending[1..]| && CarriesSlot(pending[1..][i].message)
                 && GetStoreId(pending[1..][i].message) == id;
        assert pending[i + 1] == pending[1..][i];
      }
      if i :| 0 <= i < |pending| && CarriesSlot(pending[i].message) && GetStoreId(pending[i].message) == id && i > 0 {
        assert pending[1..][i - 1] == pending[i];
      }
    }
  }

  /** What owning means: no pending message refers to a dead slot, no two refer to the same slot, and
      every live slot is referred to. */
  lemma OwnedMeansBijection(w: World, i: nat, j: nat, id: StoreId)
    requires Owned(w) && i < |w.pending| && j < |w.pending|
    ensures CarriesSlot(w.pending[i].message) ==> GetStoreId(w.pending[i].message) in w.slots
    ensures i != j && CarriesSlot(w.pending[i].message) && CarriesSlot(w.pending[j].message) ==>
              GetStoreId(w.pending[i].message) != GetStoreId(w.pending[j].message)
    ensures id in w.slots ==>
              exists k :: 0 <= k < |w.pending| && CarriesSlot(w.pending[k].message) && GetStoreId(w.pending[k].message) == id
  {
    var p := w.pending;
    CarriedIff(p, id);
    assert id in w.slots ==> id in multiset(w.slots.Keys);
    assert multiset(w.slots.Keys) == Carried(p);
    CarriedWithout(p, i);
    assert CarriesSlot(p[i].message) ==> GetStoreId(p[i].message) in multiset(w.slots.Keys);
    if i != j && CarriesSlot(p[i].message) && CarriesSlot(p[j].message) {
      var k := if j < i then j else j - 1;
      assert Without(p, i)[k] == p[j];
      CarriedIff(Without(p, i), GetStoreId(p[j].message));
      assert multiset(w.slots.Keys)[GetStoreId(p[i].message)] <= 1;
    }
  }

  // ---------- runs ----------

  /** A message that has been received and what its receiver was given. */
  datatype Delivery = Delivery(mail: Mail, data: seq<byte>)

  /** `executions` logs what the helper that executes one action at a time had its owner execute, `deliveries`
      what the owners of other helpers and of the commander were given. */
  datatype System = System(world: World, commander: Commander, progress: Progress, leaked: multiset<StoreId>,
                           executions: seq<Delivery>, deliveries: seq<Delivery>)

  datatype Op =
    /** commandAction with raw data, or with data that serializes into its own serialized size iff `serializes`. */
    | CommandAction(known: bool, to: QueueId, sender: QueueId, fid: ActionId, data: seq<byte>, serializes: bool,
                    choice: Option<StoreId>, sent: bool)
    | Report(queue: QueueId, report: ActionWorld.Report)
    /** A helper gets the i-th pending message; a message it refuses stays with the receiver. */
    | Execute(i: nat, queue: QueueId, x: Execution)
    | ExecuteSimple(i: nat, queue: QueueId, x: Execution)
    | StepSimple(queue: QueueId, result: uint16, sent: bool)
    | FinishSimple(queue: QueueId, result: uint16, sent: bool)
    | Reply(i: nat)
    | ClearMessage(i: nat)

  function Removed(w: World, i: nat): World
    requires i < |w.pending|
  {
    w.(pending := Without(w.pending, i))
  }

  /** The receiver of the i-th message is given what its slot holds, if it holds anything. */
  function Logged(log: seq<Delivery>, w: World, i: nat): seq<Delivery>
    requires i < |w.pending|
  {
    var id := GetStoreId(w.pending[i].message);
    if id in w.slots then log + [Delivery(w.pending[i], w.slots[id])] else log
  }

  predicate Leaks(w: World, op: Op) {
    op.CommandAction? && op.known && Allocates(w, op.choice) && !op.serializes
  }

  ghost function Step(s: System, op: Op): System {
    var w := s.world;
    match op
    case CommandAction(known, to, sender, fid, data, serializes, choice, sent) =>
      if !known || !Allocates(w, choice) then s
      else if !serializes then
        s.(world := w.(slots := w.slots[choice.value := data]), leaked := s.leaked + multiset{choice.value})
      else
        s.(world := HandOver(w, to, sender, EXECUTE_ACTION, fid, data, choice, sent),
           commander := Commander(to, (s.commander.commandCount + 1) % 256))
    case Report(queue, report) => s.(world := ReportData(w, queue, report))
    case Execute(i, queue, x) =>
      if i >= |w.pending| || w.pending[i].message.command != EXECUTE_ACTION then s
      else
        var m := w.pending[i].message;
        s.(world := PrepareExecution(Removed(w, i), queue, m.sender, GetActionId(m), GetStoreId(m), x),
           deliveries := Logged(s.deliveries, w, i))
    case ExecuteSimple(i, queue, x) =>
      if i >= |w.pending| || w.pending[i].message.command != EXECUTE_ACTION then s
      else
        var m := w.pending[i].message;
        var (w', p', executed) :=
          PrepareSimple(Removed(w, i), s.progress, queue, m.sender, GetActionId(m), GetStoreId(m), x);
        s.(world := w', progress := p',
           executions := if executed.Some? then s.executions + [Delivery(w.pending[i], executed.value)]
                         else s.executions)
    case StepSimple(queue, result, sent) =>
      var (w', p') := SimpleStep(w, s.progress, queue, result, sent);
      s.(world := w', progress := p')
    case FinishSimple(queue, result, sent) =>
      var (w', p') := SimpleFinish(w, s.progress, queue, result, sent);
      s.(world := w', progress := p')
    case Reply(i) =>
      if i >= |w.pending| || !TakesReply(s.commander, w.pending[i].message) then s
      else
        var (w', c') := HandleReply(Removed(w, i), s.commander, w.pending[i].message);
        s.(world := w', commander := c',
           deliveries := if CallFor(w, s.commander, w.pending[i].message).DataReceived?
                         then Logged(s.deliveries, w, i) else s.deliveries)
    case ClearMessage(i) =>
      if i >= |w.pending| then s else s.(world := Clear(Removed(w, i), w.pending[i].message))
  }

  ghost function Run(s: System, ops: seq<Op>): System
    decreases |ops|
  {
    if ops == [] then s else Run(Step(s, ops[0]), ops[1..])
  }

  // ---------- one step ----------

  lemma PostKeepsAccount(w: World, leaked: multiset<StoreId>, to: QueueId, m: CommandMessage, sent: bool)
    requires Accounted(w, leaked) && !CarriesSlot(m)
    ensures Accounted(Post(w, to, m, sent), leaked)
  {
    CarriedConcat(w.pending, [Mail(to, m, SlotData(w, m))]);
  }

  lemma AllocateAccounts(slots: map<StoreId, seq<byte>>, id: StoreId, data: seq<byte>)
    requires id !in slots
    ensures multiset(slots[id := data].Keys) == multiset(slots.Keys) + multiset{id}
  {
    assert slots[id := data].Keys == slots.Keys + {id};
  }

  lemma HandOverKeepsAccount(w: World, leaked: multiset<StoreId>, to: QueueId, sender: QueueId, kind: Command,
                             fid: ActionId, data: seq<byte>, choice: Option<StoreId>, sent: bool)
    requires Accounted(w, leaked) && (kind == EXECUTE_ACTION || kind == DATA_REPLY)
    ensures Accounted(HandOver(w, to, sender, kind, fid, data, choice, sent), leaked)
  {
    if Allocates(w, choice) && sent {
      var mail := Mail(to, CommandMessage(sender, kind, fid, choice.value), data);
      AllocateAccounts(w.slots, choice.value, data);
      CarriedConcat(w.pending, [mail]);
    }
  }

  /** The slot of a message that has been taken out of the queue belongs to the receiver: it counts as
      leaked until it is freed. */
  lemma ReceiveAccounts(w: World, leaked: multiset<StoreId>, i: nat)
    requires Accounted(w, leaked) && i < |w.pending|
    ensures var m := w.pending[i].message;
            Accounted(Removed(w, i), if CarriesSlot(m) then leaked + multiset{GetStoreId(m)} else leaked)
    ensures CarriesSlot(w.pending[i].message) ==> GetStoreId(w.pending[i].message) in w.slots
  {
    CarriedWithout(w.pending, i);
    if CarriesSlot(w.pending[i].message) {
      assert GetStoreId(w.pending[i].message) in multiset(w.slots.Keys);
    }
  }

  lemma FreeAccounts(w: World, leaked: multiset<StoreId>, id: StoreId)
    requires Accounted(w, leaked + multiset{id})
    ensures Accounted(Free(w, id), leaked)
  {
    var keys := w.slots.Keys;
    assert id in multiset(keys);
    assert Free(w, id).slots.Keys == keys - {id};
    assert multiset(keys - {id}) == multiset(keys) - multiset{id};
  }

  lemma {:induction false} ReportAllKeepsAccount(w: World, leaked: multiset<StoreId>, queue: QueueId,
                                                 reports: seq<ActionWorld.Report>)
    requires Accounted(w, leaked)
    ensures Accounted(ReportAll(w, queue, reports), leaked)
    decreases |reports|
  {
    if reports != [] {
      var r := reports[0];
      HandOverKeepsAccount(w, leaked, r.to, if r.hideSender then NO_QUEUE else queue, DATA_REPLY, r.fid, r.data,
                           r.choice, r.sent);
      ReportAllKeepsAccount(ReportData(w, queue, r), leaked, queue, reports[1..]);
    }
  }

  lemma ExecutionKeepsAccount(w: World, leaked: multiset<StoreId>, queue: QueueId, who: QueueId, fid: ActionId,
                              slot: StoreId, x: Execution)
    requires Accounted(w, leaked + multiset{slot}) && slot in w.slots
    ensures Accounted(PrepareExecution(w, queue, who, fid, slot, x), leaked)
  {
    ReportAllKeepsAccount(w, leaked + multiset{slot}, queue, x.reports);
    var done := Free(ReportAll(w, queue, x.reports), slot);
    FreeAccounts(ReportAll(w, queue, x.reports), leaked, slot);
    var completion := CompletionReply(queue, fid, true, x.result);
    PostKeepsAccount(done, leaked, who, completion, x.firstSent);
    var finished := if x.result == EXECUTION_FINISHED then Post(done, who, completion, x.firstSent) else done;
    PostKeepsAccount(finished, leaked, who, StepReply(queue, fid, 0, x.result), x.secondSent);
  }

  lemma SimpleExecutionKeepsAccount(w: World, leaked: multiset<StoreId>, p: Progress, queue: QueueId, who: QueueId,
                                    fid: ActionId, slot: StoreId, x: Execution)
    requires Accounted(w, leaked + multiset{slot}) && slot in w.slots
    ensures Accounted(PrepareSimple(w, p, queue, who, fid, slot, x).0, leaked)
  {
    if p.isExecuting {
      FreeAccounts(w, leaked, slot);
      var busy := StepReply(queue, fid, 0, IS_BUSY);
      PostKeepsAccount(Free(w, slot), leaked, who, busy, x.firstSent);
      assert slot !in Free(w, slot).slots;
      PostKeepsAccount(Post(Free(w, slot), who, busy, x.firstSent), leaked, who,
                       StepReply(queue, fid, 0, DATA_DOES_NOT_EXIST), x.secondSent);
    } else {
      ReportAllKeepsAccount(w, leaked + multiset{slot}, queue, x.reports);
      var done := Free(ReportAll(w, queue, x.reports), slot);
      FreeAccounts(ReportAll(w, queue, x.reports), leaked, slot);
      PostKeepsAccount(done, leaked, who, CompletionReply(queue, fid, true, RETURN_OK), x.secondSent);
      PostKeepsAccount(done, leaked, who, StepReply(queue, fid, 0, x.result), x.secondSent);
    }
  }

  /** Taking a message out and freeing its slot, as clearing and handling a data reply do. */
  lemma ClearKeepsAccount(w: World, leaked: multiset<StoreId>, i: nat)
    requires Accounted(w, leaked) && i < |w.pending|
    ensures Accounted(Clear(Removed(w, i), w.pending[i].message), leaked)
  {
    ReceiveAccounts(w, leaked, i);
    if CarriesSlot(w.pending[i].message) {
      FreeAccounts(Removed(w, i), leaked, GetStoreId(w.pending[i].message));
    }
  }

  lemma ExecuteKeepsAccount(w: World, leaked: multiset<StoreId>, i: nat, queue: QueueId, x: Execution)
    requires Accounted(w, leaked) && i < |w.pending| && w.pending[i].message.command == EXECUTE_ACTION
    ensures var m := w.pending[i].message;
            Accounted(PrepareExecution(Removed(w, i), queue, m.sender, GetActionId(m), GetStoreId(m), x), leaked)
  {
    var m := w.pending[i].message;
    ReceiveAccounts(w, leaked, i);
    ExecutionKeepsAccount(Removed(w, i), leaked, queue, m.sender, GetActionId(m), GetStoreId(m), x);
  }

  lemma ExecuteSimpleKeepsAccount(w: World, leaked: multiset<StoreId>, p: Progress, i: nat, queue: QueueId, x: Execution)
    requires Accounted(w, leaked) && i < |w.pending| && w.pending[i].message.command == EXECUTE_ACTION
    ensures var m := w.pending[i].message;
            Accounted(PrepareSimple(Removed(w, i), p, queue, m.sender, GetActionId(m), GetStoreId(m), x).0, leaked)
  {
    var m := w.pending[i].message;
    ReceiveAccounts(w, leaked, i);
    SimpleExecutionKeepsAccount(Removed(w, i), leaked, p, queue, m.sender, GetActionId(m), GetStoreId(m), x);
  }

  lemma CommandKeepsAccount(s: System, op: Op)
    requires Accounted(s.world, s.leaked) && op.CommandAction?
    ensures Accounted(Step(s, op).world, Step(s, op).leaked)
  {
    if op.known && Allocates(s.world, op.choice) {
      AllocateAccounts(s.world.slots, op.choice.value, op.data);
      HandOverKeepsAccount(s.world, s.leaked, op.to, op.sender, EXECUTE_ACTION, op.fid, op.data, op.choice, op.sent);
    }
  }

  lemma SendKeepsAccount(s: System, op: Op)
    requires Accounted(s.world, s.leaked) && (op.Report? || op.StepSimple? || op.FinishSimple?)
    ensures Accounted(Step(s, op).world, Step(s, op).leaked)
  {
    match op
    case Report(queue, r) =>
      HandOverKeepsAccount(s.world, s.leaked, r.to, if r.hideSender then NO_QUEUE else queue, DATA_REPLY, r.fid,
                           r.data, r.choice, r.sent);
    case StepSimple(queue, result, sent) =>
      PostKeepsAccount(s.world, s.leaked, s.progress.lastCommander,
                       StepReply(queue, s.progress.lastAction, s.progress.stepCount, result), sent);
    case FinishSimple(queue, result, sent) =>
      PostKeepsAccount(s.world, s.leaked, s.progress.lastAction,
                       CompletionReply(queue, result, s.progress.lastCommander != 0, RETURN_OK), sent);
  }

  lemma ReceiveKeepsAccount(s: System, op: Op)
    requires Accounted(s.world, s.leaked) && (op.Execute? || op.ExecuteSimple?)
    ensures Accounted(Step(s, op).world, Step(s, op).leaked)
  {
    if op.i < |s.world.pending| && s.world.pending[op.i].message.command == EXECUTE_ACTION {
      if op.Execute? {
        ExecuteKeepsAccount(s.world, s.leaked, op.i, op.queue, op.x);
      } else {
        ExecuteSimpleKeepsAccount(s.world, s.leaked, s.progress, op.i, op.queue, op.x);
      }
    }
  }

  lemma ReplyKeepsAccount(w: World, leaked: multiset<StoreId>, c: Commander, i: nat)
    requires Accounted(w, leaked) && i < |w.pending| && TakesReply(c, w.pending[i].message)
    ensures Accounted(HandleReply(Removed(w, i), c, w.pending[i].message).0, leaked)
  {
    ClearKeepsAccount(w, leaked, i);
    assert HandleReply(Removed(w, i), c, w.pending[i].message).0 == Clear(Removed(w, i), w.pending[i].message);
  }

  lemma ConsumeKeepsAccount(s: System, op: Op)
    requires Accounted(s.world, s.leaked) && (op.Reply? || op.ClearMessage?)
    ensures Accounted(Step(s, op).world, Step(s, op).leaked)
  {
    if op.i < |s.world.pending| {
      if op.ClearMessage? {
        ClearKeepsAccount(s.world, s.leaked, op.i);
      } else if TakesReply(s.commander, s.world.pending[op.i].message) {
        ReplyKeepsAccount(s.world, s.leaked, s.commander, op.i);
      }
    }
  }

  lemma StepKeepsAccount(s: System, op: Op)
    requires Accounted(s.world, s.leaked)
    ensures Accounted(Step(s, op).world, Step(s, op).leaked)
  {
    if op.CommandAction? {
      CommandKeepsAccount(s, op);
    } else if op.Execute? || op.ExecuteSimple? {
      ReceiveKeepsAccount(s, op);
    } else if op.Reply? || op.ClearMessage? {
      ConsumeKeepsAccount(s, op);
    } else {
      SendKeepsAccount(s, op);
    }
  }

  // ---------- whole runs ----------

  /** Every slot is accounted for over any run of any calls with any outcomes: it is carried by exactly
      one pending message, or commandAction leaked it. */
  lemma {:induction false} RunKeepsAccount(s: System, ops: seq<Op>)
    requires Accounted(s.world, s.leaked)
    ensures Accounted(Run(s, ops).world, Run(s, ops).leaked)
    decreases |ops|
  {
    if ops != [] {
      StepKeepsAccount(s, ops[0]);
      RunKeepsAccount(Step(s, ops[0]), ops[1..]);
    }
  }

  /** Some command in the run fails to serialize into the slot it has just been given. */
  ghost predicate RunLeaks(s: System, ops: seq<Op>)
    decreases |ops|
  {
    ops != [] && (Leaks(s.world, ops[0]) || RunLeaks(Step(s, ops[0]), ops[1..]))
  }

  lemma {:induction false} LeakedOnlyGrows(s: System, ops: seq<Op>)
    ensures s.leaked <= Run(s, ops).leaked
    ensures Run(s, ops).leaked == s.leaked <==> !RunLeaks(s, ops)
    decreases |ops|
  {
    if ops != [] {
      LeakedOnlyGrows(Step(s, ops[0]), ops[1..]);
      if Leaks(s.world, ops[0]) {
        var id := ops[0].choice.value;
        assert Step(s, ops[0]).leaked[id] == s.leaked[id] + 1;
        assert Run(s, ops).leaked[id] >= s.leaked[id] + 1;
      } else {
        assert Step(s, ops[0]).leaked == s.leaked;
      }
    }
  }

  /** After a run from an owned world live slots and slot-carrying messages are in bijection if and only
      if no command in the run failed to serialize into its slot. */
  lemma OwnedAfterRunIff(s: System, ops: seq<Op>)
    requires Owned(s.world) && s.leaked == multiset{}
    ensures Owned(Run(s, ops).world) <==> !RunLeaks(s, ops)
  {
    RunKeepsAccount(s, ops);
    LeakedOnlyGrows(s, ops);
    var end := Run(s, ops);
    if Owned(end.world) {
      assert Carried(end.world.pending) + end.leaked == Carried(end.world.pending) + multiset{};
      forall id: StoreId
        ensures end.leaked[id] == 0
      {
        assert (Carried(end.world.pending) + end.leaked)[id] == Carried(end.world.pending)[id];
      }
      assert end.leaked == multiset{};
    }
  }

  /** A run that fails: one command whose data does not serialize.  Its slot stays taken and no message has it. */
  lemma FailedCommandLeaks(s: System, to: QueueId, sender: QueueId, fid: ActionId, data: seq<byte>, id: StoreId)
    requires s.world == World(map[], []) && s.leaked == multiset{}
    ensures var end := Run(s, [CommandAction(true, to, sender, fid, data, false, Some(id), true)]);
            end.world == World(map[id := data], []) && end.leaked == multiset{id} && !Owned(end.world)
  {
    var op := CommandAction(true, to, sender, fid, data, false, Some(id), true);
    RunOne(s, op);
    assert Step(s, op).world == World(map[id := data], []);
    assert multiset(map[id := data].Keys)[id] == 1;
  }

  // ---------- runs in pieces ----------

  lemma {:induction false} RunConcat(s: System, a: seq<Op>, b: seq<Op>)
    ensures Run(s, a + b) == Run(Run(s, a), b)
    decreases |a|
  {
    if a == [] {
      assert a + b == b;
    } else {
      assert (a + b)[1..] == a[1..] + b;
      RunConcat(Step(s, a[0]), a[1..], b);
    }
  }

  lemma RunOne(s: System, op: Op)
    ensures Run(s, [op]) == Step(s, op)
  {
    assert [op][1..] == [];
  }

  lemma RunExtends(s: System, ops: seq<Op>, k: nat)
    requires k < |ops|
    ensures Run(s, ops[..k + 1]) == Step(Run(s, ops[..k]), ops[k])
  {
    assert ops[..k + 1] == ops[..k] + [ops[k]];
    RunConcat(s, ops[..k], [ops[k]]);
    RunOne(Run(s, ops[..k]), ops[k]);
  }

  // ---------- whose replies are taken ----------

  /** The command got as far as being passed on; whether it could be sent does not matter. */
  predicate PassedOn(w: World, op: Op) {
    op.CommandAction? && op.known && op.serializes && op.choice.Some? && op.choice.value !in w.slots
  }

  /** The target of the last command in the run that was passed on. */
  ghost function LastTarget(s: System, ops: seq<Op>, before: QueueId): QueueId
    decreases |ops|
  {
    if ops == [] then before
    else LastTarget(Step(s, ops[0]), ops[1..], if PassedOn(s.world, ops[0]) then ops[0].to else before)
  }

  lemma {:induction false} CommanderKnowsLastTarget(s: System, ops: seq<Op>)
    ensures Run(s, ops).commander.lastTarget == LastTarget(s, ops, s.commander.lastTarget)
    decreases |ops|
  {
    if ops != [] {
      CommanderKnowsLastTarget(Step(s, ops[0]), ops[1..]);
    }
  }

  lemma StrangersChangeNothing(s: System, i: nat)
    requires i < |s.world.pending| && s.world.pending[i].message.sender != s.commander.lastTarget
    ensures Step(s, Reply(i)) == s
  {
  }

  /** Over any run, only what comes from that target can be a reply: handling anything else changes nothing,
      neither the message nor its slot nor the count of open commands. */
  lemma OnlyLastTargetReplies(s: System, ops: seq<Op>, i: nat)
    requires i < |Run(s, ops).world.pending|
    requires Run(s, ops).world.pending[i].message.sender != LastTarget(s, ops, s.commander.lastTarget)
    ensures Run(s, ops + [Reply(i)]) == Run(s, ops)
  {
    CommanderKnowsLastTarget(s, ops);
    RunConcat(s, ops, [Reply(i)]);
    RunOne(Run(s, ops), Reply(i));
    StrangersChangeNothing(Run(s, ops), i);
  }

  // ---------- one action at a time ----------

  predicate EndsAction(op: Op) {
    op.FinishSimple? || (op.StepSimple? && op.result != RETURN_OK)
  }

  /** A command that reaches the helper. */
  predicate Commands(w: World, op: Op) {
    op.ExecuteSimple? && op.i < |w.pending| && w.pending[op.i].message.command == EXECUTE_ACTION
  }

  /** A command is executed if and only if the helper is idle, although nothing returns after the busy
      reply; in either case its slot is dead afterwards. */
  lemma CommandIsExecutedIffIdle(s: System, op: Op)
    requires Accounted(s.world, s.leaked) && Commands(s.world, op)
    ensures var mail := s.world.pending[op.i];
            var id := GetStoreId(mail.message);
            var after := Step(s, op);
            && id in s.world.slots && id !in after.world.slots
            && after.executions == if s.progress.isExecuting then s.executions
                                   else s.executions + [Delivery(mail, s.world.slots[id])]
  {
    ReceiveAccounts(s.world, s.leaked, op.i);
  }

  /** Over any run that does not end the action, the helper keeps executing it for the same commander and
      executes nothing else. */
  lemma {:induction false} BusyHelperExecutesNothing(s: System, ops: seq<Op>)
    requires s.progress.isExecuting && forall k :: 0 <= k < |ops| ==> !EndsAction(ops[k])
    ensures Run(s, ops).progress == s.progress && Run(s, ops).executions == s.executions
    decreases |ops|
  {
    if ops != [] {
      assert !EndsAction(ops[0]);
      BusyHelperExecutesNothing(Step(s, ops[0]), ops[1..]);
    }
  }

  /** The owner was asked to execute the command. */
  predicate WasExecuted(before: System, after: System) {
    |before.executions| < |after.executions|
  }

  lemma AcceptedActionMakesBusy(s: System, op: Op)
    requires op.ExecuteSimple? && op.x.result == RETURN_OK && WasExecuted(s, Step(s, op))
    ensures Commands(s.world, op)
    ensures var m := s.world.pending[op.i].message;
            Step(s, op).progress == Progress(true, m.sender, m.parameter, (s.progress.stepCount + 1) % 256)
  {
  }

  lemma RunAfter(s: System, op: Op, later: seq<Op>)
    ensures Run(s, [op] + later) == Run(Step(s, op), later)
  {
    assert ([op] + later)[1..] == later;
  }

  /** A command whose owner returns OK keeps the helper busy: until a finish or a failed step no other command
      is executed, and the helper remembers who sent this one and what it is. */
  lemma AcceptedActionBlocksOthers(s: System, op: Op, later: seq<Op>)
    requires op.ExecuteSimple? && op.x.result == RETURN_OK && WasExecuted(s, Step(s, op))
    requires forall k :: 0 <= k < |later| ==>
               !later[k].FinishSimple? && (later[k].StepSimple? ==> later[k].result == RETURN_OK)
    ensures op.i < |s.world.pending|
    ensures var m := s.world.pending[op.i].message;
            var end := Run(s, [op] + later);
            && end.executions == Step(s, op).executions
            && end.progress == Progress(true, m.sender, m.parameter, (s.progress.stepCount + 1) % 256)
  {
    AcceptedActionMakesBusy(s, op);
    RunAfter(s, op, later);
    var next := Step(s, op);
    BusyHelperExecutesNothing(next, later);
  }

  /** What frees the helper: any other code of the owner, a failed step, a finish. */
  ghost predicate Releases(s: System, op: Op) {
    || (op.ExecuteSimple? && WasExecuted(s, Step(s, op)) && op.x.result != RETURN_OK)
    || (op.StepSimple? && op.result != RETURN_OK)
    || op.FinishSimple?
  }

  /** After that the next command that reaches it is executed. */
  lemma ReleasedHelperExecutes(s: System, op: Op, command: Op)
    requires Accounted(s.world, s.leaked) && Releases(s, op) && Commands(Step(s, op).world, command)
    ensures WasExecuted(Step(s, op), Step(Step(s, op), command))
  {
    StepKeepsAccount(s, op);
    CommandIsExecutedIffIdle(Step(s, op), command);
  }

  /** Every command that reaches it in such a run has its slot freed there and then. */
  lemma BusyHelperFreesCommands(s: System, ops: seq<Op>, k: nat)
    requires s.progress.isExecuting && forall j :: 0 <= j < |ops| ==> !EndsAction(ops[j])
    requires k < |ops| && Commands(Run(s, ops[..k]).world, ops[k])
    ensures GetStoreId(Run(s, ops[..k]).world.pending[ops[k].i].message) !in Run(s, ops[..k + 1]).world.slots
    ensures Run(s, ops[..k + 1]).executions == s.executions && Run(s, ops[..k + 1]).progress == s.progress
  {
    RunExtends(s, ops, k);
    BusyHelperExecutesNothing(s, ops[..k]);
    BusyHelperExecutesNothing(s, ops[..k + 1]);
  }
}
