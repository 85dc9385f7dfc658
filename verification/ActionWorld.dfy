/** The IPC store and the messages that have been sent and not yet dealt with, and what each call of the
    action helpers does to them.

    What is outside the helpers is part of a call's arguments: which free slot the store hands out, if
    any (`choice`), whether the queue takes a message (`sent`), and what the owner of a helper does
    when it is asked to execute an action. */
module ActionWorld {
  import opened Serialization
  import opened ActionMessages

  /** A message under way.  `data` records what the slot it carries held when it was sent; no helper looks
      at it. */
  datatype Mail = Mail(to: QueueId, message: CommandMessage, data: seq<byte>)

  datatype World = World(slots: map<StoreId, seq<byte>>, pending: seq<Mail>)

  function SlotData(w: World, m: CommandMessage): seq<byte> {
    if CarriesSlot(m) && GetStoreId(m) in w.slots then w.slots[GetStoreId(m)] else []
  }

  function Post(w: World, to: QueueId, m: CommandMessage, sent: bool): World {
    if sent then w.(pending := w.pending + [Mail(to, m, SlotData(w, m))]) else w
  }

  function Free(w: World, id: StoreId): World {
    w.(slots := w.slots - {id})
  }

  /** The store may refuse, and it never hands out a slot that is in use. */
  predicate Allocates(w: World, choice: Option<StoreId>) {
    choice.Some? && choice.value !in w.slots
  }

  /** Data put into a slot whose address is sent away in a message: all or nothing. */
  function HandOver(w: World, to: QueueId, sender: QueueId, kind: Command, fid: ActionId, data: seq<byte>,
                    choice: Option<StoreId>, sent: bool): World
  {
    if Allocates(w, choice) && sent then
      World(w.slots[choice.value := data],
            w.pending + [Mail(to, CommandMessage(sender, kind, fid, choice.value), data)])
    else w
  }

  // ---------- the executing side ----------

  datatype Report = Report(to: QueueId, fid: ActionId, data: seq<byte>, hideSender: bool, choice: Option<StoreId>,
                           sent: bool)

  /** What an owner does in executeAction: it may report data, and it returns a code. */
  datatype Execution = Execution(reports: seq<Report>, result: uint16, firstSent: bool, secondSent: bool)

  function ReportData(w: World, queue: QueueId, r: Report): World {
    HandOver(w, r.to, if r.hideSender then NO_QUEUE else queue, DATA_REPLY, r.fid, r.data, r.choice, r.sent)
  }

  function ReportAll(w: World, queue: QueueId, reports: seq<Report>): World
    decreases |reports|
  {
    if reports == [] then w else ReportAll(ReportData(w, queue, reports[0]), queue, reports[1..])
  }

  function PrepareExecution(w: World, queue: QueueId, commandedBy: QueueId, fid: ActionId, slot: StoreId,
                            x: Execution): World
  {
    if slot !in w.slots then
      Post(w, commandedBy, StepReply(queue, fid, 0, DATA_DOES_NOT_EXIST), x.secondSent)
    else
      var done := Free(ReportAll(w, queue, x.reports), slot);
      var finished := if x.result == EXECUTION_FINISHED
                      then Post(done, commandedBy, CompletionReply(queue, fid, true, x.result), x.firstSent) else done;
      if x.result == RETURN_OK then finished
      else Post(finished, commandedBy, StepReply(queue, fid, 0, x.result), x.secondSent)
  }

  // ---------- the executing side, one action at a time ----------

  datatype Progress = Progress(isExecuting: bool, lastCommander: QueueId, lastAction: ActionId, stepCount: uint8)

  const IDLE: Progress := Progress(false, 0, 0, 0)

  /** The new store, messages and progress, and the data the owner was asked to execute with, if it was.
      There is no return after the busy reply. */
  function PrepareSimple(w: World, p: Progress, queue: QueueId, commandedBy: QueueId, fid: ActionId, slot: StoreId,
                         x: Execution): (World, Progress, Option<seq<byte>>)
  {
    var w1 := if p.isExecuting
              then Post(Free(w, slot), commandedBy, StepReply(queue, fid, 0, IS_BUSY), x.firstSent) else w;
    if slot !in w1.slots then
      (Post(w1, commandedBy, StepReply(queue, fid, 0, DATA_DOES_NOT_EXIST), x.secondSent), p, None)
    else
      var executed := Some(w1.slots[slot]);
      var done := Free(ReportAll(w1, queue, x.reports), slot);
      var p1 := p.(lastCommander := commandedBy, lastAction := fid);
      if x.result == RETURN_OK then
        (done, p1.(isExecuting := true, stepCount := (p.stepCount + 1) % 256), executed)
      else if x.result == EXECUTION_FINISHED then
        (Post(done, commandedBy, CompletionReply(queue, fid, true, RETURN_OK), x.secondSent), p1, executed)
      else
        (Post(done, commandedBy, StepReply(queue, fid, 0, x.result), x.secondSent), p1, executed)
  }

  function SimpleStep(w: World, p: Progress, queue: QueueId, result: uint16, sent: bool): (World, Progress) {
    (Post(w, p.lastCommander, StepReply(queue, p.lastAction, p.stepCount, result), sent),
     if result == RETURN_OK then p else IDLE)
  }

  /** The arguments arrive one place too far to the left: the commander as success flag, the action as
      the queue to report to, the result as the action. */
  function SimpleFinish(w: World, p: Progress, queue: QueueId, result: uint16, sent: bool): (World, Progress) {
    (Post(w, p.lastAction, CompletionReply(queue, result, p.lastCommander != 0, RETURN_OK), sent), IDLE)
  }

  // ---------- the commanding side ----------

  datatype Commander = Commander(lastTarget: QueueId, commandCount: uint8)

  /** Whether the commander takes a message for a reply. */
  predicate TakesReply(c: Commander, m: CommandMessage) {
    && m.sender == c.lastTarget
    && (m.command == COMPLETION_SUCCESS || m.command == COMPLETION_FAILED || m.command == STEP_SUCCESS
        || m.command == STEP_FAILED || m.command == DATA_REPLY)
  }

  /** Which function of the commanding owner is called, and with what. */
  datatype OwnerCall =
    | NoCall
    | CompletionSuccessful(fid: ActionId)
    | CompletionFailed(fid: ActionId, code: uint16)
    | StepSuccessful(fid: ActionId, step: uint8)
    | StepFailed(fid: ActionId, step: uint8, code: uint16)
    | DataReceived(fid: ActionId, data: seq<byte>)

  /** Data whose slot is gone is not passed on. */
  function CallFor(w: World, c: Commander, m: CommandMessage): OwnerCall {
    if !TakesReply(c, m) then NoCall
    else
      match m.command
      case COMPLETION_SUCCESS => CompletionSuccessful(GetActionId(m))
      case COMPLETION_FAILED => CompletionFailed(GetActionId(m), GetReturnCode(m))
      case STEP_SUCCESS => StepSuccessful(GetActionId(m), GetStep(m))
      case STEP_FAILED => StepFailed(GetActionId(m), GetStep(m), GetReturnCode(m))
      case _ => if GetStoreId(m) in w.slots then DataReceived(GetActionId(m), w.slots[GetStoreId(m)]) else NoCall
  }

  function HandleReply(w: World, c: Commander, m: CommandMessage): (World, Commander) {
    if !TakesReply(c, m) then (w, c)
    else if m.command == DATA_REPLY then (Free(w, GetStoreId(m)), c)
    else if m.command == STEP_SUCCESS then (w, c)
    else (w, c.(commandCount := (c.commandCount - 1) % 256))
  }

  // ---------- which replies are sent ----------

  /** What a commander gets from a helper that executed its command, if all replies are sent: nothing if the
      owner returns OK, else the code in a failed step; a finished execution has a completion before that. */
  lemma RepliesOfExecution(w: World, queue: QueueId, who: QueueId, fid: ActionId, slot: StoreId, x: Execution)
    requires slot in w.slots && x.firstSent && x.secondSent
    ensures var failure := Mail(who, CommandMessage(queue, STEP_FAILED, fid, x.result), []);
            var completion := Mail(who, CommandMessage(queue, COMPLETION_SUCCESS, fid, EXECUTION_FINISHED), []);
            PrepareExecution(w, queue, who, fid, slot, x).pending
            == ReportAll(w, queue, x.reports).pending
               + if x.result == RETURN_OK then [] else if x.result == EXECUTION_FINISHED then [completion, failure]
                 else [failure]
  {
    var reported := ReportAll(w, queue, x.reports).pending;
    assert reported + [] == reported;
    if x.result == EXECUTION_FINISHED {
      var completion := Mail(who, CommandMessage(queue, COMPLETION_SUCCESS, fid, EXECUTION_FINISHED), []);
      var failure := Mail(who, CommandMessage(queue, STEP_FAILED, fid, x.result), []);
      assert reported + [completion] + [failure] == reported + [completion, failure];
    }
  }

  /** The same from a helper that executes one action at a time: it completes a finished execution without a
      failed step, and says twice that it is busy, the second time as data that does not exist. */
  lemma RepliesOfSimpleExecution(w: World, p: Progress, queue: QueueId, who: QueueId, fid: ActionId, slot: StoreId,
                                 x: Execution)
    requires slot in w.slots && x.firstSent && x.secondSent
    ensures var failure := Mail(who, CommandMessage(queue, STEP_FAILED, fid, x.result), []);
            var completion := Mail(who, CommandMessage(queue, COMPLETION_SUCCESS, fid, RETURN_OK), []);
            var busy := Mail(who, CommandMessage(queue, STEP_FAILED, fid, IS_BUSY), []);
            var missing := Mail(who, CommandMessage(queue, STEP_FAILED, fid, DATA_DOES_NOT_EXIST), []);
            PrepareSimple(w, p, queue, who, fid, slot, x).0.pending
            == if p.isExecuting then w.pending + [busy, missing]
               else ReportAll(w, queue, x.reports).pending
                    + if x.result == RETURN_OK then [] else if x.result == EXECUTION_FINISHED then [completion]
                      else [failure]
  {
    var reported := ReportAll(w, queue, x.reports).pending;
    assert reported + [] == reported;
    if p.isExecuting {
      var busy := Mail(who, CommandMessage(queue, STEP_FAILED, fid, IS_BUSY), []);
      var missing := Mail(who, CommandMessage(queue, STEP_FAILED, fid, DATA_DOES_NOT_EXIST), []);
      assert w.pending + [busy] + [missing] == w.pending + [busy, missing];
    }
  }

  /** Reports go out in the order in which the owner makes them. */
  lemma ReportsInOrder(w: World, queue: QueueId, r: Report, r': Report)
    requires r.choice.Some? && r.choice.value !in w.slots && r.sent && !r.hideSender
    requires r'.choice.Some? && r'.choice.value !in w.slots && r'.choice != r.choice && r'.sent && r'.hideSender
    ensures ReportAll(w, queue, [r, r']).pending
         == w.pending + [Mail(r.to, CommandMessage(queue, DATA_REPLY, r.fid, r.choice.value), r.data),
                         Mail(r'.to, CommandMessage(0, DATA_REPLY, r'.fid, r'.choice.value), r'.data)]
  {
    assert [r, r'][1..] == [r'] && [r'][1..] == [];
    assert ReportAll(w, queue, [r, r']) == ReportAll(ReportData(w, queue, r), queue, [r']);
    assert ReportAll(ReportData(w, queue, r), queue, [r']) == ReportData(ReportData(w, queue, r), queue, r');
  }

  /** A command whose slot is gone is answered with a failed step, and nothing else happens. */
  lemma ReplyWithoutData(w: World, p: Progress, queue: QueueId, who: QueueId, fid: ActionId, slot: StoreId, x: Execution)
    requires slot !in w.slots && x.secondSent
    ensures var missing := Mail(who, CommandMessage(queue, STEP_FAILED, fid, DATA_DOES_NOT_EXIST), []);
            && PrepareExecution(w, queue, who, fid, slot, x) == World(w.slots, w.pending + [missing])
            && (!p.isExecuting ==>
                  PrepareSimple(w, p, queue, who, fid, slot, x) == (World(w.slots, w.pending + [missing]), p, None))
  {
  }

  /** A step goes to the commander of the action that is executing, with its step count; a failed step and a
      finish forget the action. */
  lemma RepliesOfProgress(w: World, p: Progress, queue: QueueId, result: uint16)
    ensures var (w1, p1) := SimpleStep(w, p, queue, result, true);
            var kind := if result == RETURN_OK then STEP_SUCCESS else STEP_FAILED;
            && w1.slots == w.slots
            && w1.pending
               == w.pending + [Mail(p.lastCommander, CommandMessage(queue, kind, p.lastAction, p.stepCount * 0x1_0000 + result), [])]
            && p1 == if result == RETURN_OK then p else Progress(false, 0, 0, 0)
    ensures var (w1, p1) := SimpleFinish(w, p, queue, result, true);
            var kind := if p.lastCommander != 0 then COMPLETION_SUCCESS else COMPLETION_FAILED;
            && w1.slots == w.slots && p1 == Progress(false, 0, 0, 0)
            && w1.pending == w.pending + [Mail(p.lastAction, CommandMessage(queue, kind, result, RETURN_OK), [])]
  {
  }

  /** The owner of the last target's commander is told exactly what the executing side put into its reply. */
  lemma RepliesReachTheOwner(w: World, c: Commander, fid: ActionId, step: uint8, result: uint16, success: bool,
                             slot: StoreId)
    ensures CallFor(w, c, StepReply(c.lastTarget, fid, step, result))
         == if result == RETURN_OK then StepSuccessful(fid, step) else StepFailed(fid, step, result)
    ensures CallFor(w, c, CompletionReply(c.lastTarget, fid, success, result))
         == if success then CompletionSuccessful(fid) else CompletionFailed(fid, result)
    ensures slot in w.slots ==> CallFor(w, c, DataReply(c.lastTarget, fid, slot)) == DataReceived(fid, w.slots[slot])
  {
    StepReplyUnpacks(c.lastTarget, fid, step, result);
    CompletionReplyUnpacks(c.lastTarget, fid, success, result);
  }

  function Clear(w: World, m: CommandMessage): World {
    if CarriesSlot(m) then Free(w, GetStoreId(m)) else w
  }
}
