/** The action helpers, which change the IPC store and the message queue step by step
    (src/fsfw/action/CommandActionHelper.cpp, ActionHelper.cpp, SimpleActionHelper.cpp). */
module ActionHelpers {
  import opened Serialization
  import opened ActionMessages
  import opened ActionWorld

  /** The IPC store and the queues, as far as the helpers use them.  Every failure of the store or a queue
      has the same code here. */
  class Ipc {
    var slots: map<StoreId, seq<byte>>
    var pending: seq<Mail>

    constructor ()
      ensures View() == World(map[], [])
    {
      slots, pending := map[], [];
    }

    ghost function View(): World
      reads this
    {
      World(slots, pending)
    }

    /** addData, and getFreeElement followed by filling the element. */
    method AddData(data: seq<byte>, choice: Option<StoreId>) returns (result: uint16, id: StoreId)
      modifies this`slots
      ensures result == RETURN_OK <==> choice.Some? && choice.value !in old(slots)
      ensures result == RETURN_OK ==> id == choice.value && slots == old(slots)[id := data]
      ensures result != RETURN_OK ==> slots == old(slots)
    {
      if choice.Some? && choice.value !in slots {
        id := choice.value;
        slots := slots[id := data];
        result := RETURN_OK;
      } else {
        id := 0;
        result := RETURN_FAILED;
      }
    }

    method GetData(id: StoreId) returns (result: uint16, data: seq<byte>)
      ensures result == if id in slots then RETURN_OK else DATA_DOES_NOT_EXIST
      ensures data == if id in slots then slots[id] else []
    {
      if id in slots {
        return RETURN_OK, slots[id];
      }
      return DATA_DOES_NOT_EXIST, [];
    }

    method DeleteData(id: StoreId)
      modifies this`slots
      ensures View() == Free(old(View()), id)
    {
      slots := slots - {id};
    }

    method SendMessage(to: QueueId, message: CommandMessage, sent: bool) returns (result: uint16)
      modifies this`pending
      ensures View() == Post(old(View()), to, message, sent)
      ensures result == if sent then RETURN_OK else RETURN_FAILED
    {
      if sent {
        pending := pending + [Mail(to, message, SlotData(World(slots, pending), message))];
        return RETURN_OK;
      }
      return RETURN_FAILED;
    }

    /** ActionMessage::clear. */
    method ClearMessage(message: CommandMessage)
      modifies this`slots
      ensures View() == Clear(old(View()), message)
    {
      match message.command {
        case EXECUTE_ACTION => DeleteData(GetStoreId(message));
        case DATA_REPLY => DeleteData(GetStoreId(message));
        case _ =>
      }
    }
  }

  class CommandActionHelper {
    const ipc: Ipc
    const queue: QueueId
    var lastTarget: QueueId
    var commandCount: uint8

    constructor (ipc: Ipc, queue: QueueId)
      ensures this.ipc == ipc && this.queue == queue && View() == Commander(0, 0)
    {
      this.ipc, this.queue := ipc, queue;
      lastTarget, commandCount := 0, 0;
    }

    ghost function View(): Commander
      reads this
    {
      Commander(lastTarget, commandCount)
    }

    /** With raw data.  If the receiver is not known, the store is full or the message is not sent, the
        store and the queue are as before. */
    method CommandAction(known: bool, to: QueueId, actionId: ActionId, data: seq<byte>, choice: Option<StoreId>,
                         sent: bool) returns (result: uint16)
      modifies this, ipc
      ensures ipc.View() == if known then HandOver(old(ipc.View()), to, queue, EXECUTE_ACTION, actionId, data, choice, sent)
                            else old(ipc.View())
      ensures result == RETURN_OK <==> known && choice.Some? && choice.value !in old(ipc.slots) && sent
      ensures result == RETURN_OK ==>
                && ipc.slots == old(ipc.slots)[choice.value := data]
                && ipc.pending == old(ipc.pending)
                                  + [Mail(to, CommandMessage(queue, EXECUTE_ACTION, actionId, choice.value), data)]
                && lastTarget == to && commandCount == (old(commandCount) + 1) % 256
      ensures !known ==> result == OBJECT_HAS_NO_FUNCTIONS
      ensures result != RETURN_OK ==> ipc.View() == old(ipc.View())
      ensures View() == if known && Allocates(old(ipc.View()), choice)
                        then Commander(to, (old(commandCount) + 1) % 256) else old(View())
    {
      if !known {
        return OBJECT_HAS_NO_FUNCTIONS;
      }
      var added, storeId := ipc.AddData(data, choice);
      if added != RETURN_OK {
        return added;
      }
      result := SendCommand(to, actionId, storeId, sent);
      assert old(ipc.slots)[storeId := data] - {storeId} == old(ipc.slots);
    }

    /** With data that serializes itself into a free element: if that fails, the element stays. */
    method CommandActionSerialized(known: bool, to: QueueId, actionId: ActionId, data: seq<byte>, serializes: bool,
                                   choice: Option<StoreId>, sent: bool) returns (result: uint16)
      modifies this, ipc
      ensures known && serializes ==>
                ipc.View() == HandOver(old(ipc.View()), to, queue, EXECUTE_ACTION, actionId, data, choice, sent)
      ensures !known ==> ipc.View() == old(ipc.View())
      ensures known && !serializes ==>
                ipc.pending == old(ipc.pending)
                && ipc.slots == if Allocates(old(ipc.View()), choice) then old(ipc.slots)[choice.value := data] else old(ipc.slots)
      ensures result == RETURN_OK <==>
              known && choice.Some? && choice.value !in old(ipc.slots) && serializes && sent
      ensures result == RETURN_OK ==>
                && ipc.slots == old(ipc.slots)[choice.value := data]
                && ipc.pending == old(ipc.pending)
                                  + [Mail(to, CommandMessage(queue, EXECUTE_ACTION, actionId, choice.value), data)]
                && lastTarget == to && commandCount == (old(commandCount) + 1) % 256
      ensures !known ==> result == OBJECT_HAS_NO_FUNCTIONS
      ensures View() == if known && Allocates(old(ipc.View()), choice) && serializes
                        then Commander(to, (old(commandCount) + 1) % 256) else old(View())
    {
      if !known {
        return OBJECT_HAS_NO_FUNCTIONS;
      }
      var added, storeId := ipc.AddData(data, choice);
      if added != RETURN_OK {
        return added;
      }
      if !serializes {
        return RETURN_FAILED;
      }
      result := SendCommand(to, actionId, storeId, sent);
      assert old(ipc.slots)[storeId := data] - {storeId} == old(ipc.slots);
    }

    /** The slot goes with the message, or is given back. */
    method SendCommand(to: QueueId, actionId: ActionId, storeId: StoreId, sent: bool) returns (result: uint16)
      modifies this, ipc
      ensures ipc.View() == if sent then Post(old(ipc.View()), to, ActionCommand(queue, actionId, storeId), true)
                            else Free(old(ipc.View()), storeId)
      ensures View() == Commander(to, (old(commandCount) + 1) % 256)
      ensures result == if sent then RETURN_OK else RETURN_FAILED
    {
      var command := ActionCommand(queue, actionId, storeId);
      result := ipc.SendMessage(to, command, sent);
      if result != RETURN_OK {
        ipc.DeleteData(storeId);
      }
      lastTarget := to;
      commandCount := (commandCount + 1) % 256;
    }

    /** A reply that is not from the last target, or is no reply, is refused and left to the caller. */
    method HandleReply(reply: CommandMessage) returns (result: uint16, call: OwnerCall)
      modifies this, ipc
      ensures result == if TakesReply(old(View()), reply) then RETURN_OK else RETURN_FAILED
      ensures (ipc.View(), View()) == ActionWorld.HandleReply(old(ipc.View()), old(View()), reply)
      ensures call == CallFor(old(ipc.View()), old(View()), reply)
      ensures result == RETURN_OK || result == RETURN_FAILED
      ensures result == RETURN_OK <==>
              && reply.sender == old(lastTarget)
              && reply.command in {COMPLETION_SUCCESS, COMPLETION_FAILED, STEP_SUCCESS, STEP_FAILED, DATA_REPLY}
      ensures result == RETURN_FAILED ==>
                call == NoCall && View() == old(View()) && ipc.View() == old(ipc.View())
      ensures result == RETURN_OK ==>
                && lastTarget == old(lastTarget) && ipc.pending == old(ipc.pending)
                && commandCount == (if reply.command in {COMPLETION_SUCCESS, COMPLETION_FAILED, STEP_FAILED}
                                    then (old(commandCount) - 1) % 256 else old(commandCount))
                && ipc.slots == if reply.command == DATA_REPLY then old(ipc.slots) - {reply.parameter2} else old(ipc.slots)
    {
      if reply.sender != lastTarget {
        return RETURN_FAILED, NoCall;
      }
      var fid := GetActionId(reply);
      match reply.command {
        case COMPLETION_SUCCESS =>
          commandCount := (commandCount - 1) % 256;
          call := CompletionSuccessful(fid);
        case COMPLETION_FAILED =>
          commandCount := (commandCount - 1) % 256;
          call := CompletionFailed(fid, GetReturnCode(reply));
        case STEP_SUCCESS =>
          call := StepSuccessful(fid, GetStep(reply));
        case STEP_FAILED =>
          commandCount := (commandCount - 1) % 256;
          call := StepFailed(fid, GetStep(reply), GetReturnCode(reply));
        case DATA_REPLY =>
          call := ExtractDataForOwner(fid, GetStoreId(reply));
        case _ => return RETURN_FAILED, NoCall;
      }
      result := RETURN_OK;
    }

    method ExtractDataForOwner(actionId: ActionId, storeId: StoreId) returns (call: OwnerCall)
      modifies ipc
      ensures ipc.View() == Free(old(ipc.View()), storeId)
      ensures call == if storeId in old(ipc.slots) then DataReceived(actionId, old(ipc.slots)[storeId]) else NoCall
    {
      var result, data := ipc.GetData(storeId);
      if result != RETURN_OK {
        assert ipc.slots - {storeId} == ipc.slots;
        return NoCall;
      }
      call := DataReceived(actionId, data);
      ipc.DeleteData(storeId);
    }
  }

  class ActionHelper {
    const ipc: Ipc
    const queue: QueueId

    constructor (ipc: Ipc, queue: QueueId)
      ensures this.ipc == ipc && this.queue == queue
    {
      this.ipc, this.queue := ipc, queue;
    }

    /** Only commands to execute an action are handled; `executed` is what the owner is given. */
    method HandleActionMessage(command: CommandMessage, x: Execution)
      returns (result: uint16, executed: Option<seq<byte>>)
      modifies ipc
      ensures result == if command.command == EXECUTE_ACTION then RETURN_OK else UNKNOWN_COMMAND
      ensures result == RETURN_OK ==>
                ipc.View() == ActionWorld.PrepareExecution(old(ipc.View()), queue, command.sender, GetActionId(command),
                                                           GetStoreId(command), x)
      ensures result != RETURN_OK ==> ipc.View() == old(ipc.View()) && executed == None
      ensures result == RETURN_OK && GetStoreId(command) in old(ipc.slots) ==>
                executed == Some(old(ipc.slots)[GetStoreId(command)]) && GetStoreId(command) !in ipc.slots
    {
      if command.command == EXECUTE_ACTION {
        executed := PrepareExecution(command.sender, GetActionId(command), GetStoreId(command), x);
        result := RETURN_OK;
      } else {
        return UNKNOWN_COMMAND, None;
      }
    }

    method PrepareExecution(commandedBy: QueueId, actionId: ActionId, dataAddress: StoreId, x: Execution)
      returns (executed: Option<seq<byte>>)
      modifies ipc
      ensures ipc.View() == ActionWorld.PrepareExecution(old(ipc.View()), queue, commandedBy, actionId, dataAddress, x)
      ensures executed == if dataAddress in old(ipc.slots) then Some(old(ipc.slots)[dataAddress]) else None
      ensures dataAddress !in ipc.slots
    {
      var result, data := ipc.GetData(dataAddress);
      if result != RETURN_OK {
        var _ := ipc.SendMessage(commandedBy, StepReply(queue, actionId, 0, result), x.secondSent);
        return None;
      }
      executed := Some(data);
      ExecuteAction(x.reports);
      ipc.DeleteData(dataAddress);
      if x.result == EXECUTION_FINISHED {
        var _ := ipc.SendMessage(commandedBy, CompletionReply(queue, actionId, true, x.result), x.firstSent);
      }
      if x.result != RETURN_OK {
        var _ := ipc.SendMessage(commandedBy, StepReply(queue, actionId, 0, x.result), x.secondSent);
      }
    }

    /** What the owner does while it executes an action. */
    method ExecuteAction(reports: seq<Report>)
      modifies ipc
      ensures ipc.View() == ReportAll(old(ipc.View()), queue, reports)
    {
      var i := 0;
      assert reports[0..] == reports;
      while i < |reports|
        invariant i <= |reports|
        invariant ReportAll(ipc.View(), queue, reports[i..]) == ReportAll(old(ipc.View()), queue, reports)
      {
        assert reports[i..][1..] == reports[i + 1..];
        var _ := ReportData(reports[i]);
        i := i + 1;
      }
    }

    /** The data is in its slot, and the message that carries the slot is the last one pending. */
    ghost predicate ReportedOnly(slots: map<StoreId, seq<byte>>, pending: seq<Mail>, r: Report)
      reads ipc
    {
      && r.choice.Some? && ipc.slots == slots[r.choice.value := r.data]
      && ipc.pending == pending + [Mail(r.to, CommandMessage(if r.hideSender then 0 else queue, DATA_REPLY, r.fid,
                                                            r.choice.value), r.data)]
    }

    /** reportData with raw data: on any failure the store and the queue are as before. */
    method ReportData(r: Report) returns (result: uint16)
      modifies ipc
      ensures ipc.View() == ActionWorld.ReportData(old(ipc.View()), queue, r)
      ensures result == RETURN_OK <==> r.choice.Some? && r.choice.value !in old(ipc.slots) && r.sent
      ensures result == RETURN_OK ==> ReportedOnly(old(ipc.slots), old(ipc.pending), r)
      ensures result != RETURN_OK ==> ipc.View() == old(ipc.View())
    {
      var added, storeAddress := ipc.AddData(r.data, r.choice);
      if added != RETURN_OK {
        return added;
      }
      result := SendDataReply(r, storeAddress);
      assert old(ipc.slots)[storeAddress := r.data] - {storeAddress} == old(ipc.slots);
    }

    /** reportData with data that serializes itself: nothing to report is no error, and a failed
        serialization gives the element back. */
    method ReportSerialized(r: Report, serializes: bool) returns (result: uint16)
      modifies ipc
      ensures ipc.View() == if r.data != [] && serializes then ActionWorld.ReportData(old(ipc.View()), queue, r)
                            else old(ipc.View())
      ensures result == RETURN_OK <==>
              r.data == [] || (r.choice.Some? && r.choice.value !in old(ipc.slots) && serializes && r.sent)
      ensures result == RETURN_OK && r.data != [] ==> ReportedOnly(old(ipc.slots), old(ipc.pending), r)
      ensures result != RETURN_OK || r.data == [] ==> ipc.View() == old(ipc.View())
    {
      if |r.data| == 0 {
        return RETURN_OK;
      }
      var added, storeAddress := ipc.AddData(r.data, r.choice);
      if added != RETURN_OK {
        return added;
      }
      assert old(ipc.slots)[storeAddress := r.data] - {storeAddress} == old(ipc.slots);
      if !serializes {
        ipc.DeleteData(storeAddress);
        return RETURN_FAILED;
      }
      result := SendDataReply(r, storeAddress);
    }

    method SendDataReply(r: Report, storeAddress: StoreId) returns (result: uint16)
      modifies ipc
      ensures ipc.View() ==
              if r.sent then Post(old(ipc.View()), r.to,
                                  DataReply(if r.hideSender then NO_QUEUE else queue, r.fid, storeAddress), true)
              else Free(old(ipc.View()), storeAddress)
      ensures result == if r.sent then RETURN_OK else RETURN_FAILED
    {
      var sender := if r.hideSender then NO_QUEUE else queue;
      result := ipc.SendMessage(r.to, DataReply(sender, r.fid, storeAddress), r.sent);
      if result != RETURN_OK {
        ipc.DeleteData(storeAddress);
      }
    }

    /** The step is numbered one higher, in eight bits. */
    method Step(step: uint8, reportTo: QueueId, commandId: ActionId, result: uint16, sent: bool)
      modifies ipc
      ensures ipc.View() == Post(old(ipc.View()), reportTo, StepReply(queue, commandId, (step + 1) % 256, result), sent)
    {
      var _ := ipc.SendMessage(reportTo, StepReply(queue, commandId, (step + 1) % 256, result), sent);
    }

    method Finish(success: bool, reportTo: QueueId, commandId: ActionId, result: uint16, sent: bool)
      modifies ipc
      ensures ipc.View() == Post(old(ipc.View()), reportTo, CompletionReply(queue, commandId, success, result), sent)
    {
      var _ := ipc.SendMessage(reportTo, CompletionReply(queue, commandId, success, result), sent);
    }
  }

  /** An action helper that executes one action at a time and remembers who asked for it. */
  class SimpleActionHelper {
    const base: ActionHelper
    var isExecuting: bool
    var lastCommander: QueueId
    var lastAction: ActionId
    var stepCount: uint8

    constructor (base: ActionHelper)
      ensures this.base == base && View() == IDLE
    {
      this.base := base;
      isExecuting, lastCommander, lastAction, stepCount := false, NO_QUEUE, 0, 0;
    }

    ghost function View(): Progress
      reads this
    {
      Progress(isExecuting, lastCommander, lastAction, stepCount)
    }

    /** There is no return after the busy reply: that the owner is not asked rests on the slot being gone. */
    method PrepareExecution(commandedBy: QueueId, actionId: ActionId, dataAddress: StoreId, x: Execution)
      returns (executed: Option<seq<byte>>)
      modifies this, base.ipc
      ensures (base.ipc.View(), View(), executed)
           == PrepareSimple(old(base.ipc.View()), old(View()), base.queue, commandedBy, actionId, dataAddress, x)
      ensures executed.Some? <==> !old(isExecuting) && dataAddress in old(base.ipc.slots)
      ensures executed.Some? ==> executed.value == old(base.ipc.slots)[dataAddress]
      ensures executed.Some? ==>
                && (isExecuting <==> x.result == RETURN_OK)
                && lastCommander == commandedBy && lastAction == actionId
                && stepCount == if x.result == RETURN_OK then (old(stepCount) + 1) % 256 else old(stepCount)
      ensures executed == None ==> View() == old(View())
      ensures dataAddress !in base.ipc.slots
    {
      var ipc := base.ipc;
      if isExecuting {
        ipc.DeleteData(dataAddress);
        var _ := ipc.SendMessage(commandedBy, StepReply(base.queue, actionId, 0, IS_BUSY), x.firstSent);
      }
      var result, data := ipc.GetData(dataAddress);
      if result != RETURN_OK {
        var _ := ipc.SendMessage(commandedBy, StepReply(base.queue, actionId, 0, result), x.secondSent);
        return None;
      }
      lastCommander := commandedBy;
      lastAction := actionId;
      executed := Some(data);
      base.ExecuteAction(x.reports);
      ipc.DeleteData(dataAddress);
      if x.result == RETURN_OK {
        isExecuting := true;
        stepCount := (stepCount + 1) % 256;
      } else if x.result == EXECUTION_FINISHED {
        var _ := ipc.SendMessage(commandedBy, CompletionReply(base.queue, actionId, true, RETURN_OK), x.secondSent);
      } else {
        var _ := ipc.SendMessage(commandedBy, StepReply(base.queue, actionId, 0, x.result), x.secondSent);
      }
    }

    method Step(result: uint16, sent: bool)
      modifies this, base.ipc
      ensures (base.ipc.View(), View()) == SimpleStep(old(base.ipc.View()), old(View()), base.queue, result, sent)
    {
      base.Step((stepCount - 1) % 256, lastCommander, lastAction, result, sent);
      if result != RETURN_OK {
        ResetHelper();
      }
    }

    method Finish(result: uint16, sent: bool)
      modifies this, base.ipc
      ensures (base.ipc.View(), View()) == SimpleFinish(old(base.ipc.View()), old(View()), base.queue, result, sent)
    {
      base.Finish(lastCommander != 0, lastAction, result, RETURN_OK, sent);
      ResetHelper();
    }

    method ResetHelper()
      modifies this
      ensures View() == IDLE
    {
      stepCount := 0;
      isExecuting := false;
      lastAction := 0;
      lastCommander := 0;
    }
  }
}
