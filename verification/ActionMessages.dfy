/** Action messages: which command they carry and how their parameters are packed
    (src/fsfw/action/ActionMessage.cpp). */
module ActionMessages {
  import opened Serialization

  type uint8 = x: int | 0 <= x < 256
  type uint16 = x: int | 0 <= x < 0x1_0000
  type QueueId = uint32
  type ActionId = uint32
  type StoreId = uint32

  const RETURN_OK: uint16 := 0
  const RETURN_FAILED: uint16 := 1
  const UNKNOWN_COMMAND: uint16 := 15 * 256 + 1
  const DATA_DOES_NOT_EXIST: uint16 := 40 * 256 + 4
  const OBJECT_HAS_NO_FUNCTIONS: uint16 := 50 * 256 + 1
  const IS_BUSY: uint16 := 51 * 256 + 1
  const EXECUTION_FINISHED: uint16 := 51 * 256 + 3

  const NO_QUEUE: QueueId := 0

  datatype Command =
    | EXECUTE_ACTION
    | STEP_SUCCESS
    | STEP_FAILED
    | DATA_REPLY
    | COMPLETION_SUCCESS
    | COMPLETION_FAILED
    | UNRELATED(id: nat)

  datatype CommandMessage = CommandMessage(sender: QueueId, command: Command, parameter: uint32, parameter2: uint32)

  function ActionCommand(sender: QueueId, fid: ActionId, parameters: StoreId): CommandMessage {
    CommandMessage(sender, EXECUTE_ACTION, fid, parameters)
  }

  function DataReply(sender: QueueId, fid: ActionId, data: StoreId): CommandMessage {
    CommandMessage(sender, DATA_REPLY, fid, data)
  }

  function StepReply(sender: QueueId, fid: ActionId, step: uint8, result: uint16): CommandMessage {
    CommandMessage(sender, if result == RETURN_OK then STEP_SUCCESS else STEP_FAILED, fid, step * 0x1_0000 + result)
  }

  function CompletionReply(sender: QueueId, fid: ActionId, success: bool, result: uint16): CommandMessage {
    CommandMessage(sender, if success then COMPLETION_SUCCESS else COMPLETION_FAILED, fid, result)
  }

  function GetActionId(m: CommandMessage): ActionId {
    m.parameter
  }

  function GetStoreId(m: CommandMessage): StoreId {
    m.parameter2
  }

  /** (parameter2 >> 16) & 0xFF */
  function GetStep(m: CommandMessage): uint8 {
    m.parameter2 / 0x1_0000 % 256
  }

  /** parameter2 & 0xFFFF */
  function GetReturnCode(m: CommandMessage): uint16 {
    m.parameter2 % 0x1_0000
  }

  /** Step and return code share a parameter and are both recovered; success is a zero code. */
  lemma StepReplyUnpacks(sender: QueueId, fid: ActionId, step: uint8, result: uint16)
    ensures var m := StepReply(sender, fid, step, result);
            && GetActionId(m) == fid && GetStep(m) == step && GetReturnCode(m) == result
            && m.sender == sender && m.parameter == fid
            && m.parameter2 / 0x1_0000 == step && m.parameter2 % 0x1_0000 == result
            && m.command == if result == 0 then STEP_SUCCESS else STEP_FAILED
  {
  }

  lemma CompletionReplyUnpacks(sender: QueueId, fid: ActionId, success: bool, result: uint16)
    ensures var m := CompletionReply(sender, fid, success, result);
            && GetActionId(m) == fid && GetReturnCode(m) == result && GetStep(m) == 0
            && m == CommandMessage(sender, if success then COMPLETION_SUCCESS else COMPLETION_FAILED, fid, result)
  {
  }

  /** The kinds of message whose second parameter is a store slot. */
  predicate CarriesSlot(m: CommandMessage) {
    m.command == EXECUTE_ACTION || m.command == DATA_REPLY
  }
}
