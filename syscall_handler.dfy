/** `SyscallHandler::execute_call`: routing a system-call number to the
    handler the trait provides for it. The handlers themselves act on the
    machine and are supplied from outside. */
module SyscallHandler {
  import opened Wrappers
  import opened LittleEndian

  /** The trait's handlers; `TargetSpecific(call)` is
      `execute_target_specific_call` invoked with `call`. */
  datatype Handler =
    | Exit
    | WriteTerminal
    | ReadTerminal
    | OpenFile
    | CloseFile
    | ReadFile
    | WriteFile
    | ExecuteFile
    | ExecuteVxlFile
    | DeleteFile
    | MoveFile
    | CopyFile
    | TimeOfDay
    | ForkProcess
    | TerminateProcess
    | TargetSpecific(call: U64)

  /** The named handlers, at the index of their call number. */
  const NAMED_HANDLERS: seq<Handler> := [
    Exit, WriteTerminal, ReadTerminal,
    OpenFile, CloseFile, ReadFile, WriteFile, ExecuteFile, ExecuteVxlFile, DeleteFile, MoveFile, CopyFile,
    TimeOfDay,
    ForkProcess, TerminateProcess]

  /** The first call number handed to `execute_target_specific_call`. */
  const FIRST_TARGET_SPECIFIC_CALL: nat := 256

  /** The arm of `execute_call`'s `match` a call number takes: a named
      handler for 0..=14, the target-specific hook for 256 and above, and
      no handler in between. */
  function Route(call: U64): (h: Option<Handler>)
    ensures call < |NAMED_HANDLERS| ==> h == Some(NAMED_HANDLERS[call])
    ensures |NAMED_HANDLERS| <= call < FIRST_TARGET_SPECIFIC_CALL ==> h.None?
    ensures call >= FIRST_TARGET_SPECIFIC_CALL ==> h == Some(TargetSpecific(call))
  {
    match call
    case 0 => Some(Exit)
    case 1 => Some(WriteTerminal)
    case 2 => Some(ReadTerminal)
    case 3 => Some(OpenFile)
    case 4 => Some(CloseFile)
    case 5 => Some(ReadFile)
    case 6 => Some(WriteFile)
    case 7 => Some(ExecuteFile)
    case 8 => Some(ExecuteVxlFile)
    case 9 => Some(DeleteFile)
    case 10 => Some(MoveFile)
    case 11 => Some(CopyFile)
    case 12 => Some(TimeOfDay)
    case 13 => Some(ForkProcess)
    case 14 => Some(TerminateProcess)
    case _ => if call >= 256 then Some(TargetSpecific(call)) else None
  }

  /** The call number that routes to a handler; a target-specific handler
      carries its own. */
  function CallNumber(h: Handler): (call: U64)
  {
    match h
    case Exit => 0
    case WriteTerminal => 1
    case ReadTerminal => 2
    case OpenFile => 3
    case CloseFile => 4
    case ReadFile => 5
    case WriteFile => 6
    case ExecuteFile => 7
    case ExecuteVxlFile => 8
    case DeleteFile => 9
    case MoveFile => 10
    case CopyFile => 11
    case TimeOfDay => 12
    case ForkProcess => 13
    case TerminateProcess => 14
    case TargetSpecific(call) => call
  }

  /** Every named handler, and every target-specific call from 256 up, is
      reached by exactly one call number. */
  lemma {:induction false} RouteCallNumber(h: Handler, call: U64)
    requires h.TargetSpecific? ==> h.call >= FIRST_TARGET_SPECIFIC_CALL
    ensures Route(CallNumber(h)) == Some(h)
    ensures Route(call) == Some(h) ==> call == CallNumber(h)
  {
    if Route(call) == Some(h) && call < |NAMED_HANDLERS| {
      assert NAMED_HANDLERS[call] == h;
    }
  }

  /** No handler runs exactly for the numbers 15..=255. */
  lemma NoHandlerGap(call: U64)
    ensures Route(call).None? <==> 15 <= call <= 255
  {
  }

  /** `execute_call`: the chosen handler's result, returned unchanged, or
      `None` when no arm names a handler. `handlers` stands for the
      trait's handler methods acting on the machine. */
  function ExecuteCall<O>(call: U64, handlers: Handler -> Option<O>): (r: Option<O>)
    ensures call < |NAMED_HANDLERS| ==> r == handlers(NAMED_HANDLERS[call])
    ensures |NAMED_HANDLERS| <= call < FIRST_TARGET_SPECIFIC_CALL ==> r.None?
    ensures call >= FIRST_TARGET_SPECIFIC_CALL ==> r == handlers(TargetSpecific(call))
  {
    match Route(call)
    case Some(h) => handlers(h)
    case None => None
  }
}
