/** States, events and actions of the session machines, and the transition table of
    osc/RfSession.cpp as getActionList answers it once the table is built. */
module Fsm {
  import opened Options
  // osc/OscSession.h:33-44
  datatype StateId = INIT | SEND_FILE_INFO | INIT_RECV | IDLE | SEND_DATA | WAIT_DATA | HANDLE_DATA | DESTROY | END

  // fsm/Session.h:25-34, osc/OscSession.h:45-53
  datatype EventId = NETWORK_INPUT | SEND_DATA_EVT | DESTROY_EVT | ENTRY | EXIT | TIMEOUT | NEXT | OK | RESET

  datatype Action =
    | InitState | SendInitReq | SendInitRecv | SendBye | UnsupportNotice
    | NewTimer(msec: nat) | CancelTimer | IgnoreEvent
    | ParsePkg | ChangeState(next: StateId)
    | Destroy | DeleteSelf

  // ---------------------------------------------------------------- the RfSession table

  function InitRules(e: EventId): (r: seq<Action>) {
    match e
    case ENTRY => [InitState, SendInitReq, NewTimer(1500)]
    case TIMEOUT => [UnsupportNotice, ChangeState(DESTROY)]
    case RESET => [ChangeState(END)]
    case NETWORK_INPUT => [ParsePkg]
    case NEXT => [ChangeState(INIT_RECV)]
    case DESTROY_EVT => [ChangeState(DESTROY)]
    case EXIT => [CancelTimer]
    case _ => []
  }

  function InitRecvRules(e: EventId): (r: seq<Action>) {
    match e
    case ENTRY => [SendInitRecv, NewTimer(60000)]
    case TIMEOUT => [ChangeState(END)]
    case OK => [ChangeState(END)]
    case RESET => [ChangeState(END)]
    case NETWORK_INPUT => [ParsePkg]
    case DESTROY_EVT => [ChangeState(DESTROY)]
    case SEND_DATA_EVT => [ChangeState(HANDLE_DATA)]
    case EXIT => [CancelTimer]
    case _ => []
  }

  function HandleDataRules(e: EventId): (r: seq<Action>) {
    match e
    case ENTRY => [NewTimer(30000)]
    case TIMEOUT => [ChangeState(END)]
    case SEND_DATA_EVT => [ChangeState(SEND_DATA)]
    case NETWORK_INPUT => [ParsePkg]
    case DESTROY_EVT => [ChangeState(DESTROY)]
    case RESET => [ChangeState(END)]
    case NEXT => [ChangeState(SEND_FILE_INFO)]
    case EXIT => [CancelTimer]
    case _ => []
  }

  function EndRules(e: EventId): (r: seq<Action>) {
    match e
    case ENTRY => [SendBye, NewTimer(60000)]
    case TIMEOUT => [ChangeState(DESTROY)]
    case NETWORK_INPUT => [ParsePkg]
    case DESTROY_EVT => [ChangeState(DESTROY)]
    case RESET => [ChangeState(DESTROY)]
    case NEXT => [IgnoreEvent]
    case EXIT => [CancelTimer]
    case _ => []
  }

  function DestroyRules(e: EventId): (r: seq<Action>) {
    match e
    case ENTRY => [Destroy]
    case RESET => [IgnoreEvent]
    case DESTROY_EVT => [DeleteSelf]
    case _ => []
  }

  predicate Declared(s: StateId) {
    s == INIT || s == INIT_RECV || s == HANDLE_DATA || s == END || s == DESTROY
  }

  function ActionsOf(s: StateId, e: EventId): (r: seq<Action>) {
    match s
    case INIT => InitRules(e)
    case INIT_RECV => InitRecvRules(e)
    case HANDLE_DATA => HandleDataRules(e)
    case END => EndRules(e)
    case DESTROY => DestroyRules(e)
    case _ => []
  }

  /** First and last declared state: the start, and where an undefined event leads. */
  const FIRST_STATE: StateId := INIT
  const LAST_STATE: StateId := DESTROY

  /** Actions that leave the state alone. */
  predicate Simple(a: Action) {
    !a.ChangeState? && !a.ParsePkg? && !a.DeleteSelf?
  }

  function FirstChange(actions: seq<Action>): (t: Option<StateId>) {
    if actions == [] then None
    else if actions[0].ChangeState? then Some(actions[0].next)
    else FirstChange(actions[1..])
  }

  /** Where an event leads: an event that a state does not define leads to the last state
      (fsm/Session.cpp:124-132). */
  function Goes(s: StateId, e: EventId): (t: Option<StateId>) {
    if ActionsOf(s, e) == [] then Some(LAST_STATE) else FirstChange(ActionsOf(s, e))
  }

  /** How far along a state is; every transition of the table goes up, or to a state that
      was never declared. */
  function Rank(s: StateId): (r: nat) {
    match s
    case INIT => 0
    case INIT_RECV => 1
    case HANDLE_DATA => 2
    case END => 3
    case DESTROY => 4
    case _ => 5
  }
}
