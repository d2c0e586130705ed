/** The four machines of the PPP driver as one system: what an event does, through every
    handler that re-enters another machine. */
module Ppp {
  import opened PppTables

  /** The bits of `timer_on`. */
  datatype Timers = Timers(modem: bool, lcpReq: bool, lcpTerm: bool, auth: bool, ipcp: bool)

  /** The device. `auth` is the authentication protocol the peer asked for, `sent` the
      transmissions in order. */
  datatype Device = Device(
    modemState: ModemState, lcpState: LcpState, authState: AuthState, ipcpState: IpcpState,
    timers: Timers, timerVal: nat, timerCount: nat,
    auth: nat, autoreconnect: bool, sent: seq<Action>)

  const NO_TIMERS := Timers(false, false, false, false, false)
  const CREATED := Device(ModemState.Initial, LcpState.Initial, AuthState.Initial, IpcpState.Initial,
                          NO_TIMERS, 0, 0, 0, false, [])

  const DEFAULT_TIMER: nat := 3
  const MAX_TERMINATE: nat := 2
  const MAX_CONFIGURE: nat := 10
  const MAX_FAILURE: nat := 5
  const MAX_DIALTIME: nat := 20
  const AUTH_NONE: nat := 0x0000
  const AUTH_PAP: nat := 0xC023
  const AUTH_CHAP: nat := 0xC223

  // ---------- Handlers that stay in the device ----------

  function Send(s: Device, what: Action): Device {
    s.(sent := s.sent + [what])
  }

  function ModemTimer(s: Device, val: nat): Device {
    s.(timers := s.timers.(modem := true), timerVal := val)
  }

  /** `lcp_timer_start` for one of the two LCP timers. */
  function StartLcpTimer(s: Device, term: bool): Device {
    s.(timers := if term then s.timers.(lcpTerm := true) else s.timers.(lcpReq := true),
       timerVal := if s.timerVal == 0 then DEFAULT_TIMER else s.timerVal,
       timerCount := if s.timerCount != 0 then s.timerCount else if term then MAX_TERMINATE else MAX_CONFIGURE)
  }

  /** `lcp_timer_start` with no timer given: the request timer runs with no retries left. */
  function ZeroRestart(s: Device): Device {
    s.(timers := s.timers.(lcpReq := true),
       timerVal := if s.timerVal == 0 then DEFAULT_TIMER else s.timerVal,
       timerCount := 0)
  }

  function StopLcpTimers(s: Device): Device {
    s.(timers := s.timers.(lcpReq := false, lcpTerm := false))
  }

  /** The handlers that dial. */
  predicate Dials(a: Action) {
    || a == SendReset || a == SendEcho || a == SendCreg || a == SendCgreg || a == SendCgdcont || a == SendCgatt
    || a == SendDial
  }

  function StartDialling(s: Device, a: Action): Device {
    ModemTimer(Send(s, a), if a == SendDial then MAX_DIALTIME else DEFAULT_TIMER)
  }

  /** The handlers that start the restart timer of LCP. */
  predicate StartsRestart(a: Action) {
    a == SendConfReq || a == SendTermReq || a == InitRestartCount || a == ZeroRestartCount
  }

  function Restart(s: Device, a: Action): Device {
    if a == SendConfReq then StartLcpTimer(Send(s, a).(timerVal := DEFAULT_TIMER), false)
    else if a == SendTermReq then StartLcpTimer(Send(s, a), true)
    else if a == InitRestartCount then StartLcpTimer(s, false)
    else ZeroRestart(s)
  }

  /** The handlers that answer, and those that wait for the peer's next step. */
  function Answer(s: Device, a: Action): Device {
    match a
    case SendConfAck | SendConfNak | SendTermAck | SendEchoReply | AuthReq | AuthRsp | IpcpSendReq | IpcpSendAck =>
      Send(s, a)
    case AuthStartTimer => s.(timers := s.timers.(auth := true), timerVal := DEFAULT_TIMER)
    case IpcpStartTimer => s.(timers := s.timers.(ipcp := true), timerVal := DEFAULT_TIMER * MAX_FAILURE)
    case _ => s
  }

  /** Handlers of rank 0. */
  function Local(s: Device, action: Action): Device
    requires ActionRank(action) == 0
  {
    if Dials(action) then StartDialling(s, action)
    else if StartsRestart(action) then Restart(s, action)
    else Answer(s, action)
  }

  // ---------- Evaluators ----------

  /** One handler, with the cascade it starts. */
  function Handle(s: Device, action: Action): Device
    decreases ActionRank(action), 0
  {
    match action
    case ModemConnected => EvalLcp(s, LcpEvent.Up)
    case ModemDisconnected => EvalLcp(Send(s, action), LcpEvent.Down)
    case LayerUp =>
      if s.auth == AUTH_NONE then EvalAuth(s, UpNone)
      else if s.auth == AUTH_PAP then EvalAuth(s, UpPap)
      else if s.auth == AUTH_CHAP then EvalAuth(s, UpChap)
      else s
    case LayerDown => EvalAuth(s, AuthEvent.Down)
    case LayerStarted => EvalModem(s, Start)
    case LayerFinished => EvalModem(s, Stop)
    case AuthUp => EvalIpcp(s, IpcpEvent.Up)
    case AuthDown => EvalIpcp(s, IpcpEvent.Down)
    case AuthAbort => EvalLcp(s.(timers := s.timers.(auth := false)), Close)
    case _ => Local(s, action)
  }

  function EvalModem(s: Device, event: ModemEvent): Device
    decreases ModemRank(event), 1
  {
    var fsm := ModemFsm(s.modemState, event);
    Handle(Handle(Handle(s.(modemState := fsm.next), fsm.h0), fsm.h1), fsm.h2)
  }

  /** The states in which the restart timer runs: those whose TO+ entry has a handler. */
  predicate HasTimeout(state: LcpState) {
    LcpFsm(state, ToPos).h0 != NoAction
  }

  /** The new state is written first, and its timers stopped, before any handler runs. */
  function EnterLcp(s: Device, next: LcpState): Device {
    var entered := s.(lcpState := next);
    if HasTimeout(next) then entered else StopLcpTimers(entered)
  }

  function EvalLcp(s: Device, event: LcpEvent): Device
    decreases LcpRank(event), 1
  {
    var fsm := LcpFsm(s.lcpState, event);
    Handle(Handle(Handle(EnterLcp(s, fsm.next), fsm.h0), fsm.h1), fsm.h2)
  }

  function EvalAuth(s: Device, event: AuthEvent): Device
    decreases AuthRank(event), 1
  {
    var fsm := AuthFsm(s.authState, event);
    Handle(Handle(Handle(s.(authState := fsm.next), fsm.h0), fsm.h1), fsm.h2)
  }

  function EvalIpcp(s: Device, event: IpcpEvent): Device
    decreases IpcpRank(event), 1
  {
    var fsm := IpcpFsm(s.ipcpState, event);
    Handle(Handle(Handle(s.(ipcpState := fsm.next), fsm.h0), fsm.h1), fsm.h2)
  }

  // ---------- The timer tick ----------

  function CheckModem(s: Device): Device {
    if s.timers.modem && s.timerVal == 0 then EvalModem(s.(timers := s.timers.(modem := false)), Timeout) else s
  }

  function CheckLcp(s: Device): (t: Device) {
    if (s.timers.lcpReq || s.timers.lcpTerm) && s.timerVal == 0 then
      if s.timerCount == 0 then EvalLcp(s, ToNeg)
      else
        var t := EvalLcp(s, ToPos);
        t.(timerCount := if t.timerCount == 0 then 255 else t.timerCount - 1)
    else s
  }

  function CheckAuth(s: Device): Device {
    if s.timers.auth && s.timerVal == 0 then EvalAuth(s.(timers := s.timers.(auth := false)), AuthEvent.To) else s
  }

  function CheckIpcp(s: Device): Device {
    if s.timers.ipcp && s.timerVal == 0 then EvalIpcp(s.(timers := s.timers.(ipcp := false)), IpcpEvent.To) else s
  }

  function Reconnect(s: Device): Device {
    if s.autoreconnect && s.lcpState == LcpState.Initial then EvalLcp(s, Open) else s
  }

  /** `pico_ppp_tick`. */
  function Tick(s: Device): Device {
    var aged := s.(timerVal := if s.timerVal > 0 then s.timerVal - 1 else 0);
    Reconnect(CheckIpcp(CheckAuth(CheckLcp(CheckModem(aged)))))
  }

  // ---------- Runs ----------

  /** What can happen to a device: a line from the modem, a packet, a tick or a request of the user. */
  datatype Input =
    | Line(modemEvent: ModemEvent)
    | LcpPacket(lcpEvent: LcpEvent, auth: nat)
    | AuthPacket(authEvent: AuthEvent)
    | IpcpPacket(ipcpEvent: IpcpEvent)
    | Second
    | UserConnect
    | UserDisconnect

  /** The events that modem lines and packets can give rise to; for LCP, also those of the
      packet codes that RFC 1661 defines and the driver ignores. */
  predicate Possible(input: Input) {
    match input
    case Line(e) => e == Ok || e == Stop || e == Connect
    case LcpPacket(e, _) => e != LcpEvent.Up && e != LcpEvent.Down && e != Open && e != Close && e != ToPos && e != ToNeg
    case AuthPacket(e) => e == Rac || e == Raa || e == Ran
    case IpcpPacket(e) => e != IpcpEvent.Up && e != IpcpEvent.Down && e != IpcpEvent.To
    case _ => true
  }

  /** Lines are read while the modem is not connected, packets while it is. An LCP packet may
      set the authentication protocol before its event is evaluated. */
  function Step(s: Device, input: Input): Device {
    match input
    case Line(e) => if s.modemState == Connected then s else EvalModem(s, e)
    case LcpPacket(e, auth) => if s.modemState == Connected then EvalLcp(s.(auth := auth), e) else s
    case AuthPacket(e) => if s.modemState == Connected then EvalAuth(s, e) else s
    case IpcpPacket(e) => if s.modemState == Connected then EvalIpcp(s, e) else s
    case Second => Tick(s)
    case UserConnect => s.(autoreconnect := true)
    case UserDisconnect => EvalLcp(s.(autoreconnect := false), Close)
  }

  function Run(s: Device, inputs: seq<Input>): Device {
    if inputs == [] then s else Step(Run(s, inputs[..|inputs| - 1]), inputs[|inputs| - 1])
  }
}
