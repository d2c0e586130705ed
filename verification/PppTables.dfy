/** The four transition tables of the PPP driver (section 4 of RFC 1661 for LCP), as constant
    data: entering an event into a state gives the next state and up to three handlers. */
module PppTables {
  datatype ModemState = Initial | Reset | Echo | Creg | Cgreg | Cgdcont | Cgatt | Dial | Connected
  datatype ModemEvent = Start | Stop | Ok | Connect | Timeout

  datatype LcpState =
    Initial | Starting | Closed | Stopped | Closing | Stopping | ReqSent | AckRcvd | AckSent | Opened
  datatype LcpEvent =
    Up | Down | Open | Close | ToPos | ToNeg | RcrPos | RcrNeg | Rca | Rcn | Rtr | Rta | Ruc | RxjPos | RxjNeg | Rxr

  datatype AuthState = Initial | Starting | RspSent | ReqSent | Authenticated
  datatype AuthEvent = UpNone | UpPap | UpChap | Down | Rac | Raa | Ran | To

  datatype IpcpState = Initial | ReqSent | AckRcvd | AckSent | Opened
  datatype IpcpEvent = Up | Down | RcrPos | RcrNeg | Rca | Rcn | To

  /** The handlers. The last of each group re-enter another machine. */
  datatype Action =
    | NoAction
    | SendReset | SendEcho | SendCreg | SendCgreg | SendCgdcont | SendCgatt | SendDial
    | ModemConnected | ModemDisconnected
    | SendConfReq | SendConfAck | SendConfNak | SendTermReq | SendTermAck | SendCodeRej | SendEchoReply
    | InitRestartCount | ZeroRestartCount
    | LayerUp | LayerDown | LayerStarted | LayerFinished
    | AuthReq | AuthRsp | AuthStartTimer
    | AuthUp | AuthDown | AuthAbort
    | IpcpSendReq | IpcpSendAck | IpcpSendNak | IpcpBringUp | IpcpBringDown | IpcpStartTimer

  datatype Entry<S> = Entry(next: S, h0: Action, h1: Action, h2: Action)

  function Go<S>(next: S): Entry<S> {
    Entry(next, NoAction, NoAction, NoAction)
  }

  function Do<S>(next: S, h0: Action): Entry<S> {
    Entry(next, h0, NoAction, NoAction)
  }

  function Do2<S>(next: S, h0: Action, h1: Action): Entry<S> {
    Entry(next, h0, h1, NoAction)
  }

  function Do3<S>(next: S, h0: Action, h1: Action, h2: Action): Entry<S> {
    Entry(next, h0, h1, h2)
  }

  // ---------- The rank that bounds every cascade ----------

  function IpcpRank(event: IpcpEvent): nat {
    1
  }

  function AuthRank(event: AuthEvent): nat {
    if event.Ran? then 11 else 3
  }

  function LcpRank(event: LcpEvent): nat {
    match event
    case Up => 1
    case Down => 5
    case _ => 9
  }

  function ModemRank(event: ModemEvent): nat {
    match event
    case Connect => 3
    case Stop => 7
    case _ => 1
  }

  /** A handler ranks one above the event it enters elsewhere, and 0 if it enters none. */
  function ActionRank(action: Action): nat {
    match action
    case ModemConnected => LcpRank(LcpEvent.Up) + 1
    case ModemDisconnected => LcpRank(LcpEvent.Down) + 1
    case LayerUp => AuthRank(UpNone) + 1
    case LayerDown => AuthRank(AuthEvent.Down) + 1
    case LayerStarted => ModemRank(Start) + 1
    case LayerFinished => ModemRank(Stop) + 1
    case AuthUp => IpcpRank(IpcpEvent.Up) + 1
    case AuthDown => IpcpRank(IpcpEvent.Down) + 1
    case AuthAbort => LcpRank(Close) + 1
    case _ => 0
  }

  datatype Machine = Modem | Lcp | Auth | Ipcp

  function Owner(action: Action): Machine {
    match action
    case SendReset | SendEcho | SendCreg | SendCgreg | SendCgdcont | SendCgatt | SendDial => Modem
    case ModemConnected | ModemDisconnected => Modem
    case AuthReq | AuthRsp | AuthStartTimer | AuthUp | AuthDown | AuthAbort => Auth
    case IpcpSendReq | IpcpSendAck | IpcpSendNak | IpcpBringUp | IpcpBringDown | IpcpStartTimer => Ipcp
    case _ => Lcp
  }

  predicate ActionFits(action: Action, machine: Machine, rank: nat) {
    ActionRank(action) < rank && (action == NoAction || Owner(action) == machine)
  }

  /** Every handler of an entry belongs to the machine and ranks below the event. */
  predicate EntryFits<S>(entry: Entry<S>, machine: Machine, rank: nat) {
    && ActionFits(entry.h0, machine, rank)
    && ActionFits(entry.h1, machine, rank)
    && ActionFits(entry.h2, machine, rank)
  }

  /** `ppp_modem_fsm`. */
  function ModemFsm(state: ModemState, event: ModemEvent): (entry: Entry<ModemState>)
    ensures EntryFits(entry, Modem, ModemRank(event))
  {
    match state
    case Initial =>
      (match event
       case Start => Do(ModemState.Reset, SendReset)
       case Timeout => Do(ModemState.Initial, SendReset)
       case _ => Go(state))
    case Reset =>
      (match event
       case Stop => Go(ModemState.Initial)
       case Ok => Do(ModemState.Echo, SendEcho)
       case Timeout => Do(ModemState.Reset, SendReset)
       case _ => Go(state))
    case Echo =>
      (match event
       case Stop => Go(ModemState.Initial)
       case Ok => Do(ModemState.Creg, SendCreg)
       case Timeout => Do(ModemState.Reset, SendReset)
       case _ => Go(state))
    case Creg =>
      (match event
       case Stop => Go(ModemState.Initial)
       case Ok => Do(ModemState.Cgreg, SendCgreg)
       case Timeout => Do(ModemState.Reset, SendReset)
       case _ => Go(state))
    case Cgreg =>
      (match event
       case Stop => Go(ModemState.Initial)
       case Ok => Do(ModemState.Cgdcont, SendCgdcont)
       case Timeout => Do(ModemState.Reset, SendReset)
       case _ => Go(state))
    case Cgdcont =>
      (match event
       case Stop => Go(ModemState.Initial)
       case Ok => Do(ModemState.Cgatt, SendCgatt)
       case Timeout => Do(ModemState.Reset, SendReset)
       case _ => Go(state))
    case Cgatt =>
      (match event
       case Stop => Go(ModemState.Initial)
       case Ok => Do(ModemState.Dial, SendDial)
       case Timeout => Do(ModemState.Reset, SendReset)
       case _ => Go(state))
    case Dial =>
      (match event
       case Stop => Go(ModemState.Initial)
       case Connect => Do(ModemState.Connected, ModemConnected)
       case Timeout => Do(ModemState.Reset, SendReset)
       case _ => Go(state))
    case Connected =>
      (match event
       case Stop => Do(ModemState.Initial, ModemDisconnected)
       case _ => Go(state))
  }

  // The rows of `ppp_lcp_fsm`.

  function LcpInInitial(event: LcpEvent): (entry: Entry<LcpState>)
    ensures EntryFits(entry, Lcp, LcpRank(event))
  {
    match event
    case Up => Go(LcpState.Closed)
    case Open => Do(LcpState.Starting, LayerStarted)
    case _ => Go(LcpState.Initial)
  }

  function LcpInStarting(event: LcpEvent): (entry: Entry<LcpState>)
    ensures EntryFits(entry, Lcp, LcpRank(event))
  {
    match event
    case Up => Do(LcpState.ReqSent, SendConfReq)
    case Close => Do(LcpState.Initial, LayerFinished)
    case _ => Go(LcpState.Starting)
  }

  function LcpInClosed(event: LcpEvent): (entry: Entry<LcpState>)
    ensures EntryFits(entry, Lcp, LcpRank(event))
  {
    match event
    case Down => Go(LcpState.Initial)
    case Open => Do(LcpState.ReqSent, SendConfReq)
    case RcrPos | RcrNeg | Rca | Rcn | Rtr => Do(LcpState.Closed, SendTermAck)
    case Ruc => Do(LcpState.Closed, SendCodeRej)
    case RxjNeg => Do(LcpState.Closed, LayerFinished)
    case _ => Go(LcpState.Closed)
  }

  function LcpInStopped(event: LcpEvent): (entry: Entry<LcpState>)
    ensures EntryFits(entry, Lcp, LcpRank(event))
  {
    match event
    case Down => Do(LcpState.Starting, LayerStarted)
    case Close => Go(LcpState.Closed)
    case RcrPos => Do2(LcpState.AckSent, SendConfReq, SendConfAck)
    case RcrNeg => Do2(LcpState.ReqSent, SendConfReq, SendConfNak)
    case Rca | Rcn | Rtr => Do(LcpState.Stopped, SendTermAck)
    case Ruc => Do(LcpState.Stopped, SendCodeRej)
    case RxjNeg => Do(LcpState.Stopped, LayerFinished)
    case _ => Go(LcpState.Stopped)
  }

  function LcpInClosing(event: LcpEvent): (entry: Entry<LcpState>)
    ensures EntryFits(entry, Lcp, LcpRank(event))
  {
    match event
    case Down => Go(LcpState.Initial)
    case Open => Go(LcpState.Stopping)
    case ToPos => Do(LcpState.Closing, SendTermReq)
    case ToNeg | Rta | RxjNeg => Do(LcpState.Closed, LayerFinished)
    case Rtr => Do(LcpState.Closing, SendTermAck)
    case Ruc => Do(LcpState.Closing, SendCodeRej)
    case _ => Go(LcpState.Closing)
  }

  function LcpInStopping(event: LcpEvent): (entry: Entry<LcpState>)
    ensures EntryFits(entry, Lcp, LcpRank(event))
  {
    match event
    case Down => Go(LcpState.Starting)
    case Close => Go(LcpState.Closing)
    case ToPos => Do(LcpState.Stopping, SendTermReq)
    case ToNeg | Rta | RxjNeg => Do(LcpState.Stopped, LayerFinished)
    case Rtr => Do(LcpState.Stopping, SendTermAck)
    case Ruc => Do(LcpState.Stopping, SendCodeRej)
    case _ => Go(LcpState.Stopping)
  }

  function LcpInReqSent(event: LcpEvent): (entry: Entry<LcpState>)
    ensures EntryFits(entry, Lcp, LcpRank(event))
  {
    match event
    case Down => Go(LcpState.Starting)
    case Close => Do(LcpState.Closing, SendTermReq)
    case ToPos | Rcn => Do(LcpState.ReqSent, SendConfReq)
    case ToNeg | RxjNeg => Do(LcpState.Stopped, LayerFinished)
    case RcrPos => Do(LcpState.AckSent, SendConfAck)
    case RcrNeg => Do(LcpState.ReqSent, SendConfNak)
    case Rca => Do(LcpState.AckRcvd, InitRestartCount)
    case Rtr => Do(LcpState.ReqSent, SendTermAck)
    case Ruc => Do(LcpState.ReqSent, SendCodeRej)
    case _ => Go(LcpState.ReqSent)
  }

  function LcpInAckRcvd(event: LcpEvent): (entry: Entry<LcpState>)
    ensures EntryFits(entry, Lcp, LcpRank(event))
  {
    match event
    case Down => Go(LcpState.Starting)
    case Close => Do(LcpState.Closing, SendTermReq)
    case ToPos | Rca | Rcn => Do(LcpState.ReqSent, SendConfReq)
    case ToNeg | RxjNeg => Do(LcpState.Stopped, LayerFinished)
    case RcrPos => Do2(LcpState.Opened, SendConfAck, LayerUp)
    case RcrNeg => Do(LcpState.AckRcvd, SendConfNak)
    case Rtr => Do(LcpState.ReqSent, SendTermAck)
    case Rta | RxjPos => Go(LcpState.ReqSent)
    case Ruc => Do(LcpState.AckRcvd, SendCodeRej)
    case _ => Go(LcpState.AckRcvd)
  }

  function LcpInAckSent(event: LcpEvent): (entry: Entry<LcpState>)
    ensures EntryFits(entry, Lcp, LcpRank(event))
  {
    match event
    case Down => Go(LcpState.Starting)
    case Close => Do(LcpState.Closing, SendTermReq)
    case ToPos | Rcn => Do(LcpState.AckSent, SendConfReq)
    case ToNeg | RxjNeg => Do(LcpState.Stopped, LayerFinished)
    case RcrPos => Do(LcpState.AckSent, SendConfAck)
    case RcrNeg => Do(LcpState.ReqSent, SendConfNak)
    case Rca => Do(LcpState.Opened, LayerUp)
    case Rtr => Do(LcpState.ReqSent, SendTermAck)
    case Ruc => Do(LcpState.AckSent, SendCodeRej)
    case _ => Go(LcpState.AckSent)
  }

  function LcpInOpened(event: LcpEvent): (entry: Entry<LcpState>)
    ensures EntryFits(entry, Lcp, LcpRank(event))
  {
    match event
    case Down => Do(LcpState.Starting, LayerDown)
    case Close => Do2(LcpState.Closing, LayerDown, SendTermReq)
    case RcrPos => Do3(LcpState.AckSent, LayerDown, SendTermReq, SendConfAck)
    case RcrNeg => Do3(LcpState.ReqSent, LayerDown, SendConfReq, SendConfNak)
    case Rca | Rcn | Rta => Do2(LcpState.ReqSent, LayerDown, SendTermReq)
    case Rtr => Do3(LcpState.Stopping, LayerDown, ZeroRestartCount, SendTermAck)
    case Ruc => Do(LcpState.Opened, SendCodeRej)
    case RxjNeg => Do2(LcpState.Stopping, LayerDown, SendTermReq)
    case Rxr => Do(LcpState.Opened, SendEchoReply)
    case _ => Go(LcpState.Opened)
  }

  function LcpFsm(state: LcpState, event: LcpEvent): (entry: Entry<LcpState>)
    ensures EntryFits(entry, Lcp, LcpRank(event))
  {
    match state
    case Initial => LcpInInitial(event)
    case Starting => LcpInStarting(event)
    case Closed => LcpInClosed(event)
    case Stopped => LcpInStopped(event)
    case Closing => LcpInClosing(event)
    case Stopping => LcpInStopping(event)
    case ReqSent => LcpInReqSent(event)
    case AckRcvd => LcpInAckRcvd(event)
    case AckSent => LcpInAckSent(event)
    case Opened => LcpInOpened(event)
  }

  /** `ppp_auth_fsm`. */
  function AuthFsm(state: AuthState, event: AuthEvent): (entry: Entry<AuthState>)
    ensures EntryFits(entry, Auth, AuthRank(event))
  {
    match state
    case Initial =>
      (match event
       case UpNone => Do(AuthState.Authenticated, AuthUp)
       case UpPap => Do2(AuthState.ReqSent, AuthReq, AuthStartTimer)
       case UpChap => Go(AuthState.Starting)
       case Ran => Do(AuthState.Initial, AuthAbort)
       case _ => Go(state))
    case Starting =>
      (match event
       case Down => Do(AuthState.Initial, AuthDown)
       case Rac => Do2(AuthState.RspSent, AuthRsp, AuthStartTimer)
       case Raa => Do(AuthState.Starting, AuthStartTimer)
       case Ran => Do(AuthState.Starting, AuthAbort)
       case To => Do2(AuthState.Initial, AuthReq, AuthStartTimer)
       case _ => Go(state))
    case RspSent =>
      (match event
       case Down => Do(AuthState.Initial, AuthDown)
       case Rac => Do2(AuthState.RspSent, AuthRsp, AuthStartTimer)
       case Raa => Do(AuthState.Authenticated, AuthUp)
       case Ran => Do(AuthState.Starting, AuthAbort)
       case To => Do(AuthState.Starting, AuthStartTimer)
       case _ => Go(state))
    case ReqSent =>
      (match event
       case Down => Do(AuthState.Initial, AuthDown)
       case Raa => Do(AuthState.Authenticated, AuthUp)
       case Ran => Do(AuthState.ReqSent, AuthAbort)
       case To => Do2(AuthState.ReqSent, AuthReq, AuthStartTimer)
       case _ => Go(state))
    case Authenticated =>
      (match event
       case Down => Do(AuthState.Initial, AuthDown)
       case Rac => Do(AuthState.RspSent, AuthRsp)
       case _ => Go(state))
  }

  // The rows of `ppp_ipcp_fsm`.

  function IpcpInInitial(event: IpcpEvent): (entry: Entry<IpcpState>)
    ensures EntryFits(entry, Ipcp, IpcpRank(event))
  {
    match event
    case Up => Do2(IpcpState.ReqSent, IpcpSendReq, IpcpStartTimer)
    case _ => Go(IpcpState.Initial)
  }

  function IpcpInReqSent(event: IpcpEvent): (entry: Entry<IpcpState>)
    ensures EntryFits(entry, Ipcp, IpcpRank(event))
  {
    match event
    case Down => Go(IpcpState.Initial)
    case RcrPos => Do(IpcpState.AckSent, IpcpSendAck)
    case RcrNeg => Do(IpcpState.ReqSent, IpcpSendNak)
    case Rca => Go(IpcpState.AckRcvd)
    case Rcn | To => Do2(IpcpState.ReqSent, IpcpSendReq, IpcpStartTimer)
    case _ => Go(IpcpState.ReqSent)
  }

  function IpcpInAckRcvd(event: IpcpEvent): (entry: Entry<IpcpState>)
    ensures EntryFits(entry, Ipcp, IpcpRank(event))
  {
    match event
    case Down => Go(IpcpState.Initial)
    case RcrPos => Do2(IpcpState.Opened, IpcpSendAck, IpcpBringUp)
    case RcrNeg => Do(IpcpState.AckRcvd, IpcpSendNak)
    case Rca | Rcn => Do2(IpcpState.ReqSent, IpcpSendReq, IpcpStartTimer)
    case To => Do2(IpcpState.AckRcvd, IpcpSendReq, IpcpStartTimer)
    case _ => Go(IpcpState.AckRcvd)
  }

  function IpcpInAckSent(event: IpcpEvent): (entry: Entry<IpcpState>)
    ensures EntryFits(entry, Ipcp, IpcpRank(event))
  {
    match event
    case Down => Go(IpcpState.Initial)
    case RcrPos => Do(IpcpState.AckSent, IpcpSendAck)
    case RcrNeg => Do(IpcpState.ReqSent, IpcpSendNak)
    case Rca => Do(IpcpState.Opened, IpcpBringUp)
    case Rcn | To => Do2(IpcpState.AckSent, IpcpSendReq, IpcpStartTimer)
    case _ => Go(IpcpState.AckSent)
  }

  function IpcpInOpened(event: IpcpEvent): (entry: Entry<IpcpState>)
    ensures EntryFits(entry, Ipcp, IpcpRank(event))
  {
    match event
    case Down => Do(IpcpState.Initial, IpcpBringDown)
    case RcrPos => Do3(IpcpState.AckSent, IpcpBringDown, IpcpSendReq, IpcpSendAck)
    case RcrNeg => Do3(IpcpState.ReqSent, IpcpBringDown, IpcpSendReq, IpcpSendNak)
    case Rca | Rcn => Do(IpcpState.ReqSent, IpcpSendReq)
    case _ => Go(IpcpState.Opened)
  }

  function IpcpFsm(state: IpcpState, event: IpcpEvent): (entry: Entry<IpcpState>)
    ensures EntryFits(entry, Ipcp, IpcpRank(event))
  {
    match state
    case Initial => IpcpInInitial(event)
    case ReqSent => IpcpInReqSent(event)
    case AckRcvd => IpcpInAckRcvd(event)
    case AckSent => IpcpInAckSent(event)
    case Opened => IpcpInOpened(event)
  }
}
