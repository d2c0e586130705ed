/** The device structure of the PPP driver, whose fields the evaluators and handlers update in
    place while they call each other. */
module PppDriver {
  import opened PppTables
  import opened Ppp

  class PppDevice {
    var modemState: ModemState
    var lcpState: LcpState
    var authState: AuthState
    var ipcpState: IpcpState
    var timers: Timers
    var timerVal: nat
    var timerCount: nat
    var auth: nat
    var autoreconnect: bool
    var sent: seq<Action>

    function State(): Device
      reads this
    {
      Device(modemState, lcpState, authState, ipcpState, timers, timerVal, timerCount, auth, autoreconnect, sent)
    }

    constructor ()
      ensures State() == CREATED
    {
      modemState, lcpState := ModemState.Initial, LcpState.Initial;
      authState, ipcpState := AuthState.Initial, IpcpState.Initial;
      timers, timerVal, timerCount := NO_TIMERS, 0, 0;
      auth, autoreconnect, sent := 0, false, [];
    }

    // ---------- Timers ----------

    method ModemStartTimer(val: nat)
      modifies this
      ensures State() == ModemTimer(old(State()), val)
    {
      timers := timers.(modem := true);
      timerVal := val;
    }

    /** `lcp_timer_start` for the request timer or the terminate timer. */
    method LcpTimerStart(term: bool)
      modifies this
      ensures State() == StartLcpTimer(old(State()), term)
    {
      timers := if term then timers.(lcpTerm := true) else timers.(lcpReq := true);
      if timerVal == 0 {
        timerVal := DEFAULT_TIMER;
      }
      var count := if term then MAX_TERMINATE else MAX_CONFIGURE;
      if timerCount == 0 {
        timerCount := count;
      }
    }

    method LcpZeroRestartCount()
      modifies this
      ensures State() == ZeroRestart(old(State()))
    {
      if timerVal == 0 {
        timerVal := DEFAULT_TIMER;
      }
      timers := timers.(lcpReq := true);
      timerCount := 0;
    }

    method LcpTimersStop()
      modifies this
      ensures State() == StopLcpTimers(old(State()))
    {
      timers := timers.(lcpReq := false);
      timers := timers.(lcpTerm := false);
    }

    // ---------- Handlers and evaluators ----------

    method RunDial(action: Action)
      modifies this
      ensures State() == StartDialling(old(State()), action)
    {
      sent := sent + [action];
      ModemStartTimer(DEFAULT_TIMER);
      if action == SendDial {
        timerVal := MAX_DIALTIME;
      }
    }

    method RunRestart(action: Action)
      requires StartsRestart(action)
      modifies this
      ensures State() == Restart(old(State()), action)
    {
      if action == SendConfReq {
        sent := sent + [action];
        timerVal := DEFAULT_TIMER;
        LcpTimerStart(false);
      } else if action == SendTermReq {
        sent := sent + [action];
        LcpTimerStart(true);
      } else if action == InitRestartCount {
        LcpTimerStart(false);
      } else {
        LcpZeroRestartCount();
      }
    }

    method RunAnswer(action: Action)
      modifies this
      ensures State() == Answer(old(State()), action)
    {
      match action {
        case SendConfAck | SendConfNak | SendTermAck | SendEchoReply | AuthReq | AuthRsp | IpcpSendReq | IpcpSendAck =>
          sent := sent + [action];
        case AuthStartTimer =>
          timers := timers.(auth := true);
          timerVal := DEFAULT_TIMER;
        case IpcpStartTimer =>
          timers := timers.(ipcp := true);
          timerVal := DEFAULT_TIMER * MAX_FAILURE;
        case _ =>
      }
    }

    method RunLocal(action: Action)
      requires ActionRank(action) == 0
      modifies this
      ensures State() == Local(old(State()), action)
    {
      hide StartDialling, Restart, Answer;
      if Dials(action) {
        RunDial(action);
      } else if StartsRestart(action) {
        RunRestart(action);
      } else {
        RunAnswer(action);
      }
    }

    /** One handler of a table entry. */
    method RunHandler(action: Action)
      modifies this
      ensures State() == Handle(old(State()), action)
      decreases ActionRank(action), 0
    {
      hide EvalModem, EvalLcp, EvalAuth, EvalIpcp, Local;
      match action {
        case ModemConnected => EvaluateLcpState(LcpEvent.Up);
        case ModemDisconnected =>
          sent := sent + [action];
          EvaluateLcpState(LcpEvent.Down);
        case LayerUp =>
          if auth == AUTH_NONE {
            EvaluateAuthState(UpNone);
          } else if auth == AUTH_PAP {
            EvaluateAuthState(UpPap);
          } else if auth == AUTH_CHAP {
            EvaluateAuthState(UpChap);
          }
        case LayerDown => EvaluateAuthState(AuthEvent.Down);
        case LayerStarted => EvaluateModemState(Start);
        case LayerFinished => EvaluateModemState(Stop);
        case AuthUp => EvaluateIpcpState(IpcpEvent.Up);
        case AuthDown => EvaluateIpcpState(IpcpEvent.Down);
        case AuthAbort =>
          timers := timers.(auth := false);
          EvaluateLcpState(Close);
        case _ => RunLocal(action);
      }
    }

    /** The three handlers of an entry, in order. */
    method RunHandlers(h0: Action, h1: Action, h2: Action, ghost rank: nat)
      requires ActionRank(h0) < rank && ActionRank(h1) < rank && ActionRank(h2) < rank
      modifies this
      ensures State() == Handle(Handle(Handle(old(State()), h0), h1), h2)
      decreases rank, 0
    {
      RunHandler(h0);
      RunHandler(h1);
      RunHandler(h2);
    }

    method EvaluateModemState(event: ModemEvent)
      modifies this
      ensures State() == EvalModem(old(State()), event)
      decreases ModemRank(event), 1
    {
      hide ModemFsm, Handle;
      var fsm := ModemFsm(modemState, event);
      modemState := fsm.next;
      RunHandlers(fsm.h0, fsm.h1, fsm.h2, ModemRank(event));
    }

    method EvaluateLcpState(event: LcpEvent)
      modifies this
      ensures State() == EvalLcp(old(State()), event)
      decreases LcpRank(event), 1
    {
      hide LcpFsm, Handle;
      var fsm := LcpFsm(lcpState, event);
      lcpState := fsm.next;
      if LcpFsm(lcpState, ToPos).h0 == NoAction {
        LcpTimersStop();
      }
      RunHandlers(fsm.h0, fsm.h1, fsm.h2, LcpRank(event));
    }

    method EvaluateAuthState(event: AuthEvent)
      modifies this
      ensures State() == EvalAuth(old(State()), event)
      decreases AuthRank(event), 1
    {
      hide AuthFsm, Handle;
      var fsm := AuthFsm(authState, event);
      authState := fsm.next;
      RunHandlers(fsm.h0, fsm.h1, fsm.h2, AuthRank(event));
    }

    method EvaluateIpcpState(event: IpcpEvent)
      modifies this
      ensures State() == EvalIpcp(old(State()), event)
      decreases IpcpRank(event), 1
    {
      hide IpcpFsm, Handle;
      var fsm := IpcpFsm(ipcpState, event);
      ipcpState := fsm.next;
      RunHandlers(fsm.h0, fsm.h1, fsm.h2, IpcpRank(event));
    }

    // ---------- The tick ----------

    method CheckToModem()
      modifies this
      ensures State() == CheckModem(old(State()))
    {
      if timers.modem && timerVal == 0 {
        timers := timers.(modem := false);
        EvaluateModemState(Timeout);
      }
    }

    method CheckToLcp()
      modifies this
      ensures State() == CheckLcp(old(State()))
    {
      if timers.lcpReq || timers.lcpTerm {
        if timerVal == 0 {
          if timerCount == 0 {
            EvaluateLcpState(ToNeg);
          } else {
            EvaluateLcpState(ToPos);
            timerCount := if timerCount == 0 then 255 else timerCount - 1;
          }
        }
      }
    }

    method CheckToAuth()
      modifies this
      ensures State() == CheckAuth(old(State()))
    {
      if timers.auth && timerVal == 0 {
        timers := timers.(auth := false);
        EvaluateAuthState(AuthEvent.To);
      }
    }

    method CheckToIpcp()
      modifies this
      ensures State() == CheckIpcp(old(State()))
    {
      if timers.ipcp && timerVal == 0 {
        timers := timers.(ipcp := false);
        EvaluateIpcpState(IpcpEvent.To);
      }
    }

    /** `pico_ppp_tick`. */
    method TickOnce()
      modifies this
      ensures State() == Tick(old(State()))
    {
      hide CheckModem, CheckLcp, CheckAuth, CheckIpcp, EvalLcp;
      if timerVal > 0 {
        timerVal := timerVal - 1;
      }
      CheckToModem();
      CheckToLcp();
      CheckToAuth();
      CheckToIpcp();
      if autoreconnect && lcpState == LcpState.Initial {
        EvaluateLcpState(Open);
      }
    }

    method UserConnects()
      modifies this
      ensures State() == Step(old(State()), UserConnect)
    {
      autoreconnect := true;
    }

    method UserDisconnects()
      modifies this
      ensures State() == Step(old(State()), UserDisconnect)
    {
      autoreconnect := false;
      EvaluateLcpState(Close);
    }

    /** Any input of a run: lines while the modem is away, packets while it is connected. */
    method Receive(input: Input)
      modifies this
      ensures State() == Step(old(State()), input)
    {
      hide EvalModem, EvalLcp, EvalAuth, EvalIpcp, Tick;
      match input {
        case Line(e) =>
          if modemState != Connected {
            EvaluateModemState(e);
          }
        case LcpPacket(e, proto) =>
          if modemState == Connected {
            auth := proto;
            EvaluateLcpState(e);
          }
        case AuthPacket(e) =>
          if modemState == Connected {
            EvaluateAuthState(e);
          }
        case IpcpPacket(e) =>
          if modemState == Connected {
            EvaluateIpcpState(e);
          }
        case Second => TickOnce();
        case UserConnect => UserConnects();
        case UserDisconnect => UserDisconnects();
      }
    }
  }
}
