/** What every event keeps, over any run: the four machines stay in step, and the LCP restart
    timer runs exactly in the states that expect it. */
module PppLayers {
  import opened PppTables
  import opened Ppp

  predicate LcpIsDown(state: LcpState) {
    state == LcpState.Initial || state == LcpState.Starting
  }

  predicate Layered(s: Device) {
    && (s.modemState == Connected <==> !LcpIsDown(s.lcpState))
    && (s.authState != AuthState.Initial ==> s.lcpState == LcpState.Opened)
  }

  predicate RestartRuns(s: Device) {
    s.timers.lcpReq || s.timers.lcpTerm
  }

  predicate TimersMatch(s: Device) {
    && (RestartRuns(s) <==> HasTimeout(s.lcpState))
    && s.timerCount <= MAX_CONFIGURE
  }

  predicate Good(s: Device) {
    Layered(s) && TimersMatch(s)
  }

  /** IPCP is up only above an authenticated layer. */
  predicate IpcpLayered(s: Device) {
    s.ipcpState != IpcpState.Initial ==> s.authState != AuthState.Initial
  }

  /** The states of section 4.1 of RFC 1661 in which the restart timer runs. */
  predicate Timed(state: LcpState) {
    state.Closing? || state.Stopping? || state.ReqSent? || state.AckRcvd? || state.AckSent?
  }

  lemma TimeoutStates(state: LcpState)
    ensures HasTimeout(state) <==> Timed(state)
  {
  }

  // ---------- What each evaluator changes ----------

  lemma HandleIsLocal(s: Device, a: Action)
    requires ActionRank(a) == 0
    ensures Handle(s, a) == Local(s, a)
  {
    hide Local, EvalModem, EvalLcp, EvalAuth, EvalIpcp;
  }

  lemma DialFrame(s: Device, a: Action)
    ensures var t := StartDialling(s, a);
      t == s.(timers := s.timers.(modem := true), timerVal := t.timerVal, sent := t.sent)
  {
  }

  lemma RestartFrame(s: Device, a: Action)
    requires StartsRestart(a)
    ensures var t := Restart(s, a);
      && t == s.(timers := s.timers.(lcpReq := t.timers.lcpReq, lcpTerm := t.timers.lcpTerm),
                 timerVal := t.timerVal, timerCount := t.timerCount, sent := t.sent)
      && RestartRuns(t) && (s.timerCount <= MAX_CONFIGURE ==> t.timerCount <= MAX_CONFIGURE)
  {
  }

  lemma AnswerFrame(s: Device, a: Action)
    ensures var t := Answer(s, a);
      t == s.(timers := s.timers.(auth := t.timers.auth, ipcp := t.timers.ipcp), timerVal := t.timerVal, sent := t.sent)
  {
  }

  lemma RestartIsLcp(a: Action)
    ensures StartsRestart(a) ==> Owner(a) == Lcp && a != NoAction
    ensures !(Dials(a) && StartsRestart(a))
  {
  }

  lemma LocalFrame(s: Device, a: Action)
    requires ActionRank(a) == 0
    ensures var t := Local(s, a);
      && t == s.(timers := t.timers, timerVal := t.timerVal, timerCount := t.timerCount, sent := t.sent)
      && (a == NoAction || Owner(a) != Lcp ==>
            t.timers == s.timers.(modem := t.timers.modem, auth := t.timers.auth, ipcp := t.timers.ipcp)
            && t.timerCount == s.timerCount)
      && (s.timerCount <= MAX_CONFIGURE ==> t.timerCount <= MAX_CONFIGURE)
      && (RestartRuns(t) <==> RestartRuns(s) || StartsRestart(a))
  {
    hide StartDialling, Restart, Answer, Dials, StartsRestart, Owner, ActionRank;
    RestartIsLcp(a);
    if Dials(a) {
      DialFrame(s, a);
    } else if StartsRestart(a) {
      RestartFrame(s, a);
    } else {
      AnswerFrame(s, a);
    }
  }

  /** Handlers of rank 0 touch the timers of their own machine, and nothing else of the state. */
  lemma LocalEffect(s: Device, a: Action)
    requires ActionRank(a) == 0
    ensures var t := Handle(s, a);
      && t == s.(timers := t.timers, timerVal := t.timerVal, timerCount := t.timerCount, sent := t.sent)
      && (a == NoAction || Owner(a) != Lcp ==>
            t.timers == s.timers.(modem := t.timers.modem, auth := t.timers.auth, ipcp := t.timers.ipcp)
            && t.timerCount == s.timerCount)
      && (s.timerCount <= MAX_CONFIGURE ==> t.timerCount <= MAX_CONFIGURE)
      && (RestartRuns(t) <==> RestartRuns(s) || StartsRestart(a))
  {
    hide Handle, Local, RestartRuns, StartsRestart;
    HandleIsLocal(s, a);
    LocalFrame(s, a);
  }

  lemma IpcpEffect(s: Device, e: IpcpEvent)
    ensures var t := EvalIpcp(s, e);
      t == s.(ipcpState := IpcpFsm(s.ipcpState, e).next, timerVal := t.timerVal, sent := t.sent,
              timers := s.timers.(modem := t.timers.modem, auth := t.timers.auth, ipcp := t.timers.ipcp))
  {
    hide IpcpFsm, Local;
    var fsm := IpcpFsm(s.ipcpState, e);
    var s0 := s.(ipcpState := fsm.next);
    var s1 := Handle(s0, fsm.h0);
    LocalEffect(s0, fsm.h0);
    LocalEffect(s1, fsm.h1);
    LocalEffect(Handle(s1, fsm.h1), fsm.h2);
  }

  /** The state of IPCP after an authentication event that does not abort. */
  function IpcpAfter(s: Device, e: AuthEvent): IpcpState {
    if e == AuthEvent.Down && s.authState != AuthState.Initial then IpcpState.Initial
    else if AuthFsm(s.authState, e).next == Authenticated && s.authState != Authenticated then
      IpcpFsm(s.ipcpState, IpcpEvent.Up).next
    else s.ipcpState
  }

  lemma AuthRanks(state: AuthState, e: AuthEvent)
    requires e != Ran
    ensures var fsm := AuthFsm(state, e);
      && (fsm.h0 == AuthUp || fsm.h0 == AuthDown || ActionRank(fsm.h0) == 0)
      && ActionRank(fsm.h1) == 0 && ActionRank(fsm.h2) == 0
  {
  }

  lemma AuthSignals(state: AuthState, e: AuthEvent)
    requires e != Ran
    ensures var fsm := AuthFsm(state, e);
      && (fsm.h0 == AuthUp <==> fsm.next == Authenticated && state != Authenticated)
      && (fsm.h0 == AuthDown <==> e == AuthEvent.Down && state != AuthState.Initial)
  {
  }

  lemma AuthHandlers(state: AuthState, e: AuthEvent)
    requires e != Ran
    ensures var fsm := AuthFsm(state, e);
      && (fsm.h0 == AuthUp <==> fsm.next == Authenticated && state != Authenticated)
      && (fsm.h0 == AuthDown <==> e == AuthEvent.Down && state != AuthState.Initial)
      && (fsm.h0 == AuthUp || fsm.h0 == AuthDown || ActionRank(fsm.h0) == 0)
      && ActionRank(fsm.h1) == 0 && ActionRank(fsm.h2) == 0
  {
    hide AuthFsm;
    AuthRanks(state, e);
    AuthSignals(state, e);
  }

  lemma IpcpDownIsInitial(state: IpcpState)
    ensures IpcpFsm(state, IpcpEvent.Down).next == IpcpState.Initial
    ensures IpcpFsm(state, IpcpEvent.Up).next != IpcpState.Initial
  {
  }

  /** The first handler of an authentication event is the one that may enter IPCP. */
  lemma FirstOfAuth(s: Device, e: AuthEvent)
    requires e != Ran
    ensures var fsm := AuthFsm(s.authState, e);
      var t := Handle(s.(authState := fsm.next), fsm.h0);
      t == s.(authState := fsm.next, ipcpState := IpcpAfter(s, e), timerVal := t.timerVal, sent := t.sent,
              timers := s.timers.(modem := t.timers.modem, auth := t.timers.auth, ipcp := t.timers.ipcp))
  {
    hide AuthFsm, IpcpFsm, Local, EvalIpcp;
    var fsm := AuthFsm(s.authState, e);
    var s0 := s.(authState := fsm.next);
    AuthHandlers(s.authState, e);
    if fsm.h0 == AuthUp {
      IpcpEffect(s0, IpcpEvent.Up);
    } else if fsm.h0 == AuthDown {
      IpcpDownIsInitial(s.ipcpState);
      IpcpEffect(s0, IpcpEvent.Down);
    } else {
      LocalEffect(s0, fsm.h0);
    }
  }

  lemma AuthEffect(s: Device, e: AuthEvent)
    requires e != Ran
    ensures var t := EvalAuth(s, e);
      t == s.(authState := AuthFsm(s.authState, e).next, ipcpState := IpcpAfter(s, e),
              timerVal := t.timerVal, sent := t.sent,
              timers := s.timers.(modem := t.timers.modem, auth := t.timers.auth, ipcp := t.timers.ipcp))
  {
    hide AuthFsm, IpcpFsm, Local, EvalIpcp, Handle, IpcpAfter;
    var fsm := AuthFsm(s.authState, e);
    var s0 := s.(authState := fsm.next);
    AuthHandlers(s.authState, e);
    var s1 := Handle(s0, fsm.h0);
    FirstOfAuth(s, e);
    LocalEffect(s1, fsm.h1);
    LocalEffect(Handle(s1, fsm.h1), fsm.h2);
  }

  lemma ModemHandlers(state: ModemState, e: ModemEvent)
    requires !(state == Connected && e == Stop) && !(state == Dial && e == Connect)
    ensures var fsm := ModemFsm(state, e);
      && ActionRank(fsm.h0) == 0 && ActionRank(fsm.h1) == 0 && ActionRank(fsm.h2) == 0
      && (fsm.next == Connected <==> state == Connected)
  {
  }

  lemma ModemEffect(s: Device, e: ModemEvent)
    requires !(s.modemState == Connected && e == Stop) && !(s.modemState == Dial && e == Connect)
    ensures var t := EvalModem(s, e);
      && t == s.(modemState := ModemFsm(s.modemState, e).next, timerVal := t.timerVal, sent := t.sent,
                 timers := s.timers.(modem := t.timers.modem, auth := t.timers.auth, ipcp := t.timers.ipcp))
      && (t.modemState == Connected <==> s.modemState == Connected)
  {
    hide ModemFsm, Local;
    var fsm := ModemFsm(s.modemState, e);
    ModemHandlers(s.modemState, e);
    var s0 := s.(modemState := fsm.next);
    var s1 := Handle(s0, fsm.h0);
    LocalEffect(s0, fsm.h0);
    LocalEffect(s1, fsm.h1);
    LocalEffect(Handle(s1, fsm.h1), fsm.h2);
  }

  // ---------- LCP ----------

  /** The layer signals of an entry: what a change of LCP state tells the other machines. */
  predicate LayerSignals(state: LcpState, e: LcpEvent, fsm: Entry<LcpState>) {
    && (fsm.h0 == LayerDown <==> state == LcpState.Opened && fsm.next != LcpState.Opened)
    && (fsm.h0 == LayerUp || fsm.h1 == LayerUp <==> state != LcpState.Opened && fsm.next == LcpState.Opened)
    && (fsm.h0 == LayerUp ==> fsm.h1 == NoAction)
    && (fsm.h0 == LayerFinished || fsm.h0 == LayerStarted ==> fsm.h1 == NoAction && fsm.h2 == NoAction)
    && (fsm.h0 == LayerStarted <==> (state == LcpState.Initial && e == Open) || (state == LcpState.Stopped && e == LcpEvent.Down))
    && (fsm.h0 == LayerStarted ==> fsm.next == LcpState.Starting)
    && (fsm.h0 == LayerFinished ==> state != LcpState.Opened)
    && (fsm.h0 == LayerFinished ==>
          if state == LcpState.Starting then fsm.next == LcpState.Initial else !LcpIsDown(state) && !LcpIsDown(fsm.next))
    && (ActionRank(fsm.h0) == 0 || fsm.h0 == LayerDown || fsm.h0 == LayerUp || fsm.h0 == LayerFinished || fsm.h0 == LayerStarted)
    && (ActionRank(fsm.h1) == 0 || fsm.h1 == LayerUp)
    && ActionRank(fsm.h2) == 0
  }

  /** The handlers of an entry that leads into a timed state start the timer if it is not
      already running; no handler starts it on the way into another state. */
  predicate RestartHandlers(state: LcpState, fsm: Entry<LcpState>) {
    if Timed(fsm.next) then
      Timed(state) || StartsRestart(fsm.h0) || StartsRestart(fsm.h1) || StartsRestart(fsm.h2)
    else
      !StartsRestart(fsm.h0) && !StartsRestart(fsm.h1) && !StartsRestart(fsm.h2)
  }

  lemma SignalsInInitial(e: LcpEvent)
    ensures LayerSignals(LcpState.Initial, e, LcpInInitial(e))
  {
  }

  lemma SignalsInStarting(e: LcpEvent)
    ensures LayerSignals(LcpState.Starting, e, LcpInStarting(e))
  {
  }

  lemma SignalsInClosed(e: LcpEvent)
    ensures LayerSignals(LcpState.Closed, e, LcpInClosed(e))
  {
  }

  lemma SignalsInStopped(e: LcpEvent)
    ensures LayerSignals(LcpState.Stopped, e, LcpInStopped(e))
  {
  }

  lemma SignalsInClosing(e: LcpEvent)
    ensures LayerSignals(LcpState.Closing, e, LcpInClosing(e))
  {
  }

  lemma SignalsInStopping(e: LcpEvent)
    ensures LayerSignals(LcpState.Stopping, e, LcpInStopping(e))
  {
  }

  lemma SignalsInReqSent(e: LcpEvent)
    ensures LayerSignals(LcpState.ReqSent, e, LcpInReqSent(e))
  {
  }

  lemma SignalsInAckRcvd(e: LcpEvent)
    ensures LayerSignals(LcpState.AckRcvd, e, LcpInAckRcvd(e))
  {
  }

  lemma SignalsInAckSent(e: LcpEvent)
    ensures LayerSignals(LcpState.AckSent, e, LcpInAckSent(e))
  {
  }

  lemma SignalsInOpened(e: LcpEvent)
    ensures LayerSignals(LcpState.Opened, e, LcpInOpened(e))
  {
  }

  lemma LcpSignals(state: LcpState, e: LcpEvent)
    ensures LayerSignals(state, e, LcpFsm(state, e))
  {
    hide LayerSignals, LcpInInitial, LcpInStarting, LcpInClosed, LcpInStopped, LcpInClosing, LcpInStopping, LcpInReqSent,
      LcpInAckRcvd, LcpInAckSent, LcpInOpened;
    SignalsInInitial(e);
    SignalsInStarting(e);
    SignalsInClosed(e);
    SignalsInStopped(e);
    SignalsInClosing(e);
    SignalsInStopping(e);
    SignalsInReqSent(e);
    SignalsInAckRcvd(e);
    SignalsInAckSent(e);
    SignalsInOpened(e);
  }

  lemma RestartDown(e: LcpEvent)
    ensures RestartHandlers(LcpState.Initial, LcpInInitial(e))
    ensures RestartHandlers(LcpState.Starting, LcpInStarting(e))
  {
  }

  lemma RestartClosed(e: LcpEvent)
    ensures RestartHandlers(LcpState.Closed, LcpInClosed(e))
    ensures RestartHandlers(LcpState.Stopped, LcpInStopped(e))
  {
  }

  lemma RestartClosing(e: LcpEvent)
    ensures RestartHandlers(LcpState.Closing, LcpInClosing(e))
    ensures RestartHandlers(LcpState.Stopping, LcpInStopping(e))
  {
  }

  lemma RestartRequested(e: LcpEvent)
    ensures RestartHandlers(LcpState.ReqSent, LcpInReqSent(e))
    ensures RestartHandlers(LcpState.AckRcvd, LcpInAckRcvd(e))
  {
  }

  lemma RestartOpening(e: LcpEvent)
    ensures RestartHandlers(LcpState.AckSent, LcpInAckSent(e))
    ensures RestartHandlers(LcpState.Opened, LcpInOpened(e))
  {
  }

  lemma LcpRestart(state: LcpState, e: LcpEvent)
    ensures RestartHandlers(state, LcpFsm(state, e))
  {
    hide RestartHandlers, LcpInInitial, LcpInStarting, LcpInClosed, LcpInStopped, LcpInClosing, LcpInStopping, LcpInReqSent,
      LcpInAckRcvd, LcpInAckSent, LcpInOpened;
    RestartDown(e);
    RestartClosed(e);
    RestartClosing(e);
    RestartRequested(e);
    RestartOpening(e);
  }

  lemma LcpStaysUpOrDown(state: LcpState, e: LcpEvent)
    requires e != LcpEvent.Up && e != LcpEvent.Down
    ensures LcpIsDown(LcpFsm(state, e).next) <==> LcpIsDown(state)
  {
  }

  lemma AuthDownIsInitial(state: AuthState)
    ensures AuthFsm(state, AuthEvent.Down).next == AuthState.Initial
    ensures state == AuthState.Initial ==>
              AuthFsm(state, UpNone).next != AuthState.Initial
              && AuthFsm(state, UpPap).next != AuthState.Initial && AuthFsm(state, UpChap).next != AuthState.Initial
  {
  }

  /** What `lcp_this_layer_up` and `lcp_this_layer_down` leave alone. */
  predicate OnlyUpperLayers(s: Device, t: Device) {
    t == s.(authState := t.authState, ipcpState := t.ipcpState, timerVal := t.timerVal, sent := t.sent,
            timers := s.timers.(modem := t.timers.modem, auth := t.timers.auth, ipcp := t.timers.ipcp))
  }

  lemma LayerDownEffect(s: Device)
    ensures var t := Handle(s, LayerDown);
      && OnlyUpperLayers(s, t) && t.authState == AuthState.Initial
      && t.ipcpState == if s.authState == AuthState.Initial then s.ipcpState else IpcpState.Initial
  {
    hide AuthFsm, IpcpFsm, EvalAuth;
    AuthEffect(s, AuthEvent.Down);
    AuthDownIsInitial(s.authState);
  }

  lemma LayerUpEffect(s: Device)
    requires s.authState == AuthState.Initial
    ensures var t := Handle(s, LayerUp);
      && OnlyUpperLayers(s, t)
      && (s.ipcpState == IpcpState.Initial && t.ipcpState != IpcpState.Initial ==> t.authState != AuthState.Initial)
  {
    hide AuthFsm, IpcpFsm, EvalAuth, Local, EvalModem, EvalLcp, EvalIpcp;
    AuthEffect(s, UpNone);
    AuthEffect(s, UpPap);
    AuthEffect(s, UpChap);
    AuthDownIsInitial(s.authState);
  }

  // ---------- Losing the lower layer ----------

  /** How a device looks once LCP is down: the modem is away, and all that was above is closed. */
  predicate LowerLayerLost(s: Device, t: Device) {
    && LcpIsDown(t.lcpState) && t.modemState != Connected
    && !RestartRuns(t) && t.timerCount == s.timerCount && t.autoreconnect == s.autoreconnect
    && t.authState == AuthState.Initial
    && t.ipcpState == if s.authState == AuthState.Initial then s.ipcpState else IpcpState.Initial
  }

  lemma LcpDownTable(state: LcpState)
    ensures var fsm := LcpFsm(state, LcpEvent.Down);
      && LcpIsDown(fsm.next) && fsm.h1 == NoAction && fsm.h2 == NoAction
      && (fsm.h0 == NoAction || fsm.h0 == LayerDown || fsm.h0 == LayerStarted)
      && (fsm.h0 == LayerDown <==> state == LcpState.Opened)
  {
  }

  lemma NoActionIsNothing(s: Device)
    ensures Handle(s, NoAction) == s
  {
  }

  lemma LayerStartedEffect(s: Device)
    requires s.modemState != Connected
    ensures var t := Handle(s, LayerStarted);
      && t == s.(modemState := t.modemState, timerVal := t.timerVal, sent := t.sent,
                 timers := s.timers.(modem := t.timers.modem, auth := t.timers.auth, ipcp := t.timers.ipcp))
      && t.modemState != Connected
  {
    hide ModemFsm, EvalModem, Local;
    ModemEffect(s, Start);
  }

  lemma LcpDownEffect(s: Device)
    requires s.modemState != Connected
    requires s.authState != AuthState.Initial ==> s.lcpState == LcpState.Opened
    ensures LowerLayerLost(s, EvalLcp(s, LcpEvent.Down))
  {
    hide LcpFsm, Handle, HasTimeout;
    var fsm := LcpFsm(s.lcpState, LcpEvent.Down);
    LcpDownTable(s.lcpState);
    TimeoutStates(fsm.next);
    var s0 := EnterLcp(s, fsm.next);
    NoActionIsNothing(s0);
    NoActionIsNothing(Handle(s0, fsm.h0));
    LayerDownEffect(s0);
    LayerStartedEffect(s0);
  }

  lemma ModemStopTable()
    ensures ModemFsm(Connected, Stop) == Do(ModemState.Initial, ModemDisconnected)
  {
  }

  lemma ModemStopEffect(s: Device)
    requires s.modemState == Connected
    requires s.authState != AuthState.Initial ==> s.lcpState == LcpState.Opened
    ensures LowerLayerLost(s, EvalModem(s, Stop))
  {
    hide ModemFsm, EvalLcp, Local;
    ModemStopTable();
    var away := s.(modemState := ModemState.Initial);
    NoActionIsNothing(Handle(away, ModemDisconnected));
    LcpDownEffect(Send(away, ModemDisconnected));
  }

  // ---------- Every event of every machine ----------

  lemma StartedKeeps(s: Device, s0: Device)
    requires Good(s) && s.lcpState == LcpState.Initial && s0 == EnterLcp(s, LcpState.Starting)
    ensures var t := Handle(s0, LayerStarted);
      Good(t) && (IpcpLayered(s) ==> IpcpLayered(t)) && t.autoreconnect == s.autoreconnect
  {
    hide LcpFsm, Handle, HasTimeout;
    TimeoutStates(LcpState.Starting);
    LayerStartedEffect(s0);
  }

  /** One handler of an entry that does not signal the modem. */
  lemma HandlerKeeps(s: Device, a: Action)
    requires ActionRank(a) == 0 || a == LayerDown || (a == LayerUp && s.authState == AuthState.Initial)
    ensures var t := Handle(s, a);
      && t.modemState == s.modemState && t.lcpState == s.lcpState && t.autoreconnect == s.autoreconnect
      && (RestartRuns(t) <==> RestartRuns(s) || StartsRestart(a))
      && (s.timerCount <= MAX_CONFIGURE ==> t.timerCount <= MAX_CONFIGURE)
      && (ActionRank(a) == 0 ==> t.authState == s.authState && t.ipcpState == s.ipcpState)
      && (a == LayerDown ==> t.authState == AuthState.Initial)
      && (IpcpLayered(s) ==> IpcpLayered(t))
  {
    hide AuthFsm, IpcpFsm, EvalAuth, EvalIpcp, Local;
    if a == LayerDown {
      LayerDownEffect(s);
    } else if a == LayerUp {
      LayerUpEffect(s);
    } else {
      LocalEffect(s, a);
    }
  }

  /** The three handlers of such an entry, in turn. */
  lemma HandlersKeep(s: Device, state: LcpState, e: LcpEvent, fsm: Entry<LcpState>)
    requires LayerSignals(state, e, fsm) && fsm.h0 != LayerFinished && fsm.h0 != LayerStarted
    requires s.authState != AuthState.Initial ==> state == LcpState.Opened
    ensures var t := Handle(Handle(Handle(s, fsm.h0), fsm.h1), fsm.h2);
      && t.modemState == s.modemState && t.lcpState == s.lcpState && t.autoreconnect == s.autoreconnect
      && (RestartRuns(t) <==> RestartRuns(s) || StartsRestart(fsm.h0) || StartsRestart(fsm.h1) || StartsRestart(fsm.h2))
      && (s.timerCount <= MAX_CONFIGURE ==> t.timerCount <= MAX_CONFIGURE)
      && (t.authState != AuthState.Initial ==> fsm.next == LcpState.Opened)
      && (IpcpLayered(s) ==> IpcpLayered(t))
  {
    hide Handle, IpcpLayered, RestartRuns, StartsRestart;
    HandlerKeeps(s, fsm.h0);
    var s1 := Handle(s, fsm.h0);
    HandlerKeeps(s1, fsm.h1);
    HandlerKeeps(Handle(s1, fsm.h1), fsm.h2);
  }

  lemma StayingKeeps(s: Device, e: LcpEvent, fsm: Entry<LcpState>)
    requires Good(s) && fsm == LcpFsm(s.lcpState, e)
    requires LayerSignals(s.lcpState, e, fsm) && RestartHandlers(s.lcpState, fsm)
    requires LcpIsDown(fsm.next) <==> LcpIsDown(s.lcpState)
    requires fsm.h0 != LayerFinished && fsm.h0 != LayerStarted
    ensures var t := EvalLcp(s, e);
      Good(t) && (IpcpLayered(s) ==> IpcpLayered(t)) && t.autoreconnect == s.autoreconnect
  {
    hide LcpFsm, Handle, HasTimeout, LayerSignals;
    TimeoutStates(s.lcpState);
    TimeoutStates(fsm.next);
    HandlersKeep(EnterLcp(s, fsm.next), s.lcpState, e, fsm);
  }

  lemma FinishedStops(s: Device)
    requires s.modemState == Connected && s.authState == AuthState.Initial && s.timerCount <= MAX_CONFIGURE
    ensures var t := Handle(s, LayerFinished);
      Good(t) && (IpcpLayered(s) ==> IpcpLayered(t)) && t.autoreconnect == s.autoreconnect
  {
    hide EvalModem, HasTimeout;
    ModemStopEffect(s);
    TimeoutStates(EvalModem(s, Stop).lcpState);
  }

  lemma FinishedIdles(s: Device)
    requires s.modemState != Connected
    ensures var t := Handle(s, LayerFinished);
      && t == s.(modemState := t.modemState, timerVal := t.timerVal, sent := t.sent,
                 timers := s.timers.(modem := t.timers.modem, auth := t.timers.auth, ipcp := t.timers.ipcp))
      && t.modemState != Connected
  {
    hide ModemFsm, EvalModem;
    ModemEffect(s, Stop);
  }

  lemma FinishedKeeps(s: Device, s0: Device)
    requires Good(s) && s0 == EnterLcp(s, s0.lcpState)
    requires if s.lcpState == LcpState.Starting then s0.lcpState == LcpState.Initial
             else !LcpIsDown(s.lcpState) && !LcpIsDown(s0.lcpState)
    requires s.lcpState != LcpState.Opened
    ensures var t := Handle(s0, LayerFinished);
      Good(t) && (IpcpLayered(s) ==> IpcpLayered(t)) && t.autoreconnect == s.autoreconnect
  {
    hide LcpFsm, Handle, HasTimeout;
    TimeoutStates(s0.lcpState);
    if s0.modemState == Connected {
      FinishedStops(s0);
    } else {
      FinishedIdles(s0);
    }
  }

  lemma LcpKeeps(s: Device, e: LcpEvent)
    requires Good(s) && e != LcpEvent.Up && e != LcpEvent.Down
    ensures var t := EvalLcp(s, e);
      Good(t) && (IpcpLayered(s) ==> IpcpLayered(t)) && t.autoreconnect == s.autoreconnect
  {
    hide LcpFsm, Handle, HasTimeout, Layered, TimersMatch, IpcpLayered, RestartHandlers, LcpIsDown;
    var fsm := LcpFsm(s.lcpState, e);
    LcpSignals(s.lcpState, e);
    LcpRestart(s.lcpState, e);
    LcpStaysUpOrDown(s.lcpState, e);
    var s0 := EnterLcp(s, fsm.next);
    NoActionIsNothing(Handle(s0, fsm.h0));
    if fsm.h0 == LayerFinished {
      FinishedKeeps(s, s0);
    } else if fsm.h0 == LayerStarted {
      StartedKeeps(s, s0);
    } else {
      StayingKeeps(s, e, fsm);
    }
  }

  lemma ConnectTable()
    ensures ModemFsm(Dial, Connect) == Do(Connected, ModemConnected)
  {
  }

  lemma LcpUpTable()
    ensures LcpFsm(LcpState.Initial, LcpEvent.Up) == Go(LcpState.Closed)
    ensures LcpFsm(LcpState.Starting, LcpEvent.Up) == Do(LcpState.ReqSent, SendConfReq)
  {
  }

  lemma LcpUpEffect(s: Device)
    requires LcpIsDown(s.lcpState) && s.timerCount <= MAX_CONFIGURE
    ensures var t := EvalLcp(s, LcpEvent.Up);
      && !LcpIsDown(t.lcpState) && TimersMatch(t)
      && t.modemState == s.modemState && t.authState == s.authState && t.ipcpState == s.ipcpState
      && t.autoreconnect == s.autoreconnect
  {
    hide LcpFsm, Handle, HasTimeout;
    LcpUpTable();
    var fsm := LcpFsm(s.lcpState, LcpEvent.Up);
    TimeoutStates(fsm.next);
    var s0 := EnterLcp(s, fsm.next);
    LocalEffect(s0, fsm.h0);
    NoActionIsNothing(Handle(s0, fsm.h0));
  }

  lemma ModemKeeps(s: Device, e: ModemEvent)
    requires Good(s)
    ensures var t := EvalModem(s, e);
      Good(t) && (IpcpLayered(s) ==> IpcpLayered(t)) && t.autoreconnect == s.autoreconnect
  {
    hide LcpFsm, ModemFsm, EvalLcp, Local, HasTimeout;
    TimeoutStates(s.lcpState);
    if s.modemState == Connected && e == Stop {
      ModemStopEffect(s);
      TimeoutStates(EvalModem(s, e).lcpState);
    } else if s.modemState == Dial && e == Connect {
      ConnectTable();
      var s0 := s.(modemState := Connected);
      LcpUpEffect(s0);
      NoActionIsNothing(Handle(s0, ModemConnected));
    } else {
      ModemEffect(s, e);
    }
  }

  lemma IpcpKeeps(s: Device, e: IpcpEvent)
    requires Good(s)
    ensures var t := EvalIpcp(s, e);
      Good(t) && t.autoreconnect == s.autoreconnect && t.authState == s.authState
  {
    hide IpcpFsm, EvalIpcp, HasTimeout;
    IpcpEffect(s, e);
  }

  lemma IpcpStaysDown(e: IpcpEvent)
    requires e != IpcpEvent.Up
    ensures IpcpFsm(IpcpState.Initial, e).next == IpcpState.Initial
  {
  }

  lemma AuthTable(state: AuthState, e: AuthEvent)
    requires e == Rac || e == Raa || e == Ran || e == AuthEvent.To
    ensures AuthFsm(state, e).next == AuthState.Initial
       <==> state == AuthState.Initial || (state == AuthState.Starting && e == AuthEvent.To)
    ensures e == Ran ==> AuthFsm(state, e) == Do(AuthFsm(state, e).next, AuthAbort) || AuthFsm(state, e) == Go(state)
    ensures AuthFsm(state, e).next == Authenticated && state != Authenticated ==> state != AuthState.Initial
  {
  }

  /** The one way to lose the authentication layer and keep IPCP. */
  predicate LosesAuth(s: Device, e: AuthEvent) {
    e == AuthEvent.To && s.authState == AuthState.Starting && s.ipcpState != IpcpState.Initial
  }

  lemma AuthKeeps(s: Device, e: AuthEvent)
    requires Good(s) && (e == Rac || e == Raa || e == Ran || e == AuthEvent.To)
    ensures var t := EvalAuth(s, e);
      Good(t) && t.autoreconnect == s.autoreconnect && (IpcpLayered(s) ==> (IpcpLayered(t) <==> !LosesAuth(s, e)))
  {
    hide AuthFsm, IpcpFsm, LcpFsm, EvalLcp, Local, HasTimeout;
    AuthTable(s.authState, e);
    if e == Ran {
      var s0 := s.(authState := AuthFsm(s.authState, e).next);
      NoActionIsNothing(s0);
      NoActionIsNothing(Handle(s0, AuthAbort));
      LcpKeeps(s0.(timers := s0.timers.(auth := false)), Close);
    } else {
      AuthEffect(s, e);
      IpcpDownIsInitial(s.ipcpState);
    }
  }
}
