/** Whole runs of the PPP driver: its invariants at the end of every event, and what a silent
    peer leads to. */
module PppRuns {
  import opened PppTables
  import opened Ppp
  import opened PppLayers

  // ---------- The restart timer expires ----------

  function Request(state: LcpState): Action {
    if state.Closing? || state.Stopping? then SendTermReq else SendConfReq
  }

  function Resent(state: LcpState): LcpState {
    if state.AckRcvd? then LcpState.ReqSent else state
  }

  lemma TimeoutTable(state: LcpState)
    requires Timed(state)
    ensures LcpFsm(state, ToPos) == Do(Resent(state), Request(state))
    ensures LcpFsm(state, ToNeg) == Do(if state.Closing? then LcpState.Closed else LcpState.Stopped, LayerFinished)
  {
  }

  lemma RequestHandled(s: Device, state: LcpState)
    requires s.timerVal == 0 && s.timerCount > 0
    ensures var t := Handle(s, Request(state));
      && t == s.(timers := t.timers, timerVal := DEFAULT_TIMER, sent := s.sent + [Request(state)])
      && RestartRuns(t)
  {
    hide EvalModem, EvalLcp, EvalAuth, EvalIpcp, StartDialling, Answer;
    HandleIsLocal(s, Request(state));
  }

  /** With retries left: the request goes out once more and the timer starts again. */
  lemma ToPosEffect(s: Device)
    requires Timed(s.lcpState) && s.timerVal == 0 && s.timerCount > 0
    ensures var t := EvalLcp(s, ToPos);
      && t == s.(lcpState := Resent(s.lcpState), timers := t.timers, timerVal := DEFAULT_TIMER,
                 sent := s.sent + [Request(s.lcpState)])
      && RestartRuns(t)
  {
    hide LcpFsm, HasTimeout, Handle, Request, RestartRuns;
    TimeoutTable(s.lcpState);
    TimeoutStates(Resent(s.lcpState));
    var s0 := EnterLcp(s, Resent(s.lcpState));
    RequestHandled(s0, s.lcpState);
    NoActionIsNothing(Handle(s0, Request(s.lcpState)));
  }

  /** How many configure or terminate requests are among the transmissions. */
  function Requests(sent: seq<Action>): nat {
    if sent == [] then 0
    else Requests(sent[..|sent| - 1]) + if sent[|sent| - 1] in {SendConfReq, SendTermReq} then 1 else 0
  }

  lemma RequestsAppend(sent: seq<Action>, a: Action)
    ensures Requests(sent + [a]) == Requests(sent) + if a in {SendConfReq, SendTermReq} then 1 else 0
  {
    assert (sent + [a])[..|sent|] == sent;
  }

  lemma DownTable()
    ensures LcpFsm(LcpState.Closed, LcpEvent.Down) == Go(LcpState.Initial)
    ensures LcpFsm(LcpState.Stopped, LcpEvent.Down) == Do(LcpState.Starting, LayerStarted)
  {
  }

  lemma ResetSends(s: Device)
    ensures Handle(s, SendReset).sent == s.sent + [SendReset]
  {
  }

  lemma StartTable(state: ModemState)
    ensures ModemFsm(state, Start) == if state.Initial? then Do(ModemState.Reset, SendReset) else Go(state)
  {
  }

  lemma StartSends(s: Device)
    requires s.modemState != Connected
    ensures Requests(Handle(s, LayerStarted).sent) == Requests(s.sent)
  {
    hide ModemFsm, Requests, Local;
    StartTable(s.modemState);
    var s0 := s.(modemState := ModemFsm(s.modemState, Start).next);
    NoActionIsNothing(s0);
    NoActionIsNothing(Handle(s0, SendReset));
    RequestsAppend(s.sent, SendReset);
    ResetSends(s0);
  }

  lemma DownSends(s: Device)
    requires s.modemState != Connected && (s.lcpState == LcpState.Closed || s.lcpState == LcpState.Stopped)
    ensures Requests(EvalLcp(s, LcpEvent.Down).sent) == Requests(s.sent)
  {
    hide LcpFsm, Handle, Requests, HasTimeout;
    DownTable();
    var s0 := EnterLcp(s, LcpFsm(s.lcpState, LcpEvent.Down).next);
    NoActionIsNothing(s0);
    NoActionIsNothing(Handle(s0, LayerStarted));
    StartSends(s0);
  }

  lemma ModemStopSends(s: Device)
    requires s.modemState == Connected && (s.lcpState == LcpState.Closed || s.lcpState == LcpState.Stopped)
    ensures Requests(EvalModem(s, Stop).sent) == Requests(s.sent)
  {
    hide ModemFsm, LcpFsm, Requests, Local, HasTimeout;
    ModemStopTable();
    var away := Send(s.(modemState := ModemState.Initial), ModemDisconnected);
    RequestsAppend(s.sent, ModemDisconnected);
    NoActionIsNothing(EvalLcp(away, LcpEvent.Down));
    DownTable();
    DownSends(away);
  }

  /** With none left: LCP gives up, and so does the modem. */
  lemma ToNegEffect(s: Device)
    requires Good(s) && Timed(s.lcpState)
    ensures var t := EvalLcp(s, ToNeg);
      && LcpIsDown(t.lcpState) && t.modemState != Connected && !RestartRuns(t)
      && t.authState == AuthState.Initial
      && Requests(t.sent) == Requests(s.sent)
  {
    hide LcpFsm, HasTimeout, EvalModem, Requests;
    TimeoutTable(s.lcpState);
    var next := if s.lcpState.Closing? then LcpState.Closed else LcpState.Stopped;
    TimeoutStates(next);
    var s0 := EnterLcp(s, next);
    NoActionIsNothing(Handle(s0, LayerFinished));
    ModemStopEffect(s0);
    ModemStopSends(s0);
  }

  // ---------- Every tick, every input, every run ----------

  function Aged(s: Device): Device {
    s.(timerVal := if s.timerVal > 0 then s.timerVal - 1 else 0)
  }

  /** This tick expires the authentication timer in the starting state, with IPCP already up. */
  predicate AuthLapses(s: Device) {
    s.authState == AuthState.Starting && s.ipcpState != IpcpState.Initial && s.timers.auth && s.timerVal <= 1
  }

  lemma TimeoutWhenConnected()
    ensures ModemFsm(Connected, Timeout) == Go(Connected)
  {
  }

  lemma CheckModemKeeps(s: Device)
    requires Good(s)
    ensures var t := CheckModem(s);
      && Good(t) && (IpcpLayered(s) ==> IpcpLayered(t)) && t.autoreconnect == s.autoreconnect
      && (s.modemState == Connected ==> t == s.(timers := s.timers.(modem := t.timers.modem)))
      && t.authState == s.authState
  {
    hide ModemFsm, Handle, HasTimeout;
    var s0 := s.(timers := s.timers.(modem := false));
    ModemKeeps(s0, Timeout);
    ModemEffect(s0, Timeout);
    TimeoutWhenConnected();
    NoActionIsNothing(s0);
  }

  lemma CheckLcpKeeps(s: Device)
    requires Good(s)
    ensures var t := CheckLcp(s);
      && Good(t) && (IpcpLayered(s) ==> IpcpLayered(t)) && t.autoreconnect == s.autoreconnect
      && (s.lcpState == LcpState.Opened ==> t == s)
      && t.authState == s.authState
  {
    hide EvalLcp, HasTimeout;
    TimeoutStates(s.lcpState);
    LcpKeeps(s, ToPos);
    LcpKeeps(s, ToNeg);
    if RestartRuns(s) && s.timerVal == 0 {
      if s.timerCount > 0 {
        ToPosEffect(s);
      } else {
        ToNegEffect(s);
      }
    }
  }

  lemma HandleAnswers(s: Device, a: Action)
    requires ActionRank(a) == 0 && !Dials(a) && !StartsRestart(a)
    ensures Handle(s, a) == Answer(s, a)
  {
    hide Handle, Answer, StartDialling, Restart;
    HandleIsLocal(s, a);
  }

  lemma UpperRanks()
    ensures forall a | a in {AuthReq, AuthRsp, IpcpSendReq, AuthStartTimer, IpcpStartTimer} ::
              ActionRank(a) == 0 && !Dials(a) && !StartsRestart(a)
  {
  }

  lemma RequestAnswers(s: Device)
    ensures Answer(s, AuthReq) == Send(s, AuthReq) && Answer(s, AuthRsp) == Send(s, AuthRsp)
    ensures Answer(s, IpcpSendReq) == Send(s, IpcpSendReq)
  {
    hide Send;
  }

  lemma TimerAnswers(s: Device)
    ensures Answer(s, AuthStartTimer) == s.(timers := s.timers.(auth := true), timerVal := DEFAULT_TIMER)
    ensures Answer(s, IpcpStartTimer) ==
            s.(timers := s.timers.(ipcp := true), timerVal := DEFAULT_TIMER * MAX_FAILURE)
  {
    hide Send;
  }

  /** The handlers of the upper layers that send, and those that wait. */
  lemma UpperHandlers(s: Device)
    ensures Handle(s, AuthRsp) == Send(s, AuthRsp) && Handle(s, IpcpSendReq) == Send(s, IpcpSendReq)
    ensures Handle(s, AuthReq) == Send(s, AuthReq)
    ensures Handle(s, AuthStartTimer) == s.(timers := s.timers.(auth := true), timerVal := DEFAULT_TIMER)
    ensures Handle(s, IpcpStartTimer) ==
            s.(timers := s.timers.(ipcp := true), timerVal := DEFAULT_TIMER * MAX_FAILURE)
  {
    hide *;
    UpperRanks();
    RequestAnswers(s);
    TimerAnswers(s);
    HandleAnswers(s, AuthReq);
    HandleAnswers(s, AuthRsp);
    HandleAnswers(s, IpcpSendReq);
    HandleAnswers(s, AuthStartTimer);
    HandleAnswers(s, IpcpStartTimer);
  }

  lemma StartingTable()
    ensures AuthFsm(AuthState.Starting, AuthEvent.To) == Do2(AuthState.Initial, AuthReq, AuthStartTimer)
  {
  }

  lemma StartingTimeout(s: Device)
    requires s.authState == AuthState.Starting
    ensures EvalAuth(s, AuthEvent.To).timerVal == DEFAULT_TIMER
  {
    hide AuthFsm, Handle;
    StartingTable();
    var s0 := s.(authState := AuthState.Initial);
    UpperHandlers(Handle(s0, AuthReq));
    NoActionIsNothing(Handle(Handle(s0, AuthReq), AuthStartTimer));
  }

  lemma CheckAuthKeeps(s: Device)
    requires Good(s)
    ensures var t := CheckAuth(s);
      && Good(t) && t.autoreconnect == s.autoreconnect
      && (IpcpLayered(s) ==>
            (IpcpLayered(t) <==> !(s.timers.auth && s.timerVal == 0 && LosesAuth(s, AuthEvent.To))))
      && (s.timers.auth && s.timerVal == 0 && LosesAuth(s, AuthEvent.To) ==> t.timerVal > 0)
      && t.lcpState == s.lcpState
  {
    hide EvalAuth, HasTimeout;
    var s0 := s.(timers := s.timers.(auth := false));
    AuthEffect(s0, AuthEvent.To);
    AuthKeeps(s0, AuthEvent.To);
    if LosesAuth(s, AuthEvent.To) {
      StartingTimeout(s0);
    }
  }

  lemma CheckIpcpKeeps(s: Device)
    requires Good(s)
    ensures var t := CheckIpcp(s);
      && Good(t) && t.autoreconnect == s.autoreconnect && (IpcpLayered(s) ==> IpcpLayered(t))
      && (s.timerVal > 0 ==> t == s)
      && t.lcpState == s.lcpState
  {
    hide EvalIpcp, IpcpFsm, HasTimeout;
    var s0 := s.(timers := s.timers.(ipcp := false));
    IpcpKeeps(s0, IpcpEvent.To);
    IpcpEffect(s0, IpcpEvent.To);
    IpcpStaysDown(IpcpEvent.To);
  }

  lemma ReconnectKeeps(s: Device)
    requires Good(s)
    ensures var t := Reconnect(s);
      && Good(t) && (IpcpLayered(s) ==> IpcpLayered(t)) && (s.lcpState == LcpState.Opened ==> t == s)
  {
    hide EvalLcp, HasTimeout;
    LcpKeeps(s, Open);
  }

  /** One tick keeps the machines in step, and keeps IPCP below authentication unless the
      authentication timer lapses. */
  lemma TickKeeps(s: Device)
    requires Good(s)
    ensures Good(Tick(s))
    ensures IpcpLayered(s) ==> (IpcpLayered(Tick(s)) <==> !AuthLapses(s))
  {
    hide CheckModem, CheckLcp, CheckAuth, CheckIpcp, Reconnect, HasTimeout;
    var s0 := Aged(s);
    CheckModemKeeps(s0);
    var s1 := CheckModem(s0);
    CheckLcpKeeps(s1);
    var s2 := CheckLcp(s1);
    CheckAuthKeeps(s2);
    var s3 := CheckAuth(s2);
    CheckIpcpKeeps(s3);
    ReconnectKeeps(CheckIpcp(s3));
  }

  lemma StepKeeps(s: Device, input: Input)
    requires Good(s) && Possible(input)
    ensures Good(Step(s, input))
    ensures IpcpLayered(s) ==> (IpcpLayered(Step(s, input)) <==> !(input.Second? && AuthLapses(s)))
  {
    hide EvalModem, EvalLcp, EvalAuth, EvalIpcp, Tick, HasTimeout, IpcpFsm;
    match input
    case Line(e) => ModemKeeps(s, e);
    case LcpPacket(e, auth) => LcpKeeps(s.(auth := auth), e);
    case AuthPacket(e) => AuthKeeps(s, e);
    case IpcpPacket(e) =>
      IpcpKeeps(s, e);
      IpcpEffect(s, e);
      IpcpStaysDown(e);
    case Second => TickKeeps(s);
    case UserConnect =>
    case UserDisconnect => LcpKeeps(s.(autoreconnect := false), Close);
  }

  /** At the end of every event of every run: the modem is connected exactly when LCP is past
      its starting state, authentication is only ever above an open LCP, the restart timer
      runs exactly in the states of RFC 1661 that expect it, and at most ten retries are due. */
  lemma {:induction false} RunKeeps(inputs: seq<Input>)
    requires forall i | 0 <= i < |inputs| :: Possible(inputs[i])
    ensures Good(Run(CREATED, inputs))
  {
    if inputs == [] {
      TimeoutStates(LcpState.Initial);
    } else {
      RunKeeps(inputs[..|inputs| - 1]);
      StepKeeps(Run(CREATED, inputs[..|inputs| - 1]), inputs[|inputs| - 1]);
    }
  }

  /** No tick of the run expires the authentication timer in the starting state over an active IPCP. */
  ghost predicate NeverLapses(inputs: seq<Input>) {
    forall k | 0 <= k < |inputs| && inputs[k].Second? :: !AuthLapses(Run(CREATED, inputs[..k]))
  }

  ghost predicate AlwaysIpcpLayered(inputs: seq<Input>) {
    forall k | 0 <= k <= |inputs| :: IpcpLayered(Run(CREATED, inputs[..k]))
  }

  lemma CreatedIpcpLayered()
    ensures IpcpLayered(CREATED)
  {
  }

  /** IPCP stays below authentication throughout a run exactly when the timer never lapses. */
  lemma {:induction false} RunIpcpLayered(inputs: seq<Input>)
    requires forall i | 0 <= i < |inputs| :: Possible(inputs[i])
    ensures AlwaysIpcpLayered(inputs) <==> NeverLapses(inputs)
  {
    hide Step, IpcpLayered, AuthLapses;
    if inputs == [] {
      assert Run(CREATED, inputs[..0]) == CREATED;
      CreatedIpcpLayered();
    } else {
      var init, last := inputs[..|inputs| - 1], inputs[|inputs| - 1];
      RunIpcpLayered(init);
      assert inputs[..|inputs|] == inputs;
      assert forall k | 0 <= k <= |init| :: inputs[..k] == init[..k];
      assert init[..|init|] == init;
      RunKeeps(init);
      StepKeeps(Run(CREATED, init), last);
      assert AlwaysIpcpLayered(inputs) <==> AlwaysIpcpLayered(init) && IpcpLayered(Run(CREATED, inputs));
      assert NeverLapses(inputs) <==> NeverLapses(init) && !(last.Second? && AuthLapses(Run(CREATED, init)));
    }
  }

  // ---------- A run on which the timer does lapse ----------

  ghost predicate Reachable(s: Device) {
    exists inputs: seq<Input> :: (forall i | 0 <= i < |inputs| :: Possible(inputs[i])) && Run(CREATED, inputs) == s
  }

  lemma ReachableStep(s: Device, input: Input)
    requires Reachable(s) && Possible(input)
    ensures Reachable(Step(s, input))
  {
    hide Step, Possible;
    var inputs: seq<Input> :| (forall i | 0 <= i < |inputs| :: Possible(inputs[i])) && Run(CREATED, inputs) == s;
    var more := inputs + [input];
    assert more[..|more| - 1] == inputs;
    assert Run(CREATED, more) == Step(s, input);
  }

  /** A device that dials, before the link is up. */
  ghost predicate Dialling(s: Device) {
    && Reachable(s) && s.lcpState == LcpState.Starting
    && s.authState == AuthState.Initial && s.ipcpState == IpcpState.Initial
  }

  lemma OkAdvances(s: Device) returns (t: Device)
    requires Dialling(s) && s.modemState != Dial && s.modemState != Connected
    ensures Dialling(t) && t.modemState == ModemFsm(s.modemState, Ok).next
  {
    hide ModemFsm, EvalModem, Reachable;
    ReachableStep(s, Line(Ok));
    ModemEffect(s, Ok);
    t := Step(s, Line(Ok));
  }

  lemma OkTable()
    ensures ModemFsm(ModemState.Reset, Ok).next == ModemState.Echo && ModemFsm(ModemState.Echo, Ok).next == ModemState.Creg
    ensures ModemFsm(ModemState.Creg, Ok).next == ModemState.Cgreg && ModemFsm(ModemState.Cgreg, Ok).next == ModemState.Cgdcont
    ensures ModemFsm(ModemState.Cgdcont, Ok).next == ModemState.Cgatt && ModemFsm(ModemState.Cgatt, Ok).next == Dial
  {
  }

  lemma StartedReset(s: Device)
    requires s.modemState == ModemState.Initial
    ensures var t := Handle(s, LayerStarted);
      t == s.(modemState := ModemState.Reset, timers := t.timers, timerVal := t.timerVal, sent := t.sent)
  {
    hide ModemFsm, Local, EvalModem, EvalLcp, EvalAuth, EvalIpcp;
    StartTable(s.modemState);
    ModemEffect(s, Start);
  }

  lemma OpenTable()
    ensures LcpFsm(LcpState.Initial, Open) == Do(LcpState.Starting, LayerStarted)
  {
  }

  lemma FirstTick(s: Device)
    requires s == CREATED.(autoreconnect := true)
    ensures var t := Tick(s);
      && t.modemState == ModemState.Reset && t.lcpState == LcpState.Starting
      && t.authState == AuthState.Initial && t.ipcpState == IpcpState.Initial
  {
    hide LcpFsm, Handle, HasTimeout, ModemFsm;
    OpenTable();
    TimeoutStates(LcpState.Starting);
    var s0 := EnterLcp(s, LcpState.Starting);
    NoActionIsNothing(Handle(s0, LayerStarted));
    StartedReset(s0);
  }

  lemma ReachReset() returns (s: Device)
    ensures Dialling(s) && s.modemState == ModemState.Reset
  {
    hide EvalLcp, EvalModem, LcpFsm, Tick;
    assert Run(CREATED, []) == CREATED;
    assert Reachable(CREATED);
    ReachableStep(CREATED, UserConnect);
    s := Step(CREATED, UserConnect);
    ReachableStep(s, Second);
    FirstTick(s);
    s := Step(s, Second);
  }

  lemma ReachDial() returns (s: Device)
    ensures Dialling(s) && s.modemState == Dial
  {
    s := ReachReset();
    hide ModemFsm, Dialling;
    OkTable();
    s := OkAdvances(s);
    s := OkAdvances(s);
    s := OkAdvances(s);
    s := OkAdvances(s);
    s := OkAdvances(s);
    s := OkAdvances(s);
  }

  lemma ChapLcpTable()
    ensures LcpFsm(LcpState.ReqSent, LcpEvent.RcrPos) == Do(LcpState.AckSent, SendConfAck)
    ensures LcpFsm(LcpState.AckSent, LcpEvent.Rca) == Do(LcpState.Opened, LayerUp)
  {
  }

  lemma ChapAuthTable()
    ensures AuthFsm(AuthState.Initial, UpChap) == Go(AuthState.Starting)
    ensures AuthFsm(AuthState.Starting, Rac) == Do2(RspSent, AuthRsp, AuthStartTimer)
    ensures AuthFsm(RspSent, Raa) == Do(Authenticated, AuthUp)
    ensures AuthFsm(Authenticated, Rac) == Do(RspSent, AuthRsp)
    ensures AuthFsm(RspSent, Rac) == Do2(RspSent, AuthRsp, AuthStartTimer)
    ensures AuthFsm(RspSent, AuthEvent.To) == Do(AuthState.Starting, AuthStartTimer)
  {
  }

  lemma LinkUp(s: Device)
    requires s.modemState == Dial && s.lcpState == LcpState.Starting
    ensures var t := Step(s, Line(Connect));
      t.modemState == Connected && t.lcpState == LcpState.ReqSent && t.authState == s.authState && t.ipcpState == s.ipcpState
  {
    hide LcpFsm, ModemFsm, HasTimeout, Local;
    ConnectTable();
    LcpUpTable();
    var s0 := s.(modemState := Connected);
    NoActionIsNothing(Handle(s0, ModemConnected));
    var s1 := EnterLcp(s0, LcpState.ReqSent);
    LocalEffect(s1, SendConfReq);
    NoActionIsNothing(Handle(s1, SendConfReq));
  }

  lemma LcpUpWithChap(s: Device)
    requires s.modemState == Connected && s.lcpState == LcpState.ReqSent && s.authState == AuthState.Initial
    ensures var t := Step(Step(s, LcpPacket(LcpEvent.RcrPos, AUTH_CHAP)), LcpPacket(LcpEvent.Rca, AUTH_CHAP));
      && t.modemState == Connected && t.lcpState == LcpState.Opened
      && t.authState == AuthState.Starting && t.ipcpState == s.ipcpState
  {
    hide LcpFsm, AuthFsm, HasTimeout, Local;
    ChapLcpTable();
    ChapAuthTable();
    var s0 := EnterLcp(s.(auth := AUTH_CHAP), LcpState.AckSent);
    LocalEffect(s0, SendConfAck);
    NoActionIsNothing(Handle(s0, SendConfAck));
    var s1 := Step(s, LcpPacket(LcpEvent.RcrPos, AUTH_CHAP));
    assert s1 == Handle(s0, SendConfAck);
    var s2 := EnterLcp(s1.(auth := AUTH_CHAP), LcpState.Opened);
    NoActionIsNothing(Handle(s2, LayerUp));
    NoActionIsNothing(s2.(authState := AuthState.Starting));
  }

  lemma Challenged(s: Device)
    requires s.authState == AuthState.Starting
    ensures var t := EvalAuth(EvalAuth(s, Rac), Raa);
      && t.modemState == s.modemState && t.lcpState == s.lcpState
      && t.authState == Authenticated && t.ipcpState != IpcpState.Initial
  {
    hide AuthFsm, IpcpFsm, EvalAuth;
    ChapAuthTable();
    IpcpDownIsInitial(s.ipcpState);
    AuthEffect(s, Rac);
    AuthEffect(EvalAuth(s, Rac), Raa);
  }

  lemma ChallengeTimer(s: Device)
    requires s.authState == RspSent
    ensures var t := EvalAuth(s, Rac); t.timers.auth && t.timerVal == DEFAULT_TIMER
    ensures var t := EvalAuth(s, AuthEvent.To); t.timers.auth && t.timerVal == DEFAULT_TIMER
  {
    hide AuthFsm, Handle;
    ChapAuthTable();
    var s0, s1 := s.(authState := RspSent), s.(authState := AuthState.Starting);
    UpperHandlers(s0);
    UpperHandlers(Handle(s0, AuthRsp));
    NoActionIsNothing(Handle(Handle(s0, AuthRsp), AuthStartTimer));
    UpperHandlers(s1);
    NoActionIsNothing(Handle(s1, AuthStartTimer));
  }

  lemma ChallengedAgain(s: Device)
    requires s.authState == Authenticated
    ensures var t := EvalAuth(EvalAuth(s, Rac), Rac);
      && t.modemState == s.modemState && t.lcpState == s.lcpState && t.ipcpState == s.ipcpState
      && t.authState == RspSent && t.timers.auth && t.timerVal == DEFAULT_TIMER
  {
    hide AuthFsm, IpcpFsm, EvalAuth;
    ChapAuthTable();
    AuthEffect(s, Rac);
    AuthEffect(EvalAuth(s, Rac), Rac);
    ChallengeTimer(EvalAuth(s, Rac));
  }

  lemma ChallengedTwice(s: Device)
    requires s.modemState == Connected && s.lcpState == LcpState.Opened && s.authState == AuthState.Starting
    ensures var t := Step(Step(Step(Step(s, AuthPacket(Rac)), AuthPacket(Raa)), AuthPacket(Rac)), AuthPacket(Rac));
      && t.modemState == Connected && t.lcpState == LcpState.Opened && t.authState == RspSent
      && t.ipcpState != IpcpState.Initial && t.timers.auth && t.timerVal == DEFAULT_TIMER
  {
    hide AuthFsm, IpcpFsm, EvalAuth;
    AuthEffect(s, Rac);
    Challenged(s);
    var t := EvalAuth(EvalAuth(s, Rac), Raa);
    AuthEffect(t, Rac);
    ChallengedAgain(t);
  }

  lemma ResponseTimeout(s: Device)
    requires Good(s) && s.lcpState == LcpState.Opened && s.authState == RspSent && s.timers.auth && s.timerVal == 1
    ensures var t := Tick(s);
      && t.lcpState == LcpState.Opened && t.authState == AuthState.Starting && t.ipcpState == s.ipcpState
      && t.timers.auth && t.timerVal == DEFAULT_TIMER
  {
    hide AuthFsm, CheckModem, CheckLcp, EvalAuth, EvalIpcp, EvalLcp, HasTimeout;
    CheckModemKeeps(Aged(s));
    var s1 := CheckModem(Aged(s));
    CheckLcpKeeps(s1);
    var s2 := s1.(timers := s1.timers.(auth := false));
    ChapAuthTable();
    AuthEffect(s2, AuthEvent.To);
    ChallengeTimer(s2);
  }

  lemma TickWaits(s: Device)
    requires s.lcpState != LcpState.Initial && s.timerVal > 1
    ensures Tick(s) == s.(timerVal := s.timerVal - 1)
  {
    hide EvalModem, EvalLcp, EvalAuth, EvalIpcp;
  }

  lemma WaitTwice(s: Device)
    requires Reachable(s) && s.lcpState == LcpState.Opened && s.timerVal == DEFAULT_TIMER
    ensures Reachable(s.(timerVal := 1))
  {
    hide Tick;
    TickWaits(s);
    ReachableStep(s, Second);
    TickWaits(s.(timerVal := 2));
    ReachableStep(s.(timerVal := 2), Second);
  }

  lemma ReachableIsGood(s: Device)
    requires Reachable(s)
    ensures Good(s)
  {
    hide Good, Run, Possible;
    var inputs: seq<Input> :| (forall i | 0 <= i < |inputs| :: Possible(inputs[i])) && Run(CREATED, inputs) == s;
    RunKeeps(inputs);
  }

  lemma LapseAfterSilence(s: Device)
    requires Reachable(s) && s.lcpState == LcpState.Opened && s.authState == RspSent
    requires s.ipcpState != IpcpState.Initial && s.timers.auth && s.timerVal == DEFAULT_TIMER
    ensures exists s :: Reachable(s) && IpcpLayered(s) && AuthLapses(s) && !IpcpLayered(Tick(s))
  {
    hide Tick, Reachable, Good;
    WaitTwice(s);
    var s1 := s.(timerVal := 1);
    ReachableIsGood(s1);
    ResponseTimeout(s1);
    ReachableStep(s1, Second);
    var s2 := Tick(s1);
    WaitTwice(s2);
    var last := s2.(timerVal := 1);
    ReachableIsGood(last);
    TickKeeps(last);
  }

  /** CHAP challenges repeated after IPCP came up, then silence: a device that started afresh
      gets to a tick that drops authentication under an active IPCP. */
  lemma LapseReachable()
    ensures exists s :: Reachable(s) && IpcpLayered(s) && AuthLapses(s) && !IpcpLayered(Tick(s))
  {
    hide Step, Tick, Reachable, Good;
    var s := ReachDial();
    ReachableStep(s, Line(Connect));
    LinkUp(s);
    var up := Step(s, Line(Connect));
    ReachableStep(up, LcpPacket(LcpEvent.RcrPos, AUTH_CHAP));
    ReachableStep(Step(up, LcpPacket(LcpEvent.RcrPos, AUTH_CHAP)), LcpPacket(LcpEvent.Rca, AUTH_CHAP));
    LcpUpWithChap(up);
    var a0 := Step(Step(up, LcpPacket(LcpEvent.RcrPos, AUTH_CHAP)), LcpPacket(LcpEvent.Rca, AUTH_CHAP));
    ReachableStep(a0, AuthPacket(Rac));
    var a1 := Step(a0, AuthPacket(Rac));
    ReachableStep(a1, AuthPacket(Raa));
    var a2 := Step(a1, AuthPacket(Raa));
    ReachableStep(a2, AuthPacket(Rac));
    var a3 := Step(a2, AuthPacket(Rac));
    ReachableStep(a3, AuthPacket(Rac));
    ChallengedTwice(a0);
    var a4 := Step(a3, AuthPacket(Rac));
    LapseAfterSilence(a4);
  }

  // ---------- The silent peer ----------

  function Ticks(s: Device, n: nat): Device
    decreases n
  {
    if n == 0 then s else Ticks(Tick(s), n - 1)
  }

  lemma TickResends(s: Device)
    requires Good(s) && Timed(s.lcpState) && s.timerVal <= 1 && s.timerCount > 0
    ensures var t := Tick(s);
      && Timed(t.lcpState) && t.timerVal == DEFAULT_TIMER && t.timerCount == s.timerCount - 1
      && Requests(t.sent) == Requests(s.sent) + 1
  {
    hide CheckModem, EvalLcp, EvalAuth, EvalIpcp, Requests, HasTimeout;
    TimeoutStates(s.lcpState);
    var s0 := Aged(s);
    CheckModemKeeps(s0);
    var s1 := CheckModem(s0);
    ToPosEffect(s1);
    RequestsAppend(s.sent, Request(s.lcpState));
  }

  lemma IdleTimeouts()
    ensures AuthFsm(AuthState.Initial, AuthEvent.To) == Go(AuthState.Initial)
  {
  }

  lemma CheckAuthQuiet(s: Device)
    requires s.authState == AuthState.Initial
    ensures var t := CheckAuth(s);
      t == s.(timers := t.timers)
  {
    hide AuthFsm;
    IdleTimeouts();
    var s0 := s.(timers := s.timers.(auth := false));
    NoActionIsNothing(s0.(authState := AuthState.Initial));
  }

  lemma IpcpTimeout(state: IpcpState)
    ensures IpcpFsm(state, IpcpEvent.To) in {Go(state), Do2(state, IpcpSendReq, IpcpStartTimer)}
  {
  }

  lemma CheckIpcpQuiet(s: Device)
    ensures var t := CheckIpcp(s);
      && t == s.(timers := t.timers, timerVal := t.timerVal, sent := t.sent)
      && Requests(t.sent) == Requests(s.sent)
  {
    hide IpcpFsm, Requests, Handle;
    IpcpTimeout(s.ipcpState);
    var s0 := s.(timers := s.timers.(ipcp := false));
    NoActionIsNothing(s0);
    RequestsAppend(s.sent, IpcpSendReq);
    UpperHandlers(s0);
    UpperHandlers(Handle(s0, IpcpSendReq));
    NoActionIsNothing(Handle(Handle(s0, IpcpSendReq), IpcpStartTimer));
  }

  lemma ReconnectQuiet(s: Device)
    requires LcpIsDown(s.lcpState) && s.modemState != Connected
    ensures var t := Reconnect(s);
      LcpIsDown(t.lcpState) && t.modemState != Connected && Requests(t.sent) == Requests(s.sent)
  {
    hide LcpFsm, Handle, Requests, HasTimeout;
    OpenTable();
    TimeoutStates(LcpState.Starting);
    var s0 := EnterLcp(s, LcpState.Starting);
    NoActionIsNothing(Handle(s0, LayerStarted));
    LayerStartedEffect(s0);
    StartSends(s0);
  }

  lemma TickGivesUp(s: Device)
    requires Good(s) && Timed(s.lcpState) && s.timerVal <= 1 && s.timerCount == 0
    ensures var t := Tick(s);
      && LcpIsDown(t.lcpState) && t.modemState != Connected
      && Requests(t.sent) == Requests(s.sent)
  {
    hide CheckModem, EvalLcp, CheckAuth, CheckIpcp, Reconnect, Requests, HasTimeout;
    TimeoutStates(s.lcpState);
    var s0 := Aged(s);
    CheckModemKeeps(s0);
    var s1 := CheckModem(s0);
    ToNegEffect(s1);
    var s2 := CheckLcp(s1);
    CheckAuthQuiet(s2);
    CheckIpcpQuiet(CheckAuth(s2));
    ReconnectQuiet(CheckIpcp(CheckAuth(s2)));
  }

  /** How many ticks the restart timer has left in all. */
  function Patience(s: Device): nat {
    (if s.timerVal == 0 then 1 else s.timerVal) + DEFAULT_TIMER * s.timerCount
  }

  /** From any state with the restart timer running, if nothing but ticks arrives: exactly
      `timerCount` more requests are sent, LCP keeps waiting all the while, and on the last
      tick of its patience LCP is down and the modem disconnected. */
  lemma {:induction false} SilentPeer(s: Device)
    requires Good(s) && Timed(s.lcpState)
    ensures LcpIsDown(Ticks(s, Patience(s)).lcpState) && Ticks(s, Patience(s)).modemState != Connected
    ensures Requests(Ticks(s, Patience(s)).sent) == Requests(s.sent) + s.timerCount
    ensures forall m: nat | m < Patience(s) :: Timed(Ticks(s, m).lcpState)
    ensures s.timerCount <= MAX_CONFIGURE
    decreases s.timerCount, s.timerVal
  {
    hide Tick, Requests, Layered;
    var t := Tick(s);
    TickKeeps(s);
    if s.timerVal > 1 {
      TickWaits(s);
      SilentPeer(t);
    } else if s.timerCount > 0 {
      TickResends(s);
      SilentPeer(t);
    } else {
      TickGivesUp(s);
      assert Ticks(s, 1) == Ticks(t, 0);
    }
    forall m: nat | m < Patience(s)
      ensures Timed(Ticks(s, m).lcpState)
    {
      if m > 0 {
        assert Ticks(s, m) == Ticks(t, m - 1);
      }
    }
  }
}
