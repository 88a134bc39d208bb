/**
 * Low-power mode in the Bluetooth vendor interface, which keeps the controller awake while packets
 * flow and lets it sleep after two quiet timeouts, over sessions that are opened and closed again.
 */
module LowPower {
  import opened Bytes
  import Hci

  type Packet = Hci.Packet

  /** What the outside sees; `Reopen` marks the end of a session and the start of the next. */
  datatype Event =
    | WakeAssert | WakeDeassert | Timeout | Transport(packet: Packet)
    | InitializeComplete(success: bool) | LpmEnable | LpmDisable | Reopen

  datatype Callback = None | Watchdog | Never

  /** A call of `Send` that holds the lock: it has seen wake asserted, or it has read the idle timeout
      and is about to arm the timer with it. */
  datatype Sending = Idle | Plain(packet: Packet) | Arming(packet: Packet, ms: nat)

  /** The globals of the vendor interface, the timer of the file watcher, the callback its thread has
      picked up and not yet run, and the call that holds the lock.  `configured` says that the firmware
      callback has armed the timer since the idle timeout was last read. */
  datatype State = State(wakeDeasserted: bool, recentActivity: bool, timeoutMs: nat,
                         timerMs: nat, timerCallback: Callback, firing: Callback, sending: Sending,
                         open: bool, initializeWaits: bool, configured: bool, log: seq<Event>)
  {
    function ConfigureTimeout(ms: nat, callback: Callback): State {
      this.(timerMs := ms, timerCallback := callback)
    }

    function Logged(e: Event): State { this.(log := log + [e]) }

    function BeginSend(packet: Packet): State {
      this.(recentActivity := true,
            sending := if wakeDeasserted then Arming(packet, timeoutMs) else Plain(packet))
    }

    function EndSend(): State {
      match sending
      case Idle => this
      case Plain(packet) => this.(sending := Idle).Logged(Transport(packet))
      case Arming(packet, ms) =>
        this.(sending := Idle, wakeDeasserted := false).ConfigureTimeout(ms, Watchdog)
          .Logged(WakeAssert).Logged(Transport(packet))
    }

    function OnTimeout(): State {
      var s := Logged(Timeout);
      var t :=
        if recentActivity then s
        else s.(wakeDeasserted := true).Logged(WakeDeassert).ConfigureTimeout(0, Never);
      t.(recentActivity := false)
    }

    function CompleteInitialization(success: bool): State {
      if initializeWaits then this.(initializeWaits := false).Logged(InitializeComplete(success)) else this
    }

    function GetIdleTimeout(ms: nat): State { this.(timeoutMs := ms, configured := false) }

    /** Closing stops the watcher thread and leaves the globals and the wake line. */
    function Closed(): State {
      this.(open := false, timerMs := 0, timerCallback := None, firing := None, configured := false).Logged(LpmDisable)
    }

    /** Opening makes a new watcher and takes wake as deasserted. */
    function Reopened(): State {
      this.(open := true, wakeDeasserted := true, initializeWaits := true).Logged(Reopen)
    }

    predicate Armed() { timerMs > 0 && timerCallback == Watchdog }
  }

  /** After the first opening: wake is taken as deasserted, the timer is off, and the other two globals
      hold anything. */
  predicate Opened(s: State) {
    && s.wakeDeasserted && s.timerMs == 0 && s.timerCallback == None && s.firing == None && s.sending == Idle
    && s.open && s.initializeWaits && !s.configured && s.log == []
  }

  /** `Send` and `OnTimeout` exclude each other by a lock, which the firmware callback does not take:
      its four parts may fall inside a `Send`, between the read of the idle timeout and its use, and
      packets between them.  The moment the watcher sees the timeout and the moment its callback runs
      are separate too. */
  datatype Action =
    | BeginSend(packet: Packet) | EndSend
    | CompleteInitialization(success: bool) | GetIdleTimeout(ms: nat) | EnableLpm | ArmWatchdog
    | TimerExpires | RunCallback
    | Close | Open(success: bool)

  /** A step that has to wait for the lock changes nothing, nor does one that needs an open interface
      when it is closed; `Open` that fails leaves it closed. */
  function Step(s: State, a: Action): State {
    match a
    case BeginSend(packet) => if s.open && s.sending == Idle then s.BeginSend(packet) else s
    case EndSend => s.EndSend()
    case CompleteInitialization(success) => if s.open then s.CompleteInitialization(success) else s
    case GetIdleTimeout(ms) => if s.open then s.GetIdleTimeout(ms) else s
    case EnableLpm => if s.open then s.Logged(LpmEnable) else s
    case ArmWatchdog => if s.open then s.ConfigureTimeout(s.timeoutMs, Watchdog).(configured := true) else s
    case TimerExpires => if s.firing == None && s.timerMs > 0 then s.(firing := s.timerCallback) else s
    case RunCallback =>
      if s.firing != Watchdog then s.(firing := None)
      else if s.sending == Idle then s.(firing := None).OnTimeout()
      else s
    case Close => if s.open && s.sending == Idle then s.Closed() else s
    case Open(success) => if !s.open && success then s.Reopened() else s
  }

  function Run(s: State, actions: seq<Action>): State {
    if actions == [] then s else Step(Run(s, actions[..|actions| - 1]), actions[|actions| - 1])
  }

  // ----- what the log says

  /** The last wake operation was an assertion: the wake line is asserted. */
  predicate Awake(log: seq<Event>) {
    log != [] &&
    match log[|log| - 1]
    case WakeAssert => true
    case WakeDeassert => false
    case _ => Awake(log[..|log| - 1])
  }

  /** The session was opened with the wake line asserted and has not touched it yet. */
  predicate OpenedAwake(log: seq<Event>) {
    log != [] &&
    match log[|log| - 1]
    case Reopen => Awake(log[..|log| - 1])
    case WakeAssert => false
    case WakeDeassert => false
    case _ => OpenedAwake(log[..|log| - 1])
  }

  function Timeouts(log: seq<Event>): nat {
    if log == [] then 0
    else Timeouts(log[..|log| - 1]) + if log[|log| - 1] == Timeout then 1 else 0
  }

  /** How often the client was told in this session that initialization has completed. */
  function Completions(log: seq<Event>): nat {
    if log == [] then 0
    else match log[|log| - 1]
      case Reopen => 0
      case InitializeComplete(_) => 1 + Completions(log[..|log| - 1])
      case _ => Completions(log[..|log| - 1])
  }

  /** Packets travel only while the session keeps the controller awake, and wake is asserted only if it
      is not asserted, or by a session that found it asserted. */
  ghost predicate WakeDiscipline(log: seq<Event>) {
    forall i :: 0 <= i < |log| ==>
      && (log[i].Transport? ==> Awake(log[..i]) && !OpenedAwake(log[..i]))
      && (log[i] == WakeAssert ==> !Awake(log[..i]) || OpenedAwake(log[..i]))
  }

  /** At least two timeouts lie between a packet and the next deassertion of wake. */
  ghost predicate QuietBeforeSleep(log: seq<Event>) {
    forall i, j :: 0 <= i < j < |log| && log[i].Transport? && log[j] == WakeDeassert ==>
      Timeouts(log[..j]) >= Timeouts(log[..i]) + 2
  }

  /** No packet has travelled since the last timeout. */
  ghost predicate QuietSince(log: seq<Event>) {
    forall i :: 0 <= i < |log| && log[i].Transport? ==> Timeouts(log) > Timeouts(log[..i])
  }

  ghost predicate LogInv(s: State) {
    && s.wakeDeasserted == (!Awake(s.log) || OpenedAwake(s.log))
    && WakeDiscipline(s.log)
    && QuietBeforeSleep(s.log)
    && (!s.recentActivity ==> QuietSince(s.log))
    && Completions(s.log) <= if s.initializeWaits then 0 else 1
  }

  predicate FieldInv(s: State) {
    && (s.timerCallback == Never ==> s.timerMs == 0)
    && s.firing != Never
    && (s.sending != Idle ==> s.recentActivity)
    && (s.sending.Arming? ==> s.wakeDeasserted)
    && (s.sending.Plain? ==> !s.wakeDeasserted)
    && (!s.open ==> s.sending == Idle && s.firing == None && s.timerMs == 0)
  }

  ghost predicate Inv(s: State) { LogInv(s) && FieldInv(s) }

  lemma {:induction false} TimeoutsGrow(log: seq<Event>, i: nat)
    requires i <= |log|
    ensures Timeouts(log[..i]) <= Timeouts(log)
  {
    if i < |log| {
      TimeoutsGrow(log[..|log| - 1], i);
      assert log[..|log| - 1][..i] == log[..i];
    } else {
      assert log[..i] == log;
    }
  }

  lemma LastOf(l: seq<Event>)
    requires l != []
    ensures var e, log := l[|l| - 1], l[..|l| - 1];
      && Awake(l) == (e == WakeAssert || (e != WakeDeassert && Awake(log)))
      && OpenedAwake(l) ==
           (if e == Reopen then Awake(log) else e != WakeAssert && e != WakeDeassert && OpenedAwake(log))
      && Timeouts(l) == Timeouts(log) + (if e == Timeout then 1 else 0)
      && Completions(l) == if e == Reopen then 0 else Completions(log) + if e.InitializeComplete? then 1 else 0
  {
  }

  /** One more event keeps the discipline if it respects it itself. */
  lemma LogGrows(log: seq<Event>, e: Event)
    requires WakeDiscipline(log) && QuietBeforeSleep(log)
    requires e.Transport? ==> Awake(log) && !OpenedAwake(log)
    requires e == WakeAssert ==> !Awake(log) || OpenedAwake(log)
    requires e == WakeDeassert ==>
      forall i :: 0 <= i < |log| && log[i].Transport? ==> Timeouts(log) >= Timeouts(log[..i]) + 2
    ensures var l := log + [e];
      && WakeDiscipline(l) && QuietBeforeSleep(l)
      && Awake(l) == (e == WakeAssert || (e != WakeDeassert && Awake(log)))
      && OpenedAwake(l) ==
           (if e == Reopen then Awake(log) else e != WakeAssert && e != WakeDeassert && OpenedAwake(log))
      && Timeouts(l) == Timeouts(log) + (if e == Timeout then 1 else 0)
      && Completions(l) == (if e == Reopen then 0 else Completions(log) + if e.InitializeComplete? then 1 else 0)
      && forall i :: 0 <= i <= |log| ==> l[..i] == log[..i]
  {
    hide Awake, OpenedAwake, Timeouts, Completions;
    var l := log + [e];
    assert forall i :: 0 <= i <= |log| ==> l[..i] == log[..i];
    assert l[..|l| - 1] == log == log[..|log|];
    LastOf(l);
  }

  /** An event that is no packet keeps the time since the last one quiet. */
  lemma StaysQuiet(log: seq<Event>, e: Event)
    requires QuietSince(log) && !e.Transport?
    ensures QuietSince(log + [e])
  {
    hide Timeouts;
    var l := log + [e];
    assert forall i :: 0 <= i <= |log| ==> l[..i] == log[..i];
    assert l[..|l| - 1] == log;
    LastOf(l);
  }

  lemma OnTimeoutKeepsInv(s: State)
    requires Inv(s) && s.sending == Idle
    ensures Inv(s.OnTimeout())
  {
    hide Awake, OpenedAwake, Timeouts, Completions, WakeDiscipline, QuietBeforeSleep;
    LogGrows(s.log, Timeout);
    var log := s.log + [Timeout];
    forall i | 0 <= i < |log| && log[i].Transport?
      ensures Timeouts(log) > Timeouts(log[..i])
    {
      TimeoutsGrow(s.log, i);
    }
    if !s.recentActivity {
      LogGrows(log, WakeDeassert);
      StaysQuiet(log, WakeDeassert);
    }
  }

  lemma EndSendKeepsInv(s: State)
    requires Inv(s)
    ensures Inv(s.EndSend())
  {
    hide Awake, OpenedAwake, Timeouts, Completions, WakeDiscipline, QuietBeforeSleep, QuietSince;
    match s.sending
    case Idle =>
    case Plain(packet) => LogGrows(s.log, Transport(packet));
    case Arming(packet, _) =>
      LogGrows(s.log, WakeAssert);
      LogGrows(s.log + [WakeAssert], Transport(packet));
  }

  /** An event that is neither a packet, a timeout nor an operation of the wake line. */
  predicate Aside(e: Event) { e.InitializeComplete? || e == LpmEnable || e == LpmDisable || e == Reopen }

  lemma AsideKeepsInv(s: State, e: Event)
    requires Inv(s) && Aside(e)
    ensures e == LpmEnable ==> Inv(s.Logged(e))
    ensures e == LpmDisable && s.sending == Idle ==> Inv(s.Closed())
    ensures e == Reopen && !s.open ==> Inv(s.Reopened())
    ensures e.InitializeComplete? ==> Inv(s.CompleteInitialization(e.success))
  {
    hide Awake, OpenedAwake, Timeouts, Completions, WakeDiscipline, QuietBeforeSleep, QuietSince;
    LogGrows(s.log, e);
    if !s.recentActivity {
      StaysQuiet(s.log, e);
    }
  }

  lemma StepKeepsInv(s: State, a: Action)
    requires Inv(s)
    ensures Inv(Step(s, a))
  {
    hide LogInv, State.EndSend, State.OnTimeout, State.CompleteInitialization, State.Closed, State.Reopened;
    match a
    case EndSend => EndSendKeepsInv(s);
    case CompleteInitialization(success) => AsideKeepsInv(s, InitializeComplete(success));
    case EnableLpm => AsideKeepsInv(s, LpmEnable);
    case RunCallback =>
      FieldsKeepInv(s, s.(firing := None));
      if s.sending == Idle { OnTimeoutKeepsInv(s.(firing := None)); }
    case Close => AsideKeepsInv(s, LpmDisable);
    case Open(_) => AsideKeepsInv(s, Reopen);
    case BeginSend(packet) => if s.open && s.sending == Idle { BeginSendKeepsInv(s, packet); }
    case _ => FieldsKeepInv(s, Step(s, a));
  }

  lemma BeginSendKeepsInv(s: State, packet: Packet)
    requires Inv(s) && s.open && s.sending == Idle
    ensures Inv(s.BeginSend(packet))
  {
    hide Awake, OpenedAwake, Timeouts, Completions, WakeDiscipline, QuietBeforeSleep, QuietSince;
  }

  /** The log says nothing about the timer. */
  lemma FieldsKeepInv(s: State, r: State)
    requires LogInv(s) && r.log == s.log && r.wakeDeasserted == s.wakeDeasserted
    requires r.recentActivity == s.recentActivity && r.initializeWaits == s.initializeWaits
    ensures LogInv(r)
  {
    hide Awake, OpenedAwake, Timeouts, Completions, WakeDiscipline, QuietBeforeSleep, QuietSince;
  }

  /** Every run over any number of sessions: packets travel only while the session keeps the controller
      awake, at least two timeouts lie before each sleep, the client is told at most once in a session
      that initialization has completed, and the callback for a zero timeout never runs. */
  lemma {:induction false} RunIsSafe(s: State, actions: seq<Action>)
    requires Opened(s)
    ensures var r := Run(s, actions);
      && WakeDiscipline(r.log)
      && QuietBeforeSleep(r.log)
      && r.wakeDeasserted == (!Awake(r.log) || OpenedAwake(r.log))
      && Completions(r.log) <= 1
      && r.firing != Never
      && Inv(r)
  {
    if actions != [] {
      RunIsSafe(s, actions[..|actions| - 1]);
      StepKeepsInv(Run(s, actions[..|actions| - 1]), actions[|actions| - 1]);
    }
  }

  // ----- packets

  function Transported(log: seq<Event>): seq<Packet> {
    if log == [] then [] else
      var e := log[|log| - 1];
      Transported(log[..|log| - 1]) + if e.Transport? then [e.packet] else []
  }

  /** The packets of the calls of `Send` that got the lock. */
  function Accepted(s: State, actions: seq<Action>): seq<Packet> {
    if actions == [] then [] else
      var init, a := actions[..|actions| - 1], actions[|actions| - 1];
      Accepted(s, init) + if a.BeginSend? && Run(s, init).open && Run(s, init).sending == Idle then [a.packet] else []
  }

  function Pending(sending: Sending): seq<Packet> {
    if sending == Idle then [] else [sending.packet]
  }

  lemma TransportedGrows(log: seq<Event>, e: Event)
    ensures Transported(log + [e]) == Transported(log) + if e.Transport? then [e.packet] else []
  {
    assert (log + [e])[..|log|] == log;
  }

  /** The packets on their way and those delivered. */
  function Taken(s: State): seq<Packet> { Transported(s.log) + Pending(s.sending) }

  lemma EndSendDelivers(s: State)
    ensures Taken(s.EndSend()) == Taken(s)
  {
    hide Transported;
    match s.sending
    case Idle =>
    case Plain(packet) => TransportedGrows(s.log, Transport(packet));
    case Arming(packet, _) =>
      TransportedGrows(s.log, WakeAssert);
      TransportedGrows(s.log + [WakeAssert], Transport(packet));
  }

  lemma OnTimeoutDelivers(s: State)
    ensures Taken(s.OnTimeout()) == Taken(s)
  {
    hide Transported;
    TransportedGrows(s.log, Timeout);
    TransportedGrows(s.log + [Timeout], WakeDeassert);
  }

  lemma AsideDelivers(s: State, e: Event)
    requires Aside(e)
    ensures Transported(s.log + [e]) == Transported(s.log)
  {
    TransportedGrows(s.log, e);
  }

  lemma BeginSendDelivers(s: State, packet: Packet)
    requires s.sending == Idle
    ensures Taken(s.BeginSend(packet)) == Taken(s) + [packet]
  {
    hide Transported;
  }

  lemma StepDelivers(s: State, a: Action)
    ensures Taken(Step(s, a)) == Taken(s) + if a.BeginSend? && s.open && s.sending == Idle then [a.packet] else []
  {
    hide Transported, State.EndSend, State.OnTimeout, State.BeginSend;
    match a
    case BeginSend(packet) => if s.sending == Idle { BeginSendDelivers(s, packet); }
    case EndSend => EndSendDelivers(s);
    case CompleteInitialization(success) => AsideDelivers(s, InitializeComplete(success));
    case EnableLpm => AsideDelivers(s, LpmEnable);
    case RunCallback => OnTimeoutDelivers(s.(firing := None));
    case Close => AsideDelivers(s, LpmDisable);
    case Open(_) => AsideDelivers(s, Reopen);
    case _ =>
  }

  /** Every packet that got the lock reaches the transport, in order; at most the last is on its way. */
  lemma {:induction false} RunDeliversPackets(s: State, actions: seq<Action>)
    requires Opened(s)
    ensures var r := Run(s, actions);
      Transported(r.log) + Pending(r.sending) == Accepted(s, actions)
  {
    hide Step;
    if actions != [] {
      var init, a := actions[..|actions| - 1], actions[|actions| - 1];
      RunDeliversPackets(s, init);
      StepDelivers(Run(s, init), a);
    }
  }

  // ----- the end of the initialization

  /** What the client has been told in this session, the latest last. */
  function Told(log: seq<Event>): seq<bool> {
    if log == [] then [] else
      match log[|log| - 1]
      case Reopen => []
      case InitializeComplete(success) => Told(log[..|log| - 1]) + [success]
      case _ => Told(log[..|log| - 1])
  }

  /** The first result that the library has reported since the interface was opened. */
  function FirstReport(s: State, actions: seq<Action>): seq<bool> {
    if actions == [] then [] else
      var init := actions[..|actions| - 1];
      match actions[|actions| - 1]
      case Open(success) => if !Run(s, init).open && success then [] else FirstReport(s, init)
      case CompleteInitialization(success) =>
        if Run(s, init).open && FirstReport(s, init) == [] then [success] else FirstReport(s, init)
      case _ => FirstReport(s, init)
  }

  lemma ToldGrows(log: seq<Event>, e: Event)
    ensures Told(log + [e]) ==
      if e == Reopen then [] else Told(log) + if e.InitializeComplete? then [e.success] else []
  {
    assert (log + [e])[..|log|] == log;
  }

  lemma StepTells(s: State, a: Action)
    requires s.open ==> (s.initializeWaits <==> Told(s.log) == [])
    ensures var r := Step(s, a);
      && (r.open ==> (r.initializeWaits <==> Told(r.log) == []))
      && Told(r.log) ==
           (if a.Open? && !s.open && a.success then []
            else if a.CompleteInitialization? && s.open && Told(s.log) == [] then [a.success]
            else Told(s.log))
  {
    hide Told, State.EndSend, State.OnTimeout;
    match a
    case EndSend => EndSendTells(s);
    case CompleteInitialization(success) => ToldGrows(s.log, InitializeComplete(success));
    case EnableLpm => ToldGrows(s.log, LpmEnable);
    case RunCallback => OnTimeoutTells(s.(firing := None));
    case Close => ToldGrows(s.log, LpmDisable);
    case Open(_) => ToldGrows(s.log, Reopen);
    case _ =>
  }

  lemma EndSendTells(s: State)
    ensures var r := s.EndSend();
      Told(r.log) == Told(s.log) && r.open == s.open && r.initializeWaits == s.initializeWaits
  {
    hide Told;
    match s.sending
    case Idle =>
    case Plain(packet) => ToldGrows(s.log, Transport(packet));
    case Arming(packet, _) =>
      ToldGrows(s.log, WakeAssert);
      ToldGrows(s.log + [WakeAssert], Transport(packet));
  }

  lemma OnTimeoutTells(s: State)
    ensures var r := s.OnTimeout();
      Told(r.log) == Told(s.log) && r.open == s.open && r.initializeWaits == s.initializeWaits
  {
    hide Told;
    ToldGrows(s.log, Timeout);
    ToldGrows(s.log + [Timeout], WakeDeassert);
  }

  /** In every run the client is told the first result of the session, with its flag, and no other. */
  lemma {:induction false} FirstResultIsTold(s: State, actions: seq<Action>)
    requires Opened(s)
    ensures Told(Run(s, actions).log) == FirstReport(s, actions)
    ensures var r := Run(s, actions); r.open ==> (r.initializeWaits <==> Told(r.log) == [])
  {
    hide Step;
    if actions != [] {
      var init := actions[..|actions| - 1];
      FirstResultIsTold(s, init);
      StepTells(Run(s, init), actions[|actions| - 1]);
    }
  }

  // ----- assertions across sessions

  /** Wake is never asserted twice without a deassertion between. */
  ghost predicate Alternates(log: seq<Event>) {
    forall i :: 0 <= i < |log| && log[i] == WakeAssert ==> !Awake(log[..i])
  }

  lemma {:induction false} OpenedAwakeIsAwake(log: seq<Event>)
    ensures OpenedAwake(log) ==> Awake(log)
  {
    if log != [] {
      OpenedAwakeIsAwake(log[..|log| - 1]);
    }
  }

  /** In every run assertions alternate with deassertions exactly if no session that was opened with
      wake asserted asserts it before deasserting it. */
  lemma AlternatesExactly(s: State, actions: seq<Action>)
    requires Opened(s)
    ensures var log := Run(s, actions).log;
      Alternates(log) <==> forall i :: 0 <= i < |log| && log[i] == WakeAssert ==> !OpenedAwake(log[..i])
  {
    hide Awake, OpenedAwake, Run;
    RunIsSafe(s, actions);
    var log := Run(s, actions).log;
    forall i | 0 <= i < |log| && log[i] == WakeAssert
      ensures Awake(log[..i]) <==> OpenedAwake(log[..i])
    {
      OpenedAwakeIsAwake(log[..i]);
    }
  }

  /** No session of the log was opened with wake asserted. */
  ghost predicate NeverOpenedAwake(log: seq<Event>) {
    forall i :: 0 <= i <= |log| ==> !OpenedAwake(log[..i])
  }

  lemma NeverOpenedGrows(log: seq<Event>, e: Event)
    requires NeverOpenedAwake(log) && (e == Reopen ==> !Awake(log))
    ensures NeverOpenedAwake(log + [e])
  {
    hide Awake, OpenedAwake;
    var l := log + [e];
    assert forall i :: 0 <= i <= |log| ==> l[..i] == log[..i];
    assert l[..|log|] == log == log[..|log|] && l[..|l|] == l;
    LastOf(l);
  }

  lemma EndSendNeverOpened(s: State)
    requires NeverOpenedAwake(s.log)
    ensures NeverOpenedAwake(s.EndSend().log)
  {
    hide NeverOpenedAwake, Awake, OpenedAwake;
    match s.sending
    case Idle =>
    case Plain(packet) => NeverOpenedGrows(s.log, Transport(packet));
    case Arming(packet, _) =>
      NeverOpenedGrows(s.log, WakeAssert);
      NeverOpenedGrows(s.log + [WakeAssert], Transport(packet));
  }

  lemma OnTimeoutNeverOpened(s: State)
    requires NeverOpenedAwake(s.log)
    ensures NeverOpenedAwake(s.OnTimeout().log)
  {
    hide NeverOpenedAwake, Awake, OpenedAwake;
    NeverOpenedGrows(s.log, Timeout);
    NeverOpenedGrows(s.log + [Timeout], WakeDeassert);
  }

  lemma AsideStaysAsleep(log: seq<Event>, e: Event)
    requires Aside(e)
    ensures Awake(log + [e]) <==> Awake(log)
  {
    hide Awake, OpenedAwake;
    assert (log + [e])[..|log|] == log;
    LastOf(log + [e]);
  }

  lemma StepNeverOpened(s: State, a: Action)
    requires NeverOpenedAwake(s.log) && (!s.open ==> !Awake(s.log) && s.sending == Idle && s.firing == None)
    requires a == Close ==> !Awake(s.log)
    ensures var r := Step(s, a);
      NeverOpenedAwake(r.log) && (!r.open ==> !Awake(r.log))
  {
    hide NeverOpenedAwake, Awake, OpenedAwake, State.EndSend, State.OnTimeout;
    EndSendKeepsOpen(s);
    match a
    case EndSend => EndSendNeverOpened(s);
    case CompleteInitialization(success) => NeverOpenedGrows(s.log, InitializeComplete(success));
    case EnableLpm => NeverOpenedGrows(s.log, LpmEnable);
    case RunCallback => OnTimeoutNeverOpened(s.(firing := None));
    case Close =>
      NeverOpenedGrows(s.log, LpmDisable);
      AsideStaysAsleep(s.log, LpmDisable);
    case Open(_) => if !s.open { NeverOpenedGrows(s.log, Reopen); }
    case _ =>
  }

  /** Neither half of the work under the lock opens or closes the interface. */
  lemma EndSendKeepsOpen(s: State)
    ensures s.EndSend().open == s.open && (s.sending == Idle ==> s.EndSend() == s)
    ensures s.(firing := None).OnTimeout().open == s.open
  {
  }

  /** Each close finds the wake line deasserted. */
  ghost predicate ClosedAsleep(s: State, actions: seq<Action>) {
    forall k :: 0 <= k < |actions| && actions[k] == Close ==> !Awake(Run(s, actions[..k]).log)
  }

  lemma {:induction false} RunNeverOpened(s: State, actions: seq<Action>)
    requires Opened(s) && ClosedAsleep(s, actions)
    ensures var r := Run(s, actions);
      NeverOpenedAwake(r.log) && (!r.open ==> !Awake(r.log))
  {
    hide Step, Awake, LogInv;
    if actions != [] {
      var last := |actions| - 1;
      var init := actions[..last];
      forall k | 0 <= k < |init| && init[k] == Close
        ensures !Awake(Run(s, init[..k]).log)
      {
        assert init[..k] == actions[..k] && actions[k] == Close;
      }
      RunNeverOpened(s, init);
      RunIsSafe(s, init);
      StepNeverOpened(Run(s, init), actions[last]);
    }
  }

  /** They alternate over all sessions if none is closed awake, and in particular within one session. */
  lemma ClosedAsleepAlternates(s: State, actions: seq<Action>)
    requires Opened(s) && ClosedAsleep(s, actions)
    ensures Alternates(Run(s, actions).log)
  {
    hide Awake, OpenedAwake, Run, ClosedAsleep;
    AlternatesExactly(s, actions);
    RunNeverOpened(s, actions);
  }

  lemma OneSessionAlternates(s: State, actions: seq<Action>)
    requires Opened(s) && Action.Close !in actions
    ensures Alternates(Run(s, actions).log)
  {
    hide Run, Alternates;
    ClosedAsleepAlternates(s, actions);
  }

  /** The first packet after closing and opening repeats the assertion exactly if wake was asserted at
      the close. */
  lemma ReopeningRepeatsExactly(s: State, packet: Packet)
    requires Inv(s) && s.sending == Idle && Alternates(s.log)
    ensures Alternates(s.Closed().Reopened().BeginSend(packet).EndSend().log) <==> !Awake(s.log)
  {
    hide Awake, Alternates, WakeDiscipline, Inv;
    AlternatesAside(s.log, LpmDisable);
    var log := s.log + [LpmDisable];
    AlternatesAside(log, Reopen);
    AlternatesGrows(log + [Reopen], WakeAssert);
    AlternatesGrows(log + [Reopen] + [WakeAssert], Transport(packet));
    assert s.Closed().Reopened().BeginSend(packet).EndSend().log == log + [Reopen] + [WakeAssert] + [Transport(packet)];
  }

  lemma AlternatesGrows(log: seq<Event>, e: Event)
    ensures Alternates(log + [e]) <==> Alternates(log) && (e == WakeAssert ==> !Awake(log))
  {
    hide Awake;
    var l := log + [e];
    assert forall i :: 0 <= i <= |log| ==> l[..i] == log[..i];
    assert l[|log|] == e && log[..|log|] == log;
    assert forall i :: 0 <= i < |log| ==> l[i] == log[i];
  }

  lemma AlternatesAside(log: seq<Event>, e: Event)
    requires Aside(e)
    ensures Alternates(log + [e]) <==> Alternates(log)
    ensures Awake(log + [e]) <==> Awake(log)
  {
    hide Awake;
    AlternatesGrows(log, e);
    AsideStaysAsleep(log, e);
  }

  // ----- the watchdog

  datatype ArmedBy = Nobody | Firmware | SendWith(ms: nat)

  function NextArming(before: State, a: Action, last: ArmedBy): ArmedBy {
    if a == ArmWatchdog && before.open then Firmware
    else if a == EndSend && before.sending.Arming? then SendWith(before.sending.ms)
    else last
  }

  /** What armed the timer last. */
  function LastArming(s: State, actions: seq<Action>): ArmedBy {
    if actions == [] then Nobody else
      var init := actions[..|actions| - 1];
      NextArming(Run(s, init), actions[|actions| - 1], LastArming(s, init))
  }

  predicate ArmedAsTold(r: State, last: ArmedBy) {
    && (r.configured ==> r.open)
    && (r.open && !r.wakeDeasserted ==>
          && r.timerCallback == Watchdog
          && match last
             case Nobody => false
             case Firmware => r.configured ==> r.timerMs == r.timeoutMs
             case SendWith(ms) => r.timerMs == ms)
  }

  lemma EndSendArmsAsTold(s: State, last: ArmedBy)
    requires ArmedAsTold(s, last)
    ensures ArmedAsTold(s.EndSend(), NextArming(s, EndSend, last))
  {
  }

  lemma OnTimeoutArmsAsTold(s: State, last: ArmedBy)
    requires ArmedAsTold(s, last)
    ensures ArmedAsTold(s.(firing := None).OnTimeout(), last)
  {
  }

  lemma StepArmsAsTold(s: State, a: Action, last: ArmedBy)
    requires ArmedAsTold(s, last)
    ensures ArmedAsTold(Step(s, a), NextArming(s, a, last))
  {
    hide State.EndSend, State.OnTimeout;
    match a
    case EndSend => EndSendArmsAsTold(s, last);
    case RunCallback => OnTimeoutArmsAsTold(s, last);
    case _ =>
  }

  lemma {:induction false} RunArmsAsTold(s: State, actions: seq<Action>)
    requires Opened(s)
    ensures ArmedAsTold(Run(s, actions), LastArming(s, actions))
  {
    if actions == [] {
      assert Run(s, actions) == s;
    } else {
      hide Step, ArmedAsTold, NextArming;
      var init, a := actions[..|actions| - 1], actions[|actions| - 1];
      RunArmsAsTold(s, init);
      StepArmsAsTold(Run(s, init), a, LastArming(s, init));
    }
  }

  /** While a configured controller is kept awake the timer runs exactly unless it was armed last by a
      `Send` that had read a zero timeout before the firmware callback armed it. */
  lemma {:induction false} ArmedExactly(s: State, actions: seq<Action>)
    requires Opened(s)
    ensures var r := Run(s, actions);
      r.configured && r.timeoutMs > 0 && !r.wakeDeasserted ==>
        (r.Armed() <==> LastArming(s, actions) != SendWith(0))
  {
    RunArmsAsTold(s, actions);
  }

  /** No firmware callback arms the timer while a `Send` that read a zero timeout is under way. */
  ghost predicate NoRace(s: State, actions: seq<Action>) {
    forall k :: 0 <= k < |actions| && actions[k] == ArmWatchdog ==>
      var sending := Run(s, actions[..k]).sending;
      sending.Arming? ==> sending.ms > 0
  }

  predicate WatchedWhileAwake(r: State) {
    r.configured && r.timeoutMs > 0 ==>
      && (!r.wakeDeasserted ==> r.Armed())
      && (r.sending.Arming? ==> r.sending.ms > 0)
  }

  lemma StepStaysWatched(s: State, a: Action)
    requires WatchedWhileAwake(s)
    requires a == ArmWatchdog && s.sending.Arming? ==> s.sending.ms > 0
    ensures WatchedWhileAwake(Step(s, a))
  {
  }

  /** Without such a race the timer of a configured controller runs whenever it is kept awake. */
  lemma {:induction false} WatchedUnlessRaced(s: State, actions: seq<Action>)
    requires Opened(s) && NoRace(s, actions)
    ensures WatchedWhileAwake(Run(s, actions))
  {
    hide Step;
    if actions != [] {
      var last := |actions| - 1;
      var init := actions[..last];
      forall k | 0 <= k < |init| && init[k] == ArmWatchdog
        ensures var sending := Run(s, init[..k]).sending; sending.Arming? ==> sending.ms > 0
      {
        assert init[..k] == actions[..k] && actions[k] == ArmWatchdog;
      }
      WatchedUnlessRaced(s, init);
      StepStaysWatched(Run(s, init), actions[last]);
    }
  }

  /** And each such race, once the `Send` goes on, leaves a configured controller awake without timer. */
  lemma RaceStopsWatchdog(s: State)
    requires s.open && s.sending.Arming? && s.sending.ms == 0 && s.timeoutMs > 0
    ensures var r := Step(Step(s, ArmWatchdog), EndSend);
      r.configured && r.timeoutMs > 0 && !r.wakeDeasserted && !r.Armed()
  {
  }

  /** The race happens: the first packet of all, with the firmware callback inside its `Send`. */
  lemma RaceIsPossible(s: State, packet: Packet)
    requires Opened(s) && s.timeoutMs == 0
    ensures var actions := [BeginSend(packet), GetIdleTimeout(5000), ArmWatchdog, EndSend];
      var r := Run(s, actions);
      && !NoRace(s, actions)
      && r.configured && r.timeoutMs == 5000 && Awake(r.log) && !r.wakeDeasserted && !r.Armed()
  {
    hide NoRace, Awake;
    var a := [BeginSend(packet), GetIdleTimeout(5000), ArmWatchdog, EndSend];
    assert a[..1] == [BeginSend(packet)] && a[..1][..0] == [];
    var s1 := Step(s, BeginSend(packet));
    assert Run(s, a[..1]) == s1;
    assert a[..2][..1] == a[..1];
    var s2 := Step(s1, GetIdleTimeout(5000));
    assert Run(s, a[..2]) == s2;
    assert a[..3][..2] == a[..2];
    var s3 := Step(s2, ArmWatchdog);
    assert Run(s, a[..3]) == s3;
    assert a[..4] == a && Run(s, a) == Step(s3, EndSend);
    RaceStopsWatchdog(s2);
    RunIsSafe(s, a);
    assert !NoRace(s, a) by { RaceAt(s, a, 2); }
  }

  lemma RaceAt(s: State, actions: seq<Action>, k: nat)
    requires k < |actions| && actions[k] == ArmWatchdog
    requires var sending := Run(s, actions[..k]).sending; sending.Arming? && sending.ms == 0
    ensures !NoRace(s, actions)
  {
    hide Run;
  }

  // ----- two timeouts are enough

  function TimeoutsSince(s: State, r: State): int { Timeouts(r.log) - Timeouts(s.log) }

  /** What the first and the second timeout leave behind. */
  predicate Drowsy(s: State, r: State) {
    && r.sending == Idle && TimeoutsSince(s, r) >= 0
    && (TimeoutsSince(s, r) >= 1 ==> !r.recentActivity)
    && (TimeoutsSince(s, r) >= 2 ==> r.wakeDeasserted)
  }

  lemma OnTimeoutIsDrowsy(s: State, r: State)
    requires Drowsy(s, r)
    ensures Drowsy(s, r.OnTimeout()) && TimeoutsSince(s, r.OnTimeout()) == TimeoutsSince(s, r) + 1
  {
    hide Timeouts;
    LogOne(r.log, Timeout);
    LogOne(r.log + [Timeout], WakeDeassert);
  }

  lemma LogOne(log: seq<Event>, e: Event)
    ensures Timeouts(log + [e]) == Timeouts(log) + if e == Timeout then 1 else 0
  {
    assert (log + [e])[..|log|] == log;
  }

  lemma StepIsDrowsy(s: State, r: State, a: Action)
    requires Drowsy(s, r) && !a.BeginSend?
    ensures Drowsy(s, Step(r, a))
  {
    hide Timeouts, State.OnTimeout;
    match a
    case CompleteInitialization(success) => LogOne(r.log, InitializeComplete(success));
    case EnableLpm => LogOne(r.log, LpmEnable);
    case RunCallback => OnTimeoutIsDrowsy(s, r.(firing := None));
    case Close => LogOne(r.log, LpmDisable);
    case Open(_) => LogOne(r.log, Reopen);
    case _ =>
  }

  lemma {:induction false} RunIsDrowsy(s: State, actions: seq<Action>)
    requires s.sending == Idle && forall a :: a in actions ==> !a.BeginSend?
    ensures Drowsy(s, Run(s, actions))
  {
    hide Step;
    if actions != [] {
      var init, a := actions[..|actions| - 1], actions[|actions| - 1];
      assert a in actions && forall b :: b in init ==> b in actions;
      RunIsDrowsy(s, init);
      StepIsDrowsy(s, Run(s, init), a);
    }
  }

  /** In every run without a packet the second timeout puts the controller to sleep, whatever else
      happens, and until the next packet it stays asleep. */
  lemma TwoTimeoutsSleep(s: State, actions: seq<Action>)
    requires Inv(s) && s.sending == Idle && forall a :: a in actions ==> !a.BeginSend?
    ensures var r := Run(s, actions);
      Timeouts(r.log) >= Timeouts(s.log) + 2 ==> r.wakeDeasserted && (!Awake(r.log) || OpenedAwake(r.log))
  {
    hide Run, Timeouts, Awake, OpenedAwake;
    RunIsDrowsy(s, actions);
    RunKeepsInv(s, actions);
  }

  /** The watchdog itself gives those two: from any state in which it is armed, with whatever timeout
      above zero, and no packet follows. */
  lemma WatchdogSleeps(s: State)
    requires s.sending == Idle && s.firing == None && s.timerMs >= 1 && s.timerCallback == Watchdog
    ensures var r := Run(s, [TimerExpires, RunCallback, TimerExpires, RunCallback]);
      && r.wakeDeasserted && !Awake(r.log)
      && Timeouts(r.log) >= Timeouts(s.log) + (if s.recentActivity then 2 else 1)
      && (s.recentActivity ==> r.timerMs == 0 && r.log == s.log + [Timeout] + [Timeout] + [WakeDeassert])
  {
    hide Step, Run, Awake, Timeouts, Inv;
    RunOfFour(s, TimerExpires, RunCallback, TimerExpires, RunCallback);
    ExpiryRuns(s);
    ExpiryRuns(s.OnTimeout());
    var one := s.log + [Timeout];
    LogOne(s.log, Timeout);
    if s.recentActivity {
      LogOne(one, Timeout);
      LogOne(one + [Timeout], WakeDeassert);
      LastIsDeassertion(one + [Timeout]);
    } else {
      LogOne(one, WakeDeassert);
      LastIsDeassertion(one);
    }
  }

  /** Expiry and callback together: the timeout if the watchdog is armed, nothing if the timer is off. */
  lemma ExpiryRuns(s: State)
    requires s.sending == Idle && s.firing == None
    ensures s.timerMs >= 1 && s.timerCallback == Watchdog ==>
      Step(Step(s, TimerExpires), RunCallback) == s.OnTimeout()
    ensures s.timerMs == 0 ==> Step(Step(s, TimerExpires), RunCallback) == s
  {
    assert s.(firing := None) == s;
    if s.timerMs >= 1 && s.timerCallback == Watchdog {
      assert Step(s, TimerExpires) == s.(firing := Watchdog);
      assert s.(firing := Watchdog).(firing := None) == s;
    }
  }

  lemma LastIsDeassertion(log: seq<Event>)
    ensures !Awake(log + [WakeDeassert])
  {
  }

  lemma {:induction false} RunKeepsInv(s: State, actions: seq<Action>)
    requires Inv(s)
    ensures Inv(Run(s, actions))
  {
    hide Inv, Step;
    if actions != [] {
      RunKeepsInv(s, actions[..|actions| - 1]);
      StepKeepsInv(Run(s, actions[..|actions| - 1]), actions[|actions| - 1]);
    }
  }

  /** The vendor interface object. */
  class VendorInterface {
    var wakeDeasserted: bool
    var recentActivity: bool
    var timeoutMs: nat
    var timerMs: nat
    var timerCallback: Callback
    var firing: Callback
    var sending: Sending
    var open: bool
    var initializeWaits: bool
    var configured: bool
    var log: seq<Event>
    var hci: Hci.H4Protocol

    ghost function Abs(): State
      reads this
    {
      State(wakeDeasserted, recentActivity, timeoutMs, timerMs, timerCallback, firing, sending,
            open, initializeWaits, configured, log)
    }

    /** `staleActivity` and `staleTimeout` are what the globals held before. */
    constructor (staleActivity: bool, staleTimeout: nat, protocol: Hci.H4Protocol)
      ensures Opened(Abs()) && hci == protocol
    {
      open, hci := true, protocol;
      wakeDeasserted, recentActivity, timeoutMs := true, staleActivity, staleTimeout;
      timerMs, timerCallback, firing, sending := 0, None, None, Idle;
      initializeWaits, configured, log := true, false, [];
    }

    method ConfigureTimeout(ms: nat, callback: Callback)
      modifies this`timerMs, this`timerCallback
      ensures timerMs == ms && timerCallback == callback
    {
      timerMs, timerCallback := ms, callback;
    }

    /** `Send` once it has the lock, with nothing in between: its two halves. */
    method Send(packet: Packet, outcomes: seq<Hci.WriteOutcome>) returns (written: int)
      requires open && sending == Idle && CanWrite(packet, outcomes)
      modifies this, hci.uart`written
      ensures Abs() == Step(Step(old(Abs()), Action.BeginSend(packet)), Action.EndSend) && hci == old(hci)
      ensures old(Inv(Abs())) ==> Inv(Abs())
      ensures Written(packet, written, old(hci.uart.written), hci.uart.written)
    {
      StepKeepsInvIf(Abs(), Action.BeginSend(packet));
      StepKeepsInvIf(Step(Abs(), Action.BeginSend(packet)), Action.EndSend);
      BeginSend(packet);
      written := EndSend(outcomes);
    }

    /** Up to the read of the idle timeout, which is an argument of the call that arms the timer. */
    method BeginSend(packet: Packet)
      requires open && sending == Idle
      modifies this
      ensures Abs() == Step(old(Abs()), Action.BeginSend(packet)) && hci == old(hci)
      ensures sending != Idle && sending.packet == packet
    {
      recentActivity := true;
      sending := if wakeDeasserted then Arming(packet, timeoutMs) else Plain(packet);
    }

    method EndSend(outcomes: seq<Hci.WriteOutcome>) returns (written: int)
      requires sending != Idle && CanWrite(sending.packet, outcomes)
      modifies this, hci.uart`written
      ensures Abs() == Step(old(Abs()), Action.EndSend) && hci == old(hci)
      ensures Written(old(sending.packet), written, old(hci.uart.written), hci.uart.written)
    {
      if sending.Arming? {
        ConfigureTimeout(sending.ms, Watchdog);
        wakeDeasserted := false;
        log := log + [WakeAssert];
      }
      log := log + [Transport(sending.packet)];
      written := hci.Send(sending.packet.type_, sending.packet.bytes, outcomes);
      sending := Idle;
    }

    method CompleteInitialization(success: bool)
      requires open
      modifies this
      ensures Abs() == Step(old(Abs()), Action.CompleteInitialization(success)) && open
    {
      if initializeWaits {
        log := log + [InitializeComplete(success)];
        initializeWaits := false;
      }
    }

    /** The library answers `ms` to the question for its idle timeout. */
    method GetIdleTimeout(ms: nat)
      requires open
      modifies this
      ensures Abs() == Step(old(Abs()), Action.GetIdleTimeout(ms)) && open
    {
      timeoutMs := ms;
      configured := false;
    }

    method EnableLpm()
      requires open
      modifies this
      ensures Abs() == Step(old(Abs()), Action.EnableLpm) && open
    {
      log := log + [LpmEnable];
    }

    method ArmWatchdog()
      requires open
      modifies this
      ensures Abs() == Step(old(Abs()), Action.ArmWatchdog) && open
    {
      ConfigureTimeout(timeoutMs, Watchdog);
      configured := true;
    }

    /** With nothing between its four parts. */
    method OnFirmwareConfigured(success: bool, ms: nat)
      requires open
      modifies this
      ensures var start := old(Abs());
        Abs() == Run(start, [Action.CompleteInitialization(success), Action.GetIdleTimeout(ms), Action.EnableLpm, Action.ArmWatchdog])
      ensures old(Inv(Abs())) ==> Inv(Abs())
    {
      hide Step, Inv, Run;
      RunOfFour(Abs(), Action.CompleteInitialization(success), Action.GetIdleTimeout(ms), Action.EnableLpm, Action.ArmWatchdog);
      CompleteInitialization(success);
      GetIdleTimeout(ms);
      EnableLpm();
      ArmWatchdog();
    }

    method OnTimeout()
      requires sending == Idle
      modifies this
      ensures Abs() == old(Abs()).OnTimeout()
      ensures old(Inv(Abs())) ==> Inv(Abs())
    {
      if Inv(Abs()) {
        OnTimeoutKeepsInv(Abs());
      }
      log := log + [Timeout];
      if !recentActivity {
        wakeDeasserted := true;
        log := log + [WakeDeassert];
        ConfigureTimeout(0, Never);
      }
      recentActivity := false;
    }

    method Close()
      requires sending == Idle
      modifies this
      ensures Abs() == Step(old(Abs()), Action.Close)
    {
      if open {
        log := log + [LpmDisable];
        timerMs, timerCallback, firing := 0, None, None;
        open, configured := false, false;
      }
    }

    /** On a new object that finds the same globals; `success` says whether the library could be loaded
        and the line opened. */
    method Open(success: bool, protocol: Hci.H4Protocol) returns (r: bool)
      requires !open
      modifies this
      ensures Abs() == Step(old(Abs()), Action.Open(success)) && r == success
    {
      if !success {
        return false;
      }
      hci := protocol;
      initializeWaits := true;
      wakeDeasserted := true;
      log := log + [Reopen];
      open := true;
      return true;
    }
  }

  /** The line answers the write in the end, and never counts more than the frame. */
  predicate CanWrite(packet: Packet, outcomes: seq<Hci.WriteOutcome>) {
    && (exists k :: 0 <= k < |outcomes| && !outcomes[k].Again?)
    && forall o :: o in outcomes && o.Wrote? ==> o.count <= |packet.Frame()|
  }

  /** What the result of a write says about the line. */
  predicate Written(packet: Packet, written: int, before: seq<byte>, after: seq<byte>) {
    if written == -1 then after == before
    else 0 <= written <= |packet.Frame()| && after == before + packet.Frame()[..written]
  }

  lemma RunOfFour(s: State, a: Action, b: Action, c: Action, d: Action)
    ensures Run(s, [a, b, c, d]) == Step(Step(Step(Step(s, a), b), c), d)
    ensures Inv(s) ==> Inv(Run(s, [a, b, c, d]))
  {
    hide Step, Inv;
    var l := [a, b, c, d];
    assert l[..4] == l && l[..3][..2] == l[..2] && l[..2][..1] == l[..1] && l[..1][..0] == [];
    assert Run(s, l[..1]) == Step(s, a);
    assert Run(s, l[..2]) == Step(Run(s, l[..1]), b);
    assert Run(s, l[..3]) == Step(Run(s, l[..2]), c);
    if Inv(s) {
      RunKeepsInv(s, l);
    }
  }

  lemma StepKeepsInvIf(s: State, a: Action)
    ensures Inv(s) ==> Inv(Step(s, a))
  {
    if Inv(s) {
      StepKeepsInv(s, a);
    }
  }
}
