/**
 * The interception of the events that answer commands the vendor library sent by itself: one global
 * slot with a callback and an opcode, filled by one thread and emptied by another without a lock.
 */
module EventInterception {
  import opened Bytes
  import opened Wrappers

  const COMMAND_COMPLETE: byte := 0x0E

  /** A command the vendor library sends: the opcode it names, whether it gave a callback, and the
      bytes of its buffer. */
  datatype Transmit = Transmit(opcode: nat, hasCallback: bool, command: seq<byte>)

  /** Where an event went; a callback is named by the position of its transmit. */
  datatype Disposition = ToClient(event: seq<byte>) | ToCallback(id: nat, event: seq<byte>)

  /** `internal_command`, the transmit that has written its callback there and not yet its opcode, all
      transmits so far, the commands sent to the controller and the events handled so far. */
  datatype State = State(cb: Option<nat>, opcode: nat, writing: Option<Transmit>, transmits: seq<Transmit>,
                         sent: seq<seq<byte>>, log: seq<Disposition>)

  const START := State(None, 0, None, [], [], [])

  /** While a callback waits, the source reads the event code, and the opcode of a Command Complete,
      without checking sizes. */
  predicate Readable(event: seq<byte>) {
    |event| > 0 && (event[0] == COMMAND_COMPLETE ==> |event| >= 5)
  }

  /** The opcode behind the preamble and the packet count. */
  function OpcodeOf(event: seq<byte>): nat
    requires |event| >= 5
  {
    var low: nat := event[3];
    var high: nat := event[4];
    low + 256 * high
  }

  predicate Answers(event: seq<byte>, opcode: nat)
    requires Readable(event)
  {
    event[0] == COMMAND_COMPLETE && OpcodeOf(event) == opcode
  }

  /** A Command Complete, code 0x0E, for the opcode whose low byte comes fourth and high byte fifth. */
  predicate CompletesCommand(event: seq<byte>, opcode: nat) {
    && |event| >= 5 && event[0] == 0x0E
    && var low: nat, high: nat := event[3], event[4]; opcode == low + 256 * high
  }

  lemma AnswersExactly(event: seq<byte>, opcode: nat)
    requires Readable(event)
    ensures Answers(event, opcode) <==> CompletesCommand(event, opcode)
  {
  }

  function WriteCallback(s: State, t: Transmit): State {
    s.(cb := if t.hasCallback then Some(|s.transmits|) else None, transmits := s.transmits + [t])
  }

  function WriteOpcode(s: State, t: Transmit): State {
    s.(opcode := t.opcode, sent := s.sent + [t.command])
  }

  function DoTransmit(s: State, t: Transmit): State { WriteOpcode(WriteCallback(s, t), t) }

  function DoTransmits(s: State, ts: seq<Transmit>): State
    decreases |ts|
  {
    if ts == [] then s else DoTransmits(DoTransmit(s, ts[0]), ts[1..])
  }

  /** `inner` are the transmits that the callback makes if it is the one to run; nothing handles an
      event during those. */
  function HandleEvent(s: State, event: seq<byte>, inner: seq<Transmit>): State
    requires s.cb.Some? ==> Readable(event)
  {
    if s.cb.Some? && Answers(event, s.opcode) then
      DoTransmits(s.(cb := None, log := s.log + [ToCallback(s.cb.value, event)]), inner)
    else s.(log := s.log + [ToClient(event)])
  }

  /** Where an event goes, by its bytes. */
  lemma HandleEventExactly(s: State, event: seq<byte>, inner: seq<Transmit>)
    requires s.cb.Some? ==> Readable(event)
    ensures HandleEvent(s, event, inner).log == s.log +
      [if s.cb.Some? && CompletesCommand(event, s.opcode) then ToCallback(s.cb.value, event) else ToClient(event)]
  {
    if s.cb.Some? {
      AnswersExactly(event, s.opcode);
      DoTransmitsKeepLog(s.(cb := None, log := s.log + [ToCallback(s.cb.value, event)]), inner);
    }
  }

  lemma {:induction false} DoTransmitsKeepLog(s: State, ts: seq<Transmit>)
    ensures DoTransmits(s, ts).log == s.log
    decreases |ts|
  {
    if ts != [] {
      DoTransmitsKeepLog(DoTransmit(s, ts[0]), ts[1..]);
    }
  }

  /** An event of five bytes or more with its opcode spelt out. */
  lemma EventByBytes(s: State, code: byte, n: byte, k: byte, low: byte, high: byte, rest: seq<byte>, inner: seq<Transmit>)
    requires s.cb.Some?
    ensures var event, l: nat, h: nat := [code, n, k, low, high] + rest, low, high;
      HandleEvent(s, event, inner).log == s.log +
        [if code == 0x0E && s.opcode == l + 256 * h then ToCallback(s.cb.value, event) else ToClient(event)]
  {
    HandleEventExactly(s, [code, n, k, low, high] + rest, inner);
  }

  /** The library transmits one command at a time.  It writes the callback and the opcode without a
      lock, so that events may be handled in between. */
  datatype Action = BeginTransmit(t: Transmit) | EndTransmit | Incoming(event: seq<byte>, inner: seq<Transmit>)

  /** Every event that meets a waiting callback is readable. */
  predicate Legal(actions: seq<Action>)
    decreases |actions|, 0
  {
    actions == [] ||
    var init, a := actions[..|actions| - 1], actions[|actions| - 1];
    Legal(init) && (a.Incoming? && Run(init).cb.Some? ==> Readable(a.event))
  }

  function Run(actions: seq<Action>): State
    requires Legal(actions)
    decreases |actions|, 1
  {
    if actions == [] then START else Step(Run(actions[..|actions| - 1]), actions[|actions| - 1])
  }

  function Step(s: State, a: Action): State
    requires a.Incoming? && s.cb.Some? ==> Readable(a.event)
  {
    match a
    case BeginTransmit(t) => if s.writing.None? then WriteCallback(s, t).(writing := Some(t)) else s
    case EndTransmit => if s.writing.None? then s else WriteOpcode(s, s.writing.value).(writing := None)
    case Incoming(event, inner) => HandleEvent(s, event, inner)
  }

  /** The event makes a callback run although the slot is half written. */
  predicate Disturbs(s: State, a: Action) {
    a.Incoming? && s.writing.Some? && s.cb.Some? && CompletesCommand(a.event, s.opcode)
  }

  predicate Undisturbed(actions: seq<Action>)
    requires Legal(actions)
    decreases |actions|
  {
    actions == [] ||
    var init, a := actions[..|actions| - 1], actions[|actions| - 1];
    Undisturbed(init) && !Disturbs(Run(init), a)
  }

  function Events(actions: seq<Action>): seq<seq<byte>> {
    if actions == [] then [] else
      var last := actions[|actions| - 1];
      Events(actions[..|actions| - 1]) + if last.Incoming? then [last.event] else []
  }

  /** A callback runs only for a Command Complete that carries the opcode of its own transmit. */
  ghost predicate Justified(s: State) {
    forall i :: 0 <= i < |s.log| && s.log[i].ToCallback? ==>
      && s.log[i].id < |s.transmits|
      && s.transmits[s.log[i].id].hasCallback
      && CompletesCommand(s.log[i].event, s.transmits[s.log[i].id].opcode)
  }

  /** Callbacks run in the order of their transmits and each at most once. */
  ghost predicate OncePerTransmit(s: State) {
    forall i, j :: 0 <= i < j < |s.log| && s.log[i].ToCallback? && s.log[j].ToCallback? ==>
      s.log[i].id < s.log[j].id
  }

  /** Each transmit but the one that is still writing has sent its command, in order. */
  ghost predicate AllSent(s: State) {
    && |s.sent| == |s.transmits| - (if s.writing.Some? then 1 else 0)
    && forall i :: 0 <= i < |s.sent| ==> s.sent[i] == s.transmits[i].command
  }

  /** The slot holds the callback of the latest transmit, which has not been answered. */
  ghost predicate Inv(s: State) {
    && OncePerTransmit(s)
    && (forall i :: 0 <= i < |s.log| && s.log[i].ToCallback? ==>
          s.log[i].id < |s.transmits| && s.transmits[s.log[i].id].hasCallback)
    && (s.cb.Some? ==>
          && s.cb.value + 1 == |s.transmits| && s.transmits[s.cb.value].hasCallback
          && forall i :: 0 <= i < |s.log| && s.log[i].ToCallback? ==> s.log[i].id < s.cb.value)
  }

  /** The slot is whole, or its opcode is about to become that of its callback. */
  ghost predicate InStep(s: State) {
    && Justified(s) && AllSent(s)
    && (s.writing.Some? ==> s.transmits != [] && s.writing.value == s.transmits[|s.transmits| - 1])
    && (s.writing.None? && s.transmits != [] ==> s.opcode == s.transmits[|s.transmits| - 1].opcode)
  }

  lemma TransmitKeepsInv(s: State, t: Transmit)
    requires Inv(s)
    ensures Inv(WriteCallback(s, t)) && Inv(WriteOpcode(s, t)) && Inv(DoTransmit(s, t))
  {
  }

  lemma TransmitKeepsInStep(s: State, t: Transmit)
    requires Inv(s) && InStep(s) && s.writing.None?
    ensures InStep(WriteCallback(s, t).(writing := Some(t))) && InStep(DoTransmit(s, t))
  {
  }

  lemma WriteOpcodeKeepsInStep(s: State)
    requires InStep(s) && s.writing.Some?
    ensures InStep(WriteOpcode(s, s.writing.value).(writing := None))
  {
  }

  lemma {:induction false} DoTransmitsKeepsInv(s: State, ts: seq<Transmit>)
    requires Inv(s)
    ensures var r := DoTransmits(s, ts);
      && Inv(r) && r.log == s.log && r.transmits == s.transmits + ts && r.writing == s.writing
      && (ts != [] ==> var t := ts[|ts| - 1];
            r.opcode == t.opcode && r.cb == if t.hasCallback then Some(|r.transmits| - 1) else None)
    decreases |ts|
  {
    hide Inv;
    if ts != [] {
      TransmitKeepsInv(s, ts[0]);
      DoTransmitsKeepsInv(DoTransmit(s, ts[0]), ts[1..]);
    }
  }

  lemma {:induction false} DoTransmitsKeepsInStep(s: State, ts: seq<Transmit>)
    requires Inv(s) && InStep(s) && s.writing.None?
    ensures InStep(DoTransmits(s, ts))
    decreases |ts|
  {
    hide Inv, InStep;
    if ts != [] {
      TransmitKeepsInv(s, ts[0]);
      TransmitKeepsInStep(s, ts[0]);
      DoTransmitsKeepsInStep(DoTransmit(s, ts[0]), ts[1..]);
    }
  }

  function Called(s: State, event: seq<byte>): State
    requires s.cb.Some?
  {
    s.(cb := None, log := s.log + [ToCallback(s.cb.value, event)])
  }

  /** A transmit made inside a callback keeps its slot: it is not cleared when the callback returns. */
  lemma InnerTransmitKeepsSlot(s: State, event: seq<byte>, inner: seq<Transmit>)
    requires Inv(s) && s.cb.Some? && Readable(event) && Answers(event, s.opcode) && inner != []
    ensures var r, t := HandleEvent(s, event, inner), inner[|inner| - 1];
      r.opcode == t.opcode && r.cb == if t.hasCallback then Some(|s.transmits| + |inner| - 1) else None
  {
    CallbackKeepsInv(s, event);
    DoTransmitsKeepsInv(Called(s, event), inner);
  }

  lemma CallbackKeepsInv(s: State, event: seq<byte>)
    requires Inv(s) && s.cb.Some?
    ensures Inv(Called(s, event))
  {
  }

  /** The callback that runs is justified exactly if the event carries the opcode of its transmit. */
  lemma CallbackJustified(s: State, event: seq<byte>)
    requires Inv(s) && InStep(s) && s.cb.Some? && Readable(event) && Answers(event, s.opcode)
    ensures Justified(Called(s, event)) <==> s.opcode == s.transmits[s.cb.value].opcode
    ensures s.writing.None? ==> InStep(Called(s, event))
  {
    var log := Called(s, event).log;
    assert log[|s.log|] == ToCallback(s.cb.value, event);
    assert forall i :: 0 <= i < |s.log| ==> log[i] == s.log[i];
  }

  /** Transmits change nothing about the callbacks that have run. */
  lemma TransmitsKeepJustified(s: State, ts: seq<Transmit>)
    requires Inv(s)
    ensures Justified(DoTransmits(s, ts)) <==> Justified(s)
  {
    DoTransmitsKeepsInv(s, ts);
    var r := DoTransmits(s, ts);
    assert forall i :: 0 <= i < |s.transmits| ==> r.transmits[i] == s.transmits[i];
  }

  function EventOf(d: Disposition): seq<byte> { d.event }

  lemma ForwardKeepsInv(s: State, event: seq<byte>)
    requires Inv(s)
    ensures Inv(s.(log := s.log + [ToClient(event)]))
    ensures InStep(s) ==> InStep(s.(log := s.log + [ToClient(event)]))
  {
  }

  /** A step keeps the invariant and sends an event to one place. */
  lemma StepRoutes(s: State, a: Action)
    requires Inv(s) && (a.Incoming? && s.cb.Some? ==> Readable(a.event))
    ensures var r := Step(s, a);
      && Inv(r)
      && |r.log| == |s.log| + (if a.Incoming? then 1 else 0) && r.log[..|s.log|] == s.log
      && (a.Incoming? ==> EventOf(r.log[|s.log|]) == a.event)
  {
    hide Inv, Answers, Readable;
    match a
    case BeginTransmit(t) =>
      TransmitKeepsInv(s, t);
      WritingIsFree(WriteCallback(s, t), Some(t));
    case EndTransmit =>
      if s.writing.Some? {
        TransmitKeepsInv(s, s.writing.value);
        WritingIsFree(WriteOpcode(s, s.writing.value), None);
      }
    case Incoming(event, inner) =>
      if s.cb.Some? && Answers(event, s.opcode) {
        CallbackKeepsInv(s, event);
        DoTransmitsKeepsInv(Called(s, event), inner);
      } else {
        ForwardKeepsInv(s, event);
      }
  }

  lemma WritingIsFree(s: State, writing: Option<Transmit>)
    requires Inv(s)
    ensures Inv(s.(writing := writing))
  {
  }

  /** In every run each event goes to exactly one place, in order and unchanged, and each callback runs
      at most once. */
  lemma {:induction false} RunRoutesEvents(actions: seq<Action>)
    requires Legal(actions)
    ensures var s := Run(actions);
      && |s.log| == |Events(actions)|
      && (forall i :: 0 <= i < |s.log| ==> EventOf(s.log[i]) == Events(actions)[i])
      && OncePerTransmit(s) && Inv(s)
  {
    if actions != [] {
      hide Inv, Step, Readable, OncePerTransmit;
      var init, a := actions[..|actions| - 1], actions[|actions| - 1];
      RunRoutesEvents(init);
      var before, s := Run(init), Run(actions);
      StepRoutes(before, a);
      assert forall i :: 0 <= i < |before.log| ==> s.log[i] == s.log[..|before.log|][i] == before.log[i];
      assert OncePerTransmit(s) by { InvSaysOnce(s); }
    }
  }

  lemma InvSaysOnce(s: State)
    requires Inv(s)
    ensures OncePerTransmit(s)
  {
  }

  lemma StepStaysInStep(s: State, a: Action)
    requires Inv(s) && InStep(s) && (a.Incoming? && s.cb.Some? ==> Readable(a.event)) && !Disturbs(s, a)
    ensures InStep(Step(s, a))
  {
    hide Inv, InStep, Answers, Readable, CompletesCommand;
    match a
    case BeginTransmit(t) => if s.writing.None? { TransmitKeepsInStep(s, t); }
    case EndTransmit => if s.writing.Some? { WriteOpcodeKeepsInStep(s); }
    case Incoming(event, inner) =>
      if s.cb.Some? && Answers(event, s.opcode) {
        AnswersExactly(event, s.opcode);
        CallbackKeepsInv(s, event);
        CallbackJustified(s, event);
        DoTransmitsKeepsInStep(Called(s, event), inner);
      } else {
        ForwardKeepsInv(s, event);
      }
  }

  /** In every run in which no callback runs while the slot is half written, callbacks run for the
      Command Complete of their own opcode only, and each transmit sends its command, in order. */
  lemma {:induction false} RunAnswersOwn(actions: seq<Action>)
    requires Legal(actions) && Undisturbed(actions)
    ensures var s := Run(actions);
      Justified(s) && AllSent(s) && InStep(s)
  {
    if actions != [] {
      hide Inv, InStep, Step, Readable, Justified, AllSent;
      var init := actions[..|actions| - 1];
      RunAnswersOwn(init);
      RunRoutesEvents(init);
      StepStaysInStep(Run(init), actions[|actions| - 1]);
      InStepSaysAll(Run(actions));
    }
  }

  lemma InStepSaysAll(s: State)
    requires InStep(s)
    ensures Justified(s) && AllSent(s)
  {
  }

  /** What the next event does to such a run: a callback gets the answer of another command exactly if
      it runs while the slot is half written and the two opcodes differ. */
  lemma ForeignExactly(actions: seq<Action>, event: seq<byte>, inner: seq<Transmit>)
    requires Legal(actions) && Undisturbed(actions) && (Run(actions).cb.Some? ==> Readable(event))
    ensures var s := Run(actions);
      Justified(HandleEvent(s, event, inner)) <==>
        !(Disturbs(s, Incoming(event, inner)) && s.writing.value.opcode != s.opcode)
  {
    hide Answers, Readable, Justified, CompletesCommand;
    RunRoutesEvents(actions);
    RunAnswersOwn(actions);
    var s := Run(actions);
    if s.cb.Some? {
      AnswersExactly(event, s.opcode);
    }
    if s.cb.Some? && Answers(event, s.opcode) {
      CallbackKeepsInv(s, event);
      CallbackJustified(s, event);
      TransmitsKeepJustified(Called(s, event), inner);
    } else {
      ForwardKeepsInv(s, event);
      InStepSaysAll(s.(log := s.log + [ToClient(event)]));
    }
  }

  /** It happens: a command without callback is answered while the next one, with a callback and any
      other opcode, is half written; that callback gets the answer. */
  lemma ForeignAnswer(event: seq<byte>, first: Transmit, second: Transmit)
    requires CompletesCommand(event, first.opcode)
    requires !first.hasCallback && second.hasCallback && second.opcode != first.opcode
    ensures var actions := [BeginTransmit(first), EndTransmit, BeginTransmit(second), Incoming(event, [])];
      Legal(actions) && Run(actions).log == [ToCallback(1, event)] && !Justified(Run(actions))
  {
    var a := [BeginTransmit(first), EndTransmit, BeginTransmit(second), Incoming(event, [])];
    assert a[..1][..0] == [] && a[..2][..1] == a[..1] && a[..3][..2] == a[..2] && a[..4] == a;
    assert Legal(a[..0]) && Legal(a[..1]) && Run(a[..1]) == Step(START, a[0]);
    assert Legal(a[..2]) && Run(a[..2]) == Step(Run(a[..1]), a[1]);
    assert Legal(a[..3]) && Run(a[..3]) == Step(Run(a[..2]), a[2]);
    var s := Run(a[..3]);
    assert s.cb == Some(1) && s.opcode == first.opcode && s.log == [];
    AnswersExactly(event, s.opcode);
    assert Legal(a) && Run(a) == HandleEvent(s, event, []);
    assert Run(a).log[0] == ToCallback(1, event) && Run(a).transmits == [first, second];
  }

  /** An event is kept from the client exactly if the last transmit has an unanswered callback and the
      event is the Command Complete for the opcode in the slot: that of this transmit, or while it has
      not written its own, the one before. */
  lemma InterceptedExactly(actions: seq<Action>, event: seq<byte>, inner: seq<Transmit>)
    requires Legal(actions) && Undisturbed(actions) && (Run(actions).cb.Some? ==> Readable(event))
    ensures var s, r := Run(actions), HandleEvent(Run(actions), event, inner);
      |r.log| == |s.log| + 1 && r.log[..|s.log|] == s.log &&
      (r.log[|s.log|].ToCallback? <==>
         && s.transmits != [] && s.transmits[|s.transmits| - 1].hasCallback
         && (forall i :: 0 <= i < |s.log| && s.log[i].ToCallback? ==> s.log[i].id < |s.transmits| - 1)
         && CompletesCommand(event, if s.writing.None? then s.transmits[|s.transmits| - 1].opcode else s.opcode))
  {
    hide Answers, Readable, Justified, CompletesCommand;
    RunRoutesEvents(actions);
    RunAnswersOwn(actions);
    RunTracksSlot(actions);
    var s := Run(actions);
    if s.cb.Some? {
      AnswersExactly(event, s.opcode);
    }
    if s.cb.Some? && Answers(event, s.opcode) {
      CallbackKeepsInv(s, event);
      DoTransmitsKeepsInv(Called(s, event), inner);
    }
  }

  /** The slot is empty only before the first transmit, after a transmit without callback, or after
      the last callback has run. */
  ghost predicate SlotExplained(s: State) {
    s.cb.None? && s.transmits != [] && s.transmits[|s.transmits| - 1].hasCallback ==>
      exists i :: 0 <= i < |s.log| && s.log[i].ToCallback? && s.log[i].id == |s.transmits| - 1
  }

  lemma StepTracksSlot(s: State, a: Action)
    requires Inv(s) && SlotExplained(s) && (a.Incoming? && s.cb.Some? ==> Readable(a.event))
    ensures SlotExplained(Step(s, a))
  {
    hide Answers, Readable;
    if a.Incoming? {
      var answered := s.cb.Some? && Answers(a.event, s.opcode);
      var log := s.log + [if answered then ToCallback(s.cb.value, a.event) else ToClient(a.event)];
      assert forall i :: 0 <= i < |s.log| ==> log[i] == s.log[i];
      if answered {
        CallbackKeepsInv(s, a.event);
        assert log[|s.log|] == ToCallback(s.cb.value, a.event);
        DoTransmitsKeepsInv(Called(s, a.event), a.inner);
      }
    }
  }

  lemma {:induction false} RunTracksSlot(actions: seq<Action>)
    requires Legal(actions)
    ensures SlotExplained(Run(actions))
  {
    if actions != [] {
      hide Inv, SlotExplained, Step;
      var init := actions[..|actions| - 1];
      RunTracksSlot(init);
      RunRoutesEvents(init);
      StepTracksSlot(Run(init), actions[|actions| - 1]);
    }
  }

  /** The global slot with the code that fills and clears it. */
  class InternalCommand {
    var cb: Option<nat>
    var opcode: nat
    var writing: Option<Transmit>
    var transmits: seq<Transmit>
    var sent: seq<seq<byte>>
    var log: seq<Disposition>

    ghost function Abs(): State
      reads this
    {
      State(cb, opcode, writing, transmits, sent, log)
    }

    constructor ()
      ensures Abs() == START
    {
      cb, opcode, writing, transmits, sent, log := None, 0, None, [], [], [];
    }

    method StoreCallback(t: Transmit)
      modifies this`cb, this`transmits
      ensures Abs() == WriteCallback(old(Abs()), t)
    {
      cb := if t.hasCallback then Some(|transmits|) else None;
      transmits := transmits + [t];
    }

    method StoreOpcode(t: Transmit)
      modifies this`opcode, this`sent
      ensures Abs() == WriteOpcode(old(Abs()), t)
    {
      opcode := t.opcode;
      sent := sent + [t.command];
    }

    /** With nothing in between, as a callback on the thread of the events does it. */
    method TransmitCommand(t: Transmit)
      modifies this
      ensures Abs() == DoTransmit(old(Abs()), t)
    {
      StoreCallback(t);
      StoreOpcode(t);
    }

    method BeginTransmit(t: Transmit)
      requires writing.None?
      modifies this
      ensures Abs() == Step(old(Abs()), Action.BeginTransmit(t))
    {
      StoreCallback(t);
      writing := Some(t);
    }

    method EndTransmit()
      requires writing.Some?
      modifies this
      ensures Abs() == Step(old(Abs()), Action.EndTransmit)
    {
      StoreOpcode(writing.value);
      writing := None;
    }

    /** The saved callback runs after the slot is cleared and may transmit again. */
    method HandleIncomingEvent(event: seq<byte>, inner: seq<Transmit>)
      requires cb.Some? ==> Readable(event)
      modifies this
      ensures Abs() == HandleEvent(old(Abs()), event, inner)
    {
      if cb.Some? && Answers(event, opcode) {
        var saved := cb.value;
        cb := None;
        log := log + [ToCallback(saved, event)];
        ghost var called := Abs();
        for i := 0 to |inner|
          invariant DoTransmits(Abs(), inner[i..]) == DoTransmits(called, inner)
        {
          assert inner[i..][1..] == inner[i + 1..];
          TransmitCommand(inner[i]);
        }
      } else {
        log := log + [ToClient(event)];
      }
    }
  }
}
