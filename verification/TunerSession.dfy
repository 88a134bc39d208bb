/**
 * The tuner session: API calls, made under one lock, schedule tasks on a worker thread that pops a
 * task when it is due and runs it afterwards, so that a cancelled task may still be on its way.
 * Every interleaving of calls and worker steps is a run of the machine below.
 */
module TunerMachine {
  import opened Wrappers
  import opened Selectors
  import opened Stepping
  import opened StationNames
  import Seeking

  /** The fixed configuration of the module the session belongs to. */
  datatype Radio = Radio(bands: seq<Band>, programs: seq<Selector>, supportedTypes: seq<nat>)

  datatype Result = OK | INVALID_STATE | NOT_SUPPORTED | INVALID_ARGUMENTS | INTERNAL_ERROR

  /** What a task does: tune somewhere (tune, seek and step), report that a seek on an empty list
      never stopped, or send the program list. */
  datatype Work = TuneTo(target: Selector) | SeekTimeout | SendList(list: seq<Selector>, asked: Filter)

  datatype Task = Task(id: nat, due: nat, work: Work)

  datatype Callback = CurrentProgram(sel: Selector) | TuneFailed | ProgramList(list: seq<Selector>, asked: Filter)

  const SEEK_DELAY := 200
  const STEP_DELAY := 100
  const TUNE_DELAY := 150
  const LIST_DELAY := 1000

  const NO_SELECTOR := Selector(Identifier(INVALID, 0), [])

  /** `queue` and `inFlight` belong to the worker; `ran` records the tasks run so far. */
  datatype Session = Session(closed: bool, tuneCompleted: bool, current: Selector,
                             queue: seq<Task>, inFlight: Option<Task>, now: nat, nextId: nat,
                             ran: seq<nat>, callbacks: seq<Callback>)
  {
    function TuneInternal(radio: Radio, sel: Selector): Session {
      var landing := Landing(radio.programs, sel);
      this.(current := landing, tuneCompleted := true, callbacks := callbacks + [CurrentProgram(landing)])
    }

    function Schedule(work: Work, delay: nat): Session {
      this.(queue := queue + [Task(nextId, now + delay, work)], nextId := nextId + 1)
    }

    function CancelLocked(): Session {
      this.(queue := [], tuneCompleted := tuneCompleted || current.primaryId.type_ != INVALID)
    }

    /** Schedules a tuning task. */
    function Begin(work: Work, delay: nat): Session {
      this.(tuneCompleted := false).Schedule(work, delay)
    }

    function AmFmRange(radio: Radio): Option<Band> {
      if !tuneCompleted then None
      else match IdOf(current, AMFM_FREQUENCY) case None => None case Some(f) => BandOf(radio.bands, f)
    }

    function Tune(radio: Radio, sel: Selector): (Session, Result) {
      if closed then (this, INVALID_STATE)
      else if !exists t :: t in radio.supportedTypes && HasId(sel, t) then (this, NOT_SUPPORTED)
      else if !ValidSelector(sel) then (this, INVALID_ARGUMENTS)
      else (CancelLocked().Begin(TuneTo(sel), TUNE_DELAY), OK)
    }

    /** `list` is the program list as sorted by this call. */
    function Scan(up: bool, list: seq<Selector>): (Session, Result) {
      if closed then (this, INVALID_STATE)
      else if list == [] then (CancelLocked().Begin(SeekTimeout, SEEK_DELAY), OK)
      else (CancelLocked().Begin(TuneTo(list[Seeking.SeekIndex(list, current, up)]), SEEK_DELAY), OK)
    }

    function Step(radio: Radio, up: bool): (Session, Result) {
      if closed then (this, INVALID_STATE)
      else
        var s := CancelLocked();
        if !HasId(current, AMFM_FREQUENCY) then (s, NOT_SUPPORTED)
        else match s.AmFmRange(radio)
          case None => (s, INTERNAL_ERROR)
          case Some(band) =>
            (s.Begin(TuneTo(MakeAmFm(band.Step(GetId(current, AMFM_FREQUENCY, 0), up))), STEP_DELAY), OK)
    }

    function Cancel(): Session { if closed then this else CancelLocked() }

    /** `asked` is kept with the task and its callback to say which request they answer; the task
        itself captures the list that was not filtered. */
    function StartListUpdates(radio: Radio, asked: Filter): (Session, Result) {
      if closed then (this, INVALID_STATE) else (Schedule(SendList(radio.programs, asked), LIST_DELAY), OK)
    }

    function Close(): Session { if closed then this else this.(closed := true, queue := []) }

    /** The worker may take a task that is due and that no other task precedes. */
    predicate CanPop(i: nat) {
      inFlight.None? && i < |queue| && queue[i].due <= now && forall t :: t in queue ==> queue[i].due <= t.due
    }

    function Pop(i: nat): Session
      requires i < |queue|
    {
      this.(inFlight := Some(queue[i]), queue := queue[..i] + queue[i + 1..])
    }

    function Perform(radio: Radio): Session
      requires inFlight.Some?
    {
      var t := inFlight.value;
      var s := this.(inFlight := None, ran := ran + [t.id]);
      match t.work
      case TuneTo(sel) => s.TuneInternal(radio, sel)
      case SeekTimeout => s.(callbacks := callbacks + [TuneFailed])
      case SendList(list, asked) => s.(callbacks := callbacks + [ProgramList(list, asked)])
    }
  }

  function Initial(radio: Radio): Session {
    var s := Session(false, false, NO_SELECTOR, [], None, 0, 0, [], []);
    if radio.bands == [] then s else s.TuneInternal(radio, MakeAmFm(radio.bands[0].lower))
  }

  datatype Action =
    | Tune(sel: Selector) | Scan(up: bool, list: seq<Selector>) | Step(up: bool)
    | Cancel | StartListUpdates(filter: Filter) | Close
    | Tick(ms: nat) | Pop(i: nat) | Perform

  ghost predicate Enabled(radio: Radio, s: Session, a: Action) {
    match a
    case Scan(_, list) => Seeking.IsSortOf(list, radio.programs)
    case Pop(i) => s.CanPop(i)
    case Perform => s.inFlight.Some?
    case _ => true
  }

  ghost function Next(radio: Radio, s: Session, a: Action): Session
    requires Enabled(radio, s, a)
  {
    match a
    case Tune(sel) => s.Tune(radio, sel).0
    case Scan(up, list) => s.Scan(up, list).0
    case Step(up) => s.Step(radio, up).0
    case Cancel => s.Cancel()
    case StartListUpdates(filter) => s.StartListUpdates(radio, filter).0
    case Close => s.Close()
    case Tick(ms) => s.(now := s.now + ms)
    case Pop(i) => s.Pop(i)
    case Perform => s.Perform(radio)
  }

  /** `trace` is a run: consecutive states joined by enabled actions. */
  ghost predicate IsRun(radio: Radio, trace: seq<Session>, actions: seq<Action>) {
    && |trace| == |actions| + 1
    && forall k :: 0 <= k < |actions| ==>
         Enabled(radio, trace[k], actions[k]) && trace[k + 1] == Next(radio, trace[k], actions[k])
  }

  /** A session starts on the lower end of the first band, and tells the client so; without a band it
      starts on nothing. */
  lemma StartExactly(radio: Radio)
    ensures var s := Initial(radio);
      && !s.closed && s.queue == [] && s.inFlight.None? && s.ran == []
      && (radio.bands == [] ==> !s.tuneCompleted && s.current == Selector(Identifier(0, 0), []) && s.callbacks == [])
      && (radio.bands != [] ==>
            && s.tuneCompleted && s.callbacks == [CurrentProgram(s.current)]
            && IdOf(s.current, 1) == Some(radio.bands[0].lower))
  {
    if radio.bands != [] {
      StepLandsOnFrequency(radio.programs, radio.bands[0].lower);
    }
  }

  /** Tuning to a plain frequency is accepted exactly on an open session of a radio that supports
      type 1, between 101 kHz and 9999999 kHz. */
  lemma TuneAcceptedExactly(radio: Radio, s: Session, frequency: nat)
    requires frequency < 0x1_0000_0000
    ensures s.Tune(radio, MakeAmFm(frequency)).1 ==
      if s.closed then INVALID_STATE
      else if 1 !in radio.supportedTypes then NOT_SUPPORTED
      else if 101 <= frequency <= 9999999 then OK
      else INVALID_ARGUMENTS
  {
    hide IdOf;
    forall t: nat ensures HasId(MakeAmFm(frequency), t) <==> t == 1 { AmFmIdentifiers(frequency, t); }
    ValidIdExactly(1, frequency);
  }

  // ----- cancelling

  /** Every task waiting is newer than `n`, and so is the one in flight unless it is `late`. */
  ghost predicate OnlyNewer(s: Session, n: nat, late: Option<Task>) {
    && n <= s.nextId
    && (forall t :: t in s.queue ==> t.id >= n)
    && (s.inFlight.Some? ==> s.inFlight.value.id >= n || s.inFlight == late)
  }

  lemma StepKeepsOnlyNewer(radio: Radio, s: Session, a: Action, n: nat, late: Option<Task>)
    requires OnlyNewer(s, n, late) && Enabled(radio, s, a)
    ensures OnlyNewer(Next(radio, s, a), n, late)
    ensures var s' := Next(radio, s, a);
      s'.ran == s.ran || (s'.ran == s.ran + [s'.ran[|s.ran|]] &&
                          (s'.ran[|s.ran|] >= n || (late.Some? && s'.ran[|s.ran|] == late.value.id)))
  {
    if a.Pop? {
      var s' := Next(radio, s, a);
      assert forall t :: t in s'.queue ==> t in s.queue;
      assert s.queue[a.i] in s.queue;
    }
  }

  /** The calls that cancel: cancel itself, every accepted tune, seek or step, and close. */
  predicate Cancels(radio: Radio, s: Session, a: Action) {
    !s.closed &&
    match a
    case Cancel => true
    case Close => true
    case Scan(_, _) => true
    case Step(_) => true
    case Tune(sel) => s.Tune(radio, sel).1 == OK
    case _ => false
  }

  /** After a call that cancels, in every run, no task scheduled before it runs any more, except the
      one that was already in flight. */
  lemma {:induction false} CancelledTasksNeverRun(radio: Radio, trace: seq<Session>, actions: seq<Action>)
    requires IsRun(radio, trace, actions) && actions != [] && Cancels(radio, trace[0], actions[0])
    ensures var s, r := trace[0], trace[|actions|];
      && s.ran <= r.ran
      && OnlyNewer(r, s.nextId, s.inFlight)
      && forall k :: |s.ran| <= k < |r.ran| ==>
           r.ran[k] >= s.nextId || (s.inFlight.Some? && r.ran[k] == s.inFlight.value.id)
    decreases |actions|
  {
    hide Session.AmFmRange, HasId, IdOf, GetId, Band.Step, MakeAmFm, Seeking.SeekIndex, Landing;
    var last := |actions| - 1;
    if last == 0 {
      assert trace[1] == Next(radio, trace[0], actions[0]);
    } else {
      assert actions[..last][0] == actions[0];
      CancelledTasksNeverRun(radio, trace[..last + 1], actions[..last]);
      StepKeepsOnlyNewer(radio, trace[last], actions[last], trace[0].nextId, trace[0].inFlight);
    }
  }

  /** Identifiers are given out once. */
  ghost predicate UniqueIds(s: Session) {
    && (forall t :: t in s.queue ==> t.id < s.nextId && t.id !in s.ran)
    && (forall i, j :: 0 <= i < j < |s.queue| ==> s.queue[i].id != s.queue[j].id)
    && (s.inFlight.Some? ==> s.inFlight.value.id < s.nextId && s.inFlight.value.id !in s.ran
                             && forall t :: t in s.queue ==> t.id != s.inFlight.value.id)
    && (forall x :: x in s.ran ==> x < s.nextId)
    && (forall i, j :: 0 <= i < j < |s.ran| ==> s.ran[i] != s.ran[j])
  }

  lemma ScheduleKeepsUniqueIds(s: Session, work: Work, delay: nat)
    requires UniqueIds(s)
    ensures UniqueIds(s.Schedule(work, delay))
    ensures UniqueIds(s.CancelLocked())
    ensures UniqueIds(s.CancelLocked().Begin(work, delay))
  {
  }

  lemma PopKeepsUniqueIds(s: Session, i: nat)
    requires UniqueIds(s) && s.CanPop(i)
    ensures UniqueIds(s.Pop(i))
  {
    var s' := s.Pop(i);
    assert s.queue[i] in s.queue;
    assert forall j :: 0 <= j < |s'.queue| ==> s'.queue[j] == s.queue[if j < i then j else j + 1];
    assert forall t :: t in s'.queue ==> t in s.queue;
  }

  lemma PerformKeepsUniqueIds(radio: Radio, s: Session)
    requires UniqueIds(s) && s.inFlight.Some?
    ensures UniqueIds(s.Perform(radio))
  {
    hide Landing;
    var s' := s.Perform(radio);
    assert s'.queue == s.queue && s'.ran == s.ran + [s.inFlight.value.id] && s'.nextId == s.nextId;
  }

  lemma StepKeepsUniqueIds(radio: Radio, s: Session, a: Action)
    requires UniqueIds(s) && Enabled(radio, s, a)
    ensures UniqueIds(Next(radio, s, a))
  {
    hide UniqueIds, Session.AmFmRange, HasId, IdOf, GetId, Band.Step, MakeAmFm, Seeking.SeekIndex, ValidSelector,
      Session.CancelLocked, Session.Begin, Session.Schedule, Session.Pop, Session.Perform;
    match a
    case Tune(sel) => ScheduleKeepsUniqueIds(s, TuneTo(sel), TUNE_DELAY);
    case Scan(up, list) =>
      ScheduleKeepsUniqueIds(s, if list == [] then SeekTimeout else TuneTo(list[Seeking.SeekIndex(list, s.current, up)]), SEEK_DELAY);
    case Step(up) =>
      var range := s.CancelLocked().AmFmRange(radio);
      var to := if range.None? then 0 else range.value.Step(GetId(s.current, AMFM_FREQUENCY, 0), up);
      ScheduleKeepsUniqueIds(s, TuneTo(MakeAmFm(to)), STEP_DELAY);
    case StartListUpdates(filter) => ScheduleKeepsUniqueIds(s, SendList(radio.programs, filter), LIST_DELAY);
    case Cancel => ScheduleKeepsUniqueIds(s, SeekTimeout, 0);
    case Close => CloseKeepsUniqueIds(s);
    case Tick(ms) => TickKeepsUniqueIds(s, ms);
    case Pop(i) => PopKeepsUniqueIds(s, i);
    case Perform => PerformKeepsUniqueIds(radio, s);
  }

  lemma CloseKeepsUniqueIds(s: Session)
    requires UniqueIds(s)
    ensures UniqueIds(s.Close())
  {
  }

  lemma TickKeepsUniqueIds(s: Session, ms: nat)
    requires UniqueIds(s)
    ensures UniqueIds(s.(now := s.now + ms))
  {
  }

  /** No task ever runs twice. */
  lemma {:induction false} NoTaskRunsTwice(radio: Radio, trace: seq<Session>, actions: seq<Action>)
    requires IsRun(radio, trace, actions) && trace[0] == Initial(radio)
    ensures UniqueIds(trace[|actions|])
    decreases |actions|
  {
    if actions != [] {
      var last := |actions| - 1;
      NoTaskRunsTwice(radio, trace[..last + 1], actions[..last]);
      StepKeepsUniqueIds(radio, trace[last], actions[last]);
    }
  }

  // ----- closing

  ghost predicate ClosedAt(s: Session, before: Session) {
    && s.closed && s.queue == []
    && (s.inFlight.None? || s.inFlight == before.inFlight)
    && |s.callbacks| <= |before.callbacks| + (if before.inFlight.Some? && s.inFlight.None? then 1 else 0)
    && (s.inFlight == before.inFlight ==> s.callbacks == before.callbacks && s.current == before.current)
  }

  /** After close, in every run, at most one more callback reaches the client, and once the task in
      flight has ended the current program never changes again. */
  lemma {:induction false} NothingAfterClose(radio: Radio, trace: seq<Session>, actions: seq<Action>, k: nat)
    requires IsRun(radio, trace, actions) && actions != [] && actions[0] == Close && !trace[0].closed
    requires 1 <= k <= |actions|
    ensures ClosedAt(trace[k], trace[0])
    ensures trace[k].inFlight.None? ==>
      forall j :: k <= j <= |actions| ==> trace[j].current == trace[k].current && trace[j].callbacks == trace[k].callbacks
    decreases k
  {
    assert trace[1] == Next(radio, trace[0], actions[0]);
    if k > 1 {
      NothingAfterClose(radio, trace, actions, k - 1);
      assert trace[k] == Next(radio, trace[k - 1], actions[k - 1]);
    }
    if trace[k].inFlight.None? {
      QuietRun(radio, trace, actions, k, |actions|);
    }
  }

  lemma {:induction false} QuietRun(radio: Radio, trace: seq<Session>, actions: seq<Action>, k: nat, j: nat)
    requires IsRun(radio, trace, actions) && k <= j <= |actions|
    requires trace[k].closed && trace[k].queue == [] && trace[k].inFlight.None?
    ensures trace[j].closed && trace[j].queue == [] && trace[j].inFlight.None?
    ensures forall i :: k <= i <= j ==> trace[i].current == trace[k].current && trace[i].callbacks == trace[k].callbacks
    decreases j
  {
    if k < j {
      QuietRun(radio, trace, actions, k, j - 1);
      assert trace[j] == Next(radio, trace[j - 1], actions[j - 1]);
    }
  }

  // ----- the tune-completed flag

  ghost predicate UsablePrograms(radio: Radio) {
    forall p :: p in radio.programs ==> p.primaryId.type_ != INVALID
  }

  predicate Tuning(t: Task) { !t.work.SendList? }

  /** A tune, seek or step is queued or in flight. */
  ghost predicate TuningPending(s: Session) {
    (exists t :: t in s.queue && Tuning(t)) || (s.inFlight.Some? && Tuning(s.inFlight.value))
  }

  /** Every selector the session is on or heading for has a valid type, except before any tuning. */
  ghost predicate Targets(radio: Radio, s: Session) {
    && (s.current.primaryId.type_ != INVALID || s.current == NO_SELECTOR)
    && (forall t :: t in s.queue && t.work.TuneTo? ==> t.work.target.primaryId.type_ != INVALID)
    && (s.inFlight.Some? && s.inFlight.value.work.TuneTo? ==>
          s.inFlight.value.work.target.primaryId.type_ != INVALID)
  }

  lemma LandingIsValid(radio: Radio, sel: Selector)
    requires UsablePrograms(radio) && sel.primaryId.type_ != INVALID
    ensures Landing(radio.programs, sel).primaryId.type_ != INVALID
  {
    FirstTunedIsProgram(radio.programs, sel);
  }

  lemma StepKeepsTargets(radio: Radio, s: Session, a: Action)
    requires UsablePrograms(radio) && Targets(radio, s) && Enabled(radio, s, a)
    ensures Targets(radio, Next(radio, s, a))
  {
    hide Session.AmFmRange, HasId, IdOf, GetId, Band.Step, Seeking.SeekIndex, Landing;
    match a
    case Pop(i) =>
      assert forall t :: t in Next(radio, s, a).queue ==> t in s.queue;
      assert s.queue[i] in s.queue;
    case Perform =>
      if s.inFlight.value.work.TuneTo? {
        LandingIsValid(radio, s.inFlight.value.work.target);
      }
    case Tune(sel) =>
      assert ValidSelector(sel) ==> sel.primaryId.type_ != INVALID;
    case Scan(up, list) =>
      if list != [] {
        var p := list[Seeking.SeekIndex(list, s.current, up)];
        assert p in multiset(radio.programs);
        assert p in radio.programs;
      }
    case _ =>
  }

  lemma {:induction false} RunKeepsTargets(radio: Radio, trace: seq<Session>, actions: seq<Action>)
    requires IsRun(radio, trace, actions) && trace[0] == Initial(radio) && UsablePrograms(radio)
    ensures Targets(radio, trace[|actions|])
    decreases |actions|
  {
    if actions == [] {
      if radio.bands != [] {
        LandingIsValid(radio, MakeAmFm(radio.bands[0].lower));
      }
    } else {
      var last := |actions| - 1;
      RunKeepsTargets(radio, trace[..last + 1], actions[..last]);
      StepKeepsTargets(radio, trace[last], actions[last]);
    }
  }

  /** The flag is true whenever an open session has nothing to tune to, and the session is on some
      program or frequency. */
  ghost predicate Settled(s: Session) {
    && s.current.primaryId.type_ != INVALID
    && (!s.closed && !TuningPending(s) ==> s.tuneCompleted)
    && (forall t :: t in s.queue ==> !t.work.SeekTimeout?)
    && (s.inFlight.Some? ==> !s.inFlight.value.work.SeekTimeout?)
  }

  lemma StepKeepsSettled(radio: Radio, s: Session, a: Action)
    requires UsablePrograms(radio) && radio.programs != [] && Targets(radio, s) && Settled(s) && Enabled(radio, s, a)
    ensures Settled(Next(radio, s, a))
  {
    hide Session.AmFmRange, HasId, IdOf, GetId, Band.Step, MakeAmFm, Seeking.SeekIndex, Landing, ValidSelector;
    var s' := Next(radio, s, a);
    match a
    case Pop(i) =>
      PopMoves(s, i);
    case Perform =>
      if s.inFlight.value.work.TuneTo? {
        LandingIsValid(radio, s.inFlight.value.work.target);
      }
    case StartListUpdates(_) =>
      assert forall t :: t in s.queue ==> !s.closed ==> t in s'.queue;
    case Scan(up, list) =>
      assert multiset(list) == multiset(radio.programs);
      assert |list| == |multiset(list)| == |multiset(radio.programs)| == |radio.programs|;
      BeginPends(s.CancelLocked());
    case Tune(sel) => BeginPends(s.CancelLocked());
    case Step(up) => BeginPends(s.CancelLocked());
    case _ =>
  }

  lemma PopMoves(s: Session, i: nat)
    requires i < |s.queue|
    ensures forall t :: t in s.queue <==> t in s.Pop(i).queue || t == s.queue[i]
  {
    assert s.queue == s.queue[..i] + [s.queue[i]] + s.queue[i + 1..];
  }

  lemma BeginPends(s: Session)
    ensures forall work: Work, delay: nat :: !work.SendList? ==> TuningPending(s.Begin(work, delay))
  {
    forall work: Work, delay: nat | !work.SendList?
      ensures TuningPending(s.Begin(work, delay))
    {
      var t := Task(s.nextId, s.now + delay, work);
      assert t in s.Begin(work, delay).queue && Tuning(t);
    }
  }

  lemma {:induction false} RunSettles(radio: Radio, trace: seq<Session>, actions: seq<Action>)
    requires IsRun(radio, trace, actions) && trace[0] == Initial(radio) && UsablePrograms(radio)
    requires radio.bands != [] && radio.programs != []
    ensures Settled(trace[|actions|])
    decreases |actions|
  {
    if actions == [] {
      LandingIsValid(radio, MakeAmFm(radio.bands[0].lower));
    } else {
      var last := |actions| - 1;
      RunSettles(radio, trace[..last + 1], actions[..last]);
      RunKeepsTargets(radio, trace[..last + 1], actions[..last]);
      StepKeepsSettled(radio, trace[last], actions[last]);
    }
  }

  ghost predicate AlwaysSettled(radio: Radio) {
    forall trace: seq<Session>, actions: seq<Action> :: IsRun(radio, trace, actions) && trace[0] == Initial(radio) ==>
      var s := trace[|actions|];
      !s.closed && !TuningPending(s) ==> s.tuneCompleted
  }

  /** In every run the flag is true while no tuning is pending, exactly if the module has a band and
      a program: without a band the first program is never set, and without a program a seek that
      timed out leaves the flag false. */
  lemma SettledExactly(radio: Radio)
    requires UsablePrograms(radio)
    ensures AlwaysSettled(radio) <==> radio.bands != [] && radio.programs != []
  {
    if radio.bands != [] && radio.programs != [] {
      forall trace: seq<Session>, actions: seq<Action> | IsRun(radio, trace, actions) && trace[0] == Initial(radio)
        ensures var s := trace[|actions|]; !s.closed && !TuningPending(s) ==> s.tuneCompleted
      {
        RunSettles(radio, trace, actions);
      }
    } else if radio.bands == [] {
      assert IsRun(radio, [Initial(radio)], []);
      assert [Initial(radio)][0] == Initial(radio);
    } else {
      var trace, actions := TimedOutSeek(radio);
    }
  }

  /** From the start, one call that schedules one task, the time it takes, and the task. */
  lemma OneTaskRun(radio: Radio, a: Action, task: Task) returns (trace: seq<Session>, actions: seq<Action>)
    requires Enabled(radio, Initial(radio), a)
    requires var s := Next(radio, Initial(radio), a); s.queue == [task] && s.inFlight.None? && s.now == 0
    ensures IsRun(radio, trace, actions) && trace[0] == Initial(radio)
    ensures trace[|actions|] == Next(radio, Initial(radio), a)
      .(queue := [], inFlight := Some(task), now := task.due).Perform(radio)
  {
    hide Initial, Session.Perform;
    var s0 := Initial(radio);
    var s1 := Next(radio, s0, a);
    var s2 := s1.(now := task.due);
    var s3 := s2.(queue := [], inFlight := Some(task));
    TaskPops(s2, task);
    trace := [s0, s1, s2, s3, s3.Perform(radio)];
    actions := [a, Tick(task.due), Action.Pop(0), Action.Perform];
    FourSteps(radio, trace, actions);
  }

  lemma TaskPops(s: Session, task: Task)
    requires s.queue == [task] && s.inFlight.None? && task.due <= s.now
    ensures s.CanPop(0) && s.Pop(0) == s.(queue := [], inFlight := Some(task))
  {
  }

  lemma FourSteps(radio: Radio, trace: seq<Session>, actions: seq<Action>)
    requires |trace| == 5 && |actions| == 4
    requires Enabled(radio, trace[0], actions[0]) && trace[1] == Next(radio, trace[0], actions[0])
    requires Enabled(radio, trace[1], actions[1]) && trace[2] == Next(radio, trace[1], actions[1])
    requires Enabled(radio, trace[2], actions[2]) && trace[3] == Next(radio, trace[2], actions[2])
    requires Enabled(radio, trace[3], actions[3]) && trace[4] == Next(radio, trace[3], actions[3])
    ensures IsRun(radio, trace, actions)
  {
    hide Next, Enabled;
  }

  /** Seeking on an empty list, waiting and running the task leaves the flag false. */
  lemma TimedOutSeek(radio: Radio) returns (trace: seq<Session>, actions: seq<Action>)
    requires radio.programs == []
    ensures IsRun(radio, trace, actions) && trace[0] == Initial(radio)
    ensures var s := trace[|actions|]; !s.closed && !TuningPending(s) && !s.tuneCompleted
  {
    hide Landing;
    assert Seeking.IsSortOf([], radio.programs);
    trace, actions := OneTaskRun(radio, Scan(true, []), Task(0, SEEK_DELAY, SeekTimeout));
  }

  /** Whatever the configuration, the branch for a tune still in process is never taken by step: its
      own cancellation has completed the tune before the band is looked up.  So a step is accepted
      exactly if the session is open and its current frequency lies in some band. */
  lemma StepNeverFindsTuneInProcess(radio: Radio, trace: seq<Session>, actions: seq<Action>, up: bool)
    requires IsRun(radio, trace, actions) && trace[0] == Initial(radio) && UsablePrograms(radio)
    ensures var s := trace[|actions|];
      && (HasId(s.current, AMFM_FREQUENCY) ==> s.CancelLocked().tuneCompleted)
      && (s.Step(radio, up).1 == OK <==>
            !s.closed && HasId(s.current, AMFM_FREQUENCY)
            && BandOf(radio.bands, GetId(s.current, AMFM_FREQUENCY, 0)).Some?)
  {
    RunKeepsTargets(radio, trace, actions);
    assert IdOf(NO_SELECTOR, AMFM_FREQUENCY) == None by {
      var all := [NO_SELECTOR.primaryId] + NO_SELECTOR.secondaryIds;
      assert all[1..] == [];
      assert FirstOfType(all, AMFM_FREQUENCY) == FirstOfType(all[1..], AMFM_FREQUENCY) == None;
    }
  }

  // ----- the program list

  ghost predicate WholeLists(radio: Radio, s: Session) {
    && (forall t :: t in s.queue && t.work.SendList? ==> t.work.list == radio.programs)
    && (s.inFlight.Some? && s.inFlight.value.work.SendList? ==> s.inFlight.value.work.list == radio.programs)
    && (forall c :: c in s.callbacks && c.ProgramList? ==> c.list == radio.programs)
  }

  /** In every run each list that answers this request is the filtered one. */
  ghost predicate Honoured(radio: Radio, filter: Filter) {
    forall trace: seq<Session>, actions: seq<Action>, c ::
      IsRun(radio, trace, actions) && trace[0] == Initial(radio)
      && c in trace[|actions|].callbacks && c.ProgramList? && c.asked == filter
      ==> c.list == Filtered(filter, radio.programs)
  }

  /** The client gets the list it asked for, in every run, exactly if every program of the radio
      satisfies the filter: the list is filtered and then the unfiltered one is sent. */
  lemma HonouredExactly(radio: Radio, filter: Filter)
    ensures Honoured(radio, filter) <==> forall p :: p in radio.programs ==> Satisfies(filter, p)
  {
    hide Satisfies, Filtered, Next, Enabled, Initial;
    FilteredIsWhole(filter, radio.programs);
    if forall p :: p in radio.programs ==> Satisfies(filter, p) {
      forall trace: seq<Session>, actions: seq<Action>, c |
        IsRun(radio, trace, actions) && trace[0] == Initial(radio)
        && c in trace[|actions|].callbacks && c.ProgramList? && c.asked == filter
        ensures c.list == Filtered(filter, radio.programs)
      {
        ListsAreWhole(radio, trace, actions);
      }
    } else {
      var trace, actions, c := AnsweredRequest(radio, filter);
      assert c.list != Filtered(filter, radio.programs);
    }
  }

  /** A run in which a request is answered. */
  lemma AnsweredRequest(radio: Radio, filter: Filter)
      returns (trace: seq<Session>, actions: seq<Action>, c: Callback)
    ensures IsRun(radio, trace, actions) && trace[0] == Initial(radio)
    ensures c in trace[|actions|].callbacks && c == ProgramList(radio.programs, filter)
  {
    hide Landing;
    trace, actions := OneTaskRun(radio, StartListUpdates(filter), Task(0, LIST_DELAY, SendList(radio.programs, filter)));
    c := ProgramList(radio.programs, filter);
    var callbacks := trace[|actions|].callbacks;
    assert callbacks[|callbacks| - 1] == c;
  }

  /** Asking the built-in AM/FM radio for digital stations gets all seven analogue ones instead of
      none. */
  lemma AnalogueListForDigitalRequest(bands: seq<Band>, supported: seq<nat>)
    ensures var filter := Filter([DAB_SID_EXT], [], true);
      Filtered(filter, AM_FM_PROGRAMS) == [] && !Honoured(Radio(bands, AM_FM_PROGRAMS, supported), filter)
  {
    hide Satisfies, Filtered, Honoured, AM_FM_PROGRAMS;
    var filter := Filter([DAB_SID_EXT], [], true);
    HonouredExactly(Radio(bands, AM_FM_PROGRAMS, supported), filter);
    NoDigitalStation(filter);
    NoneSatisfies(filter, AM_FM_PROGRAMS);
    assert AM_FM_PROGRAMS[0] in AM_FM_PROGRAMS;
  }

  lemma NoDigitalStation(filter: Filter)
    requires filter.identifierTypes == [DAB_SID_EXT]
    ensures |AM_FM_PROGRAMS| == 7
    ensures forall i :: 0 <= i < |AM_FM_PROGRAMS| ==> !Satisfies(filter, AM_FM_PROGRAMS[i])
  {
    hide AM_FM_PROGRAMS;
    assert |AM_FM_PROGRAMS| == 7 && AllAnalogue(AM_FM_PROGRAMS) by { AmFmIsAnalogue(); }
    forall i | 0 <= i < |AM_FM_PROGRAMS|
      ensures !Satisfies(filter, AM_FM_PROGRAMS[i])
    {
      assert Identifiers(AM_FM_PROGRAMS[i]) == [AM_FM_PROGRAMS[i].primaryId];
    }
  }

  predicate AllAnalogue(programs: seq<Selector>) {
    forall i :: 0 <= i < |programs| ==> programs[i].primaryId.type_ == AMFM_FREQUENCY && programs[i].secondaryIds == []
  }

  lemma AmFmIsAnalogue()
    ensures |AM_FM_PROGRAMS| == 7 && AllAnalogue(AM_FM_PROGRAMS)
  {
  }

  lemma {:induction false} NoneSatisfies(filter: Filter, programs: seq<Selector>)
    requires forall i :: 0 <= i < |programs| ==> !Satisfies(filter, programs[i])
    ensures Filtered(filter, programs) == []
  {
    if programs != [] {
      NoneSatisfies(filter, programs[1..]);
    }
  }

  /** In every run each program list sent to the client is the whole list of the radio. */
  lemma {:induction false} ListsAreWhole(radio: Radio, trace: seq<Session>, actions: seq<Action>)
    requires IsRun(radio, trace, actions) && trace[0] == Initial(radio)
    ensures WholeLists(radio, trace[|actions|])
    decreases |actions|
  {
    hide WholeLists, Next, Enabled;
    if actions == [] {
      InitialLists(radio);
    } else {
      var last := |actions| - 1;
      ListsAreWhole(radio, trace[..last + 1], actions[..last]);
      assert Enabled(radio, trace[last], actions[last]);
      StepKeepsLists(radio, trace[last], actions[last]);
    }
  }

  lemma InitialLists(radio: Radio)
    ensures WholeLists(radio, Initial(radio))
  {
  }

  lemma StepKeepsLists(radio: Radio, s: Session, a: Action)
    requires WholeLists(radio, s) && Enabled(radio, s, a)
    ensures WholeLists(radio, Next(radio, s, a))
  {
    hide Session.AmFmRange, HasId, IdOf, GetId, Band.Step, MakeAmFm, Seeking.SeekIndex, Landing, ValidSelector;
    if a.Pop? {
      PopMoves(s, a.i);
    }
  }

  // ----- the last call wins

  /** The task waits alone among the tuning tasks, or is in flight, or its tuning is the last one
      done and the client has been told since callback number `since`. */
  ghost predicate Waiting(s: Session, task: Task) {
    exists i :: 0 <= i < |s.queue| && s.queue[i] == task &&
      forall j :: 0 <= j < |s.queue| && j != i ==> !Tuning(s.queue[j])
  }

  ghost predicate NoneWaiting(s: Session) {
    forall j :: 0 <= j < |s.queue| ==> !Tuning(s.queue[j])
  }

  ghost predicate Arrived(radio: Radio, s: Session, task: Task, target: Selector, since: nat) {
    && task.due <= s.now
    && (s.inFlight.Some? ==> !Tuning(s.inFlight.value))
    && s.current == Landing(radio.programs, target) && s.tuneCompleted
    && exists k :: since <= k < |s.callbacks| && s.callbacks[k] == CurrentProgram(s.current)
  }

  ghost predicate Heading(radio: Radio, s: Session, task: Task, target: Selector, since: nat) {
    && since <= |s.callbacks|
    && (Waiting(s, task) || (NoneWaiting(s) && ((s.inFlight == Some(task) && task.due <= s.now) || Arrived(radio, s, task, target, since))))
  }

  /** The steps of the worker and of time, and requests for the program list. */
  predicate NoNewTuning(a: Action) { a.Tick? || a.Pop? || a.Perform? || a.StartListUpdates? }

  lemma StepKeepsHeading(radio: Radio, s: Session, a: Action, task: Task, target: Selector, since: nat)
    requires task.work == TuneTo(target)
    requires Heading(radio, s, task, target, since) && Enabled(radio, s, a) && NoNewTuning(a)
    ensures Heading(radio, Next(radio, s, a), task, target, since)
  {
    hide Landing;
    var s' := Next(radio, s, a);
    match a
    case Tick(_) =>
      assert s'.queue == s.queue;
    case StartListUpdates(_) =>
      assert forall j :: 0 <= j < |s.queue| ==> s'.queue[j] == s.queue[j];
    case Pop(i) => PopKeepsHeading(radio, s, i, task, target, since);
    case Perform => PerformKeepsHeading(radio, s, task, target, since);
  }

  lemma PopKeepsHeading(radio: Radio, s: Session, i: nat, task: Task, target: Selector, since: nat)
    requires task.work == TuneTo(target)
    requires Heading(radio, s, task, target, since) && s.CanPop(i)
    ensures Heading(radio, s.Pop(i), task, target, since)
  {
    hide Landing;
    var s' := s.Pop(i);
    assert forall j :: 0 <= j < |s'.queue| ==> s'.queue[j] == s.queue[if j < i then j else j + 1];
    if Waiting(s, task) {
      var k :| 0 <= k < |s.queue| && s.queue[k] == task &&
        forall j :: 0 <= j < |s.queue| && j != k ==> !Tuning(s.queue[j]);
      if k != i {
        assert s'.queue[if k < i then k else k - 1] == task;
      }
    }
  }

  lemma PerformKeepsHeading(radio: Radio, s: Session, task: Task, target: Selector, since: nat)
    requires task.work == TuneTo(target)
    requires Heading(radio, s, task, target, since) && s.inFlight.Some?
    ensures Heading(radio, s.Perform(radio), task, target, since)
  {
    hide Landing;
    var s' := s.Perform(radio);
    assert s'.queue == s.queue;
    if s.inFlight == Some(task) {
      assert s'.callbacks[|s.callbacks|] == CurrentProgram(s'.current);
    }
    if Arrived(radio, s, task, target, since) {
      assert forall k :: 0 <= k < |s.callbacks| ==> s'.callbacks[k] == s.callbacks[k];
    }
  }

  lemma {:induction false} RunKeepsHeading(radio: Radio, trace: seq<Session>, actions: seq<Action>,
                                           task: Task, target: Selector, since: nat)
    requires IsRun(radio, trace, actions) && forall a :: a in actions ==> NoNewTuning(a)
    requires task.work == TuneTo(target) && Heading(radio, trace[0], task, target, since)
    ensures Heading(radio, trace[|actions|], task, target, since)
    decreases |actions|
  {
    hide Heading;
    if actions != [] {
      var last := |actions| - 1;
      assert forall a :: a in actions[..last] ==> a in actions;
      RunKeepsHeading(radio, trace[..last + 1], actions[..last], task, target, since);
      assert actions[last] in actions;
      StepKeepsHeading(radio, trace[last], actions[last], task, target, since);
    }
  }

  /** What an accepted call heads for. */
  function TargetOf(radio: Radio, s: Session, a: Action): Selector {
    match a
    case Tune(sel) => sel
    case Scan(up, list) => if list == [] then s.current else list[Seeking.SeekIndex(list, s.current, up)]
    case Step(up) =>
      var f := GetId(s.current, AMFM_FREQUENCY, 0);
      var band := BandOf(radio.bands, f);
      if band.None? then s.current else MakeAmFm(band.value.Step(f, up))
    case _ => s.current
  }

  predicate Accepted(radio: Radio, s: Session, a: Action) {
    match a
    case Tune(sel) => s.Tune(radio, sel).1 == OK
    case Scan(up, list) => list != [] && s.Scan(up, list).1 == OK
    case Step(up) => s.Step(radio, up).1 == OK
    case _ => false
  }

  /** How long each kind of call takes at least. */
  function DelayOf(a: Action): nat {
    match a
    case Tune(_) => TUNE_DELAY
    case Scan(_, _) => SEEK_DELAY
    case Step(_) => STEP_DELAY
    case _ => 0
  }

  /** In milliseconds. */
  lemma DelaysExactly(a: Action)
    ensures DelayOf(a) == if a.Tune? then 150 else if a.Scan? then 200 else if a.Step? then 100 else 0
    ensures LIST_DELAY == 1000
  {
  }

  lemma AcceptedHeads(radio: Radio, s: Session, a: Action)
    requires Enabled(radio, s, a) && Accepted(radio, s, a)
    ensures exists task: Task ::
              && task.due == s.now + DelayOf(a) && task.work == TuneTo(TargetOf(radio, s, a))
              && Heading(radio, Next(radio, s, a), task, TargetOf(radio, s, a), |s.callbacks|)
  {
    hide HasId, BandOf, Band.Step, MakeAmFm, Seeking.SeekIndex, Landing, ValidSelector;
    var s' := Next(radio, s, a);
    var task := Task(s.nextId, s.now + DelayOf(a), TuneTo(TargetOf(radio, s, a)));
    assert s'.queue == [task];
    assert s'.queue[0] == task;
    assert Waiting(s', task);
  }

  /** After an accepted tune, seek or step, however the worker is scheduled and whatever was in flight
      before: once no tuning is pending any more, the session is where that call headed, the client
      has been told so since the call, and the delay of the call has passed. */
  lemma LastCallWins(radio: Radio, trace: seq<Session>, actions: seq<Action>)
    requires IsRun(radio, trace, actions) && actions != [] && Accepted(radio, trace[0], actions[0])
    requires forall k :: 1 <= k < |actions| ==> NoNewTuning(actions[k])
    requires !TuningPending(trace[|actions|])
    ensures var s := trace[|actions|];
      && s.current == Landing(radio.programs, TargetOf(radio, trace[0], actions[0]))
      && s.tuneCompleted
      && s.now >= trace[0].now + DelayOf(actions[0])
      && exists k :: |trace[0].callbacks| <= k < |s.callbacks| && s.callbacks[k] == CurrentProgram(s.current)
  {
    hide Accepted, TargetOf, Landing;
    var target, since := TargetOf(radio, trace[0], actions[0]), |trace[0].callbacks|;
    assert trace[1] == Next(radio, trace[0], actions[0]);
    AcceptedHeads(radio, trace[0], actions[0]);
    var task: Task :| task.due == trace[0].now + DelayOf(actions[0]) && task.work == TuneTo(target) && Heading(radio, trace[1], task, target, since);
    SuffixIsRun(radio, trace, actions);
    assert forall a :: a in actions[1..] ==> NoNewTuning(a);
    RunKeepsHeading(radio, trace[1..], actions[1..], task, target, since);
    var s := trace[|actions|];
    assert trace[1..][|actions| - 1] == s;
    assert forall j :: 0 <= j < |s.queue| ==> s.queue[j] in s.queue;
  }

  lemma SuffixIsRun(radio: Radio, trace: seq<Session>, actions: seq<Action>)
    requires IsRun(radio, trace, actions) && actions != []
    ensures IsRun(radio, trace[1..], actions[1..])
  {
    hide Next, Enabled;
    var t, u := trace[1..], actions[1..];
    forall k | 0 <= k < |u|
      ensures Enabled(radio, t[k], u[k]) && t[k + 1] == Next(radio, t[k], u[k])
    {
      assert t[k] == trace[k + 1] && u[k] == actions[k + 1] && t[k + 1] == trace[k + 2];
    }
  }

  // ----- the worker keeps the order of the due times

  /** `b` has not overtaken `a`. */
  ghost predicate InOrder(s: Session, a: Task, b: Task) {
    && UniqueIds(s)
    && (a.id in s.ran || (b in s.queue && (a in s.queue || s.inFlight == Some(a))))
    && forall j :: 0 <= j < |s.ran| && s.ran[j] == b.id ==> a.id in s.ran[..j]
  }

  lemma PopKeepsInOrder(s: Session, a: Task, b: Task, i: nat)
    requires InOrder(s, a, b) && a.due < b.due && s.CanPop(i)
    ensures InOrder(s.Pop(i), a, b)
  {
    hide UniqueIds;
    PopKeepsUniqueIds(s, i);
    PopMoves(s, i);
  }

  lemma PerformKeepsInOrder(radio: Radio, s: Session, a: Task, b: Task)
    requires InOrder(s, a, b) && s.inFlight.Some?
    ensures InOrder(s.Perform(radio), a, b)
  {
    hide Landing;
    PerformKeepsUniqueIds(radio, s);
    var r := s.Perform(radio);
    assert r.ran == s.ran + [s.inFlight.value.id] && r.queue == s.queue;
    assert r.ran[..|s.ran|] == s.ran;
    assert forall j :: 0 <= j < |s.ran| ==> r.ran[..j] == s.ran[..j];
  }

  lemma StepKeepsInOrder(radio: Radio, s: Session, x: Action, a: Task, b: Task)
    requires InOrder(s, a, b) && a.due < b.due && Enabled(radio, s, x) && NoNewTuning(x)
    ensures InOrder(Next(radio, s, x), a, b)
  {
    hide UniqueIds, Landing;
    StepKeepsUniqueIds(radio, s, x);
    match x
    case Pop(i) => PopKeepsInOrder(s, a, b, i);
    case Perform => PerformKeepsInOrder(radio, s, a, b);
    case _ =>
  }

  /** Of two waiting tasks that nothing cancels, the one due earlier runs first, in every run. */
  lemma {:induction false} EarlierRunsFirst(radio: Radio, trace: seq<Session>, actions: seq<Action>, a: Task, b: Task)
    requires IsRun(radio, trace, actions) && forall x :: x in actions ==> NoNewTuning(x)
    requires UniqueIds(trace[0]) && a in trace[0].queue && b in trace[0].queue && a.due < b.due
    ensures var ran := trace[|actions|].ran;
      && InOrder(trace[|actions|], a, b)
      && forall j :: 0 <= j < |ran| && ran[j] == b.id ==> a.id in ran[..j]
    decreases |actions|
  {
    hide UniqueIds, Next, Enabled, NoNewTuning;
    if actions == [] {
      assert b.id !in trace[0].ran by { WaitingHasNotRun(trace[0], b); }
    } else {
      var last := |actions| - 1;
      assert forall x :: x in actions[..last] ==> x in actions;
      EarlierRunsFirst(radio, trace[..last + 1], actions[..last], a, b);
      assert actions[last] in actions;
      StepKeepsInOrder(radio, trace[last], actions[last], a, b);
    }
  }

  lemma WaitingHasNotRun(s: Session, t: Task)
    requires UniqueIds(s) && t in s.queue
    ensures t.id !in s.ran
  {
  }

  // ----- the worker can always finish

  predicate WorkerStep(a: Action) { a.Tick? || a.Pop? || a.Perform? }

  lemma {:induction false} Earliest(queue: seq<Task>) returns (i: nat)
    requires queue != []
    ensures i < |queue| && forall t :: t in queue ==> queue[i].due <= t.due
  {
    var last := |queue| - 1;
    i := last;
    if last > 0 {
      var j := Earliest(queue[..last]);
      if queue[j].due <= queue[last].due {
        i := j;
      }
      assert forall t :: t in queue ==> t in queue[..last] || t == queue[last];
    }
  }

  lemma PrependRun(radio: Radio, s: Session, a: Action, trace: seq<Session>, actions: seq<Action>)
    requires IsRun(radio, trace, actions) && Enabled(radio, s, a) && trace[0] == Next(radio, s, a)
    ensures IsRun(radio, [s] + trace, [a] + actions)
  {
    hide Next, Enabled;
    var t, u := [s] + trace, [a] + actions;
    forall k | 0 <= k < |u|
      ensures Enabled(radio, t[k], u[k]) && t[k + 1] == Next(radio, t[k], u[k])
    {
      if k > 0 {
        assert t[k] == trace[k - 1] && u[k] == actions[k - 1] && t[k + 1] == trace[k];
      }
    }
  }

  /** From every session some steps of the worker and of time leave nothing queued or in flight. */
  lemma {:induction false} Drains(radio: Radio, s: Session) returns (trace: seq<Session>, actions: seq<Action>)
    ensures IsRun(radio, trace, actions) && trace[0] == s && forall a :: a in actions ==> WorkerStep(a)
    ensures trace[|actions|].queue == [] && trace[|actions|].inFlight.None?
    decreases |s.queue|, s.inFlight.Some?
  {
    hide Landing;
    if s.inFlight.Some? {
      trace, actions := Drains(radio, s.Perform(radio));
      PrependRun(radio, s, Perform, trace, actions);
      trace, actions := [s] + trace, [Action.Perform] + actions;
    } else if s.queue == [] {
      trace, actions := [s], [];
    } else {
      var i := Earliest(s.queue);
      var ms := s.queue[i].due;
      var due := s.(now := s.now + ms);
      trace, actions := Drains(radio, due.Pop(i));
      PrependRun(radio, due, Action.Pop(i), trace, actions);
      PrependRun(radio, s, Tick(ms), [due] + trace, [Action.Pop(i)] + actions);
      trace, actions := [s] + ([due] + trace), [Tick(ms)] + ([Action.Pop(i)] + actions);
    }
  }

  /** So every accepted call can arrive: some run of the worker alone ends with nothing pending, and
      then the session is where the call headed. */
  lemma CallCanArrive(radio: Radio, s: Session, a: Action) returns (trace: seq<Session>, actions: seq<Action>)
    requires Enabled(radio, s, a) && Accepted(radio, s, a)
    ensures IsRun(radio, trace, actions) && trace[0] == s && actions != [] && actions[0] == a
    ensures forall k :: 1 <= k < |actions| ==> WorkerStep(actions[k])
    ensures !TuningPending(trace[|actions|])
    ensures trace[|actions|].current == Landing(radio.programs, TargetOf(radio, s, a))
  {
    hide Accepted, TargetOf, Landing, Next, Enabled;
    trace, actions := Drains(radio, Next(radio, s, a));
    PrependRun(radio, s, a, trace, actions);
    assert forall k :: 0 <= k < |actions| ==> actions[k] in actions;
    trace, actions := [s] + trace, [a] + actions;
    LastCallWins(radio, trace, actions);
  }

  /** A completed seek from a station of a radio without overlapping programs leaves the session on
      the neighbouring station, round the end of the list. */
  lemma SeekArrives(radio: Radio, trace: seq<Session>, actions: seq<Action>, up: bool, list: seq<Selector>, i: nat)
    requires IsRun(radio, trace, actions) && actions != [] && actions[0] == Scan(up, list) && !trace[0].closed
    requires Seeking.Separate(list) && i < |list| && trace[0].current == list[i]
    requires forall k :: 1 <= k < |actions| ==> NoNewTuning(actions[k])
    requires !TuningPending(trace[|actions|])
    ensures trace[|actions|].current ==
      if up then list[if i + 1 < |list| then i + 1 else 0] else list[if i > 0 then i - 1 else |list| - 1]
  {
    hide Landing, Next, TuningPending, Seeking.Separate, Seeking.SeekIndex;
    assert Enabled(radio, trace[0], actions[0]);
    LastCallWins(radio, trace, actions);
    Seeking.SeekFromStation(radio.programs, list, i);
  }

  /** A completed step leaves the session one channel further, whether or not a program is there. */
  lemma StepArrives(radio: Radio, trace: seq<Session>, actions: seq<Action>, up: bool)
    requires IsRun(radio, trace, actions) && actions != [] && actions[0] == Step(up)
    requires trace[0].Step(radio, up).1 == OK
    requires forall k :: 1 <= k < |actions| ==> NoNewTuning(actions[k])
    requires !TuningPending(trace[|actions|])
    ensures var f := GetId(trace[0].current, AMFM_FREQUENCY, 0);
      && BandOf(radio.bands, f).Some?
      && IdOf(trace[|actions|].current, AMFM_FREQUENCY) == Some(BandOf(radio.bands, f).value.Step(f, up))
  {
    hide Landing, Next, Enabled, TuningPending;
    LastCallWins(radio, trace, actions);
    var f := GetId(trace[0].current, AMFM_FREQUENCY, 0);
    BandOfContains(radio.bands, f);
    var g := BandOf(radio.bands, f).value.Step(f, up);
    StepStaysInBand(BandOf(radio.bands, f).value, f, up);
    StepLandsOnFrequency(radio.programs, g);
  }

  /** A completed step and a completed step in the opposite direction bring the frequency back exactly
      if no earlier band holds the frequency in between and the step can be undone in its band. */
  lemma StepThenBack(radio: Radio, trace: seq<Session>, actions: seq<Action>,
                     trace': seq<Session>, actions': seq<Action>, up: bool)
    requires IsRun(radio, trace, actions) && actions != [] && actions[0] == Step(up)
    requires trace[0].Step(radio, up).1 == OK
    requires forall k :: 1 <= k < |actions| ==> NoNewTuning(actions[k])
    requires !TuningPending(trace[|actions|])
    requires IsRun(radio, trace', actions') && actions' != [] && actions'[0] == Step(!up)
    requires trace'[0] == trace[|actions|] && trace'[0].Step(radio, !up).1 == OK
    requires forall k :: 1 <= k < |actions'| ==> NoNewTuning(actions'[k])
    requires !TuningPending(trace'[|actions'|])
    ensures var f := GetId(trace[0].current, AMFM_FREQUENCY, 0);
      && BandOf(radio.bands, f).Some?
      && var b := BandOf(radio.bands, f).value;
         IdOf(trace'[|actions'|].current, AMFM_FREQUENCY) == Some(f) <==>
           BandOf(radio.bands, b.Step(f, up)) == Some(b) && Reversible(b, f, up)
  {
    hide Next, Enabled, Session.Step, TuningPending, NoNewTuning, BandOf, Band.Step, Reversible;
    StepArrives(radio, trace, actions, up);
    StepArrives(radio, trace', actions', !up);
    StepsBackExactly(radio.bands, GetId(trace[0].current, AMFM_FREQUENCY, 0), up);
  }
}

module TunerSessions {
  import opened Bytes
  import opened Wrappers
  import opened Selectors
  import opened Stepping
  import opened StationNames
  import opened TunerMachine

  /** The worker: a queue ordered by due time, and the task taken from it and not yet run. */
  class WorkerThread {
    var tasks: seq<Task>
    var inFlight: Option<Task>
    var now: nat
    var nextId: nat

    constructor ()
      ensures tasks == [] && inFlight == None && now == 0 && nextId == 0
    {
      tasks, inFlight, now, nextId := [], None, 0, 0;
    }

    method Schedule(work: Work, delay: nat)
      modifies this`tasks, this`nextId
      ensures tasks == old(tasks) + [Task(old(nextId), now + delay, work)] && nextId == old(nextId) + 1
    {
      tasks := tasks + [Task(nextId, now + delay, work)];
      nextId := nextId + 1;
    }

    method CancelAll()
      modifies this`tasks
      ensures tasks == []
    {
      tasks := [];
    }

    /** One round of the thread's loop up to unlocking: waits if nothing is due, else takes the task
        with the earliest due time. */
    method TakeTask()
      requires inFlight.None?
      modifies this`tasks, this`inFlight
      ensures inFlight.None? ==> tasks == old(tasks) && forall t :: t in tasks ==> t.due > now
      ensures inFlight.Some? ==> exists i ::
        && 0 <= i < |old(tasks)| && old(tasks)[i] == inFlight.value && inFlight.value.due <= now
        && (forall t :: t in old(tasks) ==> inFlight.value.due <= t.due)
        && tasks == old(tasks)[..i] + old(tasks)[i + 1..]
    {
      if |tasks| == 0 {
        return;
      }
      var top := 0;
      for i := 1 to |tasks|
        invariant 0 <= top < i
        invariant forall j :: 0 <= j < i ==> tasks[top].due <= tasks[j].due
      {
        if tasks[i].due < tasks[top].due {
          top := i;
        }
      }
      if tasks[top].due > now {
        return;
      }
      inFlight := Some(tasks[top]);
      tasks := tasks[..top] + tasks[top + 1..];
    }
  }

  class TunerSession {
    const radio: Radio
    const thread: WorkerThread
    var closed: bool
    var tuneCompleted: bool
    var current: Selector
    var callbacks: seq<Callback>
    ghost var ran: seq<nat>

    ghost function State(): Session
      reads this, thread
    {
      Session(closed, tuneCompleted, current, thread.tasks, thread.inFlight, thread.now, thread.nextId, ran, callbacks)
    }

    constructor (module_: Radio)
      ensures radio == module_ && fresh(thread) && State() == Initial(radio)
    {
      radio := module_;
      thread := new WorkerThread();
      closed, tuneCompleted, current, callbacks, ran := false, false, NO_SELECTOR, [], [];
      new;
      if |radio.bands| > 0 {
        TuneInternalLocked(MakeAmFm(radio.bands[0].lower));
      }
    }

    method TuneInternalLocked(sel: Selector)
      modifies this
      ensures State() == old(State()).TuneInternal(radio, sel)
    {
      var program := GetProgram(radio.programs, sel);
      current := if program.Some? then program.value else sel;
      tuneCompleted := true;
      callbacks := callbacks + [CurrentProgram(current)];
    }

    method CancelLocked()
      modifies this, thread
      ensures State() == old(State()).CancelLocked()
    {
      thread.CancelAll();
      if current.primaryId.type_ != INVALID {
        tuneCompleted := true;
      }
    }

    method IsSupported(sel: Selector) returns (r: bool)
      ensures r == exists t :: t in radio.supportedTypes && HasId(sel, t)
    {
      for i := 0 to |radio.supportedTypes|
        invariant forall j :: 0 <= j < i ==> !HasId(sel, radio.supportedTypes[j])
      {
        if HasId(sel, radio.supportedTypes[i]) {
          return true;
        }
      }
      return false;
    }

    method Tune(sel: Selector) returns (r: Result)
      modifies this, thread
      ensures (State(), r) == old(State()).Tune(radio, sel)
    {
      hide HasId, ValidSelector;
      if closed {
        return INVALID_STATE;
      }
      var supported := IsSupported(sel);
      if !supported {
        return NOT_SUPPORTED;
      }
      if !ValidSelector(sel) {
        return INVALID_ARGUMENTS;
      }
      CancelLocked();
      tuneCompleted := false;
      thread.Schedule(TuneTo(sel), TUNE_DELAY);
      return OK;
    }

    method Scan(up: bool) returns (r: Result, ghost list: seq<Selector>)
      modifies this, thread
      ensures Seeking.IsSortOf(list, radio.programs)
      ensures (State(), r) == old(State()).Scan(up, list)
    {
      hide Seeking.SeekIndex;
      if closed {
        r := INVALID_STATE;
        list := Seeking.Sort(radio.programs);
        return;
      }
      CancelLocked();
      if |radio.programs| == 0 {
        list := [];
        tuneCompleted := false;
        thread.Schedule(SeekTimeout, SEEK_DELAY);
        return OK, list;
      }
      var target, sorted := Seeking.SeekTarget(radio.programs, current, up);
      list := sorted;
      tuneCompleted := false;
      thread.Schedule(TuneTo(target), SEEK_DELAY);
      r := OK;
    }

    method AmFmRangeLocked() returns (r: Option<Band>)
      ensures r == State().AmFmRange(radio)
    {
      if !tuneCompleted {
        return None;
      }
      var frequency := MaybeGetId(current, AMFM_FREQUENCY);
      if frequency.None? {
        return None;
      }
      r := FindBand(radio.bands, frequency.value);
    }

    method Step(up: bool) returns (r: Result)
      modifies this, thread
      ensures (State(), r) == old(State()).Step(radio, up)
    {
      hide BandOf, IdOf;
      if closed {
        return INVALID_STATE;
      }
      CancelLocked();
      var frequency := MaybeGetId(current, AMFM_FREQUENCY);
      if frequency.None? {
        return NOT_SUPPORTED;
      }
      var range := AmFmRangeLocked();
      if range.None? {
        return INTERNAL_ERROR;
      }
      var stepTo: uint64 := frequency.value;
      var spacing := range.value.spacing;
      stepTo := if up then (stepTo + spacing) % LIMIT64 else (stepTo + LIMIT64 - spacing) % LIMIT64;
      if stepTo > range.value.upper {
        stepTo := range.value.lower;
      }
      if stepTo < range.value.lower {
        stepTo := range.value.upper;
      }
      tuneCompleted := false;
      thread.Schedule(TuneTo(MakeAmFm(stepTo)), STEP_DELAY);
      return OK;
    }

    method Cancel()
      modifies this, thread
      ensures State() == old(State()).Cancel()
    {
      if !closed {
        CancelLocked();
      }
    }

    /** Filters the list, and then sends the one that was not filtered. */
    method StartProgramListUpdates(filter: Filter) returns (r: Result)
      modifies this, thread
      ensures (State(), r) == old(State()).StartListUpdates(radio, filter)
    {
      if closed {
        return INVALID_STATE;
      }
      var list := radio.programs;
      var filteredList := FilterPrograms(filter, list);
      thread.Schedule(SendList(list, filter), LIST_DELAY);
      return OK;
    }

    method Close()
      modifies this, thread
      ensures State() == old(State()).Close()
    {
      if !closed {
        closed := true;
        thread.CancelAll();
      }
    }

    /** The worker runs the task it has taken. */
    method RunTask()
      requires thread.inFlight.Some?
      modifies this, thread
      ensures State() == old(State()).Perform(radio)
    {
      var task := thread.inFlight.value;
      thread.inFlight := None;
      ran := ran + [task.id];
      match task.work
      case TuneTo(sel) => TuneInternalLocked(sel);
      case SeekTimeout => callbacks := callbacks + [TuneFailed];
      case SendList(list, asked) => callbacks := callbacks + [ProgramList(list, asked)];
    }

    /** The worker's half of the loop as a step of the session machine. */
    method TakeTask() returns (ghost i: nat)
      requires thread.inFlight.None?
      modifies thread
      ensures thread.inFlight.None? ==> State() == old(State()) && forall k: nat :: !old(State()).CanPop(k)
      ensures thread.inFlight.Some? ==> old(State()).CanPop(i) && State() == old(State()).Pop(i)
    {
      thread.TakeTask();
      i := 0;
      if thread.inFlight.Some? {
        i :| 0 <= i < |old(thread.tasks)| && old(thread.tasks)[i] == thread.inFlight.value
          && thread.tasks == old(thread.tasks)[..i] + old(thread.tasks)[i + 1..];
      }
    }
  }
}
