/** The lifecycle of AAPMidiProcessor (AAPMidiProcessor.cpp:137-262, 337-346): the calls
    one at a time, and the steps inside `activate` and `deactivate` that audio
    callbacks can fall between. */
module Lifecycle {
  import opened Options

  datatype ProcessorState = Created | Active | Inactive | Stopped | Error

  /** `instrument` is what the plugin information says of it; `active` is set by the
      instance's own activate and deactivate. */
  datatype Instance = Instance(id: int, instrument: bool, active: bool)

  /** The fields the lifecycle calls work on. */
  datatype Fields = Fields(state: ProcessorState, midiProtocol: int, instances: seq<Instance>,
                           instrumentId: int, streamOpen: bool)

  const INITIAL := Fields(Created, 1, [], 0, false)

  /** `id` is the instance number the plugin host hands out, `streamOpens` whether the audio
      stream could be opened. */
  datatype Call =
    | InstantiatePlugin(instrument: bool, id: int)
    | Activate(streamOpens: bool)
    | Deactivate
    | SetMidiProtocol(protocol: int)

  function WithActive(instances: seq<Instance>, active: bool): seq<Instance> {
    seq(|instances|, i requires 0 <= i < |instances| => instances[i].(active := active))
  }

  /** The fields after a call that nothing interrupts. */
  function After(f: Fields, c: Call): Fields {
    match c
    case InstantiatePlugin(instrument, id) =>
      if f.state != Created || (instrument && f.instrumentId != 0) then f.(state := Error)
      else f.(instances := f.instances + [Instance(id, instrument, false)],
              instrumentId := if instrument then id else f.instrumentId)
    case Activate(streamOpens) =>
      if (f.state != Created && f.state != Inactive) || !streamOpens then f.(state := Error)
      else f.(state := Active, streamOpen := true, instances := WithActive(f.instances, true))
    case Deactivate =>
      if f.state != Active then f.(state := Error)
      else f.(state := Inactive, streamOpen := false, instances := WithActive(f.instances, false))
    case SetMidiProtocol(protocol) =>
      if f.state != Created then f.(state := Error) else f.(midiProtocol := protocol)
  }

  /** The calls that the state, and for `activate` the stream, allow. */
  predicate InPlace(f: Fields, c: Call) {
    match c
    case InstantiatePlugin(instrument, _) => f.state == Created && (instrument ==> f.instrumentId == 0)
    case Activate(streamOpens) => f.state in {Created, Inactive} && streamOpens
    case Deactivate => f.state == Active
    case SetMidiProtocol(_) => f.state == Created
  }

  /** The transition table. A call out of place leads to ERROR and changes nothing else; one
      in place leads to the state of its row and changes what the row says. */
  lemma CallOutcome(f: Fields, c: Call)
    ensures var g := After(f, c);
      if !InPlace(f, c) then
        && g.state == Error && g.instances == f.instances && g.instrumentId == f.instrumentId
        && g.midiProtocol == f.midiProtocol && g.streamOpen == f.streamOpen
      else
        match c
        case InstantiatePlugin(instrument, id) =>
          && g.state == Created && g.midiProtocol == f.midiProtocol && g.streamOpen == f.streamOpen
          && |g.instances| == |f.instances| + 1 && g.instances[..|f.instances|] == f.instances
          && g.instances[|f.instances|] == Instance(id, instrument, false)
          && g.instrumentId == if instrument then id else f.instrumentId
        case Activate(_) =>
          && g.state == Active && g.streamOpen && AllActive(g.instances)
          && SameInstances(f, g) && g.midiProtocol == f.midiProtocol && g.instrumentId == f.instrumentId
        case Deactivate =>
          && g.state == Inactive && !g.streamOpen && NoneActive(g.instances)
          && SameInstances(f, g) && g.midiProtocol == f.midiProtocol && g.instrumentId == f.instrumentId
        case SetMidiProtocol(protocol) =>
          && g.state == Created && g.midiProtocol == protocol
          && g.instances == f.instances && g.instrumentId == f.instrumentId && g.streamOpen == f.streamOpen
  {
  }

  /** The same instances in the same order, running or not. */
  predicate SameInstances(f: Fields, g: Fields) {
    |f.instances| == |g.instances| && forall i :: 0 <= i < |f.instances| ==>
      f.instances[i].id == g.instances[i].id && f.instances[i].instrument == g.instances[i].instrument
  }

  function AfterAll(f: Fields, calls: seq<Call>): Fields {
    if calls == [] then f
    else After(AfterAll(f, calls[..|calls| - 1]), calls[|calls| - 1])
  }

  class ProcessorLifecycle {
    var state: ProcessorState
    var midiProtocol: int
    var instances: seq<Instance>
    var instrumentId: int
    var streamOpen: bool

    function Now(): Fields
      reads this
    {
      Fields(state, midiProtocol, instances, instrumentId, streamOpen)
    }

    constructor ()
      ensures Now() == INITIAL
      ensures state == Created && midiProtocol == 1 && instances == [] && instrumentId == 0 && !streamOpen
    {
      state, midiProtocol, instances, instrumentId, streamOpen := Created, 1, [], 0, false;
    }

    /** `instantiatePlugin`. */
    method InstantiatePlugin(instrument: bool, id: int)
      modifies this
      ensures Now() == After(old(Now()), Call.InstantiatePlugin(instrument, id))
      ensures if old(state) == Created && (instrument ==> old(instrumentId) == 0)
        then state == Created && instances == old(instances) + [Instance(id, instrument, false)]
             && instrumentId == if instrument then id else old(instrumentId)
        else state == Error && instances == old(instances) && instrumentId == old(instrumentId)
      ensures midiProtocol == old(midiProtocol) && streamOpen == old(streamOpen)
    {
      if state != Created {
        state := Error;
        return;
      }
      if instrument {
        if instrumentId != 0 {
          state := Error;
          return;
        }
      }
      if instrument {
        instrumentId := id;
      }
      instances := instances + [Instance(id, instrument, false)];
    }

    /** `activate`. */
    method Activate(streamOpens: bool)
      modifies this
      ensures Now() == After(old(Now()), Call.Activate(streamOpens))
      ensures if (old(state) == Created || old(state) == Inactive) && streamOpens
        then state == Active && streamOpen && instances == WithActive(old(instances), true)
        else state == Error && streamOpen == old(streamOpen) && instances == old(instances)
      ensures midiProtocol == old(midiProtocol) && instrumentId == old(instrumentId)
    {
      match state {
        case Created | Inactive =>
        case _ =>
          state := Error;
          return;
      }
      if !streamOpens {
        state := Error;
        return;
      }
      streamOpen := true;
      SetInstancesActive(true);
      state := Active;
    }

    /** `deactivate`. */
    method Deactivate()
      modifies this
      ensures Now() == After(old(Now()), Call.Deactivate)
      ensures if old(state) == Active
        then state == Inactive && !streamOpen && instances == WithActive(old(instances), false)
        else state == Error && streamOpen == old(streamOpen) && instances == old(instances)
      ensures midiProtocol == old(midiProtocol) && instrumentId == old(instrumentId)
    {
      if state != Active {
        state := Error;
        return;
      }
      SetInstancesActive(false);
      streamOpen := false;
      state := Inactive;
    }

    /** The loops over all instances in `activate` and `deactivate`. */
    method SetInstancesActive(active: bool)
      modifies this`instances
      ensures instances == WithActive(old(instances), active)
    {
      for i := 0 to |instances|
        invariant |instances| == |old(instances)|
        invariant forall j :: 0 <= j < i ==> instances[j] == old(instances)[j].(active := active)
        invariant forall j :: i <= j < |instances| ==> instances[j] == old(instances)[j]
      {
        instances := instances[i := instances[i].(active := active)];
      }
    }

    /** `setMidiProtocol`. */
    method SetMidiProtocol(protocol: int)
      modifies this
      ensures Now() == After(old(Now()), Call.SetMidiProtocol(protocol))
      ensures if old(state) == Created then state == Created && midiProtocol == protocol
        else state == Error && midiProtocol == old(midiProtocol)
      ensures instances == old(instances) && instrumentId == old(instrumentId) && streamOpen == old(streamOpen)
    {
      if state != Created {
        state := Error;
        return;
      }
      midiProtocol := protocol;
    }
  }

  // Calls one at a time.

  predicate AllActive(instances: seq<Instance>) {
    forall i :: 0 <= i < |instances| ==> instances[i].active
  }

  predicate NoneActive(instances: seq<Instance>) {
    forall i :: 0 <= i < |instances| ==> !instances[i].active
  }

  /** What identifies an instance, apart from whether it is running. */
  function Identity(f: Fields): (seq<Instance>, int, int) {
    (WithActive(f.instances, false), f.midiProtocol, f.instrumentId)
  }

  predicate Consistent(f: Fields) {
    && f.state != Stopped
    && (f.state == Active ==> f.streamOpen)
    && (f.state == Created || f.state == Inactive ==> !f.streamOpen)
    && (if f.streamOpen then AllActive(f.instances) else NoneActive(f.instances))
    && (forall i, j :: 0 <= i < j < |f.instances| && f.instances[i].instrument && f.instances[j].instrument ==>
          f.instances[i].id == 0)
    && (forall i :: 0 <= i < |f.instances| && f.instances[i].instrument && f.instances[i].id != 0 ==>
          f.instrumentId == f.instances[i].id)
    && (if NoInstrument(f.instances) then f.instrumentId == 0 else IsInstrument(f.instances, f.instrumentId))
  }

  predicate NoInstrument(instances: seq<Instance>) {
    forall i :: 0 <= i < |instances| ==> !instances[i].instrument
  }

  /** Some instrument has the number `id`. */
  predicate IsInstrument(instances: seq<Instance>, id: int) {
    exists i :: 0 <= i < |instances| && instances[i].instrument && instances[i].id == id
  }

  lemma SettingActive(instances: seq<Instance>, active: bool)
    ensures NoInstrument(WithActive(instances, active)) == NoInstrument(instances)
    ensures forall id :: IsInstrument(WithActive(instances, active), id) == IsInstrument(instances, id)
  {
    var set' := WithActive(instances, active);
    forall i | 0 <= i < |instances|
      ensures set'[i].instrument == instances[i].instrument && set'[i].id == instances[i].id
    {
    }
    forall id
      ensures IsInstrument(set', id) == IsInstrument(instances, id)
    {
      if i :| 0 <= i < |instances| && instances[i].instrument && instances[i].id == id {
        assert set'[i].instrument && set'[i].id == id;
      }
    }
  }

  lemma JoiningInstance(instances: seq<Instance>, instance: Instance)
    ensures NoInstrument(instances + [instance]) == (NoInstrument(instances) && !instance.instrument)
    ensures forall id ::
      IsInstrument(instances + [instance], id)
      == (IsInstrument(instances, id) || (instance.instrument && instance.id == id))
  {
    var joined := instances + [instance];
    assert joined[|instances|] == instance;
    assert forall i :: 0 <= i < |instances| ==> joined[i] == instances[i];
  }

  lemma CallKeepsConsistent(f: Fields, c: Call)
    requires Consistent(f)
    ensures Consistent(After(f, c))
  {
    SettingActive(f.instances, true);
    SettingActive(f.instances, false);
    if c.InstantiatePlugin? {
      JoiningInstance(f.instances, Instance(c.id, c.instrument, false));
    }
  }

  /** Over every sequence of calls: STOPPED is never reached; ACTIVE means an open stream
      with every instance running, CREATED and INACTIVE mean the opposite; and a second
      instrument is only ever taken in beside ones the host numbered 0. */
  lemma {:induction false} CallsKeepConsistent(calls: seq<Call>)
    ensures Consistent(AfterAll(INITIAL, calls))
  {
    if calls != [] {
      CallsKeepConsistent(calls[..|calls| - 1]);
      CallKeepsConsistent(AfterAll(INITIAL, calls[..|calls| - 1]), calls[|calls| - 1]);
    }
  }

  /** ERROR is final: no further calls change anything, so a stream that was open stays so. */
  lemma {:induction false} ErrorIsFinal(f: Fields, calls: seq<Call>)
    requires f.state == Error
    ensures AfterAll(f, calls) == f
  {
    if calls != [] {
      ErrorIsFinal(f, calls[..|calls| - 1]);
    }
  }

  /** Once CREATED is left, it stays left, and the instances, the protocol and the
      instrument never change again. */
  lemma {:induction false} FrozenAfterCreated(f: Fields, calls: seq<Call>)
    requires f.state != Created
    ensures AfterAll(f, calls).state != Created
    ensures Identity(AfterAll(f, calls)) == Identity(f)
  {
    if calls != [] {
      var g := AfterAll(f, calls[..|calls| - 1]);
      FrozenAfterCreated(f, calls[..|calls| - 1]);
      assert WithActive(WithActive(g.instances, true), false) == WithActive(g.instances, false);
      assert WithActive(WithActive(g.instances, false), false) == WithActive(g.instances, false);
    }
  }

  /** The instances asked for, in order, none running yet. */
  function Requested(calls: seq<Call>): seq<Instance> {
    if calls == [] then []
    else
      var last := calls[|calls| - 1];
      Requested(calls[..|calls| - 1]) +
        if last.InstantiatePlugin? then [Instance(last.id, last.instrument, false)] else []
  }

  /** The protocol set last; MIDI 1.0 to begin with. */
  function ProtocolSet(calls: seq<Call>): int {
    if calls == [] then 1
    else
      var last := calls[|calls| - 1];
      if last.SetMidiProtocol? then last.protocol else ProtocolSet(calls[..|calls| - 1])
  }

  /** As long as CREATED lasts, every instance asked for is there and the protocol set
      last is in force. */
  lemma {:induction false} CreatedHonoursCalls(calls: seq<Call>)
    ensures var f := AfterAll(INITIAL, calls);
      f.state == Created ==> f.instances == Requested(calls) && f.midiProtocol == ProtocolSet(calls)
  {
    if calls != [] {
      CreatedHonoursCalls(calls[..|calls| - 1]);
    }
  }

  /** After every sequence of calls that stays in CREATED: a further instrument is turned
      away exactly when one has been taken in whose number is not 0. An instrument numbered
      0 does not keep a second one out, since that number also means no instrument yet. */
  lemma SecondInstrumentRefused(calls: seq<Call>, id: int)
    requires AfterAll(INITIAL, calls).state == Created
    ensures var f := AfterAll(INITIAL, calls);
      After(f, InstantiatePlugin(true, id)).state == Error <==>
        exists i :: 0 <= i < |f.instances| && f.instances[i].instrument && f.instances[i].id != 0
  {
    CallsKeepConsistent(calls);
  }

  /** In particular, two instruments asked for one after the other are both taken in
      exactly when the host numbered the first one 0. */
  lemma SecondInstrumentSlipsIn(first: int, second: int)
    ensures var f := AfterAll(INITIAL, [InstantiatePlugin(true, first), InstantiatePlugin(true, second)]);
      |f.instances| == 2 <==> first == 0
  {
    var calls := [InstantiatePlugin(true, first), InstantiatePlugin(true, second)];
    var one := [InstantiatePlugin(true, first)];
    assert calls[..1] == one && one[..0] == [];
    assert AfterAll(INITIAL, one[..0]) == INITIAL;
    assert AfterAll(INITIAL, one) == After(INITIAL, one[0]);
    assert AfterAll(INITIAL, calls) == After(AfterAll(INITIAL, one), calls[1]);
  }

  predicate DistinctNumbers(instances: seq<Instance>) {
    forall i, j :: 0 <= i < j < |instances| ==> instances[i].id != instances[j].id
  }

  /** The rest of the code knows the instrument by its number alone. After every sequence
      of calls, if the host numbers instances apart, another instance is taken for the
      instrument exactly when no instrument was asked for and one is numbered 0. */
  lemma OtherTakenForInstrument(calls: seq<Call>)
    requires DistinctNumbers(AfterAll(INITIAL, calls).instances)
    ensures var f := AfterAll(INITIAL, calls);
      (exists i :: 0 <= i < |f.instances| && !f.instances[i].instrument && f.instances[i].id == f.instrumentId)
      <==> (NoInstrument(f.instances) && exists i :: 0 <= i < |f.instances| && f.instances[i].id == 0)
  {
    CallsKeepConsistent(calls);
    var f := AfterAll(INITIAL, calls);
    if !NoInstrument(f.instances) {
      var j :| 0 <= j < |f.instances| && f.instances[j].instrument && f.instances[j].id == f.instrumentId;
    }
  }

  // Callbacks between the steps of a call.

  datatype Control = Idle | Activating(next: nat) | Deactivating(next: nat)

  /** `running` is the instance that an audio callback, having found the state ACTIVE,
      runs next; `droveInactive` records whether one ever ran an inactive instance. */
  datatype Machine = Machine(f: Fields, control: Control, running: Option<nat>, droveInactive: bool)

  datatype Step =
    | Whole(call: Call)      // a call that has no inner steps, or that fails at once
    | BeginActivate          // state checked, stream opened and started
    | BeginDeactivate        // state checked
    | NextInstance           // one instance activated or deactivated
    | EndCall                // stream closed if deactivating; the new state stored
    | CallbackCheck          // the stream calls back, and the callback looks at the state
    | RunInstance            // the callback runs one instance
    | CallbackEnd            // the callback returns, after all instances or, if the ring holds enough, none

  predicate CanStep(m: Machine, s: Step) {
    match s
    case Whole(call) =>
      && m.control == Idle
      && (call.Activate? || call.Deactivate? ==> After(m.f, call).state == Error)
    case BeginActivate => m.control == Idle && (m.f.state == Created || m.f.state == Inactive)
    case BeginDeactivate => m.control == Idle && m.f.state == Active
    case NextInstance => m.control != Idle && m.control.next < |m.f.instances|
    case EndCall => m.control != Idle && m.control.next == |m.f.instances|
    case CallbackCheck => m.f.streamOpen && m.running == None
    case RunInstance => m.running.Some? && m.running.value < |m.f.instances|
    case CallbackEnd => m.running.Some? && (m.running.value == 0 || m.running.value == |m.f.instances|)
  }

  function Stepped(m: Machine, s: Step): Machine
    requires CanStep(m, s)
  {
    match s
    case Whole(call) => m.(f := After(m.f, call))
    case BeginActivate => m.(f := m.f.(streamOpen := true), control := Activating(0))
    case BeginDeactivate => m.(control := Deactivating(0))
    case NextInstance =>
      var i := m.control.next;
      var instances := m.f.instances[i := m.f.instances[i].(active := m.control.Activating?)];
      m.(f := m.f.(instances := instances),
         control := if m.control.Activating? then Activating(i + 1) else Deactivating(i + 1))
    case EndCall =>
      if m.control.Activating? then m.(f := m.f.(state := Active), control := Idle)
      else m.(f := m.f.(state := Inactive, streamOpen := false), control := Idle)
    case CallbackCheck => m.(running := if m.f.state == Active then Some(0) else None)
    case RunInstance =>
      var i := m.running.value;
      m.(running := Some(i + 1), droveInactive := m.droveInactive || !m.f.instances[i].active)
    case CallbackEnd => m.(running := None)
  }

  /** The machine after the steps, as far as they are possible. */
  function Steps(m: Machine, steps: seq<Step>): Machine {
    if steps == [] then m
    else
      var before := Steps(m, steps[..|steps| - 1]);
      if CanStep(before, steps[|steps| - 1]) then Stepped(before, steps[|steps| - 1]) else before
  }

  const FRESH := Machine(INITIAL, Idle, None, false)

  ghost predicate MachineInv(m: Machine) {
    match m.control
    case Idle => Consistent(m.f)
    case Activating(n) =>
      && (m.f.state == Created || m.f.state == Inactive) && m.f.streamOpen
      && n <= |m.f.instances|
      && (forall i :: 0 <= i < |m.f.instances| ==> m.f.instances[i].active == (i < n))
      && Consistent(m.f.(state := Active, instances := WithActive(m.f.instances, true)))
    case Deactivating(n) =>
      && m.f.state == Active && m.f.streamOpen
      && n <= |m.f.instances|
      && (forall i :: 0 <= i < |m.f.instances| ==> m.f.instances[i].active == (n <= i))
      && Consistent(m.f.(state := Inactive, streamOpen := false, instances := WithActive(m.f.instances, false)))
  }

  lemma BeginKeepsInv(m: Machine, s: Step)
    requires MachineInv(m) && CanStep(m, s) && (s.BeginActivate? || s.BeginDeactivate?)
    ensures MachineInv(Stepped(m, s))
  {
    CallKeepsConsistent(m.f, if s.BeginActivate? then Activate(true) else Deactivate);
  }

  lemma StepKeepsInv(m: Machine, s: Step)
    requires MachineInv(m) && CanStep(m, s)
    ensures MachineInv(Stepped(m, s))
  {
    match s
    case Whole(call) => CallKeepsConsistent(m.f, call);
    case BeginActivate => BeginKeepsInv(m, s);
    case BeginDeactivate => BeginKeepsInv(m, s);
    case NextInstance =>
      var m' := Stepped(m, s);
      assert WithActive(m'.f.instances, true) == WithActive(m.f.instances, true);
      assert WithActive(m'.f.instances, false) == WithActive(m.f.instances, false);
    case EndCall =>
      assert m.f.instances == WithActive(m.f.instances, m.control.Activating?);
    case _ =>
  }

  lemma {:induction false} StepsKeepInv(steps: seq<Step>)
    ensures MachineInv(Steps(FRESH, steps))
  {
    if steps != [] {
      StepsKeepInv(steps[..|steps| - 1]);
      var before := Steps(FRESH, steps[..|steps| - 1]);
      if CanStep(before, steps[|steps| - 1]) {
        StepKeepsInv(before, steps[|steps| - 1]);
      }
    }
  }

  /** Where the calls stand, instance `i` is not running: no `activate` has got to it since
      it was added or last stopped. */
  predicate StoppedAt(m: Machine, i: nat) {
    match m.control
    case Idle => !m.f.streamOpen
    case Activating(n) => n <= i
    case Deactivating(n) => i < n
  }

  /** In every reachable state, an instance is inactive exactly where the calls stand so;
      and a callback whose check falls inside `activate` does not go on to run the plugins. */
  lemma CallbackHazard(steps: seq<Step>)
    ensures var m := Steps(FRESH, steps);
      && (forall i :: 0 <= i < |m.f.instances| ==> (!m.f.instances[i].active <==> StoppedAt(m, i)))
      && (CanStep(m, CallbackCheck) ==>
            Stepped(m, CallbackCheck).running == if m.f.state == Active then Some(0) else None)
      && (m.control.Activating? && CanStep(m, CallbackCheck) ==> Stepped(m, CallbackCheck).running == None)
  {
    StepsKeepInv(steps);
  }

  /** A callback runs its next instance, and the calls have stopped that one. */
  predicate RunsStopped(m: Machine, s: Step) {
    s.RunInstance? && CanStep(m, s) && StoppedAt(m, m.running.value)
  }

  predicate RunsStoppedAt(steps: seq<Step>, k: nat)
    requires k < |steps|
  {
    RunsStopped(Steps(FRESH, steps[..k]), steps[k])
  }

  /** One more step. */
  lemma RunsStoppedLater(earlier: seq<Step>, last: Step)
    ensures var steps := earlier + [last];
      && Steps(FRESH, steps[..|earlier|]) == Steps(FRESH, earlier)
      && (forall k :: 0 <= k < |earlier| ==> RunsStoppedAt(steps, k) == RunsStoppedAt(earlier, k))
  {
    var steps := earlier + [last];
    assert steps[..|earlier|] == earlier;
    forall k | 0 <= k < |earlier|
      ensures RunsStoppedAt(steps, k) == RunsStoppedAt(earlier, k)
    {
      assert steps[..k] == earlier[..k] && steps[k] == earlier[k];
    }
  }

  lemma DrivesWhenStopped(earlier: seq<Step>, last: Step)
    ensures Steps(FRESH, earlier + [last]).droveInactive
      <==> (Steps(FRESH, earlier).droveInactive || RunsStopped(Steps(FRESH, earlier), last))
  {
    CallbackHazard(earlier);
    assert (earlier + [last])[..|earlier|] == earlier;
  }

  /** Over every interleaving of the steps of calls and callbacks, which go through the
      instances one at a time on both sides: a callback ran an inactive instance exactly when
      one ran instance `i` after `deactivate` had stopped it and before `activate` got to it. */
  lemma {:induction false} InactivePluginsRunExactly(steps: seq<Step>)
    ensures Steps(FRESH, steps).droveInactive <==> exists k :: 0 <= k < |steps| && RunsStoppedAt(steps, k)
  {
    if steps != [] {
      var earlier, last := steps[..|steps| - 1], steps[|steps| - 1];
      assert steps == earlier + [last];
      InactivePluginsRunExactly(earlier);
      DrivesWhenStopped(earlier, last);
      RunsStoppedLater(earlier, last);
      assert RunsStoppedAt(steps, |earlier|) == RunsStopped(Steps(FRESH, earlier), last);
      if k :| 0 <= k < |earlier| && RunsStoppedAt(earlier, k) {
        assert RunsStoppedAt(steps, k);
      }
    }
  }

  /** The stream is only closed once no callback is in progress. */
  predicate CloseWaits(steps: seq<Step>) {
    forall k :: 0 <= k < |steps| ==> !ClosesOver(Steps(FRESH, steps[..k]), steps[k])
  }

  predicate ClosesOver(m: Machine, s: Step) {
    s.EndCall? && m.control.Deactivating? && m.running.Some?
  }

  predicate RunningOnlyOpen(m: Machine) {
    m.running.Some? ==> m.f.streamOpen && !m.control.Activating? && m.f.state != Created && m.f.state != Inactive
  }

  lemma StepKeepsOpen(m: Machine, s: Step)
    requires MachineInv(m) && CanStep(m, s) && RunningOnlyOpen(m) && !ClosesOver(m, s)
    ensures RunningOnlyOpen(Stepped(m, s))
  {
  }

  lemma {:induction false} RunningUnderWaiting(steps: seq<Step>)
    requires CloseWaits(steps)
    ensures RunningOnlyOpen(Steps(FRESH, steps))
  {
    if steps != [] {
      var earlier, last := steps[..|steps| - 1], steps[|steps| - 1];
      forall k | 0 <= k < |earlier|
        ensures !ClosesOver(Steps(FRESH, earlier[..k]), earlier[k])
      {
        assert steps[..k] == earlier[..k] && steps[k] == earlier[k];
      }
      RunningUnderWaiting(earlier);
      StepsKeepInv(earlier);
      assert !ClosesOver(Steps(FRESH, steps[..|earlier|]), steps[|earlier|]);
      if CanStep(Steps(FRESH, earlier), last) {
        StepKeepsOpen(Steps(FRESH, earlier), last);
      }
    }
  }

  /** If closing the stream waits for a callback in progress, an instance that callback runs
      is a stopped one exactly when `deactivate` is in progress and past it. */
  lemma WaitingCloseNarrowsHazard(steps: seq<Step>)
    requires CloseWaits(steps)
    ensures var m := Steps(FRESH, steps);
      RunsStopped(m, RunInstance)
      <==> CanStep(m, RunInstance) && m.control.Deactivating? && m.running.value < m.control.next
  {
    RunningUnderWaiting(steps);
  }

  /** Two instances, both activated. */
  const TWO_ACTIVE: seq<Step> :=
    [Whole(InstantiatePlugin(true, 1)), Whole(InstantiatePlugin(false, 2)),
     BeginActivate, NextInstance, NextInstance, EndCall]

  /** Then a callback runs the first of them before `deactivate` begins and stops it. */
  const HALF_RUN: seq<Step> := TWO_ACTIVE + [CallbackCheck, RunInstance, BeginDeactivate, NextInstance]

  function TwoActive(first: bool, second: bool): Fields {
    Fields(Active, 1, [Instance(1, true, first), Instance(2, false, second)], 1, true)
  }

  lemma {:induction false} StepsJoin(m: Machine, a: seq<Step>, b: seq<Step>)
    ensures Steps(m, a + b) == Steps(Steps(m, a), b)
  {
    if b == [] {
      assert a + b == a;
    } else {
      StepsJoin(m, a, b[..|b| - 1]);
      assert (a + b)[..|a + b| - 1] == a + b[..|b| - 1];
    }
  }

  lemma OneStep(m: Machine, s: Step)
    requires CanStep(m, s)
    ensures Steps(m, [s]) == Stepped(m, s)
  {
    assert [s][..0] == [];
  }

  lemma TwoSteps(m: Machine, s: Step, t: Step)
    requires CanStep(m, s) && CanStep(Stepped(m, s), t)
    ensures Steps(m, [s, t]) == Stepped(Stepped(m, s), t)
  {
    OneStep(m, s);
    OneStep(Stepped(m, s), t);
    StepsJoin(m, [s], [t]);
    assert [s] + [t] == [s, t];
  }

  lemma BothActivated()
    ensures Steps(FRESH, TWO_ACTIVE) == Machine(TwoActive(true, true), Idle, None, false)
  {
    var make := [Whole(InstantiatePlugin(true, 1)), Whole(InstantiatePlugin(false, 2))];
    var start := [BeginActivate, NextInstance];
    var finish := [NextInstance, EndCall];
    TwoSteps(FRESH, make[0], make[1]);
    var m := Steps(FRESH, make);
    TwoSteps(m, start[0], start[1]);
    TwoSteps(Steps(m, start), finish[0], finish[1]);
    StepsJoin(FRESH, make, start);
    StepsJoin(FRESH, make + start, finish);
    assert TWO_ACTIVE == make + start + finish;
  }

  lemma HalfRun()
    ensures Steps(FRESH, HALF_RUN) == Machine(TwoActive(false, true), Deactivating(1), Some(1), false)
  {
    BothActivated();
    var m := Steps(FRESH, TWO_ACTIVE);
    var call := [CallbackCheck, RunInstance];
    var stop := [BeginDeactivate, NextInstance];
    TwoSteps(m, call[0], call[1]);
    TwoSteps(Steps(m, call), stop[0], stop[1]);
    StepsJoin(m, call, stop);
    StepsJoin(FRESH, TWO_ACTIVE, call + stop);
    assert HALF_RUN == TWO_ACTIVE + (call + stop);
  }

  /** The hazard is real even for a callback that has begun to run instances before
      `deactivate` begins: it runs the second one after both have been stopped. */
  lemma HazardIsReachable()
    ensures Steps(FRESH, HALF_RUN + [NextInstance, RunInstance]).droveInactive
  {
    HalfRun();
    TwoSteps(Steps(FRESH, HALF_RUN), NextInstance, RunInstance);
    StepsJoin(FRESH, HALF_RUN, [NextInstance, RunInstance]);
  }

  /** A callback may also run an instance inside `deactivate` and do no harm: only the
      first has been stopped when it runs the second, and it ends before the rest. */
  lemma CallbackOutrunsDeactivate()
    ensures var m := Steps(FRESH, HALF_RUN + [RunInstance, CallbackEnd]);
      m.control == Deactivating(1) && m.running == None && !m.droveInactive
  {
    HalfRun();
    TwoSteps(Steps(FRESH, HALF_RUN), RunInstance, CallbackEnd);
    StepsJoin(FRESH, HALF_RUN, [RunInstance, CallbackEnd]);
  }

  // The inner steps, run without interruption, are the call.

  function Repeat(n: nat): seq<Step> {
    if n == 0 then [] else Repeat(n - 1) + [NextInstance]
  }

  lemma NextSet(instances: seq<Instance>, k: nat, on: bool)
    requires k < |instances|
    ensures var done := WithActive(instances[..k], on) + instances[k..];
      done[k := done[k].(active := on)] == WithActive(instances[..k + 1], on) + instances[k + 1..]
  {
  }

  /** The machine once `k` instances have been gone through. */
  function Through(m: Machine, k: nat): Machine
    requires m.control != Idle && k <= |m.f.instances|
  {
    var on := m.control.Activating?;
    m.(f := m.f.(instances := WithActive(m.f.instances[..k], on) + m.f.instances[k..]),
       control := if on then Activating(k) else Deactivating(k))
  }

  lemma ThroughNext(m: Machine, k: nat)
    requires m.control != Idle && k < |m.f.instances|
    ensures CanStep(Through(m, k), NextInstance)
    ensures Stepped(Through(m, k), NextInstance) == Through(m, k + 1)
  {
    NextSet(m.f.instances, k, m.control.Activating?);
  }

  lemma OneMoreStep(m: Machine, steps: seq<Step>, s: Step)
    requires CanStep(Steps(m, steps), s)
    ensures Steps(m, steps + [s]) == Stepped(Steps(m, steps), s)
  {
    assert (steps + [s])[..|steps|] == steps;
  }

  lemma ThroughOneMore(m: Machine, steps: seq<Step>, k: nat)
    requires m.control != Idle && k < |m.f.instances| && Steps(m, steps) == Through(m, k)
    ensures Steps(m, steps + [NextInstance]) == Through(m, k + 1)
  {
    ThroughNext(m, k);
    OneMoreStep(m, steps, NextInstance);
  }

  lemma {:induction false} RepeatedInstances(m: Machine, n: nat)
    requires m.control != Idle && m.control.next == 0 && n <= |m.f.instances|
    ensures Steps(m, Repeat(n)) == Through(m, n)
  {
    if n == 0 {
      NoneThrough(m);
    } else {
      RepeatedInstances(m, n - 1);
      ThroughOneMore(m, Repeat(n - 1), n - 1);
      assert Repeat(n) == Repeat(n - 1) + [NextInstance];
    }
  }

  lemma NoneThrough(m: Machine)
    requires m.control != Idle && m.control.next == 0
    ensures Steps(m, Repeat(0)) == Through(m, 0) == m
  {
    assert WithActive(m.f.instances[..0], m.control.Activating?) + m.f.instances[0..] == m.f.instances;
  }

  /** Undisturbed, the steps of `activate` do what the whole call does. */
  lemma StepsRefineActivate(m: Machine)
    requires m.control == Idle && (m.f.state == Created || m.f.state == Inactive)
    ensures Steps(Stepped(m, BeginActivate), Repeat(|m.f.instances|) + [EndCall]) == m.(f := After(m.f, Activate(true)))
  {
    var run := Repeat(|m.f.instances|) + [EndCall];
    assert run[..|run| - 1] == Repeat(|m.f.instances|);
    RepeatedInstances(Stepped(m, BeginActivate), |m.f.instances|);
    WholeList(m.f.instances);
  }

  /** And those of `deactivate` likewise. */
  lemma StepsRefineDeactivate(m: Machine)
    requires m.control == Idle && m.f.state == Active
    ensures Steps(Stepped(m, BeginDeactivate), Repeat(|m.f.instances|) + [EndCall]) == m.(f := After(m.f, Deactivate))
  {
    var run := Repeat(|m.f.instances|) + [EndCall];
    assert run[..|run| - 1] == Repeat(|m.f.instances|);
    RepeatedInstances(Stepped(m, BeginDeactivate), |m.f.instances|);
    WholeList(m.f.instances);
  }

  lemma WholeList(instances: seq<Instance>)
    ensures instances[..|instances|] == instances && instances[|instances|..] == []
    ensures forall on :: WithActive(instances, on) + [] == WithActive(instances, on)
  {
  }
}
