/** Runs of a compiled pipeline whose outputs are files: all interleavings of the goroutines that execute its
    steps (`internal/outputexec/execer.go`). */
module Runs {
  import opened Wrappers
  import opened Keys
  import opened Patches
  import opened Directory
  import opened References
  import opened Graph
  import opened Resource
  import opened Linter
  import opened CompiledGraph
  import opened Compiler
  import opened Lookup
  import opened Execer
  import Backends

  // ---------------------------------------------------------------------------------------------
  // The state machine
  // ---------------------------------------------------------------------------------------------

  /** A place for a referenced value: an environment variable or a plugin setting. */
  datatype Slot = Env(name: string) | Setting(name: string)

  /** How far the execution of one step has got. `got` holds the values that were read for it. Between
      publishing its outputs and returning, other goroutines may act. */
  datatype Phase =
    | Waiting
    | Preparing(got: map<Slot, string>)
    | Running(got: map<Slot, string>)
    | Exited(got: map<Slot, string>, code: Option<int>)
    | Published(got: map<Slot, string>, code: Option<int>)
    | Returned(launched: Option<map<Slot, string>>, code: Option<int>)

  /** `dirs` holds the output directory of each step. */
  datatype State = State(phases: map<string, Phase>, dirs: map<string, Values>, outputs: Outputs)

  /** One step of one of the goroutines, or of a running container. Each goroutine reads or writes the
      shared outputs at most once in one of its steps, under the lock. */
  datatype Action =
    | Enter(name: string)                   // the graph runner calls the step's function
    | GiveUp(name: string)                  // returns before launching: cancelled, skipped, finished, no value
    | Read(name: string, slot: Slot)        // resolves one reference
    | Launch(name: string)                  // calls the engine; does not wait for a detached step
    | Write(name: string, patch: Patch)     // the step's container applies a patch to its directory
    | Exit(name: string, code: Option<int>) // the engine returns, with an exit code unless it failed
    | Collect(name: string)                 // publishes the outputs of a step that succeeded
    | Return(name: string)                  // returns

  /** The last step with the name. */
  function StepAt(spec: seq<SpecStep>, name: string): (s: Option<SpecStep>)
    ensures s.Some? ==> s.value in spec && s.value.name == name
    ensures s.None? ==> name !in Names(ShapeOf(spec))
  {
    if spec == [] then None
    else if spec[|spec| - 1].name == name then Some(spec[|spec| - 1])
    else
      assert ShapeOf(spec) == ShapeOf(spec[..|spec| - 1]) + [Vertex(spec[|spec| - 1].name, spec[|spec| - 1].dependsOn)];
      StepAt(spec[..|spec| - 1], name)
  }

  /** The reference that fills a slot of a step. */
  function RefAt(step: SpecStep, slot: Slot): Option<OutputRef> {
    match slot
    case Env(n) => if n in step.outputEnvs then Some(step.outputEnvs[n]) else None
    case Setting(n) => if n in step.outputSettings then Some(step.outputSettings[n]) else None
  }

  ghost predicate AllSlotsFilled(step: SpecStep, got: map<Slot, string>) {
    forall slot: Slot :: RefAt(step, slot).Some? ==> slot in got
  }

  /** The value a reference denotes in the collected outputs. */
  ghost function Denoted(outputs: Outputs, ref: OutputRef): Option<string> {
    ResolveRef(Collected(outputs), ref)
  }

  /** The container of the step is running: the engine has not returned, or nobody waits for it. */
  predicate InContainer(step: SpecStep, phase: Phase) {
    phase.Running? || (step.detach && phase.Returned? && phase.launched.Some?)
  }

  ghost predicate Loadable(dirs: map<string, Values>, name: string) {
    name in dirs && forall k :: k in dirs[name] ==> ValidKey(k)
  }

  /** What a step may do in a phase, going by itself. */
  ghost predicate MayDo(outputs: Outputs, step: SpecStep, phase: Phase, a: Action) {
    match a
    case Enter(_) => phase.Waiting?
    case GiveUp(_) => phase.Preparing?
    case Read(_, slot) =>
      && phase.Preparing? && slot !in phase.got
      && RefAt(step, slot).Some? && Denoted(outputs, RefAt(step, slot).value).Some?
    case Launch(_) => phase.Preparing? && !step.never && AllSlotsFilled(step, phase.got)
    case Write(_, _) => InContainer(step, phase)
    case Exit(_, _) => phase.Running?
    case Collect(_) => phase.Exited? && phase.code == Some(0)
    case Return(_) => phase.Exited? || phase.Published?
  }

  /** What the graph runner, the executor and the containers may do. Of the runner it is only assumed that it
      calls the function of a step at most once, and not before the functions of all its dependencies
      returned. `collects` says that the steps have output directories. */
  ghost predicate Enabled(spec: seq<SpecStep>, collects: bool, s: State, a: Action) {
    && a.name in s.phases && a.name in s.dirs && StepAt(spec, a.name).Some?
    && MayDo(s.outputs, StepAt(spec, a.name).value, s.phases[a.name], a)
    && (a.Enter? ==> DepsReturned(StepAt(spec, a.name).value, s.phases))
    && (a.Collect? ==> collects && Loadable(s.dirs, a.name))
  }

  ghost predicate DepsReturned(step: SpecStep, phases: map<string, Phase>) {
    forall d :: d in step.dependsOn ==> d in phases && phases[d].Returned?
  }

  /** The phase after an action. */
  ghost function Next(outputs: Outputs, step: SpecStep, phase: Phase, a: Action): Phase
    requires MayDo(outputs, step, phase, a)
  {
    match a
    case Enter(_) => Preparing(map[])
    case GiveUp(_) => Returned(None, None)
    case Read(_, slot) => Preparing(phase.got[slot := Denoted(outputs, RefAt(step, slot).value).value])
    case Launch(_) => if step.detach then Returned(Some(phase.got), None) else Running(phase.got)
    case Write(_, _) => phase
    case Exit(_, code) => Exited(phase.got, code)
    case Collect(_) => Published(phase.got, phase.code)
    case Return(_) => Returned(Some(phase.got), phase.code)
  }

  ghost function After(spec: seq<SpecStep>, collects: bool, s: State, a: Action): State
    requires Enabled(spec, collects, s, a)
  {
    State(s.phases[a.name := Next(s.outputs, StepAt(spec, a.name).value, s.phases[a.name], a)],
          if a.Write? then s.dirs[a.name := Patched(s.dirs[a.name], a.patch)] else s.dirs,
          if a.Collect? then s.outputs[a.name := s.dirs[a.name]] else s.outputs)
  }

  /** A run: any interleaving of enabled actions. */
  ghost predicate RunsTo(spec: seq<SpecStep>, collects: bool, s: State, run: seq<Action>, t: State)
    decreases |run|
  {
    if run == [] then s == t
    else Enabled(spec, collects, s, run[0]) && RunsTo(spec, collects, After(spec, collects, s, run[0]), run[1..], t)
  }

  /** A fresh executor and empty directories, before the first step. */
  ghost predicate Fresh(spec: seq<SpecStep>, s: State) {
    && s.outputs == map[]
    && s.phases.Keys == Names(ShapeOf(spec)) && s.dirs.Keys == Names(ShapeOf(spec))
    && forall n :: n in s.phases ==> s.phases[n] == Waiting && s.dirs[n] == map[]
  }

  // ---------------------------------------------------------------------------------------------
  // What holds in every state of a run
  // ---------------------------------------------------------------------------------------------

  /** The values read for a step up to now; none before it is entered or if it was not launched. */
  function Got(phase: Phase): map<Slot, string> {
    match phase
    case Waiting => map[]
    case Preparing(got) => got
    case Running(got) => got
    case Exited(got, _) => got
    case Published(got, _) => got
    case Returned(launched, _) => if launched.Some? then launched.value else map[]
  }

  predicate Launched(phase: Phase) {
    phase.Running? || phase.Exited? || phase.Published? || (phase.Returned? && phase.launched.Some?)
  }

  /** The step was launched, exited with code 0, and may have published its outputs. */
  predicate Succeeded(phase: Phase) {
    (phase.Published? || (phase.Returned? && phase.launched.Some?)) && phase.code == Some(0)
  }

  ghost predicate DependenciesReturned(spec: seq<SpecStep>, s: State) {
    forall n :: n in s.phases && !s.phases[n].Waiting? && StepAt(spec, n).Some? ==>
      DepsReturned(StepAt(spec, n).value, s.phases)
  }

  /** The executor waits for a step until it exits, unless it is detached. */
  ghost predicate DetachedReturn(spec: seq<SpecStep>, s: State) {
    forall n :: n in s.phases && StepAt(spec, n).Some? && StepAt(spec, n).value.detach ==>
      !s.phases[n].Running? && !s.phases[n].Exited? && !s.phases[n].Published?
  }

  /** Published outputs are those of steps that succeeded, and are what their directories hold. */
  ghost predicate PublishedBySuccess(spec: seq<SpecStep>, s: State) {
    forall n :: n in s.outputs ==>
      && n in s.phases && Succeeded(s.phases[n]) && StepAt(spec, n).Some? && !StepAt(spec, n).value.detach
      && n in s.dirs && s.outputs[n] == s.dirs[n]
  }

  /** Every value that was read is what its reference denotes now. */
  ghost predicate ReadsStand(spec: seq<SpecStep>, s: State) {
    forall n, slot :: n in s.phases && slot in Got(s.phases[n]) ==>
      && StepAt(spec, n).Some? && RefAt(StepAt(spec, n).value, slot).Some?
      && Denoted(s.outputs, RefAt(StepAt(spec, n).value, slot).value) == Some(Got(s.phases[n])[slot])
  }

  ghost predicate LaunchedIsFilled(spec: seq<SpecStep>, s: State) {
    forall n :: n in s.phases && Launched(s.phases[n]) ==>
      StepAt(spec, n).Some? && AllSlotsFilled(StepAt(spec, n).value, Got(s.phases[n]))
  }

  /** No step has read its own outputs. */
  ghost predicate NoSelfReads(spec: seq<SpecStep>, s: State) {
    forall n, slot ::
      n in s.phases && slot in Got(s.phases[n]) && StepAt(spec, n).Some? && RefAt(StepAt(spec, n).value, slot).Some? ==>
      RefAt(StepAt(spec, n).value, slot).value.step != n
  }

  ghost predicate Safe(spec: seq<SpecStep>, s: State) {
    && s.phases.Keys == Names(ShapeOf(spec)) && s.dirs.Keys == Names(ShapeOf(spec))
    && DependenciesReturned(spec, s) && DetachedReturn(spec, s) && PublishedBySuccess(spec, s)
    && ReadsStand(spec, s) && LaunchedIsFilled(spec, s) && NoSelfReads(spec, s)
  }

  /** Once published, outputs stay as they are; what has returned stays returned. */
  ghost predicate Later(s: State, t: State) {
    && s.phases.Keys == t.phases.Keys
    && (forall n :: n in s.outputs ==> n in t.outputs && t.outputs[n] == s.outputs[n])
    && (forall n :: n in s.phases && s.phases[n].Returned? ==>
      t.phases[n] == s.phases[n] && (n in t.outputs ==> n in s.outputs))
    && (forall n :: n in s.phases && !s.phases[n].Waiting? ==> !t.phases[n].Waiting?)
    && (forall n :: n in s.phases && Launched(s.phases[n]) ==>
      Launched(t.phases[n]) && Got(t.phases[n]) == Got(s.phases[n]))
  }

  lemma NextIsLater(outputs: Outputs, step: SpecStep, phase: Phase, a: Action)
    requires MayDo(outputs, step, phase, a)
    ensures var next := Next(outputs, step, phase, a);
            && (phase.Returned? ==> next == phase) && !next.Waiting?
            && (Launched(phase) ==> Launched(next) && Got(next) == Got(phase))
            && (a.Collect? ==> !phase.Returned? && !phase.Published?)
  {
    hide Denoted, AllSlotsFilled;
  }

  /** One phase goes on, and outputs are added for it only if it has not published and returned. */
  lemma OneIsLater(s: State, t: State, name: string, next: Phase)
    requires name in s.phases && t.phases == s.phases[name := next]
    requires var phase := s.phases[name];
             && (phase.Returned? ==> next == phase) && !next.Waiting?
             && (Launched(phase) ==> Launched(next) && Got(next) == Got(phase))
             && (t.outputs != s.outputs ==>
               name !in s.outputs && name in t.outputs && t.outputs == s.outputs[name := t.outputs[name]] &&
                                            !phase.Returned?)
    ensures Later(s, t)
  {
    hide Launched, Got;
  }

  lemma ActionIsLater(spec: seq<SpecStep>, collects: bool, s: State, a: Action)
    requires PublishedBySuccess(spec, s) && Enabled(spec, collects, s, a)
    ensures Later(s, After(spec, collects, s, a))
  {
    NextIsLater(s.outputs, StepAt(spec, a.name).value, s.phases[a.name], a);
    assert a.Collect? ==> a.name !in s.outputs;
    hide StepAt, Patched, MayDo, Next, Loadable, DepsReturned, Launched, Got, PublishedBySuccess, Later;
    OneIsLater(s, After(spec, collects, s, a), a.name,
      Next(s.outputs, StepAt(spec, a.name).value, s.phases[a.name], a));
  }

  lemma KeepsDependenciesReturned(spec: seq<SpecStep>, collects: bool, s: State, a: Action)
    requires DependenciesReturned(spec, s) && Enabled(spec, collects, s, a) && Later(s, After(spec, collects, s, a))
    ensures DependenciesReturned(spec, After(spec, collects, s, a))
  {
    hide StepAt, Denoted, AllSlotsFilled, Patched;
  }

  lemma KeepsDetachedReturn(spec: seq<SpecStep>, collects: bool, s: State, a: Action)
    requires DetachedReturn(spec, s) && Enabled(spec, collects, s, a)
    ensures DetachedReturn(spec, After(spec, collects, s, a))
  {
    hide StepAt, Denoted, AllSlotsFilled, Patched;
  }

  lemma KeepsPublishedBySuccess(spec: seq<SpecStep>, collects: bool, s: State, a: Action)
    requires PublishedBySuccess(spec, s) && DetachedReturn(spec, s) && Enabled(spec, collects, s, a)
    ensures PublishedBySuccess(spec, After(spec, collects, s, a))
  {
    hide StepAt, Denoted, AllSlotsFilled, Patched;
  }

  lemma KeepsReadsStand(spec: seq<SpecStep>, collects: bool, s: State, a: Action)
    requires ReadsStand(spec, s) && Enabled(spec, collects, s, a) && Later(s, After(spec, collects, s, a))
    ensures ReadsStand(spec, After(spec, collects, s, a))
  {
    hide StepAt, Answer, Resolved, AllSlotsFilled, Patched, Loadable;
  }

  lemma KeepsLaunchedIsFilled(spec: seq<SpecStep>, collects: bool, s: State, a: Action)
    requires LaunchedIsFilled(spec, s) && Enabled(spec, collects, s, a)
    ensures LaunchedIsFilled(spec, After(spec, collects, s, a))
  {
    hide StepAt, Denoted, Patched, Loadable;
  }

  lemma KeepsNoSelfReads(spec: seq<SpecStep>, collects: bool, s: State, a: Action)
    requires NoSelfReads(spec, s) && PublishedBySuccess(spec, s) && Enabled(spec, collects, s, a)
    ensures NoSelfReads(spec, After(spec, collects, s, a))
  {
    hide StepAt, Answer, Resolved, AllSlotsFilled, Patched, Loadable;
  }

  lemma ActionKeepsSafe(spec: seq<SpecStep>, collects: bool, s: State, a: Action)
    requires Safe(spec, s) && Enabled(spec, collects, s, a)
    ensures Safe(spec, After(spec, collects, s, a))
  {
    ActionIsLater(spec, collects, s, a);
    KeepsDependenciesReturned(spec, collects, s, a);
    KeepsDetachedReturn(spec, collects, s, a);
    KeepsPublishedBySuccess(spec, collects, s, a);
    KeepsReadsStand(spec, collects, s, a);
    KeepsLaunchedIsFilled(spec, collects, s, a);
    KeepsNoSelfReads(spec, collects, s, a);
    hide DependenciesReturned, DetachedReturn, PublishedBySuccess, ReadsStand, LaunchedIsFilled, NoSelfReads, Later;
    hide ShapeOf, Names, Next, StepAt, Patched, MayDo, Loadable, DepsReturned;
  }

  lemma {:induction false} RunKeepsSafe(spec: seq<SpecStep>, collects: bool, s: State, run: seq<Action>, t: State)
    requires Safe(spec, s) && RunsTo(spec, collects, s, run, t)
    ensures Safe(spec, t) && Later(s, t)
    decreases |run|
  {
    hide Safe, Enabled, After;
    if run == [] {
      hide StepAt, ResolveRef;
    } else {
      var u := After(spec, collects, s, run[0]);
      ActionKeepsSafe(spec, collects, s, run[0]);
      SafePublication(spec, s);
      ActionIsLater(spec, collects, s, run[0]);
      RunKeepsSafe(spec, collects, u, run[1..], t);
      LaterTransitive(s, u, t);
    }
  }

  lemma SafePublication(spec: seq<SpecStep>, s: State)
    requires Safe(spec, s)
    ensures PublishedBySuccess(spec, s)
  {
    hide DependenciesReturned, DetachedReturn, PublishedBySuccess, ReadsStand, LaunchedIsFilled, NoSelfReads;
  }

  lemma LaterTransitive(s: State, t: State, u: State)
    requires Later(s, t) && Later(t, u)
    ensures Later(s, u)
  {
  }

  lemma FreshIsSafe(spec: seq<SpecStep>, s: State)
    requires Fresh(spec, s)
    ensures Safe(spec, s)
  {
    hide StepAt, Names, ShapeOf;
  }

  // ---------------------------------------------------------------------------------------------
  // What a launched step was given
  // ---------------------------------------------------------------------------------------------

  /** The producer has exited with code 0 and its outputs are published; the value is what the reference
      denotes in those outputs. */
  ghost predicate Delivered(s: State, ref: OutputRef, value: string) {
    && ref.step in s.phases && Succeeded(s.phases[ref.step])
    && ref.step in s.outputs && Resolved(s.outputs[ref.step], ref.key) == Ok(Some(value))
  }

  lemma LaunchedHasAll(spec: seq<SpecStep>, s: State, name: string)
    requires Safe(spec, s) && name in s.phases && Launched(s.phases[name]) && StepAt(spec, name).Some?
    ensures var step, got := StepAt(spec, name).value, Got(s.phases[name]);
            && (forall slot: Slot :: slot in got <==> RefAt(step, slot).Some?)
            && (forall slot: Slot :: slot in got ==>
              ResolveRef(Collected(s.outputs), RefAt(step, slot).value) == Some(got[slot]))
  {
    hide StepAt, ResolveRef, RefAt, Launched, Got;
    hide DependenciesReturned, DetachedReturn, Names, ShapeOf, PublishedBySuccess, NoSelfReads;
    assert AllSlotsFilled(StepAt(spec, name).value, Got(s.phases[name]));
  }

  /** Whatever the dependencies are, a step can only be launched when every producer it refers to has
      succeeded and has published its outputs; a value is read for every reference. */
  lemma LaunchAfterPublication(spec: seq<SpecStep>, collects: bool, s0: State, run: seq<Action>, s: State,
          name: string, slot: Slot)
    requires Fresh(spec, s0) && RunsTo(spec, collects, s0, run, s)
    requires Enabled(spec, collects, s, Launch(name)) || (name in s.phases && Launched(s.phases[name]))
    requires StepAt(spec, name).Some? && RefAt(StepAt(spec, name).value, slot).Some?
    ensures var ref := RefAt(StepAt(spec, name).value, slot).value;
            && slot in Got(s.phases[name]) && ref.step != name
            && Delivered(s, ref, Got(s.phases[name])[slot])
  {
    hide *;
    FreshIsSafe(spec, s0);
    RunKeepsSafe(spec, collects, s0, run, s);
    if Enabled(spec, collects, s, Launch(name)) {
      ReadyHasAll(spec, collects, s, name);
    } else {
      LaunchedHasAll(spec, s, name);
    }
    ReadIsDelivered(spec, s, name, slot);
  }

  lemma ReadyHasAll(spec: seq<SpecStep>, collects: bool, s: State, name: string)
    requires Enabled(spec, collects, s, Launch(name))
    ensures name in s.phases && StepAt(spec, name).Some?
    ensures forall slot: Slot :: RefAt(StepAt(spec, name).value, slot).Some? ==> slot in Got(s.phases[name])
  {
    hide StepAt, RefAt;
  }

  lemma ReadIsDelivered(spec: seq<SpecStep>, s: State, name: string, slot: Slot)
    requires Safe(spec, s) && name in s.phases && slot in Got(s.phases[name])
    requires StepAt(spec, name).Some? && RefAt(StepAt(spec, name).value, slot).Some?
    ensures var ref := RefAt(StepAt(spec, name).value, slot).value;
            ref.step != name && Delivered(s, ref, Got(s.phases[name])[slot])
  {
    hide StepAt, Resolved, RefAt, Got, DependenciesReturned, DetachedReturn, LaunchedIsFilled, Names, ShapeOf;
    assert Denoted(s.outputs, RefAt(StepAt(spec, name).value, slot).value) == Some(Got(s.phases[name])[slot]);
  }

  /** If moreover the step depends on the producer, directly or not, and the steps are in order, then the
      producer's function has returned. */
  lemma LaunchAfterProducers(spec: seq<SpecStep>, collects: bool, s0: State, run: seq<Action>, s: State, name: string,
          slot: Slot)
    requires TopologicallyOrdered(ShapeOf(spec)) && name in Names(ShapeOf(spec))
    requires Fresh(spec, s0) && RunsTo(spec, collects, s0, run, s)
    requires Enabled(spec, collects, s, Launch(name)) || (name in s.phases && Launched(s.phases[name]))
    requires StepAt(spec, name).Some? && RefAt(StepAt(spec, name).value, slot).Some?
    requires Reaches(EdgesOf(ShapeOf(spec)), name, RefAt(StepAt(spec, name).value, slot).value.step)
    ensures var ref := RefAt(StepAt(spec, name).value, slot).value;
            && slot in Got(s.phases[name]) && Delivered(s, ref, Got(s.phases[name])[slot])
            && s.phases[ref.step].Returned?
  {
    assert name in s.phases && !s.phases[name].Waiting? by {
      hide RunsTo, Fresh, TopologicallyOrdered, Reaches, EdgesOf, ShapeOf, Names, StepAt, RefAt, AllSlotsFilled;
    }
    hide *;
    LaunchAfterPublication(spec, collects, s0, run, s, name, slot);
    FreshIsSafe(spec, s0);
    RunKeepsSafe(spec, collects, s0, run, s);
    SafeDependencies(spec, s);
    ReachedHasReturned(spec, s, name, RefAt(StepAt(spec, name).value, slot).value.step);
  }

  lemma SafeDependencies(spec: seq<SpecStep>, s: State)
    requires Safe(spec, s)
    ensures DependenciesReturned(spec, s)
  {
    hide DependenciesReturned, DetachedReturn, PublishedBySuccess, ReadsStand, LaunchedIsFilled, NoSelfReads;
  }

  /** What a launched step was given stays the value of its references for the rest of the run. */
  lemma DeliveredForGood(spec: seq<SpecStep>, collects: bool, s0: State, run: seq<Action>, s: State, more: seq<Action>,
          t: State, name: string, slot: Slot)
    requires Fresh(spec, s0) && RunsTo(spec, collects, s0, run, s) && RunsTo(spec, collects, s, more, t)
    requires name in s.phases && Launched(s.phases[name])
    requires StepAt(spec, name).Some? && RefAt(StepAt(spec, name).value, slot).Some?
    ensures name in t.phases && Launched(t.phases[name]) && Got(t.phases[name]) == Got(s.phases[name])
    ensures slot in Got(s.phases[name])
    ensures Delivered(t, RefAt(StepAt(spec, name).value, slot).value, Got(s.phases[name])[slot])
  {
    hide StepAt, Resolved, Enabled, After;
    LaunchAfterPublication(spec, collects, s0, run, s, name, slot);
    FreshIsSafe(spec, s0);
    RunKeepsSafe(spec, collects, s0, run, s);
    RunKeepsSafe(spec, collects, s, more, t);
    hide RunsTo, Fresh, DependenciesReturned, DetachedReturn, Names, ShapeOf, ReadsStand, LaunchedIsFilled, NoSelfReads;
  }

  /** If a producer has returned and the reference denotes nothing, because nothing was published, the key is missing
      or its lookup is an error, then no step with this reference will ever be launched, nor has been. */
  lemma NoOutputNoLaunch(spec: seq<SpecStep>, collects: bool, s0: State, run: seq<Action>, s: State, more: seq<Action>,
          t: State, name: string, slot: Slot)
    requires Fresh(spec, s0) && RunsTo(spec, collects, s0, run, s) && RunsTo(spec, collects, s, more, t)
    requires name in t.phases && StepAt(spec, name).Some? && RefAt(StepAt(spec, name).value, slot).Some?
    requires var producer := RefAt(StepAt(spec, name).value, slot).value.step;
             producer in s.phases && s.phases[producer].Returned?
    requires Denoted(s.outputs, RefAt(StepAt(spec, name).value, slot).value).None?
    ensures !Launched(t.phases[name])
  {
    hide StepAt, Resolved, Enabled, After;
    FreshIsSafe(spec, s0);
    RunKeepsSafe(spec, collects, s0, run, s);
    RunKeepsSafe(spec, collects, s, more, t);
    hide RunsTo, Fresh, DependenciesReturned, DetachedReturn, Names, ShapeOf, PublishedBySuccess, NoSelfReads;
    assert !Launched(t.phases[name]) || Denoted(t.outputs, RefAt(StepAt(spec, name).value, slot).value).Some?;
  }

  /** A step that refers to itself is never launched. */
  lemma SelfReferenceNeverLaunches(spec: seq<SpecStep>, collects: bool, s0: State, run: seq<Action>, s: State,
          name: string, slot: Slot)
    requires Fresh(spec, s0) && RunsTo(spec, collects, s0, run, s) && name in s.phases
    requires StepAt(spec, name).Some? && RefAt(StepAt(spec, name).value, slot).Some?
    requires RefAt(StepAt(spec, name).value, slot).value.step == name
    ensures !Launched(s.phases[name])
  {
    hide StepAt, Resolved, Enabled, After;
    FreshIsSafe(spec, s0);
    RunKeepsSafe(spec, collects, s0, run, s);
    hide RunsTo, Fresh, DependenciesReturned, DetachedReturn, Names, ShapeOf, PublishedBySuccess, ReadsStand;
  }

  // -- What the executor injects

  function EnvValues(got: map<Slot, string>): Values {
    map n | n in (set slot | slot in got && slot.Env? :: slot.name) :: got[Env(n)]
  }

  function SettingValues(got: map<Slot, string>): Values {
    map n | n in (set slot | slot in got && slot.Setting? :: slot.name) :: got[Setting(n)]
  }

  lemma FilledWithValues(step: SpecStep, got: map<Slot, string>, view: View)
    requires forall slot: Slot :: slot in got <==> RefAt(step, slot).Some?
    requires forall slot: Slot :: slot in got ==> ResolveRef(view, RefAt(step, slot).value) == Some(got[slot])
    ensures AllResolve(view, step.outputEnvs) && EnvValues(got) == ValuesOf(view, step.outputEnvs)
    ensures AllResolve(view, step.outputSettings) && SettingValues(got) == ValuesOf(view, step.outputSettings)
  {
    hide ResolveRef;
    forall n | n in step.outputEnvs ensures Env(n) in got && ResolveRef(view, step.outputEnvs[n]) == Some(got[Env(n)]) {
      assert RefAt(step, Env(n)) == Some(step.outputEnvs[n]);
    }
    forall n | n in step.outputSettings
      ensures Setting(n) in got && ResolveRef(view, step.outputSettings[n]) == Some(got[Setting(n)])
    {
      assert RefAt(step, Setting(n)) == Some(step.outputSettings[n]);
    }
  }

  /** The values a launched step was given, slot by slot and at different times, are the ones that injecting all
      references at once returns, now and whenever later. */
  lemma LaunchedWithInjected(spec: seq<SpecStep>, collects: bool, s0: State, run: seq<Action>, s: State, name: string)
    requires Fresh(spec, s0) && RunsTo(spec, collects, s0, run, s)
    requires name in s.phases && Launched(s.phases[name]) && StepAt(spec, name).Some?
    ensures var step, view := StepAt(spec, name).value, Collected(s.outputs);
            && AllResolve(view, step.outputEnvs) && EnvValues(Got(s.phases[name])) == ValuesOf(view, step.outputEnvs)
            && AllResolve(view, step.outputSettings) &&
              SettingValues(Got(s.phases[name])) == ValuesOf(view, step.outputSettings)
  {
    hide *;
    FreshIsSafe(spec, s0);
    RunKeepsSafe(spec, collects, s0, run, s);
    LaunchedHasAll(spec, s, name);
    FilledWithValues(StepAt(spec, name).value, Got(s.phases[name]), Collected(s.outputs));
  }

  // -- From publishing to injection

  /** The patches that a step has applied to its directory in a run. */
  function PatchesOf(run: seq<Action>, name: string): seq<Patch> {
    if run == [] then []
    else (if run[0].Write? && run[0].name == name then [run[0].patch] else []) + PatchesOf(run[1..], name)
  }

  lemma {:induction false} DirectoryHoldsPatches(spec: seq<SpecStep>, collects: bool, s: State, run: seq<Action>,
          t: State, name: string)
    requires RunsTo(spec, collects, s, run, t) && name in s.dirs
    ensures name in t.dirs && t.dirs[name] == AfterPatches(s.dirs[name], PatchesOf(run, name))
    decreases |run|
  {
    if run == [] {
    } else {
      hide StepAt, MayDo, Next, Patched, Loadable, DepsReturned;
      var u := After(spec, collects, s, run[0]);
      assert name in u.dirs;
      assert u.dirs[name] ==
        if run[0].Write? && run[0].name == name then Patched(s.dirs[name], run[0].patch) else s.dirs[name];
      DirectoryHoldsPatches(spec, collects, u, run[1..], t, name);
      var rest := PatchesOf(run[1..], name);
      if run[0].Write? && run[0].name == name {
        assert PatchesOf(run, name)[0] == run[0].patch && PatchesOf(run, name)[1..] == rest;
      } else {
        assert PatchesOf(run, name) == rest;
      }
    }
  }

  /** Every value a step was launched with is what its reference denotes in the patches that the producer has
      applied, from first to last, to an empty directory. */
  lemma LaunchedWithWritten(spec: seq<SpecStep>, collects: bool, s0: State, run: seq<Action>, s: State, name: string,
          slot: Slot)
    requires Fresh(spec, s0) && RunsTo(spec, collects, s0, run, s) && name in s.phases && Launched(s.phases[name])
    requires StepAt(spec, name).Some? && RefAt(StepAt(spec, name).value, slot).Some?
    ensures var ref := RefAt(StepAt(spec, name).value, slot).value;
            && slot in Got(s.phases[name])
            && Resolved(AfterPatches(map[], PatchesOf(run, ref.step)), ref.key) == Ok(Some(Got(s.phases[name])[slot]))
  {
    var producer := RefAt(StepAt(spec, name).value, slot).value.step;
    LaunchAfterPublication(spec, collects, s0, run, s, name, slot);
    FreshIsSafe(spec, s0);
    RunKeepsSafe(spec, collects, s0, run, s);
    hide RunsTo, StepAt, Resolved, AfterPatches, PatchesOf, Names, ShapeOf;
    hide DependenciesReturned, DetachedReturn, ReadsStand, LaunchedIsFilled, NoSelfReads;
    assert producer in s0.dirs;
    DirectoryHoldsPatches(spec, collects, s0, run, s, producer);
  }

  // ---------------------------------------------------------------------------------------------
  // What has happened before, action by action
  // ---------------------------------------------------------------------------------------------

  /** The actions that a phase and the published outputs give evidence of. */
  ghost predicate Recorded(s: State, run: seq<Action>, n: string)
    requires n in s.phases
  {
    && (!s.phases[n].Waiting? ==> Enter(n) in run)
    && (Launched(s.phases[n]) ==> Launch(n) in run)
    && (s.phases[n].Exited? ==> Exit(n, s.phases[n].code) in run)
    && (n in s.outputs ==> Collect(n) in run)
    && (n in s.outputs && s.phases[n].Returned? ==> Return(n) in run)
  }

  /** The action is possible after the first `j` actions of the run. */
  lemma {:induction false} RunSplits(spec: seq<SpecStep>, collects: bool, s: State, run: seq<Action>, j: nat, t: State)
    returns (mid: State)
    requires RunsTo(spec, collects, s, run, t) && j <= |run|
    ensures RunsTo(spec, collects, s, run[..j], mid) && RunsTo(spec, collects, mid, run[j..], t)
    decreases j
  {
    hide Enabled, After;
    if j == 0 {
      mid := s;
      assert run[0..] == run;
    } else {
      mid := RunSplits(spec, collects, After(spec, collects, s, run[0]), run[1..], j - 1, t);
      assert run[1..][..j - 1] == run[..j][1..] && run[1..][j - 1..] == run[j..];
    }
  }

  /** The state in which an action of a run happens. */
  lemma StateAt(spec: seq<SpecStep>, collects: bool, s: State, run: seq<Action>, j: nat, t: State)
    returns (mid: State)
    requires RunsTo(spec, collects, s, run, t) && j < |run|
    ensures RunsTo(spec, collects, s, run[..j], mid) && Enabled(spec, collects, mid, run[j])
    ensures RunsTo(spec, collects, After(spec, collects, mid, run[j]), run[j + 1..], t)
  {
    mid := RunSplits(spec, collects, s, run, j, t);
    assert run[j..][0] == run[j] && run[j..][1..] == run[j + 1..];
    hide Enabled, After;
  }

  lemma ActionIsRecorded(spec: seq<SpecStep>, collects: bool, s: State, a: Action, run: seq<Action>, n: string)
    requires PublishedBySuccess(spec, s) && Enabled(spec, collects, s, a) && n in s.phases && Recorded(s, run, n)
    ensures n in After(spec, collects, s, a).phases && Recorded(After(spec, collects, s, a), run + [a], n)
  {
    hide StepAt, Denoted, AllSlotsFilled, Patched, Loadable, DepsReturned, RefAt;
    assert forall b :: b in run ==> b in run + [a];
    assert a in run + [a];
  }

  lemma {:induction false} RunIsRecorded(spec: seq<SpecStep>, collects: bool, s0: State, run: seq<Action>, s: State,
          n: string)
    requires Fresh(spec, s0) && RunsTo(spec, collects, s0, run, s) && n in s.phases
    ensures Recorded(s, run, n)
    decreases |run|
  {
    hide *;
    FreshIsSafe(spec, s0);
    RunKeepsSafe(spec, collects, s0, run, s);
    if run == [] {
      NothingRecorded(spec, collects, s0, run, s, n);
    } else {
      var k := |run| - 1;
      var mid := StateAt(spec, collects, s0, run, k, s);
      LastState(spec, collects, After(spec, collects, mid, run[k]), run[k + 1..], s);
      RunKeepsSafe(spec, collects, s0, run[..k], mid);
      SafePublication(spec, mid);
      SameSteps(spec, mid, s, n);
      RunIsRecorded(spec, collects, s0, run[..k], mid, n);
      ActionIsRecorded(spec, collects, mid, run[k], run[..k], n);
      assert run == run[..k] + [run[k]];
    }
  }

  lemma NothingRecorded(spec: seq<SpecStep>, collects: bool, s0: State, run: seq<Action>, s: State, n: string)
    requires Fresh(spec, s0) && RunsTo(spec, collects, s0, run, s) && run == [] && n in s.phases
    ensures Recorded(s, run, n)
  {
    hide StepAt, Names, ShapeOf;
  }

  lemma LastState(spec: seq<SpecStep>, collects: bool, s: State, run: seq<Action>, t: State)
    requires RunsTo(spec, collects, s, run, t) && run == []
    ensures s == t
  {
  }

  lemma SameSteps(spec: seq<SpecStep>, s: State, t: State, n: string)
    requires Safe(spec, s) && Safe(spec, t) && n in t.phases
    ensures n in s.phases
  {
    hide DependenciesReturned, DetachedReturn, PublishedBySuccess, ReadsStand, LaunchedIsFilled, NoSelfReads;
  }

  /** Publishing comes after the container has exited with code 0, and that after its launch. Nothing is published
      if the steps have no output directories. */
  lemma CollectAfterExit(spec: seq<SpecStep>, collects: bool, s0: State, run: seq<Action>, s: State, k: nat, n: string)
    requires Fresh(spec, s0) && RunsTo(spec, collects, s0, run, s) && k < |run| && run[k] == Collect(n)
    ensures collects
    ensures exists i, j :: 0 <= i < j < k && run[i] == Launch(n) && run[j] == Exit(n, Some(0))
  {
    hide *;
    var mid := StateAt(spec, collects, s0, run, k, s);
    HasPhase(spec, collects, mid, Collect(n));
    MayCollect(spec, collects, mid, n);
    RunIsRecorded(spec, collects, s0, run[..k], mid, n);
    var j := ExitRecorded(mid, run[..k], n);
    assert run[..k][..j] == run[..j];
    var early := StateAt(spec, collects, s0, run[..k], j, mid);
    MayExit(spec, collects, early, n, Some(0));
    RunIsRecorded(spec, collects, s0, run[..j], early, n);
    var i := LaunchRecorded(early, run[..j], n);
  }

  /** Outputs are only published by steps whose container was launched and has exited with code 0 before, and only
      if the steps have output directories. */
  lemma PublishedAfterSuccess(spec: seq<SpecStep>, collects: bool, s0: State, run: seq<Action>, s: State, n: string)
    requires Fresh(spec, s0) && RunsTo(spec, collects, s0, run, s) && n in s.outputs
    ensures collects && Exit(n, Some(0)) in run
    ensures exists i, j, k :: 0 <= i < j < k < |run| &&
              run[i] == Launch(n) && run[j] == Exit(n, Some(0)) && run[k] == Collect(n)
  {
    hide *;
    OutputsOfSteps(spec, collects, s0, run, s, n);
    RunIsRecorded(spec, collects, s0, run, s, n);
    var k := CollectRecorded(s, run, n);
    CollectAfterExit(spec, collects, s0, run, s, k, n);
  }

  lemma OutputsOfSteps(spec: seq<SpecStep>, collects: bool, s0: State, run: seq<Action>, s: State, n: string)
    requires Fresh(spec, s0) && RunsTo(spec, collects, s0, run, s) && n in s.outputs
    ensures n in s.phases
  {
    hide StepAt, Enabled, After, RunsTo;
    FreshIsSafe(spec, s0);
    RunKeepsSafe(spec, collects, s0, run, s);
    SafePublication(spec, s);
    hide Safe, Fresh, Later;
  }

  lemma CollectRecorded(s: State, run: seq<Action>, n: string) returns (k: nat)
    requires n in s.phases && Recorded(s, run, n) && n in s.outputs
    ensures k < |run| && run[k] == Collect(n)
  {
    k :| 0 <= k < |run| && run[k] == Collect(n);
  }

  lemma ReturnRecorded(s: State, run: seq<Action>, n: string) returns (k: nat)
    requires n in s.phases && Recorded(s, run, n) && n in s.outputs && s.phases[n].Returned?
    ensures k < |run| && run[k] == Return(n)
  {
    k :| 0 <= k < |run| && run[k] == Return(n);
  }

  lemma ExitRecorded(s: State, run: seq<Action>, n: string) returns (k: nat)
    requires n in s.phases && Recorded(s, run, n) && s.phases[n].Exited?
    ensures k < |run| && run[k] == Exit(n, s.phases[n].code)
  {
    k :| 0 <= k < |run| && run[k] == Exit(n, s.phases[n].code);
  }

  lemma LaunchRecorded(s: State, run: seq<Action>, n: string) returns (k: nat)
    requires n in s.phases && Recorded(s, run, n) && Launched(s.phases[n])
    ensures k < |run| && run[k] == Launch(n)
  {
    k :| 0 <= k < |run| && run[k] == Launch(n);
  }

  /** A step may publish exactly if it has exited with code 0, there are output directories, and it has only left
      files whose names are well-formed keys. */
  lemma MayCollect(spec: seq<SpecStep>, collects: bool, s: State, n: string)
    requires n in s.phases && n in s.dirs && StepAt(spec, n).Some?
    ensures Enabled(spec, collects, s, Collect(n)) <==>
              collects && s.phases[n].Exited? && s.phases[n].code == Some(0) && forall k :: k in s.dirs[n] ==>
                ValidKey(k)
  {
    hide StepAt, ValidKey;
  }

  lemma HasPhase(spec: seq<SpecStep>, collects: bool, s: State, a: Action)
    requires Enabled(spec, collects, s, a)
    ensures a.name in s.phases && a.name in s.dirs && StepAt(spec, a.name).Some?
  {
    hide StepAt, MayDo, DepsReturned, Loadable;
  }

  /** All keys that are ever published are well-formed. */
  lemma {:induction false} PublishedKeysValid(spec: seq<SpecStep>, collects: bool, s: State, run: seq<Action>, t: State)
    requires RunsTo(spec, collects, s, run, t) && forall n, k :: n in s.outputs && k in s.outputs[n] ==> ValidKey(k)
    ensures forall n, k :: n in t.outputs && k in t.outputs[n] ==> ValidKey(k)
    decreases |run|
  {
    if run == [] {
    } else {
      hide StepAt, MayDo, Next, Patched, DepsReturned, ValidKey;
      var u := After(spec, collects, s, run[0]);
      assert forall n, k :: n in u.outputs && k in u.outputs[n] ==> ValidKey(k);
      PublishedKeysValid(spec, collects, u, run[1..], t);
    }
  }

  lemma MayExit(spec: seq<SpecStep>, collects: bool, s: State, n: string, code: Option<int>)
    requires Enabled(spec, collects, s, Exit(n, code))
    ensures n in s.phases && Launched(s.phases[n])
  {
    hide StepAt;
  }

  /** Before a step is launched, every producer it refers to was launched, has exited with code 0 and has published
      its outputs, in this order. A step whose conditions are not met is not launched at all. */
  lemma LaunchAfterCollect(spec: seq<SpecStep>, collects: bool, s0: State, run: seq<Action>, s: State, j: nat,
          name: string, slot: Slot)
    requires Fresh(spec, s0) && RunsTo(spec, collects, s0, run, s) && j < |run| && run[j] == Launch(name)
    requires StepAt(spec, name).Some?
    ensures !StepAt(spec, name).value.never
    ensures RefAt(StepAt(spec, name).value, slot).Some? ==>
              var n := RefAt(StepAt(spec, name).value, slot).value.step;
              exists a, b, c :: 0 <= a < b < c < j &&
                run[a] == Launch(n) && run[b] == Exit(n, Some(0)) && run[c] == Collect(n)
  {
    hide *;
    var mid := StateAt(spec, collects, s0, run, j, s);
    MayLaunchNow(spec, collects, mid, name);
    if RefAt(StepAt(spec, name).value, slot).Some? {
      var n := RefAt(StepAt(spec, name).value, slot).value.step;
      LaunchAfterPublication(spec, collects, s0, run[..j], mid, name, slot);
      WhatIsDelivered(mid, RefAt(StepAt(spec, name).value, slot).value, Got(mid.phases[name])[slot]);
      PublishedAfterSuccess(spec, collects, s0, run[..j], mid, n);
      SuccessInFront(run, j, n);
    }
  }

  lemma SuccessInFront(run: seq<Action>, j: nat, n: string)
    requires j <= |run|
    requires exists a, b, c :: 0 <= a < b < c < |run[..j]| &&
               run[..j][a] == Launch(n) && run[..j][b] == Exit(n, Some(0)) && run[..j][c] == Collect(n)
    ensures exists a, b, c :: 0 <= a < b < c < j &&
              run[a] == Launch(n) && run[b] == Exit(n, Some(0)) && run[c] == Collect(n)
  {
    assert forall k :: 0 <= k < j ==> run[..j][k] == run[k];
    var a, b, c :| 0 <= a < b < c < |run[..j]| &&
      run[..j][a] == Launch(n) && run[..j][b] == Exit(n, Some(0)) && run[..j][c] == Collect(n);
    assert run[a] == Launch(n) && run[b] == Exit(n, Some(0)) && run[c] == Collect(n);
  }

  lemma MayLaunchNow(spec: seq<SpecStep>, collects: bool, s: State, name: string)
    requires Enabled(spec, collects, s, Launch(name))
    ensures StepAt(spec, name).Some? && !StepAt(spec, name).value.never
    ensures name in s.phases && !s.phases[name].Waiting?
  {
    hide StepAt, AllSlotsFilled;
  }

  lemma WhatIsDelivered(s: State, ref: OutputRef, value: string)
    requires Delivered(s, ref, value)
    ensures ref.step in s.outputs && Resolved(s.outputs[ref.step], ref.key) == Ok(Some(value))
  {
    hide Resolved;
  }

  /** If the step depends on the producer, the producer has also returned before the step was entered. */
  lemma EnterAfterReturn(spec: seq<SpecStep>, collects: bool, s0: State, run: seq<Action>, s: State, j: nat,
          name: string, n: string)
    requires TopologicallyOrdered(ShapeOf(spec)) && name in Names(ShapeOf(spec))
    requires Fresh(spec, s0) && RunsTo(spec, collects, s0, run, s) && j < |run| && run[j] == Enter(name)
    requires name != n && Reaches(EdgesOf(ShapeOf(spec)), name, n) && n in s.outputs
    ensures exists c, d :: 0 <= c < d < j && run[c] == Collect(n) && run[d] == Return(n)
  {
    hide *;
    var mid := StateAt(spec, collects, s0, run, j, s);
    var next := After(spec, collects, mid, run[j]);
    EnteredNow(spec, collects, mid, name);
    FreshIsSafe(spec, s0);
    RunKeepsSafe(spec, collects, s0, run[..j], mid);
    ActionKeepsSafe(spec, collects, mid, run[j]);
    SafeDependencies(spec, next);
    ReachedHasReturned(spec, next, name, n);
    RunKeepsSafe(spec, collects, next, run[j + 1..], s);
    StayedPublished(mid, next, s, name, n);
    RunIsRecorded(spec, collects, s0, run[..j], mid, n);
    var d := ReturnRecorded(mid, run[..j], n);
    assert run[..j][..d] == run[..d];
    var early := StateAt(spec, collects, s0, run[..j], d, mid);
    var after := After(spec, collects, early, Return(n));
    ReturnedNow(spec, collects, early, n);
    RunKeepsSafe(spec, collects, s0, run[..d], early);
    ActionKeepsSafe(spec, collects, early, Return(n));
    RunKeepsSafe(spec, collects, after, run[..j][d + 1..], mid);
    PublishedByThen(after, mid, n);
    RunIsRecorded(spec, collects, s0, run[..d], early, n);
    var c := CollectRecorded(early, run[..d], n);
  }

  lemma EnteredNow(spec: seq<SpecStep>, collects: bool, s: State, name: string)
    requires Enabled(spec, collects, s, Enter(name))
    ensures var t := After(spec, collects, s, Enter(name));
            && name in s.phases && name in t.phases && !t.phases[name].Waiting? && t.outputs == s.outputs
            && forall n :: n in t.phases && n != name ==> n in s.phases && t.phases[n] == s.phases[n]
  {
    hide StepAt, DepsReturned;
  }

  lemma ReturnedNow(spec: seq<SpecStep>, collects: bool, s: State, n: string)
    requires Enabled(spec, collects, s, Return(n))
    ensures var t := After(spec, collects, s, Return(n));
            n in s.phases && n in t.phases && t.phases[n].Returned? && t.outputs == s.outputs
  {
    hide StepAt;
  }

  /** What has returned without publishing never publishes. */
  lemma PublishedByThen(s: State, t: State, n: string)
    requires Later(s, t) && n in s.phases && s.phases[n].Returned? && n in t.outputs
    ensures n in s.outputs
  {
    hide Launched, Got;
  }

  lemma StayedPublished(mid: State, next: State, s: State, name: string, n: string)
    requires Later(next, s) && name != n && n in next.phases && next.phases[n].Returned? && n in s.outputs
    requires next.outputs == mid.outputs && n in mid.phases && next.phases[n] == mid.phases[n]
    ensures n in mid.outputs && mid.phases[n].Returned?
  {
    PublishedByThen(next, s, n);
    hide Later;
  }

  /** If the producer's last write sets the key, the step is launched with that value. */
  lemma LaunchedWithLast(spec: seq<SpecStep>, collects: bool, s0: State, run: seq<Action>, s: State, name: string,
          slot: Slot)
    requires Fresh(spec, s0) && RunsTo(spec, collects, s0, run, s) && name in s.phases && Launched(s.phases[name])
    requires StepAt(spec, name).Some? && RefAt(StepAt(spec, name).value, slot).Some?
    ensures var ref := RefAt(StepAt(spec, name).value, slot).value;
            var patches := PatchesOf(run, ref.step);
            patches != [] && SetIn(patches[|patches| - 1], ref.key) ==>
              slot in Got(s.phases[name]) && patches[|patches| - 1][ref.key] == Some(Got(s.phases[name])[slot])
  {
    hide *;
    var ref := RefAt(StepAt(spec, name).value, slot).value;
    var patches := PatchesOf(run, ref.step);
    LaunchedWithWritten(spec, collects, s0, run, s, name, slot);
    if patches != [] {
      Backends.LastPatchDecides(map[], patches, ref.key);
    }
  }

  /** A detached step has returned as soon as it is launched, and its container may go on writing; nothing of that is
      ever published. */
  lemma DetachedNeverPublishes(spec: seq<SpecStep>, collects: bool, s0: State, run: seq<Action>, s: State, name: string)
    requires Fresh(spec, s0) && RunsTo(spec, collects, s0, run, s) && name in s.phases
    requires StepAt(spec, name).Some? && StepAt(spec, name).value.detach
    ensures name !in s.outputs
    ensures Launched(s.phases[name]) ==>
              s.phases[name].Returned? && forall patch: Patch :: Enabled(spec, collects, s, Write(name, patch))
  {
    hide *;
    FreshIsSafe(spec, s0);
    RunKeepsSafe(spec, collects, s0, run, s);
    SafeDirs(spec, s);
    SafePublication(spec, s);
    SafeDetached(spec, s);
    DetachedState(spec, collects, s, name);
  }

  lemma SafeDetached(spec: seq<SpecStep>, s: State)
    requires Safe(spec, s)
    ensures DetachedReturn(spec, s)
  {
    hide DependenciesReturned, DetachedReturn, PublishedBySuccess, ReadsStand, LaunchedIsFilled, NoSelfReads;
  }

  lemma DetachedState(spec: seq<SpecStep>, collects: bool, s: State, name: string)
    requires DetachedReturn(spec, s) && PublishedBySuccess(spec, s) && name in s.phases && name in s.dirs
    requires StepAt(spec, name).Some? && StepAt(spec, name).value.detach
    ensures name !in s.outputs
    ensures Launched(s.phases[name]) ==>
              s.phases[name].Returned? && forall patch: Patch :: Enabled(spec, collects, s, Write(name, patch))
  {
    hide StepAt, Succeeded;
  }

  // ---------------------------------------------------------------------------------------------
  // Runs come to an end, and do not get stuck before
  // ---------------------------------------------------------------------------------------------

  function Slots(step: SpecStep): (r: set<Slot>)
    ensures forall slot :: slot in r <==> RefAt(step, slot).Some?
  {
    (set n | n in step.outputEnvs :: Env(n)) + (set n | n in step.outputSettings :: Setting(n))
  }

  /** An upper bound of the actions a step still has before it, not counting what its container writes. */
  function Rank(step: SpecStep, phase: Phase): nat {
    match phase
    case Waiting => |Slots(step)| + 6
    case Preparing(got) => |Slots(step) - got.Keys| + 5
    case Running(_) => 3
    case Exited(_, _) => 2
    case Published(_, _) => 1
    case Returned(_, _) => 0
  }

  function TotalRank(spec: seq<SpecStep>, phases: map<string, Phase>): nat
    requires forall i :: 0 <= i < |spec| ==> spec[i].name in phases
  {
    if spec == [] then 0
    else Rank(spec[|spec| - 1], phases[spec[|spec| - 1].name]) + TotalRank(spec[..|spec| - 1], phases)
  }

  lemma ReadLowersRank(step: SpecStep, got: map<Slot, string>, slot: Slot, value: string)
    requires RefAt(step, slot).Some? && slot !in got
    ensures Rank(step, Preparing(got[slot := value])) < Rank(step, Preparing(got))
  {
    hide RefAt, Slots;
    assert slot in Slots(step) - got.Keys;
    assert Slots(step) - got[slot := value].Keys == (Slots(step) - got.Keys) - {slot};
  }

  lemma EnterLowersRank(step: SpecStep)
    ensures Rank(step, Preparing(map[])) < Rank(step, Waiting)
  {
    hide Slots;
    var none: map<Slot, string> := map[];
    assert Slots(step) - none.Keys == Slots(step);
  }

  lemma RankOf(step: SpecStep, phase: Phase)
    ensures phase.Preparing? ==> Rank(step, phase) > 3
    ensures phase.Running? ==> Rank(step, phase) == 3
    ensures phase.Exited? ==> Rank(step, phase) == 2
    ensures phase.Published? ==> Rank(step, phase) == 1
    ensures phase.Returned? ==> Rank(step, phase) == 0
  {
    hide Slots;
  }

  lemma NextLowersRank(outputs: Outputs, step: SpecStep, phase: Phase, a: Action)
    requires MayDo(outputs, step, phase, a) && !a.Write?
    ensures Rank(step, Next(outputs, step, phase, a)) < Rank(step, phase)
  {
    hide Denoted, AllSlotsFilled, RefAt, InContainer, Rank;
    var next := Next(outputs, step, phase, a);
    if a.Enter? {
      assert phase == Waiting && next == Preparing(map[]);
      hide *;
      EnterLowersRank(step);
    } else if a.Read? {
      var value := Denoted(outputs, RefAt(step, a.slot).value).value;
      assert phase.Preparing? && RefAt(step, a.slot).Some? && a.slot !in phase.got &&
        next == Preparing(phase.got[a.slot := value]);
      hide *;
      ReadLowersRank(step, phase.got, a.slot, value);
    } else {
      assert phase.Preparing? || phase.Running? || phase.Exited? || phase.Published?;
      assert phase.Preparing? ==> next.Returned? || next.Running?;
      assert phase.Running? ==> next.Exited?;
      assert phase.Exited? ==> next.Published? || next.Returned?;
      assert phase.Published? ==> next.Returned?;
      hide *;
      RankOf(step, phase);
      RankOf(step, next);
    }
  }

  lemma {:induction false} OthersKeepRank(spec: seq<SpecStep>, before: map<string, Phase>, after: map<string, Phase>,
          name: string)
    requires forall i :: 0 <= i < |spec| ==> spec[i].name in before && spec[i].name in after && spec[i].name != name
    requires forall n :: n in before && n != name ==> n in after && after[n] == before[n]
    ensures TotalRank(spec, after) == TotalRank(spec, before)
  {
    hide Rank;
    if spec == [] {
    } else {
      OthersKeepRank(spec[..|spec| - 1], before, after, name);
    }
  }

  lemma {:induction false} OneLowersRank(spec: seq<SpecStep>, before: map<string, Phase>, after: map<string, Phase>,
          i: nat)
    requires Distinct(ShapeOf(spec)) && i < |spec|
    requires forall j :: 0 <= j < |spec| ==> spec[j].name in before && spec[j].name in after
    requires forall n :: n in before && n != spec[i].name ==> n in after && after[n] == before[n]
    requires Rank(spec[i], after[spec[i].name]) < Rank(spec[i], before[spec[i].name])
    ensures TotalRank(spec, after) < TotalRank(spec, before)
  {
    hide Rank;
    var n := |spec| - 1;
    forall j | 0 <= j < |spec| && j != i ensures spec[j].name != spec[i].name {
      assert ShapeOf(spec)[j].name == spec[j].name && ShapeOf(spec)[i].name == spec[i].name;
    }
    if i == n {
      OthersKeepRank(spec[..n], before, after, spec[i].name);
    } else {
      assert Distinct(ShapeOf(spec[..n])) by {
        assert forall j :: 0 <= j < n ==> ShapeOf(spec[..n])[j] == ShapeOf(spec)[j];
      }
      OneLowersRank(spec[..n], before, after, i);
    }
  }

  /** The steps that have an entry in the phases are those of the pipeline. */
  lemma AllHavePhases(spec: seq<SpecStep>, s: State)
    requires s.phases.Keys == Names(ShapeOf(spec))
    ensures forall i :: 0 <= i < |spec| ==> spec[i].name in s.phases
  {
    forall i | 0 <= i < |spec| ensures spec[i].name in s.phases {
      assert ShapeOf(spec)[i] in ShapeOf(spec);
    }
  }

  lemma {:induction false} ActionLowersRank(spec: seq<SpecStep>, collects: bool, s: State, a: Action)
    requires Distinct(ShapeOf(spec)) && s.phases.Keys == Names(ShapeOf(spec)) && Enabled(spec, collects, s, a)
    ensures var t := After(spec, collects, s, a);
            && t.phases.Keys == s.phases.Keys &&
              (forall i :: 0 <= i < |spec| ==> spec[i].name in s.phases && spec[i].name in t.phases)
            && (if a.Write? then TotalRank(spec, t.phases) == TotalRank(spec, s.phases)
                else TotalRank(spec, t.phases) < TotalRank(spec, s.phases))
  {
    hide *;
    AllHavePhases(spec, s);
    PhasesAfter(spec, collects, s, a);
    if !a.Write? {
      var i := IndexOfStep(spec, a.name);
      OneLowersRank(spec, s.phases, After(spec, collects, s, a).phases, i);
    }
  }

  /** An action changes the phase of its own step, which goes down in rank unless a container writes. */
  lemma PhasesAfter(spec: seq<SpecStep>, collects: bool, s: State, a: Action)
    requires Enabled(spec, collects, s, a)
    ensures StepAt(spec, a.name).Some? && a.name in s.phases
    ensures var t := After(spec, collects, s, a);
            && a.name in t.phases && t.phases == s.phases[a.name := t.phases[a.name]]
            && (if a.Write? then t.phases == s.phases
                else
                  var step := StepAt(spec, a.name).value;
                  Rank(step, t.phases[a.name]) < Rank(step, s.phases[a.name]))
  {
    var step, phase := StepAt(spec, a.name).value, s.phases[a.name];
    if a.Write? {
      assert Next(s.outputs, step, phase, a) == phase;
    } else {
      NextLowersRank(s.outputs, step, phase, a);
    }
    hide StepAt, MayDo, Next, Patched, Loadable, DepsReturned, Rank;
  }

  lemma IndexOfStep(spec: seq<SpecStep>, name: string) returns (i: nat)
    requires StepAt(spec, name).Some?
    ensures i < |spec| && spec[i] == StepAt(spec, name).value
  {
    i :| 0 <= i < |spec| && spec[i] == StepAt(spec, name).value;
  }

  /** The number of actions other than writes of the containers. */
  function Moves(run: seq<Action>): nat {
    if run == [] then 0 else (if run[0].Write? then 0 else 1) + Moves(run[1..])
  }

  /** Every run is bounded. */
  lemma {:induction false} RunIsBounded(spec: seq<SpecStep>, collects: bool, s: State, run: seq<Action>, t: State)
    requires Distinct(ShapeOf(spec)) && s.phases.Keys == Names(ShapeOf(spec)) && RunsTo(spec, collects, s, run, t)
    ensures forall i :: 0 <= i < |spec| ==> spec[i].name in s.phases && spec[i].name in t.phases
    ensures Moves(run) + TotalRank(spec, t.phases) <= TotalRank(spec, s.phases)
    decreases |run|
  {
    AllHavePhases(spec, s);
    hide Enabled, After, TotalRank, Names, ShapeOf, Distinct;
    if run == [] {
    } else {
      ActionLowersRank(spec, collects, s, run[0]);
      RunIsBounded(spec, collects, After(spec, collects, s, run[0]), run[1..], t);
    }
  }

  lemma EarlierReturned(spec: seq<SpecStep>, phases: map<string, Phase>, i: nat)
    requires TopologicallyOrdered(ShapeOf(spec)) && i < |spec|
    requires forall j :: 0 <= j < i ==> spec[j].name in phases && phases[spec[j].name].Returned?
    ensures DepsReturned(spec[i], phases)
  {
    forall d | d in spec[i].dependsOn ensures d in phases && phases[d].Returned? {
      assert ShapeOf(spec)[i].dependsOn == spec[i].dependsOn;
      assert NamedBefore(ShapeOf(spec), i, d);
      var j :| 0 <= j < i && ShapeOf(spec)[j].name == d;
      assert spec[j].name == d;
    }
  }

  /** The first step of an ordered pipeline that has not returned can always go on. */
  lemma FirstCanMove(spec: seq<SpecStep>, collects: bool, s: State, i: nat) returns (a: Action)
    requires TopologicallyOrdered(ShapeOf(spec)) && i < |spec| && spec[i].name in s.dirs
    requires spec[i].name in s.phases && !s.phases[spec[i].name].Returned?
    requires forall j :: 0 <= j < i ==> spec[j].name in s.phases && s.phases[spec[j].name].Returned?
    ensures Enabled(spec, collects, s, a) && !a.Write?
  {
    StepAtIndex(spec, i);
    EarlierReturned(spec, s.phases, i);
    hide StepAt, Denoted, AllSlotsFilled, InContainer, ShapeOf, TopologicallyOrdered, Loadable, DepsReturned;
    var name, phase := spec[i].name, s.phases[spec[i].name];
    a := if phase.Waiting? then Enter(name) else if phase.Preparing? then GiveUp(name)
    else if phase.Running? then Exit(name, None) else Return(name);
    assert MayDo(s.outputs, spec[i], phase, a);
  }

  lemma {:induction false} FirstNotReturned(spec: seq<SpecStep>, phases: map<string, Phase>, i: nat) returns (k: nat)
    requires i < |spec| && forall j :: 0 <= j < |spec| ==> spec[j].name in phases
    requires !phases[spec[i].name].Returned?
    ensures k < |spec| && !phases[spec[k].name].Returned?
    ensures forall j :: 0 <= j < k ==> phases[spec[j].name].Returned?
    decreases i
  {
    if j :| 0 <= j < i && !phases[spec[j].name].Returned? {
      k := FirstNotReturned(spec, phases, j);
    } else {
      k := i;
    }
  }

  lemma SafeNeverStuck(spec: seq<SpecStep>, collects: bool, s: State, name: string) returns (a: Action)
    requires TopologicallyOrdered(ShapeOf(spec)) && Safe(spec, s) && name in s.phases && !s.phases[name].Returned?
    ensures Enabled(spec, collects, s, a) && !a.Write?
  {
    hide Enabled, StepAt, TopologicallyOrdered, ShapeOf, Names;
    hide DependenciesReturned, DetachedReturn, PublishedBySuccess, ReadsStand, LaunchedIsFilled, NoSelfReads;
    AllHavePhases(spec, s);
    NamesAreSteps(spec, name);
    var i := IndexOfStep(spec, name);
    var k := FirstNotReturned(spec, s.phases, i);
    a := FirstCanMove(spec, collects, s, k);
  }

  /** A run of an ordered pipeline is never stuck before every step has returned. */
  lemma NeverStuck(spec: seq<SpecStep>, collects: bool, s0: State, run: seq<Action>, s: State, name: string)
    returns (a: Action)
    requires TopologicallyOrdered(ShapeOf(spec)) && Fresh(spec, s0) && RunsTo(spec, collects, s0, run, s)
    requires name in s.phases && !s.phases[name].Returned?
    ensures Enabled(spec, collects, s, a) && !a.Write?
  {
    hide *;
    FreshIsSafe(spec, s0);
    RunKeepsSafe(spec, collects, s0, run, s);
    a := SafeNeverStuck(spec, collects, s, name);
  }

  /** From every safe state of an ordered pipeline, some run lets every step return. */
  lemma {:induction false} CanFinish(spec: seq<SpecStep>, collects: bool, s: State)
    returns (more: seq<Action>, t: State)
    requires TopologicallyOrdered(ShapeOf(spec)) && Safe(spec, s)
    requires forall i :: 0 <= i < |spec| ==> spec[i].name in s.phases
    ensures RunsTo(spec, collects, s, more, t) && forall n :: n in t.phases ==> t.phases[n].Returned?
    decreases TotalRank(spec, s.phases)
  {
    assert s.phases.Keys == Names(ShapeOf(spec));
    hide Enabled, After, Safe, TopologicallyOrdered, Distinct, ShapeOf, Names, TotalRank;
    if n :| n in s.phases && !s.phases[n].Returned? {
      var a := SafeNeverStuck(spec, collects, s, n);
      OrderedIsDistinct(ShapeOf(spec));
      ActionLowersRank(spec, collects, s, a);
      ActionKeepsSafe(spec, collects, s, a);
      var u := After(spec, collects, s, a);
      var rest;
      rest, t := CanFinish(spec, collects, u);
      more := [a] + rest;
      assert more[1..] == rest;
    } else {
      more, t := [], s;
    }
  }

  lemma NamesAreSteps(spec: seq<SpecStep>, name: string)
    requires name in Names(ShapeOf(spec))
    ensures StepAt(spec, name).Some? && StepAt(spec, name).value.name == name
  {
  }

  // ---------------------------------------------------------------------------------------------
  // What the parser's check adds: values do not depend on timing
  // ---------------------------------------------------------------------------------------------

  lemma StepAtPlace(spec: seq<SpecStep>, name: string)
    requires Distinct(ShapeOf(spec)) && name in Names(ShapeOf(spec))
    ensures StepAt(spec, name) == Some(spec[Place(ShapeOf(spec), name)])
  {
    var step := StepAt(spec, name).value;
    var i :| 0 <= i < |spec| && spec[i] == step;
    assert ShapeOf(spec)[i].name == name;
    assert Place(ShapeOf(spec), name) == i;
  }

  /** When a step is entered, everything it depends on, directly or not, has returned. */
  lemma {:induction false} ReachedHasReturned(spec: seq<SpecStep>, s: State, a: string, b: string)
    requires TopologicallyOrdered(ShapeOf(spec)) && DependenciesReturned(spec, s)
    requires a in Names(ShapeOf(spec)) && a in s.phases && !s.phases[a].Waiting?
    requires a != b && Reaches(EdgesOf(ShapeOf(spec)), a, b)
    ensures b in s.phases && s.phases[b].Returned?
    decreases Place(ShapeOf(spec), a)
  {
    var vs := ShapeOf(spec);
    var c := ReachesCases(EdgesOf(vs), a, b);
    EdgeAtPlace(vs, a, c);
    EdgeGoesBack(vs, a, c);
    StepAtPlace(spec, a);
    assert c in StepAt(spec, a).value.dependsOn;
    if b == c {
    } else {
      ReachedHasReturned(spec, s, c, b);
    }
  }

  /** A reference to another step that the consumer depends on means the same from the moment the
      consumer is entered: nothing another step does can still change it. */
  lemma ValueSettledAtEntry(spec: seq<SpecStep>, collects: bool, s0: State, run: seq<Action>, s: State,
          more: seq<Action>, t: State, name: string, ref: OutputRef)
    requires TopologicallyOrdered(ShapeOf(spec)) && name in Names(ShapeOf(spec))
    requires ref.step != name && Reaches(EdgesOf(ShapeOf(spec)), name, ref.step)
    requires Fresh(spec, s0) && RunsTo(spec, collects, s0, run, s) && RunsTo(spec, collects, s, more, t)
    requires name in s.phases && !s.phases[name].Waiting?
    ensures Denoted(t.outputs, ref) == Denoted(s.outputs, ref)
  {
    hide StepAt, Resolved, Enabled, After, TopologicallyOrdered, Reaches, EdgesOf, ShapeOf;
    FreshIsSafe(spec, s0);
    RunKeepsSafe(spec, collects, s0, run, s);
    RunKeepsSafe(spec, collects, s, more, t);
    SafeDependencies(spec, s);
    hide Fresh, RunsTo, DependenciesReturned, DetachedReturn, PublishedBySuccess, ReadsStand, LaunchedIsFilled;
    hide NoSelfReads, Names;
    ReachedHasReturned(spec, s, name, ref.step);
  }

  lemma BuiltAt(p: Pipeline, before: seq<SpecStep>, i: nat)
    requires Built(p, before) && |before| == |Declared(p)| && i < |p.steps|
    ensures FirstStep(p) + i < |before| && StepOf(p.steps[i], false, before[FirstStep(p) + i])
  {
    hide StepOf;
    assert (p.services + p.steps)[|p.services| + i] == p.steps[i];
  }

  lemma RewiredAt(before: seq<SpecStep>, after: seq<SpecStep>, shape: seq<Vertex>, k: nat)
    requires Rewired(before, after, shape) && k < |before|
    ensures k < |after| && ShapeOf(after) == shape && after[k] == before[k].(dependsOn := after[k].dependsOn)
    ensures ShapeOf(after)[k].name == after[k].name
  {
  }

  lemma StepOfParts(src: Step, service: bool, dst: SpecStep)
    requires StepOf(src, service, dst)
    ensures dst.name == src.name && dst.detach == (service || src.detach) && dst.never == !src.matches
    ensures EnvsOf(src.environment, dst.outputEnvs) && SettingsOf(src.settings, dst.outputSettings)
  {
    hide EnvsOf, SettingsOf, AllParse;
  }

  /** What the compiler makes of the `i`-th of the user's steps. */
  lemma CompiledStep(p: Pipeline, spec: seq<SpecStep>, i: nat)
    requires CompiledFrom(p, spec) && i < |p.steps|
    ensures ShapeOf(spec) == CompiledShape(p) && FirstStep(p) + i < |spec|
    ensures var dst := spec[FirstStep(p) + i];
            && dst.name == p.steps[i].name && ShapeOf(spec)[FirstStep(p) + i].name == dst.name
            && dst.never == !p.steps[i].matches && dst.detach == p.steps[i].detach
            && EnvsOf(p.steps[i].environment, dst.outputEnvs) && SettingsOf(p.steps[i].settings, dst.outputSettings)
  {
    var before: seq<SpecStep> :|
      Built(p, before) && |before| == |Declared(p)| && Rewired(before, spec, CompiledShape(p));
    hide *;
    BuiltAt(p, before, i);
    RewiredAt(before, spec, CompiledShape(p), FirstStep(p) + i);
    StepOfParts(p.steps[i], false, before[FirstStep(p) + i]);
  }

  /** A reference that was carried over stands in the step's environment or settings. */
  lemma SlotText(src: Step, dst: SpecStep, slot: Slot) returns (text: Option<string>)
    requires EnvsOf(src.environment, dst.outputEnvs) && SettingsOf(src.settings, dst.outputSettings)
    requires RefAt(dst, slot).Some?
    ensures HasReference(text) && Parse(text.value) == Ok(RefAt(dst, slot).value)
    ensures (exists k :: k in src.environment && src.environment[k] == text) ||
              (exists k :: k in src.settings && src.settings[k] == text)
  {
    hide Parse, PluginName;
    match slot {
      case Env(n) =>
        text := src.environment[n];
      case Setting(n) =>
        var key :| key in src.settings && HasReference(src.settings[key])
                   && Parse(src.settings[key].value) == Ok(dst.outputSettings[n]);
        text := src.settings[key];
    }
  }

  /** The references that the compiler carried over are those the parser has checked. */
  lemma CompiledReferenceAllowed(p: Pipeline, spec: seq<SpecStep>, i: nat, slot: Slot)
    requires Accepts(p) && LintAccepts(p.steps) && CompiledFrom(p, spec) && i < |p.steps|
    requires FirstStep(p) + i < |spec| && RefAt(spec[FirstStep(p) + i], slot).Some?
    ensures var producer := RefAt(spec[FirstStep(p) + i], slot).value.step;
            && producer in StepNames(p.steps) && !GetStep(p.steps, producer).value.detach
            && Reaches(EdgesOf(CompiledShape(p)), p.steps[i].name, producer)
  {
    hide *;
    var producer := RefAt(spec[FirstStep(p) + i], slot).value.step;
    CompiledStep(p, spec, i);
    var text := SlotText(p.steps[i], spec[FirstStep(p) + i], slot);
    AllowedText(p.steps, i, text);
    SourceReachesStay(p, p.steps[i].name, producer);
  }

  lemma AllowedText(steps: seq<Step>, i: nat, text: Option<string>)
    requires LintAccepts(steps) && i < |steps| && HasReference(text) && Parse(text.value).Ok?
    requires (exists k :: k in steps[i].environment && steps[i].environment[k] == text)
             || (exists k :: k in steps[i].settings && steps[i].settings[k] == text)
    ensures var producer := Parse(text.value).value.step;
            && producer in StepNames(steps) && steps[i].name in StepNames(steps)
            && GetStep(steps, producer).Some? && !GetStep(steps, producer).value.detach
            && Reaches(FirstEdges(steps), steps[i].name, producer)
  {
    hide Parse, Reaches, FirstEdges, GetStep, NameAllowed, Distinct;
    assert ReferencesAllowed(steps, steps[i]);
    assert ReferenceAllowed(steps, steps[i].name, text);
  }

  /** The whole way, from the text of a pipeline to a run: if parser and linter accept it and it is compiled,
      then in every run on a fresh executor a reference of one of its steps names a step that is not detached.
      If that is another step, the reference means the same from the moment the consumer is entered. If the
      consumer is launched, it is another step, which has succeeded, published its outputs and returned, and
      the consumer was given what the reference denotes. */
  lemma ReferencesAreRaceFree(p: Pipeline, spec: seq<SpecStep>, collects: bool, i: nat, slot: Slot,
                              s0: State, run: seq<Action>, s: State, more: seq<Action>, t: State)
    requires Accepts(p) && LintAccepts(p.steps) && CompiledFrom(p, spec) && i < |p.steps|
    requires FirstStep(p) + i < |spec| && RefAt(spec[FirstStep(p) + i], slot).Some?
    requires Fresh(spec, s0) && RunsTo(spec, collects, s0, run, s) && RunsTo(spec, collects, s, more, t)
    requires p.steps[i].name in s.phases && !s.phases[p.steps[i].name].Waiting?
    ensures var name, ref := p.steps[i].name, RefAt(spec[FirstStep(p) + i], slot).value;
            && ref.step in StepNames(p.steps) && !GetStep(p.steps, ref.step).value.detach
            && (ref.step != name ==> Denoted(t.outputs, ref) == Denoted(s.outputs, ref))
            && (Launched(s.phases[name]) ==>
                  && ref.step != name && slot in Got(s.phases[name])
                  && Delivered(s, ref, Got(s.phases[name])[slot]) && s.phases[ref.step].Returned?)
  {
    hide *;
    var name, ref := p.steps[i].name, RefAt(spec[FirstStep(p) + i], slot).value;
    CompiledReferenceAllowed(p, spec, i, slot);
    CompiledInOrder(p);
    CompiledStep(p, spec, i);
    NameAt(ShapeOf(spec), FirstStep(p) + i);
    StepAtIndex(spec, FirstStep(p) + i);
    if ref.step != name {
      ValueSettledAtEntry(spec, collects, s0, run, s, more, t, name, ref);
    }
    if Launched(s.phases[name]) {
      LaunchAfterProducers(spec, collects, s0, run, s, name, slot);
      LaunchAfterPublication(spec, collects, s0, run, s, name, slot);
    }
  }

  lemma EnterRecorded(s: State, run: seq<Action>, n: string) returns (k: nat)
    requires n in s.phases && Recorded(s, run, n) && !s.phases[n].Waiting?
    ensures k < |run| && run[k] == Enter(n)
  {
    k :| 0 <= k < |run| && run[k] == Enter(n);
  }

  /** Before `j` the producer was launched, exited with code 0, published its outputs and returned, and then the step
      was entered, in this order. */
  ghost predicate Story(run: seq<Action>, j: nat, producer: string, name: string)
    requires j <= |run|
  {
    exists a, b, c, d, e :: 0 <= a < b < c < d < e < j &&
      run[a] == Launch(producer) && run[b] == Exit(producer, Some(0)) && run[c] == Collect(producer) &&
      run[d] == Return(producer) && run[e] == Enter(name)
  }

  lemma StoryOfEntry(spec: seq<SpecStep>, collects: bool, s0: State, run: seq<Action>, s: State, e: nat,
          name: string, n: string)
    returns (a: nat, b: nat, c: nat, d: nat)
    requires TopologicallyOrdered(ShapeOf(spec)) && name in Names(ShapeOf(spec))
    requires Fresh(spec, s0) && RunsTo(spec, collects, s0, run, s) && e < |run| && run[e] == Enter(name)
    requires name != n && Reaches(EdgesOf(ShapeOf(spec)), name, n) && n in s.outputs
    ensures a < b < c < d < e && run[a] == Launch(n) && run[b] == Exit(n, Some(0))
    ensures run[c] == Collect(n) && run[d] == Return(n)
  {
    hide *;
    EnterAfterReturn(spec, collects, s0, run, s, e, name, n);
    c, d :| 0 <= c < d < e && run[c] == Collect(n) && run[d] == Return(n);
    CollectAfterExit(spec, collects, s0, run, s, c, n);
    a, b :| 0 <= a < b < c && run[a] == Launch(n) && run[b] == Exit(n, Some(0));
  }

  lemma StoryFrom(run: seq<Action>, j: nat, n: string, name: string, a: nat, b: nat, c: nat, d: nat, e: nat)
    requires a < b < c < d < e < j <= |run| && run[a] == Launch(n) && run[b] == Exit(n, Some(0))
    requires run[c] == Collect(n) && run[d] == Return(n) && run[e] == Enter(name)
    ensures Story(run, j, n, name)
  {
  }

  lemma StoryOfLaunch(spec: seq<SpecStep>, collects: bool, s0: State, run: seq<Action>, s: State, j: nat,
          name: string, slot: Slot)
    requires TopologicallyOrdered(ShapeOf(spec)) && name in Names(ShapeOf(spec))
    requires Fresh(spec, s0) && RunsTo(spec, collects, s0, run, s) && j < |run| && run[j] == Launch(name)
    requires StepAt(spec, name).Some? && RefAt(StepAt(spec, name).value, slot).Some?
    requires Reaches(EdgesOf(ShapeOf(spec)), name, RefAt(StepAt(spec, name).value, slot).value.step)
    ensures !StepAt(spec, name).value.never
    ensures Story(run, j, RefAt(StepAt(spec, name).value, slot).value.step, name)
  {
    hide *;
    var mid := StateAt(spec, collects, s0, run, j, s);
    MayLaunchNow(spec, collects, mid, name);
    LaunchAfterPublication(spec, collects, s0, run[..j], mid, name, slot);
    WhatIsDelivered(mid, RefAt(StepAt(spec, name).value, slot).value, Got(mid.phases[name])[slot]);
    RunIsRecorded(spec, collects, s0, run[..j], mid, name);
    var e := EnterRecorded(mid, run[..j], name);
    var n := RefAt(StepAt(spec, name).value, slot).value.step;
    var a, b, c, d := StoryOfEntry(spec, collects, s0, run[..j], mid, e, name, n);
    assert forall k :: 0 <= k < j ==> run[..j][k] == run[k];
    StoryFrom(run, j, n, name, a, b, c, d, e);
  }

  /** When a step of an accepted pipeline is launched, its conditions are met. If it has a reference, then before that
      the producer was launched, exited with code 0, published its outputs and returned, and then the step was
      entered, in this order. */
  lemma LaunchOrder(p: Pipeline, spec: seq<SpecStep>, collects: bool, i: nat, slot: Slot, s0: State, run: seq<Action>,
          s: State, j: nat)
    requires Accepts(p) && LintAccepts(p.steps) && CompiledFrom(p, spec) && i < |p.steps| && FirstStep(p) + i < |spec|
    requires Fresh(spec, s0) && RunsTo(spec, collects, s0, run, s)
    requires j < |run| && run[j] == Launch(p.steps[i].name)
    ensures p.steps[i].matches
    ensures RefAt(spec[FirstStep(p) + i], slot).Some? ==>
              Story(run, j, RefAt(spec[FirstStep(p) + i], slot).value.step, p.steps[i].name)
  {
    hide *;
    CompiledInOrder(p);
    CompiledStep(p, spec, i);
    NameAt(ShapeOf(spec), FirstStep(p) + i);
    StepAtIndex(spec, FirstStep(p) + i);
    LaunchAfterCollect(spec, collects, s0, run, s, j, p.steps[i].name, slot);
    if RefAt(spec[FirstStep(p) + i], slot).Some? {
      CompiledReferenceAllowed(p, spec, i, slot);
      StoryOfLaunch(spec, collects, s0, run, s, j, p.steps[i].name, slot);
    }
  }

  lemma CompiledShapeOf(p: Pipeline, spec: seq<SpecStep>)
    requires CompiledFrom(p, spec)
    ensures ShapeOf(spec) == CompiledShape(p)
  {
    hide CompiledShape, Built;
  }

  // -- When a step can be launched

  lemma {:induction false} RunsOn(spec: seq<SpecStep>, collects: bool, s: State, run: seq<Action>, u: State,
          more: seq<Action>, t: State)
    requires RunsTo(spec, collects, s, run, u) && RunsTo(spec, collects, u, more, t)
    ensures RunsTo(spec, collects, s, run + more, t)
    decreases |run|
  {
    hide Enabled, After;
    if run == [] {
      assert run + more == more;
    } else {
      assert (run + more)[0] == run[0] && (run + more)[1..] == run[1..] + more;
      RunsOn(spec, collects, After(spec, collects, s, run[0]), run[1..], u, more, t);
    }
  }

  /** Some run from here launches the step. */
  ghost predicate MayLaunch(spec: seq<SpecStep>, collects: bool, s: State, name: string) {
    exists run, t :: RunsTo(spec, collects, s, run, t) && name in t.phases && Launched(t.phases[name])
  }

  /** A step that was entered, and whose references all denote values, can be launched. */
  lemma {:induction false} CanLaunch(spec: seq<SpecStep>, collects: bool, s: State, name: string)
    requires name in s.phases && name in s.dirs && s.phases[name].Preparing?
    requires StepAt(spec, name).Some? && !StepAt(spec, name).value.never
    requires AllDenoted(StepAt(spec, name).value, s.outputs)
    ensures MayLaunch(spec, collects, s, name)
    decreases Rank(StepAt(spec, name).value, s.phases[name])
  {
    var step, got := StepAt(spec, name).value, s.phases[name].got;
    hide StepAt, Denoted, Rank, Patched, RefAt;
    if slot: Slot :| RefAt(step, slot).Some? && slot !in got {
      var a := Read(name, slot);
      assert Enabled(spec, collects, s, a);
      var u := After(spec, collects, s, a);
      assert u.phases[name] == Preparing(got[slot := Denoted(s.outputs, RefAt(step, slot).value).value]);
      ReadLowersRank(step, got, slot, Denoted(s.outputs, RefAt(step, slot).value).value);
      hide Enabled, After, AllDenoted, MayLaunch;
      CanLaunch(spec, collects, u, name);
      MayLaunchBefore(spec, collects, s, a, name);
    } else {
      var a := Launch(name);
      assert AllSlotsFilled(step, got);
      assert Enabled(spec, collects, s, a);
      var t := After(spec, collects, s, a);
      assert Launched(t.phases[name]);
      hide Enabled, After, AllDenoted, Launched;
      assert [a][1..] == [];
      assert RunsTo(spec, collects, s, [a], t);
    }
  }

  lemma MayLaunchBefore(spec: seq<SpecStep>, collects: bool, s: State, a: Action, name: string)
    requires Enabled(spec, collects, s, a) && MayLaunch(spec, collects, After(spec, collects, s, a), name)
    ensures MayLaunch(spec, collects, s, name)
  {
    hide Enabled, After, Launched;
    var u := After(spec, collects, s, a);
    var rest, t :| RunsTo(spec, collects, u, rest, t) && name in t.phases && Launched(t.phases[name]);
    assert ([a] + rest)[1..] == rest;
    assert RunsTo(spec, collects, s, [a] + rest, t);
  }

  /** Every reference of the step denotes a value. */
  ghost predicate AllDenoted(step: SpecStep, outputs: Outputs) {
    forall slot: Slot :: RefAt(step, slot).Some? ==> Denoted(outputs, RefAt(step, slot).value).Some?
  }

  lemma LaunchedWasDenoted(p: Pipeline, spec: seq<SpecStep>, collects: bool, i: nat, slot: Slot,
          s0: State, run: seq<Action>, s: State, more: seq<Action>, t: State)
    requires Accepts(p) && LintAccepts(p.steps) && CompiledFrom(p, spec) && i < |p.steps|
    requires FirstStep(p) + i < |spec| && RefAt(spec[FirstStep(p) + i], slot).Some?
    requires Fresh(spec, s0) && RunsTo(spec, collects, s0, run, s) && RunsTo(spec, collects, s, more, t)
    requires p.steps[i].name in s.phases && !s.phases[p.steps[i].name].Waiting?
    requires p.steps[i].name in t.phases && Launched(t.phases[p.steps[i].name])
    ensures Denoted(s.outputs, RefAt(spec[FirstStep(p) + i], slot).value).Some?
  {
    hide *;
    var ref := RefAt(spec[FirstStep(p) + i], slot).value;
    CompiledStep(p, spec, i);
    CompiledInOrder(p);
    StepAtIndex(spec, FirstStep(p) + i);
    RunsOn(spec, collects, s0, run, s, more, t);
    LaunchAfterPublication(spec, collects, s0, run + more, t, p.steps[i].name, slot);
    DeliveredIsDenoted(t, ref, Got(t.phases[p.steps[i].name])[slot]);
    ReferencesAreRaceFree(p, spec, collects, i, slot, s0, run, s, more, t);
  }

  lemma MayLaunchIsDenoted(p: Pipeline, spec: seq<SpecStep>, collects: bool, i: nat, s0: State, run: seq<Action>,
          s: State)
    requires Accepts(p) && LintAccepts(p.steps) && CompiledFrom(p, spec) && i < |p.steps| && FirstStep(p) + i < |spec|
    requires Fresh(spec, s0) && RunsTo(spec, collects, s0, run, s)
    requires p.steps[i].name in s.phases && !s.phases[p.steps[i].name].Waiting?
    requires MayLaunch(spec, collects, s, p.steps[i].name)
    ensures AllDenoted(spec[FirstStep(p) + i], s.outputs)
  {
    hide Accepts, LintAccepts, CompiledFrom, FirstStep, Fresh, RunsTo, Launched, RefAt, Denoted;
    var name := p.steps[i].name;
    var more, t :| RunsTo(spec, collects, s, more, t) && name in t.phases && Launched(t.phases[name]);
    var step := spec[FirstStep(p) + i];
    forall slot: Slot | RefAt(step, slot).Some? ensures Denoted(s.outputs, RefAt(step, slot).value).Some?
    {
      LaunchedWasDenoted(p, spec, collects, i, slot, s0, run, s, more, t);
    }
  }

  lemma SafeDirs(spec: seq<SpecStep>, s: State)
    requires Safe(spec, s)
    ensures s.dirs.Keys == s.phases.Keys
  {
    hide DependenciesReturned, DetachedReturn, PublishedBySuccess, ReadsStand, LaunchedIsFilled, NoSelfReads, ShapeOf;
  }

  lemma DeliveredIsDenoted(s: State, ref: OutputRef, value: string)
    requires Delivered(s, ref, value)
    ensures Denoted(s.outputs, ref) == Some(value)
  {
    hide Resolved, Succeeded;
  }

  /** Once a step of an accepted pipeline is entered, it is settled whether it can be launched: exactly if all its
      references denote values at that moment. */
  lemma LaunchesExactly(p: Pipeline, spec: seq<SpecStep>, collects: bool, i: nat, s0: State, run: seq<Action>, s: State)
    requires Accepts(p) && LintAccepts(p.steps) && CompiledFrom(p, spec) && i < |p.steps|
    requires FirstStep(p) + i < |spec| && !spec[FirstStep(p) + i].never
    requires Fresh(spec, s0) && RunsTo(spec, collects, s0, run, s)
    requires p.steps[i].name in s.phases && s.phases[p.steps[i].name].Preparing?
    ensures MayLaunch(spec, collects, s, p.steps[i].name) <==> AllDenoted(spec[FirstStep(p) + i], s.outputs)
  {
    hide *;
    CompiledStep(p, spec, i);
    CompiledInOrder(p);
    StepAtIndex(spec, FirstStep(p) + i);
    FreshIsSafe(spec, s0);
    RunKeepsSafe(spec, collects, s0, run, s);
    SafeDirs(spec, s);
    if MayLaunch(spec, collects, s, p.steps[i].name) {
      MayLaunchIsDenoted(p, spec, collects, i, s0, run, s);
    }
    if AllDenoted(spec[FirstStep(p) + i], s.outputs) {
      CanLaunch(spec, collects, s, p.steps[i].name);
    }
  }

  /** A run of an accepted and compiled pipeline is bounded, and the graph never blocks it: as long as some step has
      not returned, some action is allowed, and some continuation lets every step return. */
  lemma AcceptedRunsNeverBlock(p: Pipeline, spec: seq<SpecStep>, collects: bool, s0: State, run: seq<Action>, s: State)
    requires Accepts(p) && CompiledFrom(p, spec) && Fresh(spec, s0) && RunsTo(spec, collects, s0, run, s)
    ensures (forall i :: 0 <= i < |spec| ==> spec[i].name in s0.phases) && Moves(run) <= TotalRank(spec, s0.phases)
    ensures (exists n :: n in s.phases && !s.phases[n].Returned?) ==>
              exists a :: Enabled(spec, collects, s, a) && !a.Write?
    ensures exists more, t :: RunsTo(spec, collects, s, more, t) && forall n :: n in t.phases ==> t.phases[n].Returned?
  {
    CompiledShapeOf(p, spec);
    CompiledInOrder(p);
    OrderedIsDistinct(ShapeOf(spec));
    assert s0.phases.Keys == Names(ShapeOf(spec));
    hide *;
    RunIsBounded(spec, collects, s0, run, s);
    if exists n :: n in s.phases && !s.phases[n].Returned? {
      var n :| n in s.phases && !s.phases[n].Returned?;
      var a := NeverStuck(spec, collects, s0, run, s, n);
    }
    FreshIsSafe(spec, s0);
    RunKeepsSafe(spec, collects, s0, run, s);
    var more, t := CanFinish(spec, collects, s);
  }

  lemma NameAt(vs: seq<Vertex>, k: nat)
    requires k < |vs|
    ensures vs[k].name in Names(vs)
  {
  }

  lemma {:induction false} StepAtIndex(spec: seq<SpecStep>, k: nat)
    requires TopologicallyOrdered(ShapeOf(spec)) && k < |spec|
    ensures StepAt(spec, spec[k].name) == Some(spec[k])
  {
    assert ShapeOf(spec)[k] in ShapeOf(spec);
    var step := StepAt(spec, spec[k].name).value;
    var i :| 0 <= i < |spec| && spec[i] == step;
    assert ShapeOf(spec)[i].name == ShapeOf(spec)[k].name;
  }
}
