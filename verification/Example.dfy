/** The documented example, from the text to a launched consumer: a pipeline that parser and linter accept,
    its compiled steps, and a run in which the consumer is launched with the producer's value. It shows
    that the assumptions of the general results can be met together. */
module Example {
  import opened Wrappers
  import opened Text
  import opened Keys
  import opened References
  import opened Graph
  import opened Resource
  import opened Linter
  import opened CompiledGraph
  import opened Compiler
  import opened Patches
  import opened Directory
  import opened Execer
  import opened Runs

  const REF := OutputRef("build", "version")
  const BUILD := Step("build", [], false, map[], map[], true, true)
  const PUBLISH := Step("publish", ["build"], false, map["VERSION" := Some("build" + "." + "version")], map[], true,
    true)
  const PIPELINE := Pipeline([], [BUILD, PUBLISH], true)

  /** The compiled steps, if the consumer has these dependencies. */
  function Spec(deps: seq<string>): seq<SpecStep> {
    [SpecStep("build", [], false, false, map[], map[]),
     SpecStep("publish", deps, false, false, map["VERSION" := REF], map[])]
  }

  const SPEC := Spec(["build"])

  lemma ReferenceParses()
    ensures Parse("build" + "." + "version") == Ok(REF) && TrimSpace("build" + "." + "version") != ""
  {
    assert forall i :: 0 <= i < |"version"| ==> Fits("version", i);
    DottedForm("build", "version");
    DottedFormText("build", "version");
  }

  lemma PipelineAccepted()
    ensures Accepts(PIPELINE)
  {
    var vs := Declared(PIPELINE);
    assert vs == [Vertex("build", []), Vertex("publish", ["build"])];
    assert vs[0].name == "build";
    assert NamedBefore(vs, 1, "build");
  }

  lemma NamesAllowed()
    ensures NameAllowed("build") && NameAllowed("publish")
  {
    assert "build"[1..] == "uild" && "uild"[1..] == "ild" && "ild"[1..] == "ld" && "ld"[1..] == "d" && "d"[1..] == "";
    assert "publish"[1..] == "ublish" && "ublish"[1..] == "blish" && "blish"[1..] == "lish" && "lish"[1..] == "ish";
    assert "ish"[1..] == "sh" && "sh"[1..] == "h" && "h"[1..] == "";
  }

  lemma PipelinePassesLint()
    ensures LintAccepts(PIPELINE.steps)
  {
    hide Parse, TrimSpace, NameAllowed;
    NamesAllowed();
    ReferenceParses();
    var steps, e := PIPELINE.steps, FirstEdges(PIPELINE.steps);
    assert Shape(steps) == [Vertex("build", []), Vertex("publish", ["build"])];
    GetStepOfDistinct(steps, 0);
    GetStepOfDistinct(steps, 1);
    assert steps[1] in steps && "build" in steps[1].dependsOn;
    assert ("publish", "build") in e;
    ReachesItself(e, "build");
    EdgeThenReaches(e, "publish", "build", "build");
    hide Reaches, GetStep, FirstEdges;
    assert ReferencesAllowed(steps, steps[0]);
    assert ReferencesAllowed(steps, steps[1]);
  }

  lemma PipelineCompiles()
    ensures CompiledFrom(PIPELINE, SPEC)
  {
    hide Parse, TrimSpace;
    ReferenceParses();
    var vs := [Vertex("build", []), Vertex("publish", ["build"])];
    assert Declared(PIPELINE) == vs && ShapeOf(SPEC) == vs;
    assert vs[1].dependsOn != [];
    assert CompiledShape(PIPELINE) == vs;
    assert Compiler.Built(PIPELINE, SPEC) by {
      assert StepOf(BUILD, false, SPEC[0]);
      assert StepOf(PUBLISH, false, SPEC[1]);
    }
    assert Rewired(SPEC, SPEC, CompiledShape(PIPELINE));
  }

  // ---------------------------------------------------------------------------------------------
  // Runs
  // ---------------------------------------------------------------------------------------------

  const OUTPUTS: Values := map["version" := "1.2.3"]
  const PATCH: Patch := map["version" := Some("1.2.3")]
  const VALUE: map<Slot, string> := map[Env("VERSION") := "1.2.3"]
  const BUILDING := [Enter("build"), Launch("build"), Write("build", PATCH), Exit("build", Some(0)), Collect("build")]
  const PUBLISHING := [Enter("publish"), Read("publish", Env("VERSION")), Launch("publish")]

  function At(build: Phase, publish: Phase, dir: Values, outputs: Outputs): State {
    State(map["build" := build, "publish" := publish], map["build" := dir, "publish" := map[]], outputs)
  }

  const START := At(Waiting, Waiting, map[], map[])

  const PUBLISHED: Phase := Published(map[], Some(0))

  /** The producer has published its outputs; `build` says whether it has returned as well. */
  function Built(build: Phase): State {
    At(build, Waiting, OUTPUTS, map["build" := OUTPUTS])
  }

  function End(build: Phase): State {
    At(build, Running(VALUE), OUTPUTS, map["build" := OUTPUTS])
  }

  lemma StepsAt(deps: seq<string>)
    ensures StepAt(Spec(deps), "build") == Some(Spec(deps)[0]) && StepAt(Spec(deps), "publish") == Some(Spec(deps)[1])
    ensures Names(ShapeOf(Spec(deps))) == {"build", "publish"}
  {
    var spec := Spec(deps);
    assert spec[..1] == [spec[0]];
    var vs := ShapeOf(spec);
    assert vs == [Vertex("build", []), Vertex("publish", deps)];
    assert vs[0] in vs && vs[1] in vs;
  }

  /** The action leads from one state to the other. */
  ghost predicate Leads(deps: seq<string>, s: State, a: Action, t: State) {
    Enabled(Spec(deps), true, s, a) && After(Spec(deps), true, s, a) == t
  }

  lemma StepTo(deps: seq<string>, s: State, a: Action, t: State, run: seq<Action>, u: State)
    requires Leads(deps, s, a, t) && RunsTo(Spec(deps), true, t, run, u)
    ensures RunsTo(Spec(deps), true, s, [a] + run, u)
  {
    hide Enabled, After, Spec;
    assert ([a] + run)[1..] == run;
  }

  lemma PatchWritten()
    ensures Patched(map[], PATCH) == OUTPUTS && forall k :: k in OUTPUTS ==> ValidKey(k)
  {
    assert forall i :: 0 <= i < |"version"| ==> Fits("version", i);
    assert SetIn(PATCH, "version");
    hide ValidKey, Staged, Removed;
  }

  const PREPARING := At(Preparing(map[]), Waiting, map[], map[])
  const RUNNING := At(Running(map[]), Waiting, map[], map[])
  const WROTE := At(Running(map[]), Waiting, OUTPUTS, map[])
  const EXITED := At(Exited(map[], Some(0)), Waiting, OUTPUTS, map[])

  lemma BuildEnters(deps: seq<string>)
    ensures Leads(deps, START, BUILDING[0], PREPARING)
  {
    StepsAt(deps);
    hide StepAt, ShapeOf, Patched;
  }

  lemma BuildLaunches(deps: seq<string>)
    ensures Leads(deps, PREPARING, BUILDING[1], RUNNING)
  {
    StepsAt(deps);
    assert AllSlotsFilled(Spec(deps)[0], map[]) by { NoSlots(deps); }
    hide StepAt, ShapeOf, Patched, AllSlotsFilled;
  }

  lemma NoSlots(deps: seq<string>)
    ensures AllSlotsFilled(Spec(deps)[0], map[])
  {
  }

  lemma BuildWrites(deps: seq<string>)
    ensures Leads(deps, RUNNING, BUILDING[2], WROTE)
  {
    StepsAt(deps);
    PatchWritten();
    hide StepAt, ShapeOf, Patched, ValidKey;
  }

  lemma BuildExits(deps: seq<string>)
    ensures Leads(deps, WROTE, BUILDING[3], EXITED)
  {
    StepsAt(deps);
    hide StepAt, ShapeOf, Patched;
  }

  lemma BuildCollects(deps: seq<string>)
    ensures Leads(deps, EXITED, BUILDING[4], Built(PUBLISHED))
  {
    StepsAt(deps);
    PatchWritten();
    hide StepAt, ShapeOf, Patched, ValidKey;
  }

  lemma BuildPublishes(deps: seq<string>, more: seq<Action>, end: State)
    requires RunsTo(Spec(deps), true, Built(PUBLISHED), more, end)
    ensures RunsTo(Spec(deps), true, START, BUILDING + more, end)
  {
    assert BUILDING + more ==
      [BUILDING[0]] + ([BUILDING[1]] + ([BUILDING[2]] + ([BUILDING[3]] + ([BUILDING[4]] + more))));
    hide *;
    BuildCollects(deps);
    StepTo(deps, EXITED, BUILDING[4], Built(PUBLISHED), more, end);
    BuildExits(deps);
    StepTo(deps, WROTE, BUILDING[3], EXITED, [BUILDING[4]] + more, end);
    BuildWrites(deps);
    StepTo(deps, RUNNING, BUILDING[2], WROTE, [BUILDING[3]] + ([BUILDING[4]] + more), end);
    BuildLaunches(deps);
    StepTo(deps, PREPARING, BUILDING[1], RUNNING, [BUILDING[2]] + ([BUILDING[3]] + ([BUILDING[4]] + more)), end);
    BuildEnters(deps);
    StepTo(deps, START, BUILDING[0], PREPARING,
      [BUILDING[1]] + ([BUILDING[2]] + ([BUILDING[3]] + ([BUILDING[4]] + more))), end);
  }

  lemma ValueDenoted(deps: seq<string>)
    ensures Denoted(map["build" := OUTPUTS], REF) == Some("1.2.3")
    ensures RefAt(Spec(deps)[1], Env("VERSION")) == Some(REF) && AllSlotsFilled(Spec(deps)[1], VALUE)
  {
    hide ValidateKey, IsNegativeIndex, Atoi, Split, Join;
  }

  function Ready(build: Phase, got: map<Slot, string>): State {
    At(build, Preparing(got), OUTPUTS, map["build" := OUTPUTS])
  }

  lemma PublishEnters(deps: seq<string>, build: Phase)
    requires forall d :: d in deps ==> d == "build" && build.Returned?
    ensures Leads(deps, Built(build), PUBLISHING[0], Ready(build, map[]))
  {
    StepsAt(deps);
    hide StepAt, ShapeOf, Patched;
  }

  lemma PublishReads(deps: seq<string>, build: Phase)
    ensures Leads(deps, Ready(build, map[]), PUBLISHING[1], Ready(build, VALUE))
  {
    StepsAt(deps);
    ValueDenoted(deps);
    hide StepAt, ShapeOf, Patched, AllSlotsFilled, Denoted;
  }

  lemma PublishLaunches(deps: seq<string>, build: Phase)
    ensures Leads(deps, Ready(build, VALUE), PUBLISHING[2], End(build))
  {
    StepsAt(deps);
    ValueDenoted(deps);
    hide StepAt, ShapeOf, Patched, AllSlotsFilled, Denoted, RefAt;
  }

  lemma PublishRuns(deps: seq<string>, build: Phase)
    requires forall d :: d in deps ==> d == "build" && build.Returned?
    ensures RunsTo(Spec(deps), true, Built(build), PUBLISHING, End(build))
  {
    assert PUBLISHING == [PUBLISHING[0]] + ([PUBLISHING[1]] + ([PUBLISHING[2]] + []));
    assert RunsTo(Spec(deps), true, End(build), [], End(build));
    hide *;
    PublishLaunches(deps, build);
    StepTo(deps, Ready(build, VALUE), PUBLISHING[2], End(build), [], End(build));
    PublishReads(deps, build);
    StepTo(deps, Ready(build, map[]), PUBLISHING[1], Ready(build, VALUE), [PUBLISHING[2]] + [], End(build));
    PublishEnters(deps, build);
    StepTo(deps, Built(build), PUBLISHING[0], Ready(build, map[]), [PUBLISHING[1]] + ([PUBLISHING[2]] + []),
      End(build));
  }

  const RETURNED: Phase := Returned(Some(map[]), Some(0))

  lemma BuildReturns(deps: seq<string>)
    ensures Leads(deps, Built(PUBLISHED), Return("build"), Built(RETURNED))
  {
    StepsAt(deps);
    hide StepAt, ShapeOf, Patched;
  }

  lemma StartIsFresh(deps: seq<string>)
    ensures Fresh(Spec(deps), START)
  {
    StepsAt(deps);
    hide ShapeOf, Names;
  }

  /** In this run the consumer is launched after the producer has returned, and with the producer's value. */
  lemma ConsumerLaunches()
    ensures Accepts(PIPELINE) && LintAccepts(PIPELINE.steps) && CompiledFrom(PIPELINE, SPEC)
    ensures Fresh(SPEC, START) && RunsTo(SPEC, true, START, BUILDING + ([Return("build")] + PUBLISHING), End(RETURNED))
    ensures Launched(End(RETURNED).phases["publish"]) && Got(End(RETURNED).phases["publish"]) == VALUE
  {
    assert Launched(End(RETURNED).phases["publish"]) && Got(End(RETURNED).phases["publish"]) == VALUE;
    hide *;
    PipelineAccepted();
    PipelinePassesLint();
    PipelineCompiles();
    StartIsFresh(["build"]);
    PublishRuns(["build"], RETURNED);
    BuildReturns(["build"]);
    StepTo(["build"], Built(PUBLISHED), Return("build"), Built(RETURNED), PUBLISHING, End(RETURNED));
    BuildPublishes(["build"], [Return("build")] + PUBLISHING, End(RETURNED));
  }

  /** Without the dependency the consumer may be launched while the producer has published its outputs and has
      not returned. So `LaunchAfterProducers` needs the dependency. */
  lemma UnorderedConsumerLaunchesEarly()
    ensures Fresh(Spec([]), START) && RunsTo(Spec([]), true, START, BUILDING + PUBLISHING, End(PUBLISHED))
    ensures Launched(End(PUBLISHED).phases["publish"]) && !End(PUBLISHED).phases["build"].Returned?
  {
    assert Launched(End(PUBLISHED).phases["publish"]) && !End(PUBLISHED).phases["build"].Returned?;
    hide *;
    StartIsFresh([]);
    PublishRuns([], PUBLISHED);
    BuildPublishes([], PUBLISHING, End(PUBLISHED));
  }
}
