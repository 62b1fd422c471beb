/** The check of output references on a compiled pipeline (`engine/compiler/util.go`). The compiler does
    not run it; here it is compared with the check that the parser runs on the source. */
module SpecChecks {
  import opened Wrappers
  import opened References
  import opened Graph
  import opened Resource
  import opened Linter
  import opened CompiledGraph
  import opened Compiler
  import opened Runs

  /** Does the consumer depend on the producer? All steps that share a name count. */
  method DependsOnStep(spec: seq<SpecStep>, consumer: string, producer: string, seen: Visited) returns (found: bool)
    modifies seen
    ensures old(seen.names) <= seen.names
    ensures found ==> Reaches(EdgesOf(ShapeOf(spec)), consumer, producer)
    ensures !found ==> Explored(EdgesOf(ShapeOf(spec)), old(seen.names), seen.names, consumer, producer)
    ensures old(seen.names) == {} ==> (found <==> Reaches(EdgesOf(ShapeOf(spec)), consumer, producer))
    decreases Names(ShapeOf(spec)) - seen.names
  {
    ghost var e := EdgesOf(ShapeOf(spec));
    if consumer == producer {
      ReachesItself(e, consumer);
      return true;
    }
    if consumer in seen.names {
      return false;
    }
    hide Reaches, EdgesOf, ShapeOf, Names;
    seen.names := seen.names + {consumer};
    for i := 0 to |spec|
      invariant old(seen.names) + {consumer} <= seen.names
      invariant forall k :: 0 <= k < i && spec[k].name == consumer ==> Tried(spec[k], seen.names, producer)
      invariant Expanded(e, old(seen.names) + {consumer}, seen.names, producer)
    {
      if spec[i].name != consumer {
        continue;
      }
      var deps := spec[i].dependsOn;
      ghost var outer := seen.names;
      for j := 0 to |deps|
        invariant outer <= seen.names
        invariant forall k :: 0 <= k < j ==> deps[k] in seen.names && deps[k] != producer
        invariant Expanded(e, old(seen.names) + {consumer}, seen.names, producer)
      {
        EdgeOfStep(spec, i, deps[j]);
        ghost var before := seen.names;
        found := deps[j] == producer;
        if !found {
          found := DependsOnStep(spec, deps[j], producer, seen);
        } else {
          ReachesItself(e, producer);
        }
        if found {
          EdgeThenReaches(e, consumer, deps[j], producer);
          return true;
        }
        ExpandedMore(e, old(seen.names) + {consumer}, before, seen.names, deps[j], producer);
      }
      assert Tried(spec[i], seen.names, producer);
      TriedMore(spec, outer, seen.names, producer);
    }
    forall w | (consumer, w) in e ensures w in seen.names && w != producer {
      var k := StepOfEdge(spec, consumer, w);
      assert Tried(spec[k], seen.names, producer);
    }
    NothingMissed(e, old(seen.names), seen.names, consumer, producer);
    found := false;
  }

  /** All dependencies of the step are visited, and none is the target. */
  ghost predicate Tried(step: SpecStep, names: set<string>, target: string) {
    forall d :: d in step.dependsOn ==> d in names && d != target
  }

  lemma TriedMore(spec: seq<SpecStep>, before: set<string>, after: set<string>, target: string)
    requires before <= after
    ensures forall k :: 0 <= k < |spec| && Tried(spec[k], before, target) ==> Tried(spec[k], after, target)
  {
  }

  /** All successors of the vertices visited since are visited, and none is the target. */
  ghost predicate Expanded(e: Edges, before: set<string>, after: set<string>, target: string) {
    forall v, w :: v in after - before && (v, w) in e ==> w in after && w != target
  }

  lemma ExpandedMore(e: Edges, start: set<string>, before: set<string>, after: set<string>, a: string, b: string)
    requires Expanded(e, start, before, b) && Explored(e, before, after, a, b)
    ensures Expanded(e, start, after, b)
  {
    assert forall v :: v in after - start ==> v in after - before || v in before - start;
  }

  lemma EdgeOfStep(spec: seq<SpecStep>, i: nat, d: string)
    requires i < |spec| && d in spec[i].dependsOn
    ensures (spec[i].name, d) in EdgesOf(ShapeOf(spec)) && spec[i].name in Names(ShapeOf(spec))
  {
    var v := ShapeOf(spec)[i];
    assert v in ShapeOf(spec) && d in v.dependsOn;
  }

  lemma StepOfEdge(spec: seq<SpecStep>, a: string, b: string) returns (k: nat)
    requires (a, b) in EdgesOf(ShapeOf(spec))
    ensures k < |spec| && spec[k].name == a && b in spec[k].dependsOn
  {
    var v, d :| v in ShapeOf(spec) && d in v.dependsOn && (v.name, d) == (a, b);
    k :| 0 <= k < |spec| && ShapeOf(spec)[k] == v;
  }

  lemma {:induction false} StepAtIsLast(spec: seq<SpecStep>, name: string) returns (i: nat)
    requires StepAt(spec, name).Some?
    ensures i < |spec| && StepAt(spec, name) == Some(spec[i]) && spec[i].name == name
    ensures forall j :: i < j < |spec| ==> spec[j].name != name
  {
    i := |spec| - 1;
    if spec[i].name != name {
      i := StepAtIsLast(spec[..|spec| - 1], name);
    }
  }

  /** The reference names a step that runs to its end, and that the consumer depends on. */
  ghost predicate RefAllowed(spec: seq<SpecStep>, consumer: string, ref: OutputRef) {
    && StepAt(spec, ref.step).Some? && !StepAt(spec, ref.step).value.detach
    && Reaches(EdgesOf(ShapeOf(spec)), consumer, ref.step)
  }

  ghost predicate RefsAllowed(spec: seq<SpecStep>, step: SpecStep, refs: map<string, OutputRef>) {
    (step.detach ==> |refs| == 0) && forall k :: k in refs ==> RefAllowed(spec, step.name, refs[k])
  }

  /** What the check accepts. */
  ghost predicate SpecAccepts(spec: seq<SpecStep>) {
    forall i :: 0 <= i < |spec| ==>
      RefsAllowed(spec, spec[i], spec[i].outputEnvs) && RefsAllowed(spec, spec[i], spec[i].outputSettings)
  }

  method IndexSpec(spec: seq<SpecStep>) returns (index: map<string, SpecStep>)
    ensures forall n :: (n in index <==> StepAt(spec, n).Some?) &&
              (n in index ==> StepAt(spec, n) == Some(index[n]))
  {
    index := map[];
    for i := 0 to |spec|
      invariant forall n :: (n in index <==> StepAt(spec[..i], n).Some?) &&
                  (n in index ==> StepAt(spec[..i], n) == Some(index[n]))
    {
      index := index[spec[i].name := spec[i]];
      assert spec[..i + 1][..i] == spec[..i];
    }
    assert spec[..|spec|] == spec;
  }

  method CheckRefs(spec: seq<SpecStep>, index: map<string, SpecStep>, step: SpecStep, refs: map<string, OutputRef>)
    returns (ok: bool)
    requires forall n :: (n in index <==> StepAt(spec, n).Some?) &&
               (n in index ==> StepAt(spec, n) == Some(index[n]))
    ensures ok <==> RefsAllowed(spec, step, refs)
  {
    hide Reaches, StepAt, EdgesOf, ShapeOf;
    if step.detach && |refs| != 0 {
      return false;
    }
    var keys := refs.Keys;
    while keys != {}
      invariant keys <= refs.Keys
      invariant forall k :: k in refs.Keys - keys ==> RefAllowed(spec, step.name, refs[k])
      decreases keys
    {
      var key :| key in keys;
      keys := keys - {key};
      var ref := refs[key];
      if ref.step !in index || index[ref.step].detach {
        assert !RefAllowed(spec, step.name, refs[key]);
        return false;
      }
      var seen := new Visited();
      var found := DependsOnStep(spec, step.name, ref.step, seen);
      if !found {
        assert !RefAllowed(spec, step.name, refs[key]);
        return false;
      }
    }
    ok := true;
  }

  method ValidateOutputRefs(spec: seq<SpecStep>) returns (ok: bool)
    ensures ok <==> SpecAccepts(spec)
  {
    hide RefsAllowed, StepAt;
    var index := IndexSpec(spec);
    for i := 0 to |spec|
      invariant forall j :: 0 <= j < i ==>
                  RefsAllowed(spec, spec[j], spec[j].outputEnvs) && RefsAllowed(spec, spec[j], spec[j].outputSettings)
    {
      ok := CheckRefs(spec, index, spec[i], spec[i].outputEnvs);
      if !ok {
        return;
      }
      ok := CheckRefs(spec, index, spec[i], spec[i].outputSettings);
      if !ok {
        return;
      }
    }
    ok := true;
  }

  // ---------------------------------------------------------------------------------------------
  // What the check adds to the one on the source
  // ---------------------------------------------------------------------------------------------

  predicate NoRefs(step: SpecStep) {
    step.outputEnvs == map[] && step.outputSettings == map[]
  }

  /** What comes before the user's steps is detached or has no references. */
  lemma EarlierSteps(p: Pipeline, spec: seq<SpecStep>, k: nat)
    requires CompiledFrom(p, spec) && k < FirstStep(p) && k < |spec|
    ensures spec[k].detach || NoRefs(spec[k])
  {
    hide CompiledShape, EnvsOf, SettingsOf, AllParse;
    var before: seq<SpecStep> :|
      Built(p, before) && |before| == |Declared(p)| && Rewired(before, spec, CompiledShape(p));
    if k >= Offset(p) {
      assert StepOf((p.services + p.steps)[k - Offset(p)], true, before[k]);
    }
  }

  lemma CompiledRefAllowed(p: Pipeline, spec: seq<SpecStep>, i: nat, slot: Slot)
    requires Accepts(p) && LintAccepts(p.steps) && CompiledFrom(p, spec) && i < |p.steps|
    requires FirstStep(p) + i < |spec| && RefAt(spec[FirstStep(p) + i], slot).Some?
    ensures RefAllowed(spec, spec[FirstStep(p) + i].name, RefAt(spec[FirstStep(p) + i], slot).value)
  {
    hide *;
    var producer := RefAt(spec[FirstStep(p) + i], slot).value.step;
    CompiledReferenceAllowed(p, spec, i, slot);
    CompiledStep(p, spec, i);
    var j := ProducerIndex(p.steps, producer);
    CompiledStep(p, spec, j);
    CompiledInOrder(p);
    OrderedIsDistinct(ShapeOf(spec));
    StepAtIndex(spec, FirstStep(p) + j);
    CompiledShapeOf(p, spec);
    AllowedFrom(spec, spec[FirstStep(p) + i].name, RefAt(spec[FirstStep(p) + i], slot).value);
  }

  lemma AllowedFrom(spec: seq<SpecStep>, consumer: string, ref: OutputRef)
    requires StepAt(spec, ref.step).Some? && !StepAt(spec, ref.step).value.detach
    requires Reaches(EdgesOf(ShapeOf(spec)), consumer, ref.step)
    ensures RefAllowed(spec, consumer, ref)
  {
  }

  lemma ProducerIndex(steps: seq<Step>, name: string) returns (j: nat)
    requires name in StepNames(steps) && !GetStep(steps, name).value.detach
    ensures j < |steps| && steps[j].name == name && !steps[j].detach
  {
    j :| 0 <= j < |steps| && steps[j] == GetStep(steps, name).value;
  }

  /** For a pipeline that parser and linter accept, the check on the compiled steps accepts exactly if
      no service and no detached step has a reference: that is all it would add to the parser's check. */
  lemma CompiledRefsExactly(p: Pipeline, spec: seq<SpecStep>)
    requires Accepts(p) && LintAccepts(p.steps) && CompiledFrom(p, spec)
    ensures SpecAccepts(spec) <==> forall k :: 0 <= k < |spec| && spec[k].detach ==> NoRefs(spec[k])
  {
    hide RefAllowed, CompiledFrom, Accepts, LintAccepts;
    if forall k :: 0 <= k < |spec| && spec[k].detach ==> NoRefs(spec[k]) {
      forall k | 0 <= k < |spec|
        ensures RefsAllowed(spec, spec[k], spec[k].outputEnvs) && RefsAllowed(spec, spec[k], spec[k].outputSettings)
      {
        assert spec[k].detach ==> NoRefs(spec[k]);
        if k < FirstStep(p) {
          EarlierSteps(p, spec, k);
        } else {
          StepRefsAllowed(p, spec, k);
        }
      }
    }
  }

  lemma CompiledStepBounds(p: Pipeline, spec: seq<SpecStep>, k: nat)
    requires CompiledFrom(p, spec) && FirstStep(p) <= k < |spec|
    ensures k - FirstStep(p) < |p.steps|
  {
    hide CompiledShape, Built;
  }

  lemma StepRefsAllowed(p: Pipeline, spec: seq<SpecStep>, k: nat)
    requires Accepts(p) && LintAccepts(p.steps) && CompiledFrom(p, spec) && FirstStep(p) <= k < |spec|
    ensures forall n :: n in spec[k].outputEnvs ==> RefAllowed(spec, spec[k].name, spec[k].outputEnvs[n])
    ensures forall n :: n in spec[k].outputSettings ==> RefAllowed(spec, spec[k].name, spec[k].outputSettings[n])
  {
    hide Accepts, LintAccepts, RefAllowed, CompiledFrom, FirstStep;
    CompiledStepBounds(p, spec, k);
    forall n | n in spec[k].outputEnvs ensures RefAllowed(spec, spec[k].name, spec[k].outputEnvs[n]) {
      CompiledRefAllowed(p, spec, k - FirstStep(p), Env(n));
    }
    forall n | n in spec[k].outputSettings ensures RefAllowed(spec, spec[k].name, spec[k].outputSettings[n]) {
      CompiledRefAllowed(p, spec, k - FirstStep(p), Setting(n));
    }
  }
}
