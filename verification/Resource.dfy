/** The pipeline as the user writes it, and the checks made when it is parsed
    (`engine/resource/parser.go`). */
module Resource {
  import opened Wrappers
  import opened Text
  import opened References
  import opened Graph

  /** `environment` and `settings` hold the `from_output` text of each entry (empty if it has none),
      or nothing for a nil entry. `plain` says that the step passes the per-step rules of the
      linter, `matches` that its conditions are met. */
  datatype Step = Step(
    name: string,
    dependsOn: seq<string>,
    detach: bool,
    environment: map<string, Option<string>>,
    settings: map<string, Option<string>>,
    plain: bool,
    matches: bool)

  datatype Pipeline = Pipeline(services: seq<Step>, steps: seq<Step>, cloneDisabled: bool)

  /** The first step with the name. */
  function GetStep(steps: seq<Step>, name: string): (s: Option<Step>)
    ensures s.Some? ==> s.value in steps && s.value.name == name
    ensures s.None? ==> forall t :: t in steps ==> t.name != name
  {
    if steps == [] then None else if steps[0].name == name then Some(steps[0]) else GetStep(steps[1..], name)
  }

  lemma {:induction false} GetStepIsFirst(steps: seq<Step>, name: string) returns (i: nat)
    requires GetStep(steps, name).Some?
    ensures i < |steps| && GetStep(steps, name) == Some(steps[i]) && steps[i].name == name
    ensures forall j :: 0 <= j < i ==> steps[j].name != name
  {
    if steps[0].name == name {
      i := 0;
    } else {
      i := GetStepIsFirst(steps[1..], name);
      assert forall j :: 1 <= j < i + 1 ==> steps[j] == steps[1..][j - 1];
      i := i + 1;
    }
  }

  function StepNames(steps: seq<Step>): set<string> {
    set s | s in steps :: s.name
  }

  /** The dependencies as `dependsOn` sees them: only the first step of a name counts. */
  function FirstEdges(steps: seq<Step>): Edges {
    set s, d | s in steps && GetStep(steps, s.name) == Some(s) && d in s.dependsOn :: (s.name, d)
  }

  function Shape(steps: seq<Step>): (vs: seq<Vertex>)
    ensures |vs| == |steps|
  {
    seq(|steps|, i requires 0 <= i < |steps| => Vertex(steps[i].name, steps[i].dependsOn))
  }

  lemma {:induction false} GetStepOfDistinct(steps: seq<Step>, i: nat)
    requires Distinct(Shape(steps)) && i < |steps|
    ensures GetStep(steps, steps[i].name) == Some(steps[i])
  {
    var s := GetStep(steps, steps[i].name).value;
    var j :| 0 <= j < |steps| && steps[j] == s;
    assert Shape(steps)[j].name == Shape(steps)[i].name;
  }

  /** When names are unique, the first step of a name is the only one. */
  lemma FirstEdgesOfDistinct(steps: seq<Step>)
    requires Distinct(Shape(steps))
    ensures FirstEdges(steps) == EdgesOf(Shape(steps))
  {
    forall a, b ensures (a, b) in FirstEdges(steps) <==> (a, b) in EdgesOf(Shape(steps)) {
      if (a, b) in FirstEdges(steps) {
        var s, d :| s in steps && d in s.dependsOn && (s.name, d) == (a, b);
        var i :| 0 <= i < |steps| && steps[i] == s;
        assert Shape(steps)[i] in Shape(steps) && d in Shape(steps)[i].dependsOn;
      }
      if (a, b) in EdgesOf(Shape(steps)) {
        var v, d :| v in Shape(steps) && d in v.dependsOn && (v.name, d) == (a, b);
        var i :| 0 <= i < |steps| && Shape(steps)[i] == v;
        GetStepOfDistinct(steps, i);
        assert steps[i] in steps && d in steps[i].dependsOn;
      }
    }
  }

  // ---------------------------------------------------------------------------------------------
  // May a consumer read a producer?
  // ---------------------------------------------------------------------------------------------

  /** The set of visited names that the recursive calls share. */
  class Visited {
    var names: set<string>

    constructor ()
      ensures names == {}
    {
      names := {};
    }
  }

  method DependsOn(steps: seq<Step>, consumer: string, producer: string, seen: Visited) returns (found: bool)
    modifies seen
    ensures old(seen.names) <= seen.names
    ensures found ==> Reaches(FirstEdges(steps), consumer, producer)
    ensures !found ==> Explored(FirstEdges(steps), old(seen.names), seen.names, consumer, producer)
    ensures old(seen.names) == {} ==> (found <==> Reaches(FirstEdges(steps), consumer, producer))
    decreases StepNames(steps) - seen.names
  {
    ghost var e := FirstEdges(steps);
    if consumer == producer {
      ReachesItself(e, consumer);
      return true;
    }
    if consumer in seen.names {
      return false;
    }
    seen.names := seen.names + {consumer};
    var current := GetStep(steps, consumer);
    if current.None? {
      NothingMissed(e, old(seen.names), seen.names, consumer, producer);
      return false;
    }
    var deps := current.value.dependsOn;
    assert consumer in StepNames(steps);
    for i := 0 to |deps|
      invariant old(seen.names) + {consumer} <= seen.names
      invariant forall j :: 0 <= j < i ==> deps[j] in seen.names && deps[j] != producer
      invariant forall v, w :: v in seen.names - old(seen.names) - {consumer} && (v, w) in e ==>
                  w in seen.names && w != producer
    {
      assert (consumer, deps[i]) in e;
      ghost var before := seen.names;
      found := deps[i] == producer;
      if !found {
        found := DependsOn(steps, deps[i], producer, seen);
      } else {
        ReachesItself(e, producer);
      }
      if found {
        EdgeThenReaches(e, consumer, deps[i], producer);
        return true;
      }
      assert forall v :: v in seen.names - old(seen.names) - {consumer} ==>
                           v in seen.names - before || v in before - old(seen.names) - {consumer};
    }
    forall w | (consumer, w) in e ensures w in deps {
      var s, d :| s in steps && GetStep(steps, s.name) == Some(s) && d in s.dependsOn && (s.name, d) == (consumer, w);
    }
    NothingMissed(e, old(seen.names), seen.names, consumer, producer);
    found := false;
  }

  // ---------------------------------------------------------------------------------------------
  // The checks
  // ---------------------------------------------------------------------------------------------

  /** The entry has no reference, or its reference names a step that runs to its end and that the
      consumer depends on. */
  ghost predicate ReferenceAllowed(steps: seq<Step>, consumer: string, text: Option<string>) {
    text.Some? && TrimSpace(text.value) != "" ==>
      && Parse(text.value).Ok?
      && var producer := Parse(text.value).value.step;
         && GetStep(steps, producer).Some? && !GetStep(steps, producer).value.detach
         && Reaches(FirstEdges(steps), consumer, producer)
  }

  /** The entry is there and is a reference. */
  predicate HasReference(text: Option<string>) {
    text.Some? && TrimSpace(text.value) != ""
  }

  /** An entry is a reference exactly if it contains anything but spaces. */
  lemma HasReferenceExactly(text: string)
    ensures HasReference(Some(text)) <==> exists c :: c in text && !IsSpace(c)
  {
    var a, b := TrimSpaceCuts(text);
    if HasReference(Some(text)) {
      assert TrimSpace(text)[0] in text;
    }
    hide TrimSpace, IsSpace;
    if c :| c in text && !IsSpace(c) {
      assert TrimSpace(text) == "" ==> c in a || c in b;
    }
  }

  ghost predicate ReferencesAllowed(steps: seq<Step>, step: Step) {
    && (forall k :: k in step.environment ==> ReferenceAllowed(steps, step.name, step.environment[k]))
    && (forall k :: k in step.settings ==> ReferenceAllowed(steps, step.name, step.settings[k]))
  }

  predicate NameAllowed(name: string) {
    name != "" && ByteLength(name) <= 100
  }

  /** What the parser accepts. */
  ghost predicate LintAccepts(steps: seq<Step>) {
    && (forall i :: 0 <= i < |steps| ==> NameAllowed(steps[i].name))
    && Distinct(Shape(steps))
    && (forall i :: 0 <= i < |steps| ==> ReferencesAllowed(steps, steps[i]))
  }

  method CheckNames(steps: seq<Step>) returns (ok: bool)
    ensures ok <==> (forall i :: 0 <= i < |steps| ==> NameAllowed(steps[i].name)) && Distinct(Shape(steps))
  {
    var names: set<string> := {};
    for i := 0 to |steps|
      invariant names == StepNames(steps[..i])
      invariant forall j :: 0 <= j < i ==> NameAllowed(steps[j].name)
      invariant forall j, k :: 0 <= j < k < i ==> steps[j].name != steps[k].name
    {
      var step := steps[i];
      if step.name == "" || ByteLength(step.name) > 100 {
        return false;
      }
      if step.name in names {
        var s :| s in steps[..i] && s.name == step.name;
        var j :| 0 <= j < i && steps[j] == s;
        assert Shape(steps)[j].name == Shape(steps)[i].name;
        return false;
      }
      assert forall j :: 0 <= j < i ==> steps[j] in steps[..i];
      assert steps[..i + 1] == steps[..i] + [step];
      names := names + {step.name};
    }
    ok := true;
  }

  method CheckReferences(steps: seq<Step>, index: map<string, Step>, consumer: string,
          entries: map<string, Option<string>>)
    returns (ok: bool)
    requires forall n :: (n in index <==> GetStep(steps, n).Some?) &&
               (n in index ==> GetStep(steps, n) == Some(index[n]))
    ensures ok <==> forall k :: k in entries ==> ReferenceAllowed(steps, consumer, entries[k])
  {
    var keys := entries.Keys;
    while keys != {}
      invariant keys <= entries.Keys
      invariant forall k :: k in entries.Keys - keys ==> ReferenceAllowed(steps, consumer, entries[k])
      decreases keys
    {
      var key :| key in keys;
      keys := keys - {key};
      var text := entries[key];
      if text.None? || TrimSpace(text.value) == "" {
        continue;
      }
      var ref := ParseRef(text.value);
      if ref.Err? || ref.value.step !in index || index[ref.value.step].detach {
        assert !ReferenceAllowed(steps, consumer, entries[key]);
        return false;
      }
      var seen := new Visited();
      var found := DependsOn(steps, consumer, ref.value.step, seen);
      if !found {
        assert !ReferenceAllowed(steps, consumer, entries[key]);
        return false;
      }
    }
    ok := true;
  }

  /** The index by name that the checks look producers up in. */
  method IndexSteps(steps: seq<Step>) returns (index: map<string, Step>)
    requires Distinct(Shape(steps))
    ensures forall n :: (n in index <==> GetStep(steps, n).Some?) &&
              (n in index ==> GetStep(steps, n) == Some(index[n]))
  {
    index := map[];
    for i := 0 to |steps|
      invariant forall j :: 0 <= j < i ==> steps[j].name in index
      invariant forall n :: n in index ==> GetStep(steps, n) == Some(index[n])
    {
      GetStepOfDistinct(steps, i);
      index := index[steps[i].name := steps[i]];
    }
  }

  /** Accepts exactly the pipelines whose steps have proper, unique names and whose references all
      name a step that the consumer depends on, directly or not. */
  method Lint(pipeline: Pipeline) returns (ok: bool)
    ensures ok <==> LintAccepts(pipeline.steps)
  {
    var steps := pipeline.steps;
    ok := CheckNames(steps);
    hide ReferenceAllowed, NameAllowed, Distinct, GetStep, Shape;
    if !ok {
      return;
    }
    var index := IndexSteps(steps);
    for i := 0 to |steps|
      invariant forall j :: 0 <= j < i ==> ReferencesAllowed(steps, steps[j])
    {
      ok := CheckReferences(steps, index, steps[i].name, steps[i].environment);
      if !ok {
        return;
      }
      ok := CheckReferences(steps, index, steps[i].name, steps[i].settings);
      if !ok {
        return;
      }
    }
  }

  /** A pipeline without any `depends_on` may only let a step refer to itself: the implicit order of
      serial steps does not count. */
  lemma SerialReferencesOnlySelf(steps: seq<Step>, step: Step, text: string)
    requires forall s :: s in steps ==> s.dependsOn == []
    requires TrimSpace(text) != "" && ReferenceAllowed(steps, step.name, Some(text))
    ensures Parse(text).Ok? && Parse(text).value.step == step.name
  {
    var b := ReachesCases(FirstEdges(steps), step.name, Parse(text).value.step);
  }

  // ---------------------------------------------------------------------------------------------
  // What is accepted, in terms of the steps alone
  // ---------------------------------------------------------------------------------------------

  /** A chain of steps, each of which names the next one in its `depends_on`. */
  ghost predicate Chain(steps: seq<Step>, chain: seq<Step>) {
    && |chain| > 0 && (forall i :: 0 <= i < |chain| ==> chain[i] in steps)
    && forall i :: 0 <= i < |chain| - 1 ==> chain[i + 1].name in chain[i].dependsOn
  }

  /** The text refers to a step that is not detached, and a chain leads there from the consumer. */
  ghost predicate ChainAllowed(steps: seq<Step>, consumer: Step, text: string) {
    && Parse(text).Ok?
    && exists chain: seq<Step> :: Chain(steps, chain) && chain[0] == consumer &&
         chain[|chain| - 1].name == Parse(text).value.step && !chain[|chain| - 1].detach
  }

  lemma StepOfName(steps: seq<Step>, s: Step)
    requires Distinct(Shape(steps)) && s in steps
    ensures GetStep(steps, s.name) == Some(s)
  {
    hide GetStep;
    var i :| 0 <= i < |steps| && steps[i] == s;
    GetStepOfDistinct(steps, i);
  }

  lemma {:induction false} ChainReaches(steps: seq<Step>, chain: seq<Step>)
    requires Distinct(Shape(steps)) && Chain(steps, chain)
    ensures Reaches(FirstEdges(steps), chain[0].name, chain[|chain| - 1].name)
  {
    hide Distinct, Shape, Reaches, GetStep;
    if |chain| == 1 {
      ReachesItself(FirstEdges(steps), chain[0].name);
    } else {
      StepOfName(steps, chain[0]);
      assert chain[1].name in chain[0].dependsOn;
      assert (chain[0].name, chain[1].name) in FirstEdges(steps);
      assert Chain(steps, chain[1..]) by {
        forall i | 0 <= i < |chain| - 2 ensures chain[1..][i + 1].name in chain[1..][i].dependsOn {
          assert chain[i + 1 + 1].name in chain[i + 1].dependsOn;
        }
      }
      ChainReaches(steps, chain[1..]);
      hide FirstEdges, Chain;
      EdgeThenReaches(FirstEdges(steps), chain[0].name, chain[1].name, chain[|chain| - 1].name);
    }
  }

  /** A path that ends at a step is a chain of steps. */
  lemma {:induction false} PathIsChain(steps: seq<Step>, p: seq<string>, end: Step) returns (chain: seq<Step>)
    requires IsPath(FirstEdges(steps), p) && GetStep(steps, p[|p| - 1]) == Some(end)
    ensures Chain(steps, chain) && GetStep(steps, p[0]) == Some(chain[0]) && chain[|chain| - 1] == end
    decreases |p|
  {
    hide GetStep;
    if |p| == 1 {
      chain := [end];
    } else {
      assert (p[0], p[1]) in FirstEdges(steps);
      var s, d :| s in steps && GetStep(steps, s.name) == Some(s) && d in s.dependsOn && (s.name, d) == (p[0], p[1]);
      assert IsPath(FirstEdges(steps), p[1..]) by {
        forall i | 0 <= i < |p| - 2 ensures (p[1..][i], p[1..][i + 1]) in FirstEdges(steps) {
          assert (p[i + 1], p[i + 1 + 1]) in FirstEdges(steps);
        }
      }
      hide FirstEdges;
      var rest := PathIsChain(steps, p[1..], end);
      assert rest[0].name == p[1];
      chain := [s] + rest;
      forall i | 0 <= i < |chain| - 1 ensures chain[i + 1].name in chain[i].dependsOn {
        assert i > 0 ==> rest[i - 1 + 1].name in rest[i - 1].dependsOn;
      }
    }
  }

  lemma ReferenceAllowedExactly(steps: seq<Step>, consumer: Step, text: string)
    requires Distinct(Shape(steps)) && consumer in steps && TrimSpace(text) != ""
    ensures ReferenceAllowed(steps, consumer.name, Some(text)) <==> ChainAllowed(steps, consumer, text)
  {
    hide Parse, TrimSpace, Distinct, Shape, GetStep, FirstEdges;
    var e := FirstEdges(steps);
    StepOfName(steps, consumer);
    if ReferenceAllowed(steps, consumer.name, Some(text)) {
      var producer := Parse(text).value.step;
      var p :| IsPath(e, p) && p[0] == consumer.name && p[|p| - 1] == producer;
      var chain := PathIsChain(steps, p, GetStep(steps, producer).value);
      ChainIsNotEmpty(steps, chain);
    }
    hide ReferenceAllowed;
    if ChainAllowed(steps, consumer, text) {
      var chain: seq<Step> :| Chain(steps, chain) && chain[0] == consumer &&
        chain[|chain| - 1].name == Parse(text).value.step && !chain[|chain| - 1].detach;
      ChainIsNotEmpty(steps, chain);
      ChainReaches(steps, chain);
      StepOfName(steps, chain[|chain| - 1]);
      AllowedReference(steps, consumer.name, text);
    }
  }

  lemma ChainIsNotEmpty(steps: seq<Step>, chain: seq<Step>)
    requires Chain(steps, chain)
    ensures |chain| > 0 && chain[|chain| - 1] in steps
  {
  }

  lemma AllowedReference(steps: seq<Step>, consumer: string, text: string)
    requires Parse(text).Ok?
    requires var producer := Parse(text).value.step;
             && GetStep(steps, producer).Some? && !GetStep(steps, producer).value.detach
             && Reaches(FirstEdges(steps), consumer, producer)
    ensures ReferenceAllowed(steps, consumer, Some(text))
  {
    hide Parse, TrimSpace, Reaches, GetStep;
  }

  /** The parser accepts exactly: names of 1 to 100 bytes that all differ, and references each of which is well-formed
      and names a step that is not detached, and that a chain of `depends_on` leads to. */
  lemma LintAcceptsExactly(steps: seq<Step>)
    ensures LintAccepts(steps) <==>
              && (forall i :: 0 <= i < |steps| ==> 1 <= ByteLength(steps[i].name) <= 100)
              && (forall i, j :: 0 <= i < j < |steps| ==> steps[i].name != steps[j].name)
              && (forall i, k :: 0 <= i < |steps| && k in steps[i].environment && HasReference(steps[i].environment[k])
                    ==> ChainAllowed(steps, steps[i], steps[i].environment[k].value))
              && (forall i, k :: 0 <= i < |steps| && k in steps[i].settings && HasReference(steps[i].settings[k]) ==>
                    ChainAllowed(steps, steps[i], steps[i].settings[k].value))
  {
    assert Distinct(Shape(steps)) <==> forall i, j :: 0 <= i < j < |steps| ==> steps[i].name != steps[j].name by {
      assert forall i :: 0 <= i < |steps| ==> Shape(steps)[i].name == steps[i].name;
    }
    hide Parse, TrimSpace, Distinct, Shape, ChainAllowed;
    if Distinct(Shape(steps)) {
      forall i | 0 <= i < |steps| ensures NameAllowed(steps[i].name) <==> 1 <= ByteLength(steps[i].name) <= 100 {
      }
      forall i, text: Option<string> | 0 <= i < |steps| && HasReference(text)
        ensures ReferenceAllowed(steps, steps[i].name, text) <==> ChainAllowed(steps, steps[i], text.value)
      {
        ReferenceAllowedExactly(steps, steps[i], text.value);
      }
      forall i, text: Option<string> | 0 <= i < |steps| && !HasReference(text)
        ensures ReferenceAllowed(steps, steps[i].name, text)
      {
      }
      hide ReferenceAllowed, NameAllowed, HasReference;
    }
  }
}
