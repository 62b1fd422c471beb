/** The part of the compiler that orders the steps, rewrites their dependencies and carries their
    output references over (`engine/compiler/compiler.go`, `util.go`, `step.go`). */
module Compiler {
  import opened Wrappers
  import opened Text
  import opened References
  import opened Graph
  import opened Resource
  import opened Linter
  import opened CompiledGraph

  /** A compiled step as a value. */
  datatype SpecStep = SpecStep(
    name: string,
    dependsOn: seq<string>,
    detach: bool,
    never: bool,
    outputEnvs: map<string, OutputRef>,
    outputSettings: map<string, OutputRef>)

  /** A compiled step as the compiler builds it: its dependencies are overwritten in place. */
  class EngineStep {
    const name: string
    const detach: bool
    const never: bool
    const outputEnvs: map<string, OutputRef>
    const outputSettings: map<string, OutputRef>
    var dependsOn: seq<string>

    constructor (s: SpecStep)
      ensures View() == s
    {
      name, detach, never, outputEnvs, outputSettings, dependsOn :=
        s.name, s.detach, s.never, s.outputEnvs, s.outputSettings, s.dependsOn;
    }

    function View(): SpecStep
      reads this
    {
      SpecStep(name, dependsOn, detach, never, outputEnvs, outputSettings)
    }
  }

  ghost function Views(steps: seq<EngineStep>): (vs: seq<SpecStep>)
    reads steps
    ensures |vs| == |steps| && forall i :: 0 <= i < |steps| ==> vs[i] == steps[i].View()
  {
    seq(|steps|, i requires 0 <= i < |steps| reads steps => steps[i].View())
  }

  ghost predicate AllDifferent(steps: seq<EngineStep>) {
    forall i, j :: 0 <= i < j < |steps| ==> steps[i] != steps[j]
  }

  function ShapeOf(spec: seq<SpecStep>): (vs: seq<Vertex>)
    ensures |vs| == |spec|
  {
    seq(|spec|, i requires 0 <= i < |spec| => Vertex(spec[i].name, spec[i].dependsOn))
  }

  /** The steps with other dependencies and nothing else changed. */
  ghost predicate Rewired(before: seq<SpecStep>, after: seq<SpecStep>, shape: seq<Vertex>) {
    && |before| == |after| && ShapeOf(after) == shape
    && forall i :: 0 <= i < |after| ==> after[i] == before[i].(dependsOn := after[i].dependsOn)
  }

  // ---------------------------------------------------------------------------------------------
  // Rewriting the dependencies in place
  // ---------------------------------------------------------------------------------------------

  method ConfigureSerial(steps: seq<EngineStep>)
    requires AllDifferent(steps)
    modifies steps
    ensures Rewired(old(Views(steps)), Views(steps), Serial(ShapeOf(old(Views(steps)))))
  {
    var prev: EngineStep? := null;
    for i := 0 to |steps|
      invariant i == 0 ==> prev == null
      invariant i > 0 ==> prev == steps[i - 1]
      invariant forall j :: 0 < j < i ==> steps[j].dependsOn == [steps[j - 1].name]
      invariant forall j :: 0 <= j < |steps| && (j == 0 || i <= j) ==> steps[j].dependsOn == old(steps[j].dependsOn)
    {
      var step := steps[i];
      assert forall j :: 0 <= j < |steps| && j != i ==> steps[j] != step;
      if prev != null {
        step.dependsOn := [prev.name];
      }
      prev := step;
    }
    assert forall j :: 0 <= j < |steps| ==> old(Views(steps))[j] == old(steps[j].View());
    assert ShapeOf(Views(steps)) == Serial(ShapeOf(old(Views(steps))));
  }

  method ConfigureCloneDeps(steps: seq<EngineStep>)
    requires AllDifferent(steps)
    modifies steps
    ensures Rewired(old(Views(steps)), Views(steps), WithCloneDeps(ShapeOf(old(Views(steps)))))
  {
    for i := 0 to |steps|
      invariant forall j :: 0 <= j < i && steps[j].name != CLONE && old(steps[j].dependsOn) == [] ==>
                  steps[j].dependsOn == [CLONE]
      invariant forall j :: 0 <= j < |steps| && (i <= j || steps[j].name == CLONE || old(steps[j].dependsOn) != []) ==>
                  steps[j].dependsOn == old(steps[j].dependsOn)
    {
      if steps[i].name == CLONE {
        continue;
      }
      if steps[i].dependsOn == [] {
        steps[i].dependsOn := [CLONE];
      }
    }
    assert forall j :: 0 <= j < |steps| ==> old(Views(steps))[j] == old(steps[j].View());
    assert ShapeOf(Views(steps)) == WithCloneDeps(ShapeOf(old(Views(steps))));
  }

  method NamesClone(steps: seq<EngineStep>) returns (found: bool)
    ensures found <==> HasClone(ShapeOf(Views(steps)))
  {
    ghost var vs := ShapeOf(Views(steps));
    for i := 0 to |steps|
      invariant forall j :: 0 <= j < i ==> vs[j].name != CLONE
    {
      if steps[i].name == CLONE {
        assert vs[i].name == CLONE;
        return true;
      }
    }
    found := false;
  }

  method RemoveCloneDeps(steps: seq<EngineStep>)
    requires AllDifferent(steps)
    modifies steps
    ensures Rewired(old(Views(steps)), Views(steps), WithoutCloneDeps(ShapeOf(old(Views(steps)))))
  {
    var found := NamesClone(steps);
    if found {
      return;
    }
    for i := 0 to |steps|
      invariant forall j :: 0 <= j < i && old(steps[j].dependsOn) == [CLONE] ==> steps[j].dependsOn == []
      invariant forall j :: 0 <= j < |steps| && (i <= j || old(steps[j].dependsOn) != [CLONE]) ==>
                  steps[j].dependsOn == old(steps[j].dependsOn)
    {
      if |steps[i].dependsOn| == 1 && steps[i].dependsOn[0] == CLONE {
        steps[i].dependsOn := [];
      }
    }
    assert forall j :: 0 <= j < |steps| ==> old(Views(steps))[j] == old(steps[j].View());
    assert ShapeOf(Views(steps)) == WithoutCloneDeps(ShapeOf(old(Views(steps))));
  }

  // ---------------------------------------------------------------------------------------------
  // Carrying the references over
  // ---------------------------------------------------------------------------------------------

  /** All references among the entries are well-formed. */
  predicate AllParse(entries: map<string, Option<string>>) {
    forall k :: k in entries && HasReference(entries[k]) ==> Parse(entries[k].value).Ok?
  }

  /** Every reference is carried over under its own name. */
  ghost predicate EnvsOf(entries: map<string, Option<string>>, envs: map<string, OutputRef>) {
    && (forall k :: k in entries && HasReference(entries[k]) <==> k in envs)
    && forall k :: k in envs ==> Parse(entries[k].value) == Ok(envs[k])
  }

  function ToUpper(s: string): string {
    if s == "" then "" else [if 'a' <= s[0] <= 'z' then (s[0] as int - 32) as char else s[0]] + ToUpper(s[1..])
  }

  function PluginName(setting: string): string {
    "PLUGIN_" + ToUpper(setting)
  }

  /** The same letter, in either case, or the same other character. */
  predicate SameLetter(x: char, y: char) {
    x == y || ('a' <= x <= 'z' && y as int + 32 == x as int) || ('a' <= y <= 'z' && x as int + 32 == y as int)
  }

  lemma {:induction false} ToUpperExactly(a: string, b: string)
    ensures ToUpper(a) == ToUpper(b) <==> |a| == |b| && forall i :: 0 <= i < |a| ==> SameLetter(a[i], b[i])
    ensures |ToUpper(a)| == |a| && forall c :: c in ToUpper(a) ==> !('a' <= c <= 'z')
  {
    if a == "" {
    } else if b == "" {
      ToUpperExactly(a[1..], "");
    } else {
      ToUpperExactly(a[1..], b[1..]);
      assert forall i :: 1 <= i < |a| ==> a[i] == a[1..][i - 1];
      assert forall i :: 1 <= i < |b| ==> b[i] == b[1..][i - 1];
      assert ToUpper(a)[1..] == ToUpper(a[1..]) && ToUpper(b)[1..] == ToUpper(b[1..]);
    }
  }

  /** Plugin names start with `PLUGIN_` and have no lower-case letters; two settings share one exactly if they only
      differ in case. */
  lemma PluginNameExactly(a: string, b: string)
    ensures "PLUGIN_" <= PluginName(a) && |PluginName(a)| == |a| + 7
    ensures forall c :: c in PluginName(a) ==> !('a' <= c <= 'z')
    ensures PluginName(a) == PluginName(b) <==> |a| == |b| && forall i :: 0 <= i < |a| ==> SameLetter(a[i], b[i])
  {
    ToUpperExactly(a, b);
    hide ToUpper, SameLetter;
    assert PluginName(a)[7..] == ToUpper(a) && PluginName(b)[7..] == ToUpper(b);
  }

  /** Every reference is carried over under its plugin name; settings that share one compete for it. */
  ghost predicate SettingsOf(entries: map<string, Option<string>>, settings: map<string, OutputRef>) {
    && (forall k :: k in entries && HasReference(entries[k]) ==> PluginName(k) in settings)
    && forall x :: x in settings ==>
         exists k :: k in entries && HasReference(entries[k]) && PluginName(k) == x &&
           Parse(entries[k].value) == Ok(settings[x])
  }

  method ConvertOutputEnv(entries: map<string, Option<string>>) returns (r: Result<map<string, OutputRef>>)
    ensures r.Ok? <==> AllParse(entries)
    ensures r.Ok? ==> EnvsOf(entries, r.value)
  {
    var dst: map<string, OutputRef> := map[];
    var keys := entries.Keys;
    while keys != {}
      invariant keys <= entries.Keys
      invariant forall k :: k in entries && k !in keys && HasReference(entries[k]) <==> k in dst
      invariant forall k :: k in dst ==> Parse(entries[k].value) == Ok(dst[k])
      decreases keys
    {
      var key :| key in keys;
      keys := keys - {key};
      if !HasReference(entries[key]) {
        continue;
      }
      var ref := ParseRef(entries[key].value);
      if ref.Err? {
        return Err;
      }
      dst := dst[key := ref.value];
    }
    r := Ok(dst);
  }

  method ConvertOutputSettings(entries: map<string, Option<string>>) returns (r: Result<map<string, OutputRef>>)
    ensures r.Ok? <==> AllParse(entries)
    ensures r.Ok? ==> SettingsOf(entries, r.value)
  {
    var dst: map<string, OutputRef> := map[];
    var keys := entries.Keys;
    while keys != {}
      invariant keys <= entries.Keys
      invariant forall k :: k in entries && k !in keys && HasReference(entries[k]) ==>
                  PluginName(k) in dst && Parse(entries[k].value).Ok?
      invariant forall x :: x in dst ==>
                  exists k :: k in entries && HasReference(entries[k]) && PluginName(k) == x &&
                    Parse(entries[k].value) == Ok(dst[x])
      decreases keys
    {
      var key :| key in keys;
      keys := keys - {key};
      if !HasReference(entries[key]) {
        continue;
      }
      var ref := ParseRef(entries[key].value);
      if ref.Err? {
        return Err;
      }
      dst := dst[PluginName(key) := ref.value];
    }
    r := Ok(dst);
  }

  /** The value a source step is compiled to, before its dependencies are rewritten. */
  ghost predicate StepOf(src: Step, service: bool, dst: SpecStep) {
    && dst.name == src.name && dst.dependsOn == src.dependsOn
    && dst.detach == (service || src.detach) && dst.never == !src.matches
    && AllParse(src.environment) && AllParse(src.settings)
    && EnvsOf(src.environment, dst.outputEnvs) && SettingsOf(src.settings, dst.outputSettings)
  }

  method CreateStep(src: Step, service: bool) returns (r: Option<EngineStep>)
    ensures r.Some? <==> AllParse(src.environment) && AllParse(src.settings)
    ensures r.Some? ==> fresh(r.value) && StepOf(src, service, r.value.View())
  {
    var envs := ConvertOutputEnv(src.environment);
    if envs.Err? {
      return None;
    }
    var settings := ConvertOutputSettings(src.settings);
    if settings.Err? {
      return None;
    }
    var dst := new EngineStep(
      SpecStep(src.name, src.dependsOn, service || src.detach, !src.matches, envs.value, settings.value));
    r := Some(dst);
  }

  // ---------------------------------------------------------------------------------------------
  // The compiler
  // ---------------------------------------------------------------------------------------------

  function CloneStep(): SpecStep {
    SpecStep(CLONE, [], false, false, map[], map[])
  }

  /** The compiled steps that stand for the first steps of the pipeline, in order. */
  ghost predicate Built(p: Pipeline, spec: seq<SpecStep>) {
    var steps, off := p.services + p.steps, Offset(p);
    && off <= |spec| <= off + |steps|
    && (off == 1 ==> spec[0] == CloneStep())
    && forall i :: off <= i < |spec| ==> StepOf(steps[i - off], i - off < |p.services|, spec[i])
  }

  /** What the compiler makes of the whole pipeline. */
  ghost predicate CompiledFrom(p: Pipeline, spec: seq<SpecStep>) {
    exists before :: Built(p, before) && |before| == |Declared(p)| && Rewired(before, spec, CompiledShape(p))
  }

  /** The parts of the compiled steps that are not dependencies. */
  lemma CompiledParts(p: Pipeline, spec: seq<SpecStep>)
    requires CompiledFrom(p, spec)
    ensures |spec| == Offset(p) + |p.services + p.steps|
    ensures !p.cloneDisabled ==>
              && spec[0].name == "clone" && !spec[0].detach && !spec[0].never
              && spec[0].outputEnvs == map[] && spec[0].outputSettings == map[]
    ensures forall i :: 0 <= i < |p.services + p.steps| ==>
              var src, dst := (p.services + p.steps)[i], spec[Offset(p) + i];
              && dst.name == src.name && dst.detach == (i < |p.services| || src.detach) && dst.never == !src.matches
              && EnvsOf(src.environment, dst.outputEnvs) && SettingsOf(src.settings, dst.outputSettings)
  {
    hide CompiledShape, EnvsOf, SettingsOf, AllParse, ShapeOf;
    var before: seq<SpecStep> :|
      Built(p, before) && |before| == |Declared(p)| && Rewired(before, spec, CompiledShape(p));
    DeclaredLength(p);
    hide Declared;
    forall i | 0 <= i < |p.services + p.steps|
      ensures StepOf((p.services + p.steps)[i], i < |p.services|, before[Offset(p) + i])
    {
      var k := Offset(p) + i;
      assert (p.services + p.steps)[k - Offset(p)] == (p.services + p.steps)[i];
    }
  }

  lemma BuiltShape(p: Pipeline, spec: seq<SpecStep>)
    requires Built(p, spec) && |spec| == |Declared(p)|
    ensures ShapeOf(spec) == Declared(p)
  {
    forall i | 0 <= i < |spec| ensures ShapeOf(spec)[i] == Declared(p)[i] {
      if i >= Offset(p) {
        DeclaredAt(p, i - Offset(p));
      }
    }
  }

  method IsGraphSpec(steps: seq<EngineStep>) returns (graph: bool)
    ensures graph <==> exists i :: 0 <= i < |steps| && steps[i].dependsOn != []
    ensures graph <==> IsGraph(ShapeOf(Views(steps)))
  {
    ghost var vs := ShapeOf(Views(steps));
    for i := 0 to |steps|
      invariant forall j :: 0 <= j < i ==> vs[j].dependsOn == []
    {
      if |steps[i].dependsOn| > 0 {
        assert vs[i].dependsOn != [] && steps[i].dependsOn != [];
        return true;
      }
    }
    assert forall j :: 0 <= j < |steps| ==> vs[j].dependsOn == steps[j].dependsOn;
    graph := false;
  }

  lemma DeclaredLength(p: Pipeline)
    ensures |Declared(p)| == Offset(p) + |p.services + p.steps|
  {
  }

  /** The first service or step that is missing among the first `length` compiled ones has a malformed reference. */
  ghost predicate StopsAtMalformed(p: Pipeline, length: nat) {
    && Offset(p) <= length < Offset(p) + |p.services + p.steps|
    && var src := (p.services + p.steps)[length - Offset(p)]; !(AllParse(src.environment) && AllParse(src.settings))
  }

  lemma BuiltOneMore(p: Pipeline, spec: seq<SpecStep>, dst: SpecStep)
    requires Built(p, spec) && |spec| < |Declared(p)|
    requires var i := |spec| - Offset(p); StepOf((p.services + p.steps)[i], i < |p.services|, dst)
    ensures Built(p, spec + [dst])
  {
    forall i | Offset(p) <= i < |spec| + 1
      ensures StepOf((p.services + p.steps)[i - Offset(p)], i - Offset(p) < |p.services|, (spec + [dst])[i])
    {
    }
  }

  lemma BuiltAllParse(p: Pipeline, spec: seq<SpecStep>)
    requires Built(p, spec) && |spec| == |Declared(p)|
    ensures forall s :: s in p.services + p.steps ==> AllParse(s.environment) && AllParse(s.settings)
  {
    forall s | s in p.services + p.steps ensures AllParse(s.environment) && AllParse(s.settings) {
      var i :| 0 <= i < |p.services + p.steps| && (p.services + p.steps)[i] == s;
      assert StepOf(s, i < |p.services|, spec[Offset(p) + i]);
    }
  }

  /** Appends the compiled form of the next step, unless it has a malformed reference. */
  method BuildOne(p: Pipeline, steps: seq<EngineStep>, i: nat) returns (ok: bool, more: seq<EngineStep>)
    requires i < |p.services + p.steps| && |steps| == Offset(p) + i
    requires AllDifferent(steps) && Built(p, Views(steps))
    ensures var src := (p.services + p.steps)[i]; ok <==> AllParse(src.environment) && AllParse(src.settings)
    ensures if ok then |more| == |steps| + 1 && steps == more[..|steps|] && fresh(more[|steps|]) else more == steps
    ensures AllDifferent(more) && Built(p, Views(more))
  {
    more := steps;
    var dst := CreateStep((p.services + p.steps)[i], i < |p.services|);
    ok := dst.Some?;
    if ok {
      assert dst.value !in steps;
      BuiltOneMore(p, Views(steps), dst.value.View());
      more := steps + [dst.value];
      assert Views(more) == Views(steps) + [dst.value.View()];
    }
  }

  /** The clone step, if there is one. */
  method BuildClone(p: Pipeline) returns (steps: seq<EngineStep>)
    ensures fresh(steps) && AllDifferent(steps) && |steps| == Offset(p) && Built(p, Views(steps))
  {
    steps := [];
    if !p.cloneDisabled {
      var clone := new EngineStep(CloneStep());
      steps := [clone];
    }
  }

  /** Creates the compiled steps one after the other: clone, services, steps. */
  method BuildSteps(p: Pipeline) returns (ok: bool, steps: seq<EngineStep>)
    ensures ok <==> forall s :: s in p.services + p.steps ==> AllParse(s.environment) && AllParse(s.settings)
    ensures fresh(steps) && AllDifferent(steps) && Built(p, Views(steps))
    ensures ok <==> |steps| == |Declared(p)|
    ensures !ok ==> StopsAtMalformed(p, |steps|)
  {
    hide Built, Views, AllParse, Declared;
    steps := BuildClone(p);
    for i := 0 to |p.services + p.steps|
      invariant fresh(steps) && AllDifferent(steps) && |steps| == Offset(p) + i
      invariant Built(p, Views(steps))
    {
      ok, steps := BuildOne(p, steps, i);
      if !ok {
        assert (p.services + p.steps)[i] in p.services + p.steps;
        DeclaredLength(p);
        return;
      }
    }
    DeclaredLength(p);
    BuiltAllParse(p, Views(steps));
    ok := true;
  }

  /** Rewrites the dependencies, as the mode and the clone setting ask for. */
  method ConfigureDeps(cloneDisabled: bool, steps: seq<EngineStep>)
    requires AllDifferent(steps)
    modifies steps
    ensures var vs := ShapeOf(old(Views(steps)));
            Rewired(old(Views(steps)), Views(steps),
              if !IsGraph(vs) then Serial(vs) else if !cloneDisabled then WithCloneDeps(vs) else WithoutCloneDeps(vs))
  {
    var graph := IsGraphSpec(steps);
    if !graph {
      ConfigureSerial(steps);
    } else if !cloneDisabled {
      ConfigureCloneDeps(steps);
    } else {
      RemoveCloneDeps(steps);
    }
  }

  /** The compiled services and steps have their names, and wait for what they should. */
  ghost predicate Wired(p: Pipeline, spec: seq<SpecStep>) {
    && |spec| == Offset(p) + |p.services + p.steps|
    && forall i :: 0 <= i < |p.services + p.steps| ==>
         spec[Offset(p) + i].name == (p.services + p.steps)[i].name && spec[Offset(p) + i].dependsOn == WaitsFor(p, i)
  }

  /** Compiles a pipeline. If a reference is malformed, the compiler returns the steps it has so far,
      without rewriting their dependencies; `ok` tells the two cases apart. */
  method Compile(p: Pipeline) returns (ok: bool, steps: seq<EngineStep>)
    ensures ok <==> forall s :: s in p.services + p.steps ==> AllParse(s.environment) && AllParse(s.settings)
    ensures ok ==> CompiledFrom(p, Views(steps)) && (Accepts(p) ==> Wired(p, Views(steps)))
    ensures !ok ==> Built(p, Views(steps)) && |steps| < |Declared(p)| && StopsAtMalformed(p, |steps|)
  {
    ok, steps := BuildSteps(p);
    if ok {
      BuiltShape(p, Views(steps));
      ghost var before := Views(steps);
      ConfigureDeps(p.cloneDisabled, steps);
      RewiredIsCompiled(p, before, Views(steps));
    }
    assert !ok ==> |steps| < |Declared(p)| by { hide *; StopsBefore(p, |steps|); }
  }

  lemma StopsBefore(p: Pipeline, length: nat)
    ensures StopsAtMalformed(p, length) ==> length < |Declared(p)|
  {
    DeclaredLength(p);
  }

  lemma RewiredIsCompiled(p: Pipeline, before: seq<SpecStep>, spec: seq<SpecStep>)
    requires Built(p, before) && |before| == |Declared(p)| && ShapeOf(before) == Declared(p)
    requires var vs := ShapeOf(before);
             Rewired(before, spec,
               if !IsGraph(vs) then Serial(vs)
               else if !p.cloneDisabled then WithCloneDeps(vs) else WithoutCloneDeps(vs))
    ensures CompiledFrom(p, spec) && (Accepts(p) ==> Wired(p, spec))
  {
    hide Built, Serial, IsGraph, WithCloneDeps, WithoutCloneDeps, Declared, Wired;
    assert Rewired(before, spec, CompiledShape(p));
    if Accepts(p) {
      hide *;
      RewiredShape(before, spec, CompiledShape(p));
      CompiledIsWired(p, spec);
    }
  }

  lemma RewiredShape(before: seq<SpecStep>, after: seq<SpecStep>, shape: seq<Vertex>)
    requires Rewired(before, after, shape)
    ensures ShapeOf(after) == shape
  {
  }

  lemma CompiledIsWired(p: Pipeline, spec: seq<SpecStep>)
    requires Accepts(p) && ShapeOf(spec) == CompiledShape(p)
    ensures Wired(p, spec)
  {
    hide Accepts, WaitsFor, CompiledShape, Declared, ShapeOf, Offset;
    CompiledExactly(p);
    DeclaredLength(p);
    assert |spec| == Offset(p) + |p.services + p.steps|;
    forall i | 0 <= i < |p.services + p.steps|
      ensures spec[Offset(p) + i].name == (p.services + p.steps)[i].name &&
                spec[Offset(p) + i].dependsOn == WaitsFor(p, i)
    {
      ShapeAt(spec, Offset(p) + i);
    }
  }

  lemma ShapeAt(spec: seq<SpecStep>, k: nat)
    requires k < |spec|
    ensures ShapeOf(spec)[k] == Vertex(spec[k].name, spec[k].dependsOn)
  {
  }
}
