/** The dependency graph of the compiled pipeline, and what it keeps of the graph the user wrote
    (`engine/compiler/util.go`, `engine/compiler/compiler.go`). */
module CompiledGraph {
  import opened Wrappers
  import opened Graph
  import opened Resource
  import opened Linter

  /** Some step names a dependency. */
  predicate IsGraph(vs: seq<Vertex>) {
    exists i :: 0 <= i < |vs| && vs[i].dependsOn != []
  }

  /** Every step after the first depends on the one before it, whatever it depended on. */
  function Serial(vs: seq<Vertex>): (r: seq<Vertex>)
    ensures |r| == |vs|
  {
    seq(|vs|, i requires 0 <= i < |vs| => if i == 0 then vs[0] else Vertex(vs[i].name, [vs[i - 1].name]))
  }

  /** Every step that waits for nothing waits for the clone step. */
  function WithCloneDeps(vs: seq<Vertex>): (r: seq<Vertex>)
    ensures |r| == |vs|
  {
    seq(|vs|, i requires 0 <= i < |vs| =>
      if vs[i].name != CLONE && vs[i].dependsOn == [] then Vertex(vs[i].name, [CLONE]) else vs[i])
  }

  predicate HasClone(vs: seq<Vertex>) {
    exists i :: 0 <= i < |vs| && vs[i].name == CLONE
  }

  /** If there is no clone step, a step that waits for nothing else waits for nothing. */
  function WithoutCloneDeps(vs: seq<Vertex>): (r: seq<Vertex>)
    ensures |r| == |vs|
  {
    if HasClone(vs) then vs
    else seq(|vs|, i requires 0 <= i < |vs| => if vs[i].dependsOn == [CLONE] then Vertex(vs[i].name, []) else vs[i])
  }

  /** The graph of the compiled pipeline. */
  function CompiledShape(p: Pipeline): (vs: seq<Vertex>)
    ensures |vs| == |Declared(p)|
  {
    var vs := Declared(p);
    if !IsGraph(vs) then Serial(vs) else if !p.cloneDisabled then WithCloneDeps(vs) else WithoutCloneDeps(vs)
  }

  // ---------------------------------------------------------------------------------------------
  // What it is in terms of the source
  // ---------------------------------------------------------------------------------------------

  /** Some service or step of the pipeline has a dependency. */
  ghost predicate NamesDependencies(p: Pipeline) {
    exists s :: s in p.services + p.steps && s.dependsOn != []
  }

  lemma GraphExactly(p: Pipeline)
    ensures IsGraph(Declared(p)) <==> NamesDependencies(p)
  {
    if IsGraph(Declared(p)) {
      var i :| 0 <= i < |Declared(p)| && Declared(p)[i].dependsOn != [];
      assert i >= Offset(p);
      DeclaredAt(p, i - Offset(p));
      assert (p.services + p.steps)[i - Offset(p)] in p.services + p.steps;
    }
    if NamesDependencies(p) {
      var s :| s in p.services + p.steps && s.dependsOn != [];
      var i :| 0 <= i < |p.services + p.steps| && (p.services + p.steps)[i] == s;
      DeclaredAt(p, i);
    }
  }

  /** What the `i`-th service or step waits for. If no step names a dependency, it is the step before it; otherwise
      it is what the step names, or the clone step if it names nothing. */
  ghost function WaitsFor(p: Pipeline, i: nat): seq<string>
    requires i < |p.services + p.steps|
  {
    var steps := p.services + p.steps;
    var clone := if p.cloneDisabled then [] else ["clone"];
    if NamesDependencies(p) then if steps[i].dependsOn == [] then clone else steps[i].dependsOn
    else if i == 0 then clone else [steps[i - 1].name]
  }

  /** The compiled graph of an accepted pipeline: the clone step if there is one, the services, the steps, in this
      order, and what each waits for. */
  lemma CompiledExactly(p: Pipeline)
    requires Accepts(p)
    ensures !p.cloneDisabled ==> CompiledShape(p)[0] == Vertex("clone", [])
    ensures forall i :: 0 <= i < |p.services + p.steps| ==>
              CompiledShape(p)[Offset(p) + i] == Vertex((p.services + p.steps)[i].name, WaitsFor(p, i))
  {
    GraphExactly(p);
    assert !p.cloneDisabled ==> Declared(p)[0] == Vertex(CLONE, []);
    hide NamesDependencies;
    forall i | 0 <= i < |p.services + p.steps|
      ensures CompiledShape(p)[Offset(p) + i] == Vertex((p.services + p.steps)[i].name, WaitsFor(p, i))
    {
      CompiledExactlyAt(p, i);
    }
  }

  lemma CompiledExactlyAt(p: Pipeline, i: nat)
    requires Accepts(p) && i < |p.services + p.steps| && (IsGraph(Declared(p)) <==> NamesDependencies(p))
    ensures CompiledShape(p)[Offset(p) + i] == Vertex((p.services + p.steps)[i].name, WaitsFor(p, i))
  {
    hide NamesDependencies, IsGraph, Declared, TopologicallyOrdered, Distinct, Serial, WithCloneDeps, WithoutCloneDeps;
    var vs, k := Declared(p), Offset(p) + i;
    DeclaredAt(p, i);
    CloneIsDeclared(p, i);
    if !NamesDependencies(p) {
      NoDependency(p, i);
      SerialAt(vs, k);
      if i > 0 {
        DeclaredAt(p, i - 1);
      }
    } else if p.cloneDisabled {
      CloneDepsRemoved(vs, k);
    } else {
      CloneDepsAdded(vs, k);
    }
  }

  lemma CloneIsDeclared(p: Pipeline, i: nat)
    requires TopologicallyOrdered(Declared(p)) && i < |p.services + p.steps| && Offset(p) + i < |Declared(p)|
    ensures !p.cloneDisabled ==> Declared(p)[0] == Vertex(CLONE, []) && Declared(p)[Offset(p) + i].name != CLONE
  {
    assert !p.cloneDisabled ==> Declared(p)[0] == Vertex(CLONE, []);
    hide Declared;
  }

  lemma NoDependency(p: Pipeline, i: nat)
    requires !NamesDependencies(p) && i < |p.services + p.steps|
    ensures (p.services + p.steps)[i].dependsOn == []
  {
  }

  lemma SerialAt(vs: seq<Vertex>, k: nat)
    requires k < |vs|
    ensures Serial(vs)[k] == if k == 0 then vs[0] else Vertex(vs[k].name, [vs[k - 1].name])
  {
  }

  lemma CloneDepsAdded(vs: seq<Vertex>, k: nat)
    requires k < |vs|
    ensures WithCloneDeps(vs)[k] ==
              if vs[k].name != CLONE && vs[k].dependsOn == [] then Vertex(vs[k].name, [CLONE]) else vs[k]
  {
  }

  /** In an ordered list a dependency on the clone step is only there if that step is. */
  lemma CloneDepsRemoved(vs: seq<Vertex>, k: nat)
    requires TopologicallyOrdered(vs) && k < |vs|
    ensures WithoutCloneDeps(vs)[k] == vs[k]
  {
    if vs[k].dependsOn == [CLONE] {
      assert CLONE in vs[k].dependsOn;
      assert NamedBefore(vs, k, CLONE);
      assert HasClone(vs);
    }
  }

  // ---------------------------------------------------------------------------------------------
  // The compiled graph is in order
  // ---------------------------------------------------------------------------------------------

  /** The list keeps the names, and each vertex keeps its dependencies or gets one that names an
      earlier vertex, or none. */
  ghost predicate Reordered(vs: seq<Vertex>, ws: seq<Vertex>) {
    && |ws| == |vs|
    && forall i :: 0 <= i < |ws| ==>
         && ws[i].name == vs[i].name
         && (ws[i].dependsOn == vs[i].dependsOn || ws[i].dependsOn == [] ||
           (|ws[i].dependsOn| == 1 && NamedBefore(vs, i, ws[i].dependsOn[0])))
  }

  lemma ReorderedKeepsOrder(vs: seq<Vertex>, ws: seq<Vertex>)
    requires TopologicallyOrdered(vs) && Reordered(vs, ws)
    ensures TopologicallyOrdered(ws)
  {
    forall i, d | 0 <= i < |ws| && d in ws[i].dependsOn ensures NamedBefore(ws, i, d) {
      assert d in vs[i].dependsOn || NamedBefore(vs, i, d);
      var j :| 0 <= j < i && vs[j].name == d;
      assert ws[j].name == d;
    }
  }

  lemma SerialReorders(vs: seq<Vertex>)
    ensures Reordered(vs, Serial(vs))
  {
    forall i | 0 < i < |vs| ensures NamedBefore(vs, i, Serial(vs)[i].dependsOn[0]) {
      assert vs[i - 1].name == Serial(vs)[i].dependsOn[0];
    }
  }

  lemma CloneDepsReorder(vs: seq<Vertex>)
    requires |vs| > 0 && vs[0].name == CLONE
    ensures Reordered(vs, WithCloneDeps(vs))
  {
    forall i | 0 < i < |vs| ensures NamedBefore(vs, i, CLONE) {
    }
  }

  lemma NoCloneDepsReorder(vs: seq<Vertex>)
    ensures Reordered(vs, WithoutCloneDeps(vs))
  {
  }

  /** For a pipeline that the linter accepts, the compiled steps have unique names and each
      dependency names an earlier step, in both modes. */
  lemma CompiledInOrder(p: Pipeline)
    requires Accepts(p)
    ensures TopologicallyOrdered(CompiledShape(p))
  {
    var vs := Declared(p);
    assert !p.cloneDisabled ==> |vs| > 0 && vs[0].name == CLONE;
    hide Declared, TopologicallyOrdered, Reordered;
    if !IsGraph(vs) {
      SerialReorders(vs);
    } else if !p.cloneDisabled {
      CloneDepsReorder(vs);
    } else {
      NoCloneDepsReorder(vs);
    }
    ReorderedKeepsOrder(vs, CompiledShape(p));
  }

  /** Hence the graph handed to the runner has no cycle and no edge to a missing step. */
  lemma CompiledHasNoCycle(p: Pipeline, a: string, b: string)
    requires Accepts(p) && a in Names(CompiledShape(p))
    requires Reaches(EdgesOf(CompiledShape(p)), a, b)
    ensures b in Names(CompiledShape(p)) && (Reaches(EdgesOf(CompiledShape(p)), b, a) ==> a == b)
  {
    CompiledInOrder(p);
    ReachesGoesBack(CompiledShape(p), a, b);
    if Reaches(EdgesOf(CompiledShape(p)), b, a) {
      NoCycle(CompiledShape(p), a, b);
    }
  }

  // ---------------------------------------------------------------------------------------------
  // Nothing runs before the clone step
  // ---------------------------------------------------------------------------------------------

  lemma {:induction false} AllReachFirst(vs: seq<Vertex>, i: nat)
    requires TopologicallyOrdered(vs) && i < |vs|
    requires forall k :: 0 < k < |vs| ==> vs[k].dependsOn != []
    ensures Reaches(EdgesOf(vs), vs[i].name, vs[0].name)
  {
    if i == 0 {
      ReachesItself(EdgesOf(vs), vs[0].name);
    } else {
      var d := vs[i].dependsOn[0];
      assert d in vs[i].dependsOn && vs[i] in vs;
      assert NamedBefore(vs, i, d);
      var j :| 0 <= j < i && vs[j].name == d;
      AllReachFirst(vs, j);
      EdgeThenReaches(EdgesOf(vs), vs[i].name, d, vs[0].name);
    }
  }

  /** With cloning enabled, every compiled step depends on the clone step, directly or not. */
  lemma ClonePrecedesAll(p: Pipeline, i: nat)
    requires Accepts(p) && !p.cloneDisabled && i < |CompiledShape(p)|
    ensures Reaches(EdgesOf(CompiledShape(p)), CompiledShape(p)[i].name, CLONE)
  {
    var vs := CompiledShape(p);
    CompiledInOrder(p);
    forall k | 0 < k < |vs| ensures vs[k].dependsOn != [] {
      assert Declared(p)[0].name != Declared(p)[k].name;
    }
    AllReachFirst(vs, i);
  }

  // ---------------------------------------------------------------------------------------------
  // Serial mode
  // ---------------------------------------------------------------------------------------------

  lemma {:induction false} SerialReachesBack(vs: seq<Vertex>, i: nat, j: nat)
    requires j <= i < |vs|
    ensures Reaches(EdgesOf(Serial(vs)), vs[i].name, vs[j].name)
  {
    if i == j {
      ReachesItself(EdgesOf(Serial(vs)), vs[i].name);
    } else {
      SerialReachesBack(vs, i - 1, j);
      assert (vs[i].name, vs[i - 1].name) in EdgesOf(Serial(vs)) by {
        assert Serial(vs)[i] in Serial(vs) && vs[i - 1].name in Serial(vs)[i].dependsOn;
      }
      hide *;
      EdgeThenReaches(EdgesOf(Serial(vs)), vs[i].name, vs[i - 1].name, vs[j].name);
    }
  }

  /** Without any `depends_on` a compiled step depends on exactly the steps before it. */
  lemma SerialReachesExactly(p: Pipeline, i: nat, j: nat)
    requires Accepts(p) && (forall s :: s in p.services + p.steps ==> s.dependsOn == [])
    requires i < |Declared(p)| && j < |Declared(p)|
    ensures Reaches(EdgesOf(CompiledShape(p)), Declared(p)[i].name, Declared(p)[j].name) <==> j <= i
  {
    var vs, ws := Declared(p), CompiledShape(p);
    CompiledInOrder(p);
    GraphExactly(p);
    assert ws[i].name == vs[i].name && ws[j].name == vs[j].name && ws == Serial(vs);
    hide Accepts, Declared, IsGraph, Serial, CompiledShape, Reaches, EdgesOf;
    if Reaches(EdgesOf(ws), vs[i].name, vs[j].name) {
      assert ws[i] in ws && ws[j] in ws;
      ReachesGoesBack(ws, vs[i].name, vs[j].name);
      assert Place(ws, vs[i].name) == i && Place(ws, vs[j].name) == j;
    }
    if j <= i {
      SerialReachesBack(vs, i, j);
    }
  }

  // ---------------------------------------------------------------------------------------------
  // Graph mode: compiling keeps who depends on whom
  // ---------------------------------------------------------------------------------------------

  /** The place of the first of the user's steps in the compiled list. */
  function FirstStep(p: Pipeline): nat {
    Offset(p) + |p.services|
  }

  /** In graph mode the vertex of a step keeps its dependencies if it has any. */
  lemma StepVertex(p: Pipeline, i: nat)
    requires Accepts(p) && NamesDependencies(p) && i < |p.steps|
    ensures var v := CompiledShape(p)[FirstStep(p) + i];
            && v.name == p.steps[i].name
            && (v.dependsOn == p.steps[i].dependsOn ||
              (p.steps[i].dependsOn == [] && !p.cloneDisabled && v.dependsOn == [CLONE]))
  {
    hide Accepts, CompiledShape, NamesDependencies, Offset;
    CompiledExactly(p);
    assert (p.services + p.steps)[|p.services| + i] == p.steps[i];
  }

  lemma StepIsNotClone(p: Pipeline, name: string)
    requires Accepts(p) && name in StepNames(p.steps) && !p.cloneDisabled
    ensures name != CLONE
  {
    var s :| s in p.steps && s.name == name;
    var i :| 0 <= i < |p.steps| && p.steps[i] == s;
    DeclaredAt(p, |p.services| + i);
    assert Declared(p)[0].name != Declared(p)[FirstStep(p) + i].name;
  }

  lemma StepsDistinct(p: Pipeline)
    requires Accepts(p)
    ensures Distinct(Shape(p.steps))
  {
    forall i, j | 0 <= i < j < |p.steps| ensures p.steps[i].name != p.steps[j].name {
      DeclaredAt(p, |p.services| + i);
      DeclaredAt(p, |p.services| + j);
      assert Declared(p)[FirstStep(p) + i].name != Declared(p)[FirstStep(p) + j].name;
    }
  }

  lemma NamesStay(p: Pipeline, k: nat)
    requires k < |CompiledShape(p)|
    ensures |CompiledShape(p)| == |Declared(p)| && CompiledShape(p)[k].name == Declared(p)[k].name
  {
    hide Declared, IsGraph, HasClone;
  }

  lemma StepNameAt(p: Pipeline, k: nat)
    requires FirstStep(p) <= k < |CompiledShape(p)|
    ensures k - FirstStep(p) < |p.steps| && CompiledShape(p)[k].name == p.steps[k - FirstStep(p)].name
  {
    NamesStay(p, k);
    hide CompiledShape;
    DeclaredAt(p, k - Offset(p));
  }

  lemma CompiledLength(p: Pipeline)
    ensures |CompiledShape(p)| == FirstStep(p) + |p.steps|
  {
    hide CompiledShape;
  }

  /** A name is a step's exactly if it stands in the part of the list where the steps are. */
  lemma StepPlace(p: Pipeline, name: string)
    requires Accepts(p) && name in Names(CompiledShape(p))
    ensures name in StepNames(p.steps) <==> FirstStep(p) <= Place(CompiledShape(p), name)
    ensures Distinct(CompiledShape(p))
  {
    CompiledInOrder(p);
    OrderedIsDistinct(CompiledShape(p));
    CompiledLength(p);
    hide Accepts, CompiledShape, TopologicallyOrdered, FirstStep, Names;
    var k := Place(CompiledShape(p), name);
    if FirstStep(p) <= k {
      StepNameAt(p, k);
      assert p.steps[k - FirstStep(p)] in p.steps;
    } else if name in StepNames(p.steps) {
      var s :| s in p.steps && s.name == name;
      var i :| 0 <= i < |p.steps| && p.steps[i] == s;
      StepNameAt(p, FirstStep(p) + i);
    }
  }

  lemma SourceEdgesKept(p: Pipeline)
    requires Accepts(p) && NamesDependencies(p)
    ensures FirstEdges(p.steps) <= EdgesOf(CompiledShape(p))
  {
    forall a, b | (a, b) in FirstEdges(p.steps) ensures (a, b) in EdgesOf(CompiledShape(p)) {
      var s, d :| s in p.steps && GetStep(p.steps, s.name) == Some(s) && d in s.dependsOn && (s.name, d) == (a, b);
      var i :| 0 <= i < |p.steps| && p.steps[i] == s;
      StepVertex(p, i);
      var v := CompiledShape(p)[FirstStep(p) + i];
      assert v in CompiledShape(p) && d in v.dependsOn;
    }
  }

  lemma EdgeFromStep(p: Pipeline, i: nat, b: string)
    requires Accepts(p) && NamesDependencies(p) && i < |p.steps| && b in StepNames(p.steps)
    requires b in CompiledShape(p)[FirstStep(p) + i].dependsOn
    ensures (p.steps[i].name, b) in FirstEdges(p.steps)
  {
    StepVertex(p, i);
    if !p.cloneDisabled {
      StepIsNotClone(p, b);
    }
    StepsDistinct(p);
    GetStepOfDistinct(p.steps, i);
    assert p.steps[i] in p.steps && b in p.steps[i].dependsOn;
  }

  /** A compiled edge between two steps was there before. */
  lemma EdgeBetweenSteps(p: Pipeline, a: string, b: string)
    requires Accepts(p) && NamesDependencies(p)
    requires (a, b) in EdgesOf(CompiledShape(p)) && a in StepNames(p.steps) && b in StepNames(p.steps)
    ensures (a, b) in FirstEdges(p.steps)
  {
    hide *;
    CompiledInOrder(p);
    OrderedIsDistinct(CompiledShape(p));
    EdgeAtPlace(CompiledShape(p), a, b);
    StepPlace(p, a);
    StepNameAt(p, Place(CompiledShape(p), a));
    EdgeFromStep(p, Place(CompiledShape(p), a) - FirstStep(p), b);
  }

  lemma {:induction false} CompiledReachesLess(p: Pipeline, a: string, b: string)
    requires Accepts(p) && NamesDependencies(p) && a in StepNames(p.steps) && b in StepNames(p.steps)
    requires a in Names(CompiledShape(p)) && Reaches(EdgesOf(CompiledShape(p)), a, b)
    ensures Reaches(FirstEdges(p.steps), a, b)
    decreases Place(CompiledShape(p), a)
  {
    var ws := CompiledShape(p);
    if a == b {
      ReachesItself(FirstEdges(p.steps), a);
    } else {
      CompiledInOrder(p);
      var c := ReachesCases(EdgesOf(ws), a, b);
      EdgeGoesBack(ws, a, c);
      ReachesGoesBack(ws, c, b);
      StepPlace(p, b);
      StepPlace(p, c);
      CompiledReachesLess(p, c, b);
      EdgeBetweenSteps(p, a, c);
      EdgeThenReaches(FirstEdges(p.steps), a, c, b);
    }
  }

  /** In graph mode one step of the user's depends on another in the compiled pipeline exactly when it
      did in the source, although services are vertices now and clone edges came or went. */
  lemma CompilingKeepsReachability(p: Pipeline, a: string, b: string)
    requires Accepts(p) && (exists s :: s in p.services + p.steps && s.dependsOn != [])
    requires a in StepNames(p.steps) && b in StepNames(p.steps)
    ensures Reaches(EdgesOf(CompiledShape(p)), a, b) <==> Reaches(FirstEdges(p.steps), a, b)
  {
    if Reaches(EdgesOf(CompiledShape(p)), a, b) {
      var s :| s in p.steps && s.name == a;
      var i :| 0 <= i < |p.steps| && p.steps[i] == s;
      StepVertex(p, i);
      assert CompiledShape(p)[FirstStep(p) + i] in CompiledShape(p);
      CompiledReachesLess(p, a, b);
    }
    if Reaches(FirstEdges(p.steps), a, b) {
      SourceEdgesKept(p);
      MoreEdgesReachMore(FirstEdges(p.steps), EdgesOf(CompiledShape(p)), a, b);
    }
  }

  /** In either mode the compiled pipeline keeps at least every dependency of the source. */
  lemma SourceReachesStay(p: Pipeline, a: string, b: string)
    requires Accepts(p) && a in StepNames(p.steps) && b in StepNames(p.steps)
    requires Reaches(FirstEdges(p.steps), a, b)
    ensures Reaches(EdgesOf(CompiledShape(p)), a, b)
  {
    if NamesDependencies(p) {
      CompilingKeepsReachability(p, a, b);
    } else {
      assert forall s :: s in p.steps ==> s in p.services + p.steps;
      var c := ReachesCases(FirstEdges(p.steps), a, b);
      ReachesItself(EdgesOf(CompiledShape(p)), a);
    }
  }
}
