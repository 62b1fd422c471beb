/** The linter's check of the steps (`engine/linter/linter.go`). */
module Linter {
  import opened Graph
  import opened Resource

  const CLONE := "clone"

  /** The steps in the order in which they are checked and compiled: the clone step if there is one,
      the services, the steps. */
  function Declared(p: Pipeline): (vs: seq<Vertex>)
    ensures |vs| == Offset(p) + |p.services| + |p.steps|
  {
    (if p.cloneDisabled then [] else [Vertex(CLONE, [])]) + Shape(p.services + p.steps)
  }

  /** The number of steps the compiler puts before the first service. */
  function Offset(p: Pipeline): nat {
    if p.cloneDisabled then 0 else 1
  }

  /** What the linter accepts: every step obeys the per-step rules, names are unique, and every
      dependency names an earlier step. */
  ghost predicate Accepts(p: Pipeline) {
    && TopologicallyOrdered(Declared(p))
    && forall s :: s in p.services + p.steps ==> s.plain
  }

  /** The dependencies are among the names, and are not the step itself. */
  predicate CheckDeps(step: Step, names: set<string>) {
    forall d :: d in step.dependsOn ==> d in names && d != step.name
  }

  /** The pipeline is accepted exactly if every step passes when it is checked against the ones before it. */
  lemma AcceptsExactly(p: Pipeline)
    ensures Accepts(p) <==> (forall k :: 0 <= k < |Declared(p)| ==> InOrderAt(Declared(p), k)) &&
                            (forall j :: 0 <= j < |p.services + p.steps| ==> (p.services + p.steps)[j].plain)
  {
    InOrderExactly(Declared(p));
    hide TopologicallyOrdered, Declared, InOrderAt;
    assert forall j :: 0 <= j < |p.services + p.steps| ==> (p.services + p.steps)[j] in p.services + p.steps;
  }

  function NamesBefore(vs: seq<Vertex>, k: nat): set<string>
    requires k <= |vs|
  {
    set j | 0 <= j < k :: vs[j].name
  }

  /** Checking a step against the names up to its own decides whether it is in order. */
  lemma OneMoreName(vs: seq<Vertex>, k: nat, step: Step)
    requires k < |vs| && vs[k] == Vertex(step.name, step.dependsOn)
    ensures InOrderAt(vs, k) <==> step.name !in NamesBefore(vs, k) && CheckDeps(step, NamesBefore(vs, k + 1))
    ensures NamesBefore(vs, k + 1) == NamesBefore(vs, k) + {step.name}
  {
    forall n ensures n in NamesBefore(vs, k) <==> NamedBefore(vs, k, n) {
    }
  }

  /** Before the first step there is no name, but that of the clone step if there is one. */
  lemma CloneOrNothing(p: Pipeline)
    ensures NamesBefore(Declared(p), Offset(p)) == if p.cloneDisabled then {} else {CLONE}
    ensures forall k :: 0 <= k < Offset(p) ==> InOrderAt(Declared(p), k)
  {
    assert !p.cloneDisabled ==> Declared(p)[0] == Vertex(CLONE, []);
  }

  method CheckSteps(p: Pipeline) returns (ok: bool)
    ensures ok <==> Accepts(p)
  {
    var steps := p.services + p.steps;
    var names: set<string> := {};
    if !p.cloneDisabled {
      names := names + {CLONE};
    }
    ghost var vs, off := Declared(p), Offset(p);
    AcceptsExactly(p);
    CloneOrNothing(p);
    hide Accepts, Declared, InOrderAt, NamesBefore, CheckDeps;
    for i := 0 to |steps|
      invariant off + i <= |vs| && names == NamesBefore(vs, off + i)
      invariant forall k :: 0 <= k < off + i ==> InOrderAt(vs, k)
      invariant forall j :: 0 <= j < i ==> steps[j].plain
    {
      var step := steps[i];
      DeclaredAt(p, i);
      OneMoreName(vs, off + i, step);
      if step.name in names || !step.plain {
        return false;
      }
      names := names + {step.name};
      if !CheckDeps(step, names) {
        return false;
      }
    }
    ok := true;
  }

  lemma DeclaredAt(p: Pipeline, i: nat)
    requires i < |p.services + p.steps|
    ensures Declared(p)[Offset(p) + i] == Vertex((p.services + p.steps)[i].name, (p.services + p.steps)[i].dependsOn)
  {
  }

  // ---------------------------------------------------------------------------------------------
  // What is accepted, in terms of the steps alone
  // ---------------------------------------------------------------------------------------------

  /** The name is that of an earlier service or step, or of the clone step. */
  ghost predicate Known(p: Pipeline, i: nat, name: string)
    requires i <= |p.services + p.steps|
  {
    (name == "clone" && !p.cloneDisabled) || exists j :: 0 <= j < i && (p.services + p.steps)[j].name == name
  }

  lemma NamedBeforeExactly(p: Pipeline, i: nat, name: string)
    requires i <= |p.services + p.steps|
    ensures NamedBefore(Declared(p), Offset(p) + i, name) <==> Known(p, i, name)
  {
    var vs, off, steps := Declared(p), Offset(p), p.services + p.steps;
    assert !p.cloneDisabled ==> vs[0] == Vertex(CLONE, []);
    forall j | 0 <= j < |steps| ensures vs[off + j].name == steps[j].name {
      DeclaredAt(p, j);
    }
    hide Declared;
    if NamedBefore(vs, off + i, name) {
      var j :| 0 <= j < off + i && vs[j].name == name;
      assert j >= off ==> steps[j - off].name == name;
    }
    if j :| 0 <= j < i && steps[j].name == name {
      assert vs[off + j].name == name;
    }
  }

  /** The service or step obeys the per-step rules, its name was not there before, and its dependencies were. */
  ghost predicate FitsAfter(p: Pipeline, i: nat)
    requires i < |p.services + p.steps|
  {
    var step := (p.services + p.steps)[i];
    step.plain && !Known(p, i, step.name) && forall d :: d in step.dependsOn ==> Known(p, i, d)
  }

  lemma FitsExactly(p: Pipeline, i: nat)
    requires i < |p.services + p.steps|
    ensures FitsAfter(p, i) <==> InOrderAt(Declared(p), Offset(p) + i) && (p.services + p.steps)[i].plain
  {
    DeclaredAt(p, i);
    hide Declared, Known, NamedBefore;
    forall n ensures NamedBefore(Declared(p), Offset(p) + i, n) <==> Known(p, i, n) {
      NamedBeforeExactly(p, i, n);
    }
  }

  /** Accepted are exactly the pipelines in which every service and step fits after those before it. */
  lemma AcceptsInOrder(p: Pipeline)
    ensures Accepts(p) <==> forall i :: 0 <= i < |p.services + p.steps| ==> FitsAfter(p, i)
  {
    var vs, off, steps := Declared(p), Offset(p), p.services + p.steps;
    AcceptsExactly(p);
    CloneOrNothing(p);
    hide Declared, Accepts, FitsAfter, InOrderAt, NamesBefore;
    if Accepts(p) {
      forall i | 0 <= i < |steps| ensures FitsAfter(p, i) {
        FitsExactly(p, i);
      }
    }
    if forall i :: 0 <= i < |steps| ==> FitsAfter(p, i) {
      forall k | 0 <= k < |vs| ensures InOrderAt(vs, k) {
        if k >= off {
          FitsExactly(p, k - off);
        }
      }
      forall i | 0 <= i < |steps| ensures steps[i].plain {
        FitsExactly(p, i);
      }
    }
  }
}
