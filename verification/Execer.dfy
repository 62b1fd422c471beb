/** The executor's own methods: it resolves a step's references before the step is launched, and collects the
    outputs of a step after it has succeeded (`internal/outputexec/execer.go`). */
module Execer {
  import opened Wrappers
  import opened Keys
  import opened Patches
  import opened Directory
  import opened References
  import opened Lookup
  import ServiceModel
  import OutputService

  /** The collected outputs, by step name. */
  type Outputs = map<string, Values>

  /** Where the executor looks references up: in what it has collected, or in the service. */
  datatype View = Collected(outputs: Outputs) | Served(state: ServiceModel.State, pipelineID: string, now: int)

  /** The value a reference denotes, if there is one. */
  ghost function ResolveRef(view: View, ref: OutputRef): Option<string> {
    match view
    case Collected(outputs) => if ref.step in outputs then Answer(Resolved(outputs[ref.step], ref.key)) else None
    case Served(s, pipelineID, now) => Answer(ServiceModel.ResolvedAt(s, pipelineID, ref.step, ref.key, now))
  }

  ghost predicate AllResolve(view: View, refs: map<string, OutputRef>) {
    forall k :: k in refs ==> ResolveRef(view, refs[k]).Some?
  }

  /** The values of all references, under the names of the references. */
  ghost function ValuesOf(view: View, refs: map<string, OutputRef>): Values
    requires AllResolve(view, refs)
  {
    map k | k in refs :: ResolveRef(view, refs[k]).value
  }

  lemma MergeOnce(a: Values, b: Values, c: Values)
    ensures a + ((map[] + b) + c) == a + b + c
  {
  }

  /** How the engine gets at the outputs of a step that the runner cannot see: not at all, or by copying them
      out of the container, which may fail. */
  datatype Collector = NoCollector | CopyFails | Copies(dir: Dir)

  /** The files that are collected. */
  function Collectable(dir: Dir, collector: Collector): Values
    reads dir, if collector.Copies? then {collector.dir} else {}
  {
    if !dir.present && collector.Copies? then collector.dir.files else dir.files
  }

  class Execer {
    const service: OutputService.Service?
    var outputs: Outputs

    constructor (service: OutputService.Service?)
      ensures this.service == service && outputs == map[]
    {
      this.service, outputs := service, map[];
    }

    ghost predicate Valid()
      reads this, service
    {
      service != null ==> service.Valid()
    }

    ghost function Objects(): set<object>
      reads this, service
    {
      if service == null then {} else set o | o in service.objects
    }

    /** What the executor resolves references in, for a pipeline and its transport. The methods below are given
        this view, and do not change it. */
    ghost function ViewOf(pipelineID: string, transport: string, now: int): View
      reads this, service, Objects()
    {
      if service != null && pipelineID != "" && transport != "file"
      then Served(service.State(), pipelineID, now)
      else Collected(outputs)
    }

    method ResolveOutputValue(pipelineID: string, transport: string, ref: OutputRef, now: int, ghost view: View)
      returns (r: Option<string>)
      requires Valid() && view == ViewOf(pipelineID, transport, now)
      ensures Valid() && view == ViewOf(pipelineID, transport, now)
      ensures r == ResolveRef(view, ref)
    {
      hide Resolved, ServiceModel.ResolvedAt, Answer;
      if service != null && pipelineID != "" && transport != "file" {
        var served := service.Resolve(pipelineID, ref.step, ref.key, now);
        return Answer(served);
      }
      if ref.step !in outputs {
        return None;
      }
      var value := ResolveValue(outputs[ref.step], ref.key);
      r := Answer(value);
    }

    method ResolveAll(pipelineID: string, transport: string, refs: map<string, OutputRef>, resolved0: Values, now: int,
            ghost view: View)
      returns (r: Option<Values>)
      requires Valid() && view == ViewOf(pipelineID, transport, now)
      ensures Valid() && view == ViewOf(pipelineID, transport, now)
      ensures r.Some? <==> AllResolve(view, refs)
      ensures r.Some? ==> r.value == resolved0 + ValuesOf(view, refs)
    {
      hide ResolveRef, ViewOf, Valid, Objects;
      var resolved := resolved0;
      var names := refs.Keys;
      while names != {}
        invariant names <= refs.Keys && Valid() && view == ViewOf(pipelineID, transport, now)
        invariant forall k :: k in refs.Keys - names ==> ResolveRef(view, refs[k]).Some?
        invariant resolved == resolved0 + map k | k in refs && k !in names :: ResolveRef(view, refs[k]).value
        decreases names
      {
        var name :| name in names;
        names := names - {name};
        var value := ResolveOutputValue(pipelineID, transport, refs[name], now, view);
        if value.None? {
          return None;
        }
        resolved := resolved[name := value.value];
      }
      r := Some(resolved);
    }

    /** Adds the referenced values to the step's environment; a setting wins over a variable of the
        same name. Fails, and then launches nothing, exactly if some reference has no value. */
    method InjectOutputs(pipelineID: string, transport: string, envs: Values, outputEnvs: map<string, OutputRef>,
                         outputSettings: map<string, OutputRef>, now: int, ghost view: View)
      returns (r: Option<Values>)
      requires Valid() && view == ViewOf(pipelineID, transport, now)
      ensures Valid() && view == ViewOf(pipelineID, transport, now)
      ensures r.Some? <==> AllResolve(view, outputEnvs) && AllResolve(view, outputSettings)
      ensures r.Some? ==> r.value == envs + ValuesOf(view, outputEnvs) + ValuesOf(view, outputSettings)
    {
      if |outputEnvs| == 0 && |outputSettings| == 0 {
        return Some(envs);
      }
      hide *;
      var resolved := ResolveAll(pipelineID, transport, outputEnvs, map[], now, view);
      if resolved.None? {
        return None;
      }
      resolved := ResolveAll(pipelineID, transport, outputSettings, resolved.value, now, view);
      if resolved.None? {
        return None;
      }
      r := Some(envs + resolved.value);
      MergeOnce(envs, ValuesOf(view, outputEnvs), ValuesOf(view, outputSettings));
    }

    /** Publishes the files a succeeded step has left behind, in the directory that the runner sees or else in
        a copy of the container's. Fails, and then publishes nothing, exactly if the files cannot be copied or
        a file name is no well-formed key. */
    method CollectOutputs(name: string, dir: Dir, collector: Collector) returns (ok: bool)
      requires dir.Valid() && (collector.Copies? ==> collector.dir.Valid())
      modifies this`outputs
      ensures ok <==> (dir.present || !collector.CopyFails?) && forall k :: k in Collectable(dir, collector) ==>
                ValidKey(k)
      ensures ok ==> name in outputs && outputs == old(outputs)[name := Collectable(dir, collector)]
      ensures ok && dir.present ==> outputs[name] == dir.files
      ensures ok && !dir.present && collector.Copies? ==> outputs[name] == collector.dir.files
      ensures ok && !dir.present && !collector.Copies? ==> outputs[name] == map[]
      ensures !ok ==> outputs == old(outputs)
    {
      hide ValidKey;
      var loaded;
      if dir.present {
        loaded := dir.Load();
      } else if collector.CopyFails? {
        return false;
      } else if collector.Copies? {
        loaded := collector.dir.Load();
      } else {
        loaded := dir.Load();
      }
      if loaded.Err? {
        return false;
      }
      outputs := outputs[name := loaded.value];
      ok := true;
    }
  }
}
