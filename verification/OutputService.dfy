/** The output service itself (`internal/outputservice/service.go`). Every method is one critical
    section, and does to the state what its counterpart in `ServiceModel` says. Readings of the clock are
    parameters. */
module OutputService {
  import opened Wrappers
  import opened OutputProto
  import opened PatchOps
  import opened Lookup
  import opened ServiceModel

  const DEFAULT_TTL: nat := 72 * 3600

  /** The values of one registration of a pipeline. */
  class PipelineOutputs {
    ghost const id: nat
    var byStep: ByStep

    constructor (ghost id: nat)
      ensures this.id == id && byStep == map[]
    {
      this.id, byStep := id, map[];
    }
  }

  datatype PipelineRef = PipelineRef(value: PipelineOutputs, expiresAt: int)

  /** `grants` inverts `stepTokens`; of steps that share a token one gets it. */
  ghost predicate GrantsOf(stepTokens: map<string, string>, grants: map<string, string>) {
    && (forall step :: step in stepTokens ==> stepTokens[step] in grants)
    && (forall token :: token in grants ==> grants[token] in stepTokens && stepTokens[grants[token]] == token)
  }

  ghost function Contents(objects: seq<PipelineOutputs>): (r: seq<ByStep>)
    reads objects
    ensures |r| == |objects| && forall i :: 0 <= i < |objects| ==> r[i] == objects[i].byStep
  {
    seq(|objects|, i requires 0 <= i < |objects| reads objects => objects[i].byStep)
  }

  lemma GrantOneMore(prior: map<string, TokenEntry>, pipelineID: string, grants: map<string, string>, expiresAt: int,
          token: string, step: string)
    ensures prior + Granted(pipelineID, grants[token := step], expiresAt) ==
            var entry := TokenEntry(StepIdentity(pipelineID, step), expiresAt);
            (prior + Granted(pipelineID, grants, expiresAt))[token := entry]
  {
  }

  class Service {
    const ttl: nat
    var pipelines: map<string, PipelineRef>
    var tokens: map<string, TokenEntry>
    ghost var objects: seq<PipelineOutputs>

    constructor (ttl: int)
      ensures Valid() && State() == EMPTY.state
      ensures this.ttl == if ttl <= 0 then DEFAULT_TTL else ttl
    {
      this.ttl := if ttl <= 0 then DEFAULT_TTL else ttl;
      pipelines, tokens, objects := map[], map[], [];
    }

    ghost predicate Known(pipeline: PipelineOutputs)
      reads this
    {
      pipeline.id < |objects| && objects[pipeline.id] == pipeline
    }

    ghost predicate Valid()
      reads this
    {
      && (forall i :: 0 <= i < |objects| ==> objects[i].id == i)
      && (forall p :: p in pipelines ==> Known(pipelines[p].value))
    }

    ghost function Entries(): map<string, PipelineEntry>
      reads this
    {
      map p | p in pipelines :: PipelineEntry(pipelines[p].value.id, pipelines[p].expiresAt)
    }

    ghost function State(): ServiceModel.State
      reads this, objects
    {
      ServiceModel.State(Entries(), tokens, Contents(objects))
    }

    method GrantTokens(pipelineID: string, stepTokens: map<string, string>, expiresAt: int)
      returns (ghost grants: map<string, string>)
      modifies this`tokens
      ensures GrantsOf(stepTokens, grants) && tokens == old(tokens) + Granted(pipelineID, grants, expiresAt)
    {
      ghost var prior := tokens;
      grants := map[];
      var steps := stepTokens.Keys;
      assert Granted(pipelineID, grants, expiresAt) == map[];
      hide Granted;
      while steps != {}
        invariant steps <= stepTokens.Keys
        invariant tokens == prior + Granted(pipelineID, grants, expiresAt)
        invariant forall step :: step in stepTokens && step !in steps ==> stepTokens[step] in grants
        invariant forall token :: token in grants ==> grants[token] in stepTokens && stepTokens[grants[token]] == token
        decreases steps
      {
        var step :| step in steps;
        steps := steps - {step};
        var token := stepTokens[step];
        tokens := tokens[token := TokenEntry(StepIdentity(pipelineID, step), expiresAt)];
        GrantOneMore(prior, pipelineID, grants, expiresAt, token, step);
        grants := grants[token := step];
      }
    }

    /** Gives the pipeline a new, empty output object. */
    method NewOutputs(pipelineID: string, expiresAt: int)
      requires Valid()
      modifies this`pipelines, this`objects
      ensures Valid()
      ensures var entry := PipelineEntry(|old(objects)|, expiresAt);
              State() == old(State()).(pipelines := old(State()).pipelines[pipelineID := entry],
                                       objects := old(State()).objects + [map[]])
      ensures |objects| == |old(objects)| + 1 && old(objects) == objects[..|old(objects)|]
      ensures fresh(objects[|old(objects)|])
    {
      ghost var before, entries := Contents(objects), Entries();
      var outputs := new PipelineOutputs(|objects|);
      pipelines := pipelines[pipelineID := PipelineRef(outputs, expiresAt)];
      objects := objects + [outputs];
      assert Contents(objects) == before + [map[]];
      assert Entries() == entries[pipelineID := PipelineEntry(|before|, expiresAt)];
    }

    method RegisterPipeline(pipelineID: string, stepTokens: map<string, string>, now: int)
      returns (ghost grants: map<string, string>)
      requires Valid()
      modifies this
      ensures Valid() && GrantsOf(stepTokens, grants)
      ensures State() == Registered(old(State()), ttl, pipelineID, grants, now)
      ensures |objects| == |old(objects)| + 1 && old(objects) == objects[..|old(objects)|]
      ensures fresh(objects[|old(objects)|])
    {
      hide GrantsOf, Granted;
      var expiresAt := now + ttl;
      NewOutputs(pipelineID, expiresAt);
      ghost var contents, entries := Contents(objects), Entries();
      grants := GrantTokens(pipelineID, stepTokens, expiresAt);
      assert Contents(objects) == contents && Entries() == entries;
    }

    method DeletePipeline(pipelineID: string)
      requires Valid()
      modifies this
      ensures Valid() && objects == old(objects)
      ensures State() == Deleted(old(State()), pipelineID)
    {
      ghost var before, entries := Contents(objects), Entries();
      pipelines := pipelines - {pipelineID};
      assert Entries() == entries - {pipelineID};
      var keys := tokens.Keys;
      while keys != {}
        invariant keys <= old(tokens).Keys
        invariant pipelines == old(pipelines) - {pipelineID} && objects == old(objects)
        invariant tokens == map t | t in old(tokens) && (t in keys || old(tokens)[t].value.pipelineID != pipelineID) ::
                    old(tokens)[t]
        decreases keys
      {
        var key :| key in keys;
        keys := keys - {key};
        if tokens[key].value.pipelineID == pipelineID {
          tokens := tokens - {key};
        }
      }
      assert Contents(objects) == before && tokens == WithoutTokensOf(old(tokens), pipelineID);
    }

    method DropPipeline(pipelineID: string)
      requires Valid()
      modifies this`pipelines
      ensures Valid() && State() == old(State()).(pipelines := old(State()).pipelines - {pipelineID})
    {
      ghost var before, entries := Contents(objects), Entries();
      pipelines := pipelines - {pipelineID};
      assert Entries() == entries - {pipelineID} && Contents(objects) == before;
    }

    /** Lets a token and its pipeline expire later. */
    method Renew(token: string, expiresAt: int)
      requires Valid() && token in tokens && tokens[token].value.pipelineID in pipelines
      modifies this`pipelines, this`tokens
      ensures Valid() && pipelines.Keys == old(pipelines).Keys
      ensures forall p :: p in pipelines ==> pipelines[p].value == old(pipelines)[p].value
      ensures var s := old(State());
              var p := s.tokens[token].value.pipelineID;
              State() == s.(tokens := s.tokens[token := s.tokens[token].(expiresAt := expiresAt)],
                            pipelines := s.pipelines[p := s.pipelines[p].(expiresAt := expiresAt)])
    {
      hide Contents;
      ghost var before, entries := Contents(objects), Entries();
      var p := tokens[token].value.pipelineID;
      tokens := tokens[token := tokens[token].(expiresAt := expiresAt)];
      pipelines := pipelines[p := pipelines[p].(expiresAt := expiresAt)];
      assert Entries() == entries[p := entries[p].(expiresAt := expiresAt)] && Contents(objects) == before;
    }

    /** The part of `Apply` under the service's lock. */
    method ApplyLookup(token: string, clock: Clock) returns (pipeline: Option<PipelineOutputs>, step: string)
      requires Valid()
      modifies this`pipelines, this`tokens
      ensures Valid()
      ensures pipeline.Some? <==> LookupSucceeds(old(State()), token, clock)
      ensures pipeline.Some? ==>
                Known(pipeline.value) && Handle(pipeline.value.id, step) == HandleOf(old(State()), token)
      ensures State() == LookedUp(old(State()), ttl, token, clock)
    {
      hide Contents;
      if token !in tokens || Expired(tokens[token].expiresAt, clock.token) {
        tokens := tokens - {token};
        return None, "";
      }
      var tokenEntry := tokens[token];
      var p := tokenEntry.value.pipelineID;
      if p !in pipelines || Expired(pipelines[p].expiresAt, clock.pipeline) {
        DropPipeline(p);
        return None, "";
      }
      Renew(token, clock.stamp + ttl);
      return Some(pipelines[p].value), tokenEntry.value.step;
    }

    /** The part of `Apply` under the pipeline's lock. The pipeline may have been deleted or replaced since
        the lookup. */
    method ApplyCommit(pipeline: PipelineOutputs, step: string, ops: seq<OutputOp>) returns (ok: bool)
      requires Valid() && Known(pipeline)
      modifies pipeline
      ensures Valid() && ok == AllValid(ops)
      ensures State() == Committed(old(State()), Handle(pipeline.id, step), ops)
    {
      hide AllValid, ApplyOps;
      ghost var before := Contents(objects);
      var values := if step in pipeline.byStep then pipeline.byStep[step] else map[];
      ok, values := ApplyAll(values, ops);
      pipeline.byStep := pipeline.byStep[step := values];
      assert Contents(objects) == before[pipeline.id := pipeline.byStep];
    }

    /** A call of `Apply` that nothing comes in between of. */
    method Apply(token: string, clock: Clock, ops: seq<OutputOp>) returns (ok: bool)
      requires Valid()
      modifies this, objects
      ensures Valid() && objects == old(objects)
      ensures ok <==> LookupSucceeds(old(State()), token, clock) && AllValid(ops)
      ensures State() ==
              var s := LookedUp(old(State()), ttl, token, clock);
              if LookupSucceeds(old(State()), token, clock) then Committed(s, HandleOf(old(State()), token), ops) else s
    {
      hide AllValid, ApplyOps, LookedUp, Committed, LookupSucceeds;
      var pipeline, step := ApplyLookup(token, clock);
      if pipeline.None? {
        return false;
      }
      ok := ApplyCommit(pipeline.value, step, ops);
    }

    method Resolve(pipelineID: string, producer: string, key: string, now: int) returns (r: Result<Option<string>>)
      requires Valid()
      ensures r == ResolvedAt(State(), pipelineID, producer, key, now)
    {
      hide Resolved;
      if pipelineID !in pipelines || Expired(pipelines[pipelineID].expiresAt, now) {
        return Ok(None);
      }
      var pipeline := pipelines[pipelineID].value;
      var values := if producer in pipeline.byStep then pipeline.byStep[producer] else map[];
      if |values| == 0 {
        return Ok(None);
      }
      r := ResolveValue(values, key);
    }

    method PrunePipelines(now: int)
      requires Valid()
      modifies this`pipelines
      ensures Valid() && Entries() == Pruned(old(State()), now).pipelines
    {
      var ids := pipelines.Keys;
      while ids != {}
        invariant ids <= old(pipelines).Keys
        invariant pipelines == map p | p in old(pipelines) &&
                    (p in ids || !Expired(old(pipelines)[p].expiresAt, now)) :: old(pipelines)[p]
        decreases ids
      {
        var id :| id in ids;
        ids := ids - {id};
        if Expired(pipelines[id].expiresAt, now) {
          pipelines := pipelines - {id};
        }
      }
    }

    method PruneTokens(now: int)
      modifies this`tokens
      ensures tokens == map t | t in old(tokens) && !Expired(old(tokens)[t].expiresAt, now) :: old(tokens)[t]
    {
      var keys := tokens.Keys;
      while keys != {}
        invariant keys <= old(tokens).Keys
        invariant tokens == map t | t in old(tokens) && (t in keys || !Expired(old(tokens)[t].expiresAt, now)) ::
                    old(tokens)[t]
        decreases keys
      {
        var key :| key in keys;
        keys := keys - {key};
        if Expired(tokens[key].expiresAt, now) {
          tokens := tokens - {key};
        }
      }
    }

    /** The collector's two loops, under one lock. */
    method Prune(now: int)
      requires Valid()
      modifies this
      ensures Valid() && objects == old(objects)
      ensures State() == Pruned(old(State()), now)
    {
      ghost var before := Contents(objects);
      PrunePipelines(now);
      PruneTokens(now);
      assert Contents(objects) == before;
    }
  }
}
