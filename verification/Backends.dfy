/** The two transports side by side: files in a directory, and operations sent to the service. */
module Backends {
  import opened Wrappers
  import opened Text
  import opened Keys
  import opened Patches
  import opened Directory
  import opened OutputProto
  import opened PatchOps
  import opened Lookup
  import opened References
  import opened ServiceModel
  import opened OutputService
  import opened Execer

  // ---------------------------------------------------------------------------------------------
  // One patch
  // ---------------------------------------------------------------------------------------------

  predicate KeysValid(patch: Patch) {
    forall k :: k in patch ==> ValidKey(k)
  }

  lemma ValidIsNotBlank(patch: Patch)
    requires KeysValid(patch)
    ensures NoBlankKey(patch)
  {
    hide ValidKey;
    forall k | k in patch ensures TrimSpace(k) != "" {
      ValidateKeyExactly(k, false);
    }
  }

  /** From the same values, writing a patch to the directory and sending it as operations in any order
      give the same values exactly when no unset key is an ancestor of a set one, and no stored key has
      the name of a staging file. */
  lemma BackendsAgreeExactly(values: Values, patch: Patch)
    requires KeysValid(patch)
    ensures (forall ops :: OpsOf(patch, ops) ==> ApplyOps(values, ops) == Patched(values, patch))
            <==> NoUnsetAboveSet(patch) && NoClobber(values, patch)
  {
    ValidIsNotBlank(patch);
    PatchedExactly(values, patch);
    OrderIndependentExactly(values, patch);
    if !NoUnsetAboveSet(patch) {
      var u, s :| u in patch && s in patch && UnsetIn(patch, u) && SetIn(patch, s) && Above(u, s);
      hide KeysValid, NoClobber, Above, OpsOf, ApplyOps, NoBlankKey;
      var ops := ConflictingOrder(values, patch, u, s);
      assert s in Patched(values, patch);
    } else {
      hide KeysValid, NoClobber, NoUnsetAboveSet, OpsOf, ApplyOps, NoBlankKey, Merged, Patched;
      var ops := OpsExist(patch);
    }
  }

  /** A malformed key cannot unset anything: the directory refuses it, the service accepts it, and the
      values stay the same either way. */
  lemma MalformedUnsetIsIdle(values: Values, key: string)
    requires !ValidKey(key) && forall k :: k in values ==> ValidKey(k)
    ensures Without(values, key) == values
  {
    hide ValidKey, Above;
    forall k | k in values ensures !Covers(key, k) {
      if Above(key, k) {
        AboveValid(key, k);
      }
    }
  }

  // ---------------------------------------------------------------------------------------------
  // Any number of patches
  // ---------------------------------------------------------------------------------------------

  /** Well-formed keys that do not look like staging files, and none unset above a set one. */
  ghost predicate Orderly(patch: Patch) {
    KeysValid(patch) && (forall k :: k in patch ==> !EndsInTmp(k)) && NoUnsetAboveSet(patch)
  }

  ghost predicate StoredWell(values: Values) {
    forall k :: k in values ==> ValidKey(k) && !EndsInTmp(k)
  }

  lemma OrderlyStep(values: Values, patch: Patch, ops: seq<OutputOp>)
    requires StoredWell(values) && Orderly(patch) && OpsOf(patch, ops)
    ensures Patched(values, patch) == ApplyOps(values, ops) && StoredWell(ApplyOps(values, ops)) && AllValid(ops)
  {
    hide ValidKey, EndsInTmp, OpsOf, Removed;
    ValidIsNotBlank(patch);
    OpsAreValid(patch, ops);
    NoTmpNoClobber(values, patch);
    PatchedExactly(values, patch);
    AnyOrderMerges(values, patch, ops);
    assert forall k :: k in Sets(patch) ==> k in patch;
  }

  function AfterRequests(values: Values, requests: seq<seq<OutputOp>>): Values
    decreases |requests|
  {
    if requests == [] then values else AfterRequests(ApplyOps(values, requests[0]), requests[1..])
  }

  /** Over any number of orderly patches, and for any order of the operations of each, the two transports
      hold the same values. */
  lemma {:induction false} BackendsAgree(values: Values, patches: seq<Patch>, requests: seq<seq<OutputOp>>)
    requires StoredWell(values) && |requests| == |patches|
    requires forall i :: 0 <= i < |patches| ==> Orderly(patches[i]) && OpsOf(patches[i], requests[i])
    ensures AfterPatches(values, patches) == AfterRequests(values, requests)
    ensures StoredWell(AfterPatches(values, patches))
    decreases |patches|
  {
    hide Orderly, StoredWell, OpsOf, Patched, ApplyOps;
    if patches == [] {
    } else {
      OrderlyStep(values, patches[0], requests[0]);
      BackendsAgree(ApplyOps(values, requests[0]), patches[1..], requests[1..]);
    }
  }

  lemma {:induction false} AfterLastPatch(values: Values, patches: seq<Patch>, last: Patch)
    ensures AfterPatches(values, patches + [last]) == Patched(AfterPatches(values, patches), last)
    decreases |patches|
  {
    hide Patched;
    if patches == [] {
      assert ([] + [last])[1..] == [];
    } else {
      assert (patches + [last])[0] == patches[0] && (patches + [last])[1..] == patches[1..] + [last];
      AfterLastPatch(Patched(values, patches[0]), patches[1..], last);
    }
  }

  /** The last segment of the key starts with a minus. */
  predicate EndsInMinus(key: string) {
    var parts := Split(key, '.'); "-" <= parts[|parts| - 1]
  }

  /** A key that the last patch sets denotes its value; one that it unsets denotes none, unless it looks like a
      negative index. */
  lemma LastPatchDecides(values: Values, patches: seq<Patch>, key: string)
    requires patches != []
    ensures var last, after := patches[|patches| - 1], AfterPatches(values, patches);
            && (SetIn(last, key) ==> Resolved(after, key) == Ok(last[key]) && Answer(Resolved(after, key)) == last[key])
            && (UnsetIn(last, key) && !EndsInMinus(key) ==> Answer(Resolved(after, key)) == None)
  {
    var n := |patches| - 1;
    var last := patches[n];
    var before := AfterPatches(values, patches[..n]);
    assert patches == patches[..n] + [last];
    AfterLastPatch(values, patches[..n], last);
    hide AfterPatches, Resolved, ValidKey, Split, Numeral, EndsInMinus;
    MergedAt(Unstaged(before, last), last, key);
    StoredIsFound(Patched(before, last), key);
    if UnsetIn(last, key) && !EndsInMinus(key) {
      assert Removed(last, key);
      NoMinusNoIndex(key);
      MissingExactly(Patched(before, last), key);
    }
  }

  lemma NoMinusNoIndex(key: string)
    requires !EndsInMinus(key)
    ensures var parts := Split(key, '.'); forall z: nat, n: nat :: parts[|parts| - 1] != Numeral("-", z, n)
  {
    hide Split, Zeros, Itoa;
  }

  lemma {:induction false} AfterLastRequest(values: Values, requests: seq<seq<OutputOp>>, last: seq<OutputOp>)
    ensures AfterRequests(values, requests + [last]) == ApplyOps(AfterRequests(values, requests), last)
    decreases |requests|
  {
    hide ApplyOps;
    if requests == [] {
      assert ([] + [last])[1..] == [];
    } else {
      assert (requests + [last])[0] == requests[0] && (requests + [last])[1..] == requests[1..] + [last];
      AfterLastRequest(ApplyOps(values, requests[0]), requests[1..], last);
    }
  }

  lemma {:induction false} WrittenIsSent(ttl: nat, history: seq<Event>, from: nat, id: StepIdentity)
    ensures WrittenSince(ttl, history, from, id) == AfterRequests(map[], SentSince(ttl, history, from, id))
    decreases |history|
  {
    hide InFlight, ApplyOps;
    if |history| <= from {
    } else {
      var before, e := history[..|history| - 1], history[|history| - 1];
      WrittenIsSent(ttl, before, from, id);
      if e.Commit? {
        AfterLastRequest(map[], SentSince(ttl, before, from, id), e.ops);
      }
    }
  }

  /** The two transports agree in every interleaving: if since the registration of a pipeline the calls in flight have
      committed the operations of these orderly patches for a step, and the pipeline has not expired, then a consumer
      reads what the patches make of an empty directory. Other calls, collections and registrations may come in
      between. */
  lemma HistoryAgrees(ttl: nat, start: int, before: seq<Event>, e: Event, after: seq<Event>, producer: string, now: int,
          patches: seq<Patch>)
    requires e.Register? && InTime(start, before + [e] + after) && TimeAfter(start, before + [e] + after) <= now
    requires forall i :: 0 <= i < |after| ==> !Cancels(after[i], e.pipelineID)
    requires PipelineLive(Run(ttl, before + [e] + after).state, e.pipelineID, now)
    requires var sent := SentSince(ttl, before + [e] + after, |before| + 1, StepIdentity(e.pipelineID, producer));
             |patches| == |sent| && forall i :: 0 <= i < |patches| ==> Orderly(patches[i]) && OpsOf(patches[i], sent[i])
    ensures ValuesAt(Run(ttl, before + [e] + after).state, e.pipelineID, producer, now) == AfterPatches(map[], patches)
  {
    var h, id := before + [e] + after, StepIdentity(e.pipelineID, producer);
    var sent := SentSince(ttl, h, |before| + 1, id);
    hide *;
    ValuesFollowRegistration(ttl, start, before, e, after, producer, now);
    WrittenIsSent(ttl, h, |before| + 1, id);
    NothingStored();
    BackendsAgree(map[], patches, sent);
  }

  /** If the service holds what was collected, and nothing for a step without collected outputs, a consumer gets the
      same answer through either transport, although the service does not even look at the key if there are no
      values. */
  lemma ConsumersAgree(outputs: Outputs, s: State, pipelineID: string, ref: OutputRef, now: int)
    requires ValuesAt(s, pipelineID, ref.step, now) == if ref.step in outputs then outputs[ref.step] else map[]
    ensures ResolveRef(Collected(outputs), ref) == ResolveRef(Served(s, pipelineID, now), ref)
  {
    hide ValuesAt, ValidateKey, IsNegativeIndex, Atoi, Split, Join;
    var values := ValuesAt(s, pipelineID, ref.step, now);
    if |values| == 0 {
      assert values == map[];
      NothingResolves(ref.key);
    }
  }

  lemma NothingResolves(key: string)
    ensures Answer(Resolved(map[], key)) == None
  {
    hide ValidateKey, IsNegativeIndex, Atoi, Split, Join, ChildIndex;
  }

  // ---------------------------------------------------------------------------------------------
  // The helper, the directory and the service at work
  // ---------------------------------------------------------------------------------------------

  /** The token works until `until` if it is used before, and its step holds the values. */
  ghost predicate Holding(s: State, token: string, id: StepIdentity, values: Values, until: int) {
    && token in s.tokens && s.tokens[token] == TokenEntry(id, until)
    && id.pipelineID in s.pipelines && s.pipelines[id.pipelineID].expiresAt == until
    && s.pipelines[id.pipelineID].id < |s.objects|
    && StepValues(s.objects[s.pipelines[id.pipelineID].id], id.step) == values
  }

  /** A pipeline that was just registered holds no values, and its tokens work. */
  lemma RegisteredHolding(s: State, ttl: nat, pipelineID: string, grants: map<string, string>, now: int, token: string)
    requires token in grants
    ensures Holding(Registered(s, ttl, pipelineID, grants, now), token, StepIdentity(pipelineID, grants[token]), map[],
              now + ttl)
  {
  }

  lemma HoldingReads(s: State, token: string, id: StepIdentity, values: Values, until: int, now: int)
    requires Holding(s, token, id, values, until) && now <= until
    ensures ValuesAt(s, id.pipelineID, id.step, now) == values
  {
  }

  /** An undisturbed request applies its operations to the values of the token's step. */
  lemma RequestKeepsHolding(s: State, ttl: nat, token: string, id: StepIdentity, values: Values, until: int,
          clock: Clock, ops: seq<OutputOp>)
    requires Holding(s, token, id, values, until) && clock.token <= clock.pipeline <= until
    ensures LookupSucceeds(s, token, clock)
    ensures Holding(Committed(LookedUp(s, ttl, token, clock), HandleOf(s, token), ops), token, id,
              ApplyOps(values, ops), clock.stamp + ttl)
  {
    hide ApplyOps;
  }

  /** When the first `i` calls are over. */
  function StampBefore(start: int, clocks: seq<Clock>, i: nat): int
    requires i <= |clocks|
  {
    if i == 0 then start else clocks[i - 1].stamp
  }

  /** Clock readings that move forward and never skip a whole renewal period. */
  predicate Steady(start: int, clocks: seq<Clock>, ttl: nat) {
    forall i :: 0 <= i < |clocks| ==>
      clocks[i].token <= clocks[i].pipeline <= clocks[i].stamp &&
        clocks[i].pipeline <= StampBefore(start, clocks, i) + ttl
  }

  /** The directory and the service hold the same values for the token's step. */
  ghost predicate InStep(dir: Dir, svc: Service, token: string, id: StepIdentity, until: int)
    reads dir, svc, svc.objects
  {
    dir.Valid() && svc.Valid() && StoredWell(dir.files) && Holding(svc.State(), token, id, dir.files, until)
  }

  /** An undisturbed request of operations to the service. */
  method Send(ops: seq<OutputOp>, clock: Clock, svc: Service, token: string, ghost id: StepIdentity,
          ghost values: Values, ghost until: int)
    requires svc.Valid() && Holding(svc.State(), token, id, values, until) && clock.token <= clock.pipeline <= until
    modifies svc, svc.objects
    ensures svc.Valid() && svc.objects == old(svc.objects)
    ensures Holding(svc.State(), token, id, ApplyOps(values, ops), clock.stamp + svc.ttl)
  {
    hide *;
    ghost var s := svc.State();
    RequestKeepsHolding(s, svc.ttl, token, id, values, until, clock, ops);
    var sent := svc.Apply(token, clock, ops);
  }

  /** A patch in the directory. The service is not touched. */
  method Write(patch: Patch, dir: Dir, svc: Service, ghost values: Values)
    requires KeysValid(patch) && dir.Valid() && svc.Valid() && dir.files == values
    modifies dir
    ensures dir.Valid() && svc.Valid() && svc.State() == old(svc.State()) && dir.files == Patched(values, patch)
  {
    assert forall k :: k in patch ==> ValidKey(k);
    hide Patched, ValidKey, FileName;
    ValidKeysAreFileNames(patch);
    var written, done := dir.ApplyPatch(patch);
  }

  /** A patch in the directory and in the service. */
  method PublishOne(patch: Patch, clock: Clock, dir: Dir, svc: Service, token: string, ghost id: StepIdentity,
          ghost until: int)
    requires Orderly(patch) && clock.token <= clock.pipeline <= until && InStep(dir, svc, token, id, until)
    modifies dir, svc, svc.objects
    ensures svc.objects == old(svc.objects) && dir.files == Patched(old(dir.files), patch)
    ensures InStep(dir, svc, token, id, clock.stamp + svc.ttl)
  {
    hide *;
    ghost var before := dir.files;
    OrderlyKeys(patch);
    InStepParts(dir, svc, token, id, until);
    Write(patch, dir, svc, before);
    var ops := PatchToOps(patch);
    OrderlyStep(before, patch, ops);
    Send(ops, clock, svc, token, id, before, until);
    InStepParts(dir, svc, token, id, clock.stamp + svc.ttl);
  }

  lemma OrderlyKeys(patch: Patch)
    requires Orderly(patch)
    ensures KeysValid(patch)
  {
    hide KeysValid, EndsInTmp, NoUnsetAboveSet;
  }

  lemma InStepParts(dir: Dir, svc: Service, token: string, id: StepIdentity, until: int)
    ensures InStep(dir, svc, token, id, until) <==>
            dir.Valid() && svc.Valid() && StoredWell(dir.files) && Holding(svc.State(), token, id, dir.files, until)
  {
    hide StoredWell, Holding;
  }

  /** Puts the same orderly patches into a directory and into the service: in the end loading the directory
      and reading the service give the same values. */
  method PublishBoth(patches: seq<Patch>, start: int, clocks: seq<Clock>, dir: Dir, svc: Service, token: string,
          ghost id: StepIdentity)
    returns (loaded: Result<Values>)
    requires |patches| == |clocks| && Steady(start, clocks, svc.ttl)
    requires forall i :: 0 <= i < |patches| ==> Orderly(patches[i])
    requires dir.files == map[] && InStep(dir, svc, token, id, start + svc.ttl)
    modifies dir, svc, svc.objects
    ensures InStep(dir, svc, token, id, StampBefore(start, clocks, |clocks|) + svc.ttl)
    ensures loaded == Ok(dir.files) && dir.files == AfterPatches(map[], patches)
    ensures forall now :: now <= StampBefore(start, clocks, |clocks|) + svc.ttl ==>
              ValuesAt(svc.State(), id.pipelineID, id.step, now) == loaded.value
  {
    hide Orderly, Holding, Patched, ValuesAt, ValidKey, EndsInTmp, InStep, StoredWell;
    for i := 0 to |patches|
      invariant svc.objects == old(svc.objects) && InStep(dir, svc, token, id, StampBefore(start, clocks, i) + svc.ttl)
      invariant AfterPatches(map[], patches) == AfterPatches(dir.files, patches[i..])
    {
      assert clocks[i].token <= clocks[i].pipeline <= StampBefore(start, clocks, i) + svc.ttl;
      PublishOne(patches[i], clocks[i], dir, svc, token, id, StampBefore(start, clocks, i) + svc.ttl);
      assert patches[i..][1..] == patches[i + 1..];
    }
    InStepReads(dir, svc, token, id, StampBefore(start, clocks, |clocks|) + svc.ttl);
    loaded := dir.Load();
  }

  lemma InStepReads(dir: Dir, svc: Service, token: string, id: StepIdentity, until: int)
    requires InStep(dir, svc, token, id, until)
    ensures dir.Valid() && svc.Valid() && forall k :: k in dir.files ==> ValidKey(k)
    ensures forall now :: now <= until ==> ValuesAt(svc.State(), id.pipelineID, id.step, now) == dir.files
  {
    hide Holding, ValuesAt, ValidKey, EndsInTmp;
    forall now | now <= until ensures ValuesAt(svc.State(), id.pipelineID, id.step, now) == dir.files {
      HoldingReads(svc.State(), token, id, dir.files, until, now);
    }
  }

  /** Registers a pipeline whose steps have different tokens: the token of a step works, and the service holds as
      little for the step as an empty directory. */
  method Register(pipelineID: string, stepTokens: map<string, string>, producer: string, start: int, dir: Dir,
          svc: Service)
    requires dir.Valid() && svc.Valid() && dir.files == map[] && producer in stepTokens
    requires forall s, t :: s in stepTokens && t in stepTokens && stepTokens[s] == stepTokens[t] ==> s == t
    modifies svc
    ensures dir.files == map[] && fresh(set o | o in svc.objects && o !in old(svc.objects))
    ensures InStep(dir, svc, stepTokens[producer], StepIdentity(pipelineID, producer), start + svc.ttl)
  {
    ghost var before, objects := svc.State(), svc.objects;
    hide Holding, Registered, StoredWell;
    ghost var grants := svc.RegisterPipeline(pipelineID, stepTokens, start);
    assert forall o :: o in svc.objects ==> o in objects || o == svc.objects[|objects|];
    assert grants[stepTokens[producer]] == producer;
    hide *;
    RegisteredHolding(before, svc.ttl, pipelineID, grants, start, stepTokens[producer]);
    NothingStored();
    InStepParts(dir, svc, stepTokens[producer], StepIdentity(pipelineID, producer), start + svc.ttl);
  }

  lemma NothingStored()
    ensures StoredWell(map[])
  {
  }

  /** The whole life of a pipeline with one producer: it is registered, its producer publishes through both
      transports, and a consumer resolves a reference in each of them, with the same result. */
  method RegisterAndPublish(pipelineID: string, stepTokens: map<string, string>, producer: string, patches: seq<Patch>,
          start: int, clocks: seq<Clock>, dir: Dir, svc: Service, transport: string, key: string, now: int)
    returns (fromFiles: Option<string>, fromService: Option<string>)
    requires |patches| == |clocks| && Steady(start, clocks, svc.ttl) && forall i :: 0 <= i < |patches| ==>
               Orderly(patches[i])
    requires dir.Valid() && svc.Valid() && dir.files == map[] && now <= StampBefore(start, clocks, |clocks|) + svc.ttl
    requires pipelineID != "" && transport != "file" && producer in stepTokens
    requires forall s, t :: s in stepTokens && t in stepTokens && stepTokens[s] == stepTokens[t] ==> s == t
    modifies dir, svc, svc.objects
    ensures fromFiles == fromService == Answer(Resolved(AfterPatches(map[], patches), key))
    ensures patches != [] && SetIn(patches[|patches| - 1], key) ==> fromFiles == patches[|patches| - 1][key]
    ensures patches != [] && UnsetIn(patches[|patches| - 1], key) && !EndsInMinus(key) ==> fromFiles == None
  {
    hide *;
    var id := StepIdentity(pipelineID, producer);
    Register(pipelineID, stepTokens, producer, start, dir, svc);
    var loaded := PublishBoth(patches, start, clocks, dir, svc, stepTokens[producer], id);
    InStepReads(dir, svc, stepTokens[producer], id, StampBefore(start, clocks, |clocks|) + svc.ttl);
    fromFiles, fromService := ConsumeBoth(dir, svc, id, transport, key, now);
    if patches != [] {
      LastPatchDecides(map[], patches, key);
    }
  }

  /** A consumer resolves a key in the collected outputs of a step and in the service. */
  method ConsumeBoth(dir: Dir, svc: Service, id: StepIdentity, transport: string, key: string, now: int)
    returns (fromFiles: Option<string>, fromService: Option<string>)
    requires id.pipelineID != "" && transport != "file" && dir.Valid() && svc.Valid()
    requires (forall k :: k in dir.files ==> ValidKey(k))
    requires ValuesAt(svc.State(), id.pipelineID, id.step, now) == dir.files
    ensures fromFiles == fromService == Answer(Resolved(dir.files, key))
  {
    hide ValuesAt, Resolved, ValidKey, Answer;
    var ref := OutputRef(id.step, key);
    var withFiles := new Execer(null);
    var withService := new Execer(svc);
    var ok := withFiles.CollectOutputs(id.step, dir, NoCollector);
    fromFiles := withFiles.ResolveOutputValue(id.pipelineID, "file", ref, now, Collected(withFiles.outputs));
    fromService := withService.ResolveOutputValue(id.pipelineID, transport, ref, now,
      Served(svc.State(), id.pipelineID, now));
    ConsumersAgree(withFiles.outputs, svc.State(), id.pipelineID, ref, now);
  }
}
