/** The output service as a state machine: what each critical section does to the shared state
    (`internal/outputservice/service.go`), and a simpler machine that it implements. */
module ServiceModel {
  import opened Wrappers
  import opened Patches
  import opened OutputProto
  import opened PatchOps
  import opened Lookup

  // ---------------------------------------------------------------------------------------------
  // The state
  // ---------------------------------------------------------------------------------------------

  datatype StepIdentity = StepIdentity(pipelineID: string, step: string)

  datatype TokenEntry = TokenEntry(value: StepIdentity, expiresAt: int)

  /** The entry of a pipeline points to an output object. */
  datatype PipelineEntry = PipelineEntry(id: nat, expiresAt: int)

  /** The values of the steps of a pipeline. */
  type ByStep = map<string, Values>

  /** The service: two maps, and all output objects ever created. An object stays reachable for the
      calls that hold a pointer to it when its pipeline is deleted or replaced. */
  datatype State = State(pipelines: map<string, PipelineEntry>, tokens: map<string, TokenEntry>, objects: seq<ByStep>)

  /** What a call of `Apply` holds between its two critical sections. */
  datatype Handle = Handle(id: nat, step: string)

  /** The times at which a lookup reads the clock: for the token, for the pipeline, for the new expiry. */
  datatype Clock = Clock(token: int, pipeline: int, stamp: int)

  predicate Expired(deadline: int, now: int) {
    now > deadline
  }

  predicate TokenLive(tokens: map<string, TokenEntry>, token: string, now: int) {
    token in tokens && !Expired(tokens[token].expiresAt, now)
  }

  predicate PipelineLive(s: State, pipelineID: string, now: int) {
    pipelineID in s.pipelines && !Expired(s.pipelines[pipelineID].expiresAt, now)
  }

  function StepValues(byStep: ByStep, step: string): Values {
    if step in byStep then byStep[step] else map[]
  }

  // ---------------------------------------------------------------------------------------------
  // The critical sections
  // ---------------------------------------------------------------------------------------------

  function Granted(pipelineID: string, grants: map<string, string>, expiresAt: int): map<string, TokenEntry> {
    map token | token in grants :: TokenEntry(StepIdentity(pipelineID, grants[token]), expiresAt)
  }

  /** Registering replaces the object of the pipeline by a new, empty one. `grants` tells the step of
      each token. Tokens of an earlier registration stay. */
  function Registered(s: State, ttl: nat, pipelineID: string, grants: map<string, string>, now: int): State {
    State(s.pipelines[pipelineID := PipelineEntry(|s.objects|, now + ttl)],
          s.tokens + Granted(pipelineID, grants, now + ttl),
          s.objects + [map[]])
  }

  function WithoutTokensOf(tokens: map<string, TokenEntry>, pipelineID: string): map<string, TokenEntry> {
    map token | token in tokens && tokens[token].value.pipelineID != pipelineID :: tokens[token]
  }

  function Deleted(s: State, pipelineID: string): State {
    State(s.pipelines - {pipelineID}, WithoutTokensOf(s.tokens, pipelineID), s.objects)
  }

  predicate LookupSucceeds(s: State, token: string, clock: Clock) {
    TokenLive(s.tokens, token, clock.token) && PipelineLive(s, s.tokens[token].value.pipelineID, clock.pipeline)
  }

  /** The first critical section of `Apply`. If it finds an expired entry it deletes it; if it succeeds
      it renews both entries. */
  function LookedUp(s: State, ttl: nat, token: string, clock: Clock): State {
    if !TokenLive(s.tokens, token, clock.token) then s.(tokens := s.tokens - {token})
    else
      var entry := s.tokens[token];
      var p := entry.value.pipelineID;
      if !PipelineLive(s, p, clock.pipeline) then s.(pipelines := s.pipelines - {p})
      else s.(tokens := s.tokens[token := entry.(expiresAt := clock.stamp + ttl)],
              pipelines := s.pipelines[p := s.pipelines[p].(expiresAt := clock.stamp + ttl)])
  }

  function HandleOf(s: State, token: string): Handle
    requires token in s.tokens && s.tokens[token].value.pipelineID in s.pipelines
  {
    Handle(s.pipelines[s.tokens[token].value.pipelineID].id, s.tokens[token].value.step)
  }

  /** The second critical section of `Apply`: writes to the object it got hold of. */
  function Committed(s: State, h: Handle, ops: seq<OutputOp>): State {
    if h.id >= |s.objects| then s
    else
      var byStep := s.objects[h.id];
      s.(objects := s.objects[h.id := byStep[h.step := ApplyOps(StepValues(byStep, h.step), ops)]])
  }

  /** The collector's critical section. */
  function Pruned(s: State, now: int): State {
    s.(pipelines := map p | p in s.pipelines && !Expired(s.pipelines[p].expiresAt, now) :: s.pipelines[p],
       tokens := map token | token in s.tokens && !Expired(s.tokens[token].expiresAt, now) :: s.tokens[token])
  }

  /** The values a consumer may read. */
  function ValuesAt(s: State, pipelineID: string, producer: string, now: int): Values {
    if PipelineLive(s, pipelineID, now) && s.pipelines[pipelineID].id < |s.objects|
    then StepValues(s.objects[s.pipelines[pipelineID].id], producer)
    else map[]
  }

  ghost function ResolvedAt(s: State, pipelineID: string, producer: string, key: string,
          now: int): Result<Option<string>> {
    var values := ValuesAt(s, pipelineID, producer, now);
    if |values| == 0 then Ok(None) else Resolved(values, key)
  }

  // ---------------------------------------------------------------------------------------------
  // Interleavings
  // ---------------------------------------------------------------------------------------------

  /** One critical section. A call of `Apply` is two events with the same `call`. */
  datatype Event =
    | Register(pipelineID: string, grants: map<string, string>, now: int)
    | Delete(pipelineID: string)
    | Lookup(call: nat, token: string, clock: Clock)
    | Commit(call: nat, ops: seq<OutputOp>)
    | Prune(now: int)

  /** The service and the calls of `Apply` that are between their critical sections. */
  datatype Config = Config(state: State, calls: map<nat, Handle>)

  const EMPTY: Config := Config(State(map[], map[], []), map[])

  function Step(c: Config, ttl: nat, e: Event): Config {
    match e
    case Register(p, grants, now) => c.(state := Registered(c.state, ttl, p, grants, now))
    case Delete(p) => c.(state := Deleted(c.state, p))
    case Lookup(call, token, clock) =>
      Config(LookedUp(c.state, ttl, token, clock),
             if LookupSucceeds(c.state, token, clock)
               then c.calls[call := HandleOf(c.state, token)] else c.calls - {call})
    case Commit(call, ops) =>
      if call !in c.calls then c else Config(Committed(c.state, c.calls[call], ops), c.calls - {call})
    case Prune(now) => c.(state := Pruned(c.state, now))
  }

  function Run(ttl: nat, history: seq<Event>): Config
    decreases |history|
  {
    if history == [] then EMPTY else Step(Run(ttl, history[..|history| - 1]), ttl, history[|history| - 1])
  }

  /** The clock only moves forward: the event reads it no earlier than at `now`, and `Time` is when the
      event is over. */
  predicate OnTime(e: Event, now: int) {
    match e
    case Register(_, _, t) => now <= t
    case Lookup(_, _, clock) => now <= clock.token <= clock.pipeline <= clock.stamp
    case Prune(t) => now <= t
    case _ => true
  }

  function TimeOf(e: Event, now: int): int {
    match e
    case Register(_, _, t) => t
    case Lookup(_, _, clock) => clock.stamp
    case Prune(t) => t
    case _ => now
  }

  function TimeAfter(start: int, history: seq<Event>): int
    decreases |history|
  {
    if history == [] then start else TimeOf(history[|history| - 1], TimeAfter(start, history[..|history| - 1]))
  }

  predicate InTime(start: int, history: seq<Event>)
    decreases |history|
  {
    history == [] ||
    (InTime(start, history[..|history| - 1]) &&
      OnTime(history[|history| - 1], TimeAfter(start, history[..|history| - 1])))
  }

  // ---------------------------------------------------------------------------------------------
  // The simpler machine
  // ---------------------------------------------------------------------------------------------

  datatype Table = Table(values: ByStep, expiresAt: int)

  /** No objects and no collector: a pipeline is its table of values, entries are never removed because
      they expired, and deleting or registering a pipeline cancels the calls that are under way for it. */
  datatype Ideal = Ideal(tables: map<string, Table>, tokens: map<string, TokenEntry>, calls: map<nat, StepIdentity>)

  const NOTHING: Ideal := Ideal(map[], map[], map[])

  function Cancelled(calls: map<nat, StepIdentity>, pipelineID: string): map<nat, StepIdentity> {
    map c | c in calls && calls[c].pipelineID != pipelineID :: calls[c]
  }

  predicate TableLive(r: Ideal, pipelineID: string, now: int) {
    pipelineID in r.tables && !Expired(r.tables[pipelineID].expiresAt, now)
  }

  predicate IdealLookupSucceeds(r: Ideal, token: string, clock: Clock) {
    TokenLive(r.tokens, token, clock.token) && TableLive(r, r.tokens[token].value.pipelineID, clock.pipeline)
  }

  function IdealStep(r: Ideal, ttl: nat, e: Event): Ideal {
    match e
    case Register(p, grants, now) =>
      Ideal(r.tables[p := Table(map[], now + ttl)], r.tokens + Granted(p, grants, now + ttl), Cancelled(r.calls, p))
    case Delete(p) => Ideal(r.tables - {p}, WithoutTokensOf(r.tokens, p), Cancelled(r.calls, p))
    case Lookup(call, token, clock) =>
      if !IdealLookupSucceeds(r, token, clock) then r.(calls := r.calls - {call})
      else
        var entry := r.tokens[token];
        var p := entry.value.pipelineID;
        Ideal(r.tables[p := r.tables[p].(expiresAt := clock.stamp + ttl)],
              r.tokens[token := entry.(expiresAt := clock.stamp + ttl)],
              r.calls[call := entry.value])
    case Commit(call, ops) =>
      if call !in r.calls then r
      else
        var p, step := r.calls[call].pipelineID, r.calls[call].step;
        var done := r.(calls := r.calls - {call});
        if p !in r.tables then done
        else
          var values := r.tables[p].values;
          var written := ApplyOps(StepValues(values, step), ops);
          done.(tables := r.tables[p := r.tables[p].(values := values[step := written])])
    case Prune(_) => r
  }

  function IdealRun(ttl: nat, history: seq<Event>): Ideal
    decreases |history|
  {
    if history == [] then NOTHING else IdealStep(IdealRun(ttl, history[..|history| - 1]), ttl, history[|history| - 1])
  }

  function IdealValuesAt(r: Ideal, pipelineID: string, producer: string, now: int): Values {
    if TableLive(r, pipelineID, now) then StepValues(r.tables[pipelineID].values, producer) else map[]
  }

  // ---------------------------------------------------------------------------------------------
  // The service implements the simpler machine
  // ---------------------------------------------------------------------------------------------

  /** Objects exist, and no two pipelines share one. */
  ghost predicate Sound(c: Config) {
    && (forall p :: p in c.state.pipelines ==> c.state.pipelines[p].id < |c.state.objects|)
    && (forall p, q :: p in c.state.pipelines && q in c.state.pipelines && p != q ==>
      c.state.pipelines[p].id != c.state.pipelines[q].id)
    && (forall k :: k in c.calls ==> c.calls[k].id < |c.state.objects|)
  }

  ghost predicate SameTokens(s: map<string, TokenEntry>, r: map<string, TokenEntry>, now: int) {
    forall token :: (TokenLive(s, token, now) <==> TokenLive(r, token, now)) &&
      (TokenLive(s, token, now) ==> s[token] == r[token])
  }

  ghost predicate SamePipelines(s: State, r: Ideal, now: int) {
    forall p :: (PipelineLive(s, p, now) <==> TableLive(r, p, now))
      && (PipelineLive(s, p, now) ==>
            && s.pipelines[p].id < |s.objects|
            && s.pipelines[p].expiresAt == r.tables[p].expiresAt && s.objects[s.pipelines[p].id] == r.tables[p].values)
  }

  /** A call under way writes to the object of a live pipeline exactly if it was not cancelled and is a
      call for that pipeline. */
  ghost predicate SameCalls(c: Config, r: Ideal, now: int) {
    && (forall k :: k in r.calls ==>
      k in c.calls && c.calls[k].step == r.calls[k].step && r.calls[k].pipelineID in r.tables)
    && forall k, p :: k in c.calls && PipelineLive(c.state, p, now) ==>
         (c.state.pipelines[p].id == c.calls[k].id <==> k in r.calls && r.calls[k].pipelineID == p)
  }

  ghost predicate Implements(c: Config, r: Ideal, now: int) {
    Sound(c) && SameTokens(c.state.tokens, r.tokens, now) && SamePipelines(c.state, r, now) && SameCalls(c, r, now)
  }

  lemma LaterImplements(c: Config, r: Ideal, now: int, later: int)
    requires Implements(c, r, now) && now <= later
    ensures Implements(c, r, later)
  {
    assert forall p :: PipelineLive(c.state, p, later) ==> PipelineLive(c.state, p, now);
    assert forall p :: TableLive(r, p, later) ==> TableLive(r, p, now);
  }

  lemma RegisterKeepsSound(c: Config, r: Ideal, now: int, ttl: nat, e: Event)
    requires Implements(c, r, now) && e.Register? && e.now == now
    ensures Sound(Step(c, ttl, e))
  {
    hide ApplyOps, SameTokens, SamePipelines, SameCalls;
  }

  lemma RegisterKeepsSameTokens(c: Config, r: Ideal, now: int, ttl: nat, e: Event)
    requires Implements(c, r, now) && e.Register? && e.now == now
    ensures SameTokens(Step(c, ttl, e).state.tokens, IdealStep(r, ttl, e).tokens, now)
  {
    var more := Granted(e.pipelineID, e.grants, e.now + ttl);
    assert Step(c, ttl, e).state.tokens == c.state.tokens + more && IdealStep(r, ttl, e).tokens == r.tokens + more by {
      hide Implements, Granted;
    }
    assert SameTokens(c.state.tokens, r.tokens, now) by {
      hide SameCalls, Sound, SamePipelines, SameTokens;
    }
    hide *;
    SameWithMore(c.state.tokens, r.tokens, now, more);
  }

  lemma SameWithMore(s: map<string, TokenEntry>, r: map<string, TokenEntry>, now: int, more: map<string, TokenEntry>)
    requires SameTokens(s, r, now)
    ensures SameTokens(s + more, r + more, now)
  {
    hide Expired;
  }

  lemma RegisterKeepsSamePipelines(c: Config, r: Ideal, now: int, ttl: nat, e: Event)
    requires Implements(c, r, now) && e.Register? && e.now == now
    ensures SamePipelines(Step(c, ttl, e).state, IdealStep(r, ttl, e), now)
  {
    hide ApplyOps, SameCalls;
  }

  lemma RegisterKeepsSameCalls(c: Config, r: Ideal, now: int, ttl: nat, e: Event)
    requires Implements(c, r, now) && e.Register? && e.now == now
    ensures SameCalls(Step(c, ttl, e), IdealStep(r, ttl, e), now)
  {
    hide ApplyOps;
  }

  lemma RegisterImplements(c: Config, r: Ideal, now: int, ttl: nat, e: Event)
    requires Implements(c, r, now) && e.Register? && e.now == now
    ensures Implements(Step(c, ttl, e), IdealStep(r, ttl, e), now)
  {
    RegisterKeepsSound(c, r, now, ttl, e);
    RegisterKeepsSameTokens(c, r, now, ttl, e);
    RegisterKeepsSamePipelines(c, r, now, ttl, e);
    RegisterKeepsSameCalls(c, r, now, ttl, e);
    hide Sound, SameTokens, SamePipelines, SameCalls, Step, IdealStep;
  }

  lemma DeleteImplements(c: Config, r: Ideal, now: int, ttl: nat, e: Event)
    requires Implements(c, r, now) && e.Delete?
    ensures Implements(Step(c, ttl, e), IdealStep(r, ttl, e), now)
  {
    DeleteKeepsSameTokens(c.state.tokens, r.tokens, now, e.pipelineID);
    DeleteKeepsSamePipelines(c, r, now, e.pipelineID);
    DeleteKeepsSameCalls(c, r, now, e.pipelineID);
    hide SameTokens, SamePipelines, SameCalls, WithoutTokensOf, Cancelled;
  }

  lemma DeleteKeepsSameTokens(s: map<string, TokenEntry>, r: map<string, TokenEntry>, now: int, p: string)
    requires SameTokens(s, r, now)
    ensures SameTokens(WithoutTokensOf(s, p), WithoutTokensOf(r, p), now)
  {
    hide Expired;
  }

  lemma DeleteKeepsSamePipelines(c: Config, r: Ideal, now: int, p: string)
    requires SamePipelines(c.state, r, now)
    ensures SamePipelines(Deleted(c.state, p), r.(tables := r.tables - {p}), now)
    ensures SamePipelines(Deleted(c.state, p),
              Ideal(r.tables - {p}, WithoutTokensOf(r.tokens, p), Cancelled(r.calls, p)), now)
  {
    hide Expired, WithoutTokensOf, Cancelled;
  }

  lemma DeleteKeepsSameCalls(c: Config, r: Ideal, now: int, p: string)
    requires SameCalls(c, r, now)
    ensures SameCalls(c.(state := Deleted(c.state, p)),
              Ideal(r.tables - {p}, WithoutTokensOf(r.tokens, p), Cancelled(r.calls, p)), now)
  {
    hide Expired, WithoutTokensOf;
  }

  lemma LookupsAgree(c: Config, r: Ideal, now: int, token: string, clock: Clock)
    requires Implements(c, r, now) && now <= clock.token <= clock.pipeline
    ensures LookupSucceeds(c.state, token, clock) <==> IdealLookupSucceeds(r, token, clock)
  {
    hide SameCalls;
    assert TokenLive(c.state.tokens, token, clock.token) ==> TokenLive(c.state.tokens, token, now);
    assert TokenLive(r.tokens, token, clock.token) ==> TokenLive(r.tokens, token, now);
    var p := if token in r.tokens then r.tokens[token].value.pipelineID else "";
    assert PipelineLive(c.state, p, clock.pipeline) ==> PipelineLive(c.state, p, now);
    assert TableLive(r, p, clock.pipeline) ==> TableLive(r, p, now);
  }

  lemma LookupKeepsSound(c: Config, r: Ideal, now: int, ttl: nat, e: Event)
    requires Implements(c, r, now) && e.Lookup? && OnTime(e, now)
    requires (LookupSucceeds(c.state, e.token, e.clock) <==> IdealLookupSucceeds(r, e.token, e.clock))
    ensures Sound(Step(c, ttl, e))
  {
    hide ApplyOps, SameTokens, SamePipelines, SameCalls;
  }

  lemma LookupKeepsSameTokens(c: Config, r: Ideal, now: int, ttl: nat, e: Event)
    requires Implements(c, r, now) && e.Lookup? && OnTime(e, now)
    requires (LookupSucceeds(c.state, e.token, e.clock) <==> IdealLookupSucceeds(r, e.token, e.clock))
    ensures SameTokens(Step(c, ttl, e).state.tokens, IdealStep(r, ttl, e).tokens, e.clock.stamp)
  {
    hide ApplyOps, SameCalls, Sound;
  }

  lemma LookupKeepsSamePipelines(c: Config, r: Ideal, now: int, ttl: nat, e: Event)
    requires Implements(c, r, now) && e.Lookup? && OnTime(e, now)
    requires (LookupSucceeds(c.state, e.token, e.clock) <==> IdealLookupSucceeds(r, e.token, e.clock))
    ensures SamePipelines(Step(c, ttl, e).state, IdealStep(r, ttl, e), e.clock.stamp)
  {
    hide ApplyOps, SameCalls;
  }

  lemma LookupKeepsSameCalls(c: Config, r: Ideal, now: int, ttl: nat, e: Event)
    requires Implements(c, r, now) && e.Lookup? && OnTime(e, now)
    requires (LookupSucceeds(c.state, e.token, e.clock) <==> IdealLookupSucceeds(r, e.token, e.clock))
    ensures SameCalls(Step(c, ttl, e), IdealStep(r, ttl, e), e.clock.stamp)
  {
    if IdealLookupSucceeds(r, e.token, e.clock) {
      LookupFindsIdentity(c, r, now, e.token, e.clock);
    }
    hide ApplyOps, SameTokens, Sound, SameCalls;
    var d, q := Step(c, ttl, e), IdealStep(r, ttl, e);
    if IdealLookupSucceeds(r, e.token, e.clock) {
      CallJoins(c, r, now, d, q, e.clock.stamp, e.call, r.tokens[e.token].value);
    } else {
      CallEnds(c, r, now, d, q, e.clock.stamp, e.call);
    }
  }

  /** What was live later was live before, with the same object. */
  ghost predicate StillThere(s: State, now: int, t: State, later: int) {
    forall p :: PipelineLive(t, p, later) ==> PipelineLive(s, p, now) && t.pipelines[p].id == s.pipelines[p].id
  }

  lemma CallJoins(c: Config, r: Ideal, now: int, d: Config, q: Ideal, later: int, call: nat, id: StepIdentity)
    requires Sound(c) && SameCalls(c, r, now) && StillThere(c.state, now, d.state, later)
    requires q.tables.Keys == r.tables.Keys
    requires PipelineLive(c.state, id.pipelineID, now) && id.pipelineID in r.tables && q.calls == r.calls[call := id]
    requires d.calls == c.calls[call := Handle(c.state.pipelines[id.pipelineID].id, id.step)]
    ensures SameCalls(d, q, later)
  {
    hide Expired;
  }

  lemma CallEnds(c: Config, r: Ideal, now: int, d: Config, q: Ideal, later: int, call: nat)
    requires SameCalls(c, r, now) && StillThere(c.state, now, d.state, later) && r.tables.Keys <= q.tables.Keys
    requires q.calls == r.calls - {call} && d.calls == c.calls - {call}
    ensures SameCalls(d, q, later)
  {
    hide Expired;
  }

  lemma LookupImplements(c: Config, r: Ideal, now: int, ttl: nat, e: Event)
    requires Implements(c, r, now) && e.Lookup? && OnTime(e, now)
    ensures Implements(Step(c, ttl, e), IdealStep(r, ttl, e), e.clock.stamp)
  {
    LookupsAgree(c, r, now, e.token, e.clock);
    LookupKeepsSound(c, r, now, ttl, e);
    LookupKeepsSameTokens(c, r, now, ttl, e);
    LookupKeepsSamePipelines(c, r, now, ttl, e);
    LookupKeepsSameCalls(c, r, now, ttl, e);
    hide Sound, SameTokens, SamePipelines, SameCalls, Step, IdealStep;
  }

  lemma CommitKeepsSound(c: Config, r: Ideal, now: int, ttl: nat, e: Event)
    requires Implements(c, r, now) && e.Commit?
    ensures Sound(Step(c, ttl, e))
  {
    hide ApplyOps, SameTokens, SamePipelines, SameCalls;
  }

  lemma CommitKeepsSameTokens(c: Config, r: Ideal, now: int, ttl: nat, e: Event)
    requires Implements(c, r, now) && e.Commit?
    ensures SameTokens(Step(c, ttl, e).state.tokens, IdealStep(r, ttl, e).tokens, now)
  {
    hide ApplyOps, SameCalls, Sound;
  }

  lemma CommitKeepsSamePipelines(c: Config, r: Ideal, now: int, ttl: nat, e: Event)
    requires Implements(c, r, now) && e.Commit?
    ensures SamePipelines(Step(c, ttl, e).state, IdealStep(r, ttl, e), now)
  {
    hide ApplyOps, SameTokens;
  }

  lemma CommitKeepsSameCalls(c: Config, r: Ideal, now: int, ttl: nat, e: Event)
    requires Implements(c, r, now) && e.Commit?
    ensures SameCalls(Step(c, ttl, e), IdealStep(r, ttl, e), now)
  {
    hide ApplyOps;
  }

  lemma CommitImplements(c: Config, r: Ideal, now: int, ttl: nat, e: Event)
    requires Implements(c, r, now) && e.Commit?
    ensures Implements(Step(c, ttl, e), IdealStep(r, ttl, e), now)
  {
    CommitKeepsSound(c, r, now, ttl, e);
    CommitKeepsSameTokens(c, r, now, ttl, e);
    CommitKeepsSamePipelines(c, r, now, ttl, e);
    CommitKeepsSameCalls(c, r, now, ttl, e);
    hide Sound, SameTokens, SamePipelines, SameCalls, Step, IdealStep;
  }

  lemma PruneImplements(c: Config, r: Ideal, now: int, ttl: nat, e: Event)
    requires Implements(c, r, now) && e.Prune? && e.now == now
    ensures Implements(Step(c, ttl, e), IdealStep(r, ttl, e), now)
  {
    PrunedTokensSame(c.state, r.tokens, now);
    PrunedPipelinesSame(c.state, r, now);
    PrunedCallsSame(c, r, now);
    hide SameTokens, SamePipelines, SameCalls, Pruned, Sound;
  }

  lemma PrunedCallsSame(c: Config, r: Ideal, now: int)
    requires Sound(c) && SameCalls(c, r, now)
    ensures Sound(c.(state := Pruned(c.state, now))) && SameCalls(c.(state := Pruned(c.state, now)), r, now)
  {
  }

  lemma PrunedTokensSame(s: State, r: map<string, TokenEntry>, now: int)
    requires SameTokens(s.tokens, r, now)
    ensures SameTokens(Pruned(s, now).tokens, r, now)
  {
  }

  lemma PrunedPipelinesSame(s: State, r: Ideal, now: int)
    requires SamePipelines(s, r, now)
    ensures SamePipelines(Pruned(s, now), r, now)
  {
  }

  /** After every interleaving the service still implements the simpler machine. */
  lemma {:induction false} ServiceImplements(ttl: nat, start: int, history: seq<Event>)
    requires InTime(start, history)
    ensures Implements(Run(ttl, history), IdealRun(ttl, history), TimeAfter(start, history))
    decreases |history|
  {
    if history == [] {
    } else {
      hide Implements, Step, IdealStep;
      var before, e := history[..|history| - 1], history[|history| - 1];
      var c, r, now := Run(ttl, before), IdealRun(ttl, before), TimeAfter(start, before);
      ServiceImplements(ttl, start, before);
      match e {
        case Register(_, _, t) =>
          LaterImplements(c, r, now, t);
          RegisterImplements(c, r, t, ttl, e);
        case Delete(_) => DeleteImplements(c, r, now, ttl, e);
        case Lookup(_, _, _) => LookupImplements(c, r, now, ttl, e);
        case Commit(_, _) => CommitImplements(c, r, now, ttl, e);
        case Prune(t) =>
          LaterImplements(c, r, now, t);
          PruneImplements(c, r, t, ttl, e);
      }
    }
  }

  // ---------------------------------------------------------------------------------------------
  // What follows for the service
  // ---------------------------------------------------------------------------------------------

  /** Whatever has happened, the service answers like the simpler machine: the same lookups succeed, and
      consumers read the same values. */
  lemma SameAnswers(ttl: nat, start: int, history: seq<Event>)
    requires InTime(start, history)
    ensures forall p, producer, now :: TimeAfter(start, history) <= now ==>
              ValuesAt(Run(ttl, history).state, p, producer, now) ==
                IdealValuesAt(IdealRun(ttl, history), p, producer, now)
    ensures forall token, clock: Clock :: TimeAfter(start, history) <= clock.token <= clock.pipeline ==>
              (LookupSucceeds(Run(ttl, history).state, token, clock) <==>
                IdealLookupSucceeds(IdealRun(ttl, history), token, clock))
  {
    ServiceImplements(ttl, start, history);
    var c, r, at := Run(ttl, history), IdealRun(ttl, history), TimeAfter(start, history);
    hide Run, IdealRun, InTime, TimeAfter;
    forall p, producer, now | at <= now
      ensures ValuesAt(c.state, p, producer, now) == IdealValuesAt(r, p, producer, now)
    {
      LaterImplements(c, r, at, now);
    }
    forall token, clock: Clock | at <= clock.token <= clock.pipeline
      ensures LookupSucceeds(c.state, token, clock) <==> IdealLookupSucceeds(r, token, clock)
    {
      LookupsAgree(c, r, at, token, clock);
    }
  }

  // Histories in two parts

  lemma LastOf(a: seq<Event>, b: seq<Event>)
    requires |b| > 0
    ensures var h := a + b; h[..|h| - 1] == a + b[..|b| - 1] && h[|h| - 1] == b[|b| - 1]
  {
  }

  lemma {:induction false} TimePasses(start: int, a: seq<Event>, b: seq<Event>)
    requires InTime(start, a + b)
    ensures InTime(start, a) && start <= TimeAfter(start, a) <= TimeAfter(start, a + b)
    decreases |a| + |b|
  {
    if b != [] {
      LastOf(a, b);
      TimePasses(start, a, b[..|b| - 1]);
    } else {
      assert a + b == a;
      if a != [] {
        assert a[..|a| - 1] + [] == a[..|a| - 1];
        TimePasses(start, a[..|a| - 1], []);
      }
    }
  }

  // -- The collector

  lemma {:induction false} PruneChangesNothing(ttl: nat, start: int, before: seq<Event>, prune: Event,
          after: seq<Event>)
    requires prune.Prune? && InTime(start, before + [prune] + after)
    ensures IdealRun(ttl, before + [prune] + after) == IdealRun(ttl, before + after)
    ensures InTime(start, before + after)
    ensures TimeAfter(start, before + after) <= TimeAfter(start, before + [prune] + after)
    decreases |after|
  {
    hide IdealStep;
    if after == [] {
      assert before + [] == before && before + [prune] + [] == before + [prune];
      LastOf(before, [prune]);
      assert before + [] == before;
      assert IdealStep(IdealRun(ttl, before), ttl, prune) ==
        IdealRun(ttl, before) by { PruneIsIdle(IdealRun(ttl, before), ttl, prune); }
    } else {
      LastOf(before + [prune], after);
      LastOf(before, after);
      PruneChangesNothing(ttl, start, before, prune, after[..|after| - 1]);
    }
  }

  lemma PruneIsIdle(r: Ideal, ttl: nat, prune: Event)
    requires prune.Prune?
    ensures IdealStep(r, ttl, prune) == r
  {
  }

  /** Running the collector at any point changes no later answer. */
  lemma CollectionUnobservable(ttl: nat, start: int, before: seq<Event>, prune: Event, after: seq<Event>)
    requires prune.Prune? && InTime(start, before + [prune] + after)
    ensures var with, without := Run(ttl, before + [prune] + after).state, Run(ttl, before + after).state;
            var at := TimeAfter(start, before + [prune] + after);
            && (forall p, producer, now :: at <= now ==>
              ValuesAt(with, p, producer, now) == ValuesAt(without, p, producer, now))
            && (forall p, producer, key, now :: at <= now ==>
                  ResolvedAt(with, p, producer, key, now) == ResolvedAt(without, p, producer, key, now))
            && (forall token, clock: Clock :: at <= clock.token <= clock.pipeline ==>
                  (LookupSucceeds(with, token, clock) <==> LookupSucceeds(without, token, clock)))
  {
    hide *;
    PruneChangesNothing(ttl, start, before, prune, after);
    SameAnswers(ttl, start, before + [prune] + after);
    SameAnswers(ttl, start, before + after);
    var with, without := Run(ttl, before + [prune] + after).state, Run(ttl, before + after).state;
    var at := TimeAfter(start, before + [prune] + after);
    forall p, producer, key, now | at <= now
      ensures ResolvedAt(with, p, producer, key, now) == ResolvedAt(without, p, producer, key, now)
    {
      assert ValuesAt(with, p, producer, now) == ValuesAt(without, p, producer, now);
      ResolvedFromValues(with, without, p, producer, key, now);
    }
  }

  lemma ResolvedFromValues(s: State, t: State, p: string, producer: string, key: string, now: int)
    requires ValuesAt(s, p, producer, now) == ValuesAt(t, p, producer, now)
    ensures ResolvedAt(s, p, producer, key, now) == ResolvedAt(t, p, producer, key, now)
  {
    hide ValuesAt, Resolved;
  }

  // -- Generations

  predicate Registers(e: Event, p: string) {
    e.Register? && e.pipelineID == p
  }

  predicate Cancels(e: Event, p: string) {
    (e.Register? && e.pipelineID == p) || (e.Delete? && e.pipelineID == p)
  }

  lemma {:induction false} IdealStaysDeleted(ttl: nat, before: seq<Event>, p: string, after: seq<Event>)
    requires forall i :: 0 <= i < |after| ==> !Registers(after[i], p)
    ensures p !in IdealRun(ttl, before + [Delete(p)] + after).tables
    decreases |after|
  {
    if after == [] {
      assert before + [Delete(p)] + [] == before + [Delete(p)];
      LastOf(before, [Delete(p)]);
      assert before + [] == before;
      hide WithoutTokensOf, Cancelled;
    } else {
      hide IdealStep, Registers;
      LastOf(before + [Delete(p)], after);
      assert after[|after| - 1] in after;
      IdealStaysDeleted(ttl, before, p, after[..|after| - 1]);
      var r, e := IdealRun(ttl, before + [Delete(p)] + after[..|after| - 1]), after[|after| - 1];
      StaysDeleted(r, ttl, e, p);
    }
  }

  lemma StaysDeleted(r: Ideal, ttl: nat, e: Event, p: string)
    requires p !in r.tables && !Registers(e, p)
    ensures p !in IdealStep(r, ttl, e).tables
  {
  }

  /** After a pipeline was deleted nothing is found in it until it is registered again, whatever calls
      were under way. */
  lemma DeletedStaysEmpty(ttl: nat, start: int, before: seq<Event>, p: string, after: seq<Event>, producer: string,
          now: int)
    requires InTime(start, before + [Delete(p)] + after) && TimeAfter(start, before + [Delete(p)] + after) <= now
    requires forall i :: 0 <= i < |after| ==> !Registers(after[i], p)
    ensures ValuesAt(Run(ttl, before + [Delete(p)] + after).state, p, producer, now) == map[]
    ensures forall key :: ResolvedAt(Run(ttl, before + [Delete(p)] + after).state, p, producer, key, now) == Ok(None)
  {
    IdealStaysDeleted(ttl, before, p, after);
    SameAnswers(ttl, start, before + [Delete(p)] + after);
    hide Run, IdealRun, InTime, TimeAfter, ValuesAt, LookupSucceeds;
  }

  // -- Calls in flight

  /** The event at `i` is the lookup of the call, and it found the identity. */
  ghost predicate StartedAt(ttl: nat, history: seq<Event>, i: nat, call: nat, id: StepIdentity) {
    && i < |history| && history[i].Lookup? && history[i].call == call
    && var s := Run(ttl, history[..i]).state;
       LookupSucceeds(s, history[i].token, history[i].clock) && s.tokens[history[i].token].value == id
  }

  /** The event is the end of the call, or its beginning. */
  predicate Concerns(e: Event, call: nat) {
    (e.Commit? && e.call == call) || (e.Lookup? && e.call == call)
  }

  /** Since `i` the pipeline was neither deleted nor registered, and the call has not committed. */
  ghost predicate UndisturbedSince(history: seq<Event>, i: nat, call: nat, p: string) {
    forall j :: i < j < |history| ==> !Cancels(history[j], p) && !Concerns(history[j], call)
  }

  /** The call's lookup has found the identity, the call has not committed, and the pipeline was neither
      deleted nor registered in between. */
  ghost predicate InFlight(ttl: nat, history: seq<Event>, call: nat, id: StepIdentity) {
    exists i: nat :: StartedAt(ttl, history, i, call, id) && UndisturbedSince(history, i, call, id.pipelineID)
  }

  lemma {:induction false} LiveIsInFlight(ttl: nat, start: int, history: seq<Event>, call: nat) returns (i: nat)
    requires InTime(start, history) && call in IdealRun(ttl, history).calls
    ensures StartedAt(ttl, history, i, call, IdealRun(ttl, history).calls[call])
    ensures UndisturbedSince(history, i, call, IdealRun(ttl, history).calls[call].pipelineID)
    decreases |history|
  {
    var n := |history| - 1;
    var before, e := history[..n], history[n];
    var r := IdealRun(ttl, before);
    assert IdealRun(ttl, history) == IdealStep(r, ttl, e) && InTime(start, before) &&
      OnTime(e, TimeAfter(start, before));
    hide *;
    if e.Lookup? && e.call == call {
      i := n;
      LookupMadeLive(ttl, start, before, e);
      JustStarted(ttl, history, call, IdealRun(ttl, history).calls[call]);
    } else {
      CallWasLive(r, ttl, e, call);
      i := LiveIsInFlight(ttl, start, before, call);
      StillUndisturbed(ttl, history, i, call, r.calls[call]);
    }
  }

  lemma InFlightBefore(ttl: nat, history: seq<Event>, i: nat, call: nat, id: StepIdentity)
    requires StartedAt(ttl, history, i, call, id) && UndisturbedSince(history, i, call, id.pipelineID)
    requires i < |history| - 1
    ensures var before, e := history[..|history| - 1], history[|history| - 1];
            && StartedAt(ttl, before, i, call, id) && UndisturbedSince(before, i, call, id.pipelineID)
            && !Cancels(e, id.pipelineID) && !Concerns(e, call)
  {
    hide Run, LookupSucceeds, Cancels, Concerns;
    assert history[..|history| - 1][..i] == history[..i];
  }

  lemma {:induction false} InFlightIsLive(ttl: nat, start: int, history: seq<Event>, i: nat, call: nat,
          id: StepIdentity)
    requires InTime(start, history) && StartedAt(ttl, history, i, call, id)
    requires UndisturbedSince(history, i, call, id.pipelineID)
    ensures call in IdealRun(ttl, history).calls && IdealRun(ttl, history).calls[call] == id
    decreases |history|
  {
    var n := |history| - 1;
    var before, e := history[..n], history[n];
    var r := IdealRun(ttl, before);
    assert IdealRun(ttl, history) == IdealStep(r, ttl, e) && InTime(start, before) &&
      OnTime(e, TimeAfter(start, before));
    if i == n {
      hide Run, IdealRun, InTime, TimeAfter, LookupSucceeds, IdealStep;
      LookupMakesLive(ttl, start, before, e);
    } else {
      hide *;
      InFlightBefore(ttl, history, i, call, id);
      InFlightIsLive(ttl, start, before, i, call, id);
      CallStaysLive(r, ttl, e, call);
    }
  }

  lemma LookupMakesLive(ttl: nat, start: int, before: seq<Event>, e: Event)
    requires InTime(start, before) && e.Lookup? && OnTime(e, TimeAfter(start, before))
    requires LookupSucceeds(Run(ttl, before).state, e.token, e.clock)
    ensures var r := IdealStep(IdealRun(ttl, before), ttl, e);
            e.call in r.calls && r.calls[e.call] == Run(ttl, before).state.tokens[e.token].value
  {
    SameAnswers(ttl, start, before);
    ServiceImplements(ttl, start, before);
    hide Run, IdealRun, InTime, TimeAfter;
    assert IdealLookupSucceeds(IdealRun(ttl, before), e.token, e.clock);
    LookupFindsIdentity(Run(ttl, before), IdealRun(ttl, before), TimeAfter(start, before), e.token, e.clock);
  }

  lemma CallStaysLive(r: Ideal, ttl: nat, e: Event, call: nat)
    requires call in r.calls && !Cancels(e, r.calls[call].pipelineID) && !Concerns(e, call)
    ensures call in IdealStep(r, ttl, e).calls && IdealStep(r, ttl, e).calls[call] == r.calls[call]
  {
    hide ApplyOps, IdealLookupSucceeds, WithoutTokensOf, Granted;
  }

  /** The simpler machine's calls are exactly those in flight. */
  lemma LiveExactly(ttl: nat, start: int, history: seq<Event>, call: nat, id: StepIdentity)
    requires InTime(start, history)
    ensures InFlight(ttl, history, call, id) <==>
              call in IdealRun(ttl, history).calls && IdealRun(ttl, history).calls[call] == id
  {
    hide Run, IdealRun, InTime, StartedAt, UndisturbedSince;
    if InFlight(ttl, history, call, id) {
      var i: nat :| StartedAt(ttl, history, i, call, id) && UndisturbedSince(history, i, call, id.pipelineID);
      InFlightIsLive(ttl, start, history, i, call, id);
    }
    if call in IdealRun(ttl, history).calls && IdealRun(ttl, history).calls[call] == id {
      var i := LiveIsInFlight(ttl, start, history, call);
    }
  }

  /** A commit changes what consumers read exactly if its call is in flight, and then only in the one table
      of its own pipeline and step. */
  lemma CommitTakesEffectExactly(ttl: nat, start: int, history: seq<Event>, call: nat, ops: seq<OutputOp>,
                                 p: string, producer: string, now: int)
    requires InTime(start, history) && TimeAfter(start, history) <= now
    ensures var before := ValuesAt(Run(ttl, history).state, p, producer, now);
            ValuesAt(Run(ttl, history + [Commit(call, ops)]).state, p, producer, now) ==
            if InFlight(ttl, history, call, StepIdentity(p, producer)) && PipelineLive(Run(ttl, history).state, p, now)
            then ApplyOps(before, ops) else before
  {
    var longer := history + [Commit(call, ops)];
    assert longer[..|longer| - 1] == history;
    SameAnswers(ttl, start, history);
    SameAnswers(ttl, start, longer);
    ServiceImplements(ttl, start, history);
    LaterImplements(Run(ttl, history), IdealRun(ttl, history), TimeAfter(start, history), now);
    LiveExactly(ttl, start, history, call, StepIdentity(p, producer));
    hide Run, InTime, TimeAfter, ValuesAt, LookupSucceeds, ApplyOps, InFlight, Sound, SameTokens, SameCalls;
    assert PipelineLive(Run(ttl, history).state, p, now) <==> TableLive(IdealRun(ttl, history), p, now);
  }

  /** What the commits from `from` on have written to a step, counting only those of calls in flight. */
  ghost function WrittenSince(ttl: nat, history: seq<Event>, from: nat, id: StepIdentity): Values
    decreases |history|
  {
    if |history| <= from then map[]
    else
      var before, e := history[..|history| - 1], history[|history| - 1];
      var values := WrittenSince(ttl, before, from, id);
      if e.Commit? && InFlight(ttl, before, e.call, id) then ApplyOps(values, e.ops) else values
  }

  /** The operations of these commits, in order. */
  ghost function SentSince(ttl: nat, history: seq<Event>, from: nat, id: StepIdentity): seq<seq<OutputOp>>
    decreases |history|
  {
    if |history| <= from then []
    else
      var before, e := history[..|history| - 1], history[|history| - 1];
      var sent := SentSince(ttl, before, from, id);
      if e.Commit? && InFlight(ttl, before, e.call, id) then sent + [e.ops] else sent
  }

  lemma TableAfterStep(r: Ideal, ttl: nat, e: Event, id: StepIdentity)
    requires id.pipelineID in r.tables && !Cancels(e, id.pipelineID)
    ensures id.pipelineID in IdealStep(r, ttl, e).tables
    ensures var values := StepValues(r.tables[id.pipelineID].values, id.step);
            StepValues(IdealStep(r, ttl, e).tables[id.pipelineID].values, id.step) ==
            if e.Commit? && e.call in r.calls && r.calls[e.call] == id then ApplyOps(values, e.ops) else values
  {
    hide ApplyOps, IdealLookupSucceeds, WithoutTokensOf, Granted;
  }

  lemma {:induction false} TableHoldsWritten(ttl: nat, start: int, before: seq<Event>, e: Event, after: seq<Event>,
          id: StepIdentity)
    requires e.Register? && e.pipelineID == id.pipelineID && InTime(start, before + [e] + after)
    requires forall i :: 0 <= i < |after| ==> !Cancels(after[i], id.pipelineID)
    ensures var r := IdealRun(ttl, before + [e] + after);
            && id.pipelineID in r.tables
            && StepValues(r.tables[id.pipelineID].values, id.step) ==
              WrittenSince(ttl, before + [e] + after, |before| + 1, id)
    decreases |after|
  {
    var upTo := before + [e];
    if after == [] {
      assert upTo + [] == upTo;
      LastOf(before, [e]);
    } else {
      var front, last := after[..|after| - 1], after[|after| - 1];
      LastOf(upTo, after);
      var h := upTo + after;
      assert h[..|h| - 1] == upTo + front && h[|h| - 1] == last;
      assert InTime(start, upTo + front);
      hide Cancels;
      TableHoldsWritten(ttl, start, before, e, front, id);
      TableAfterStep(IdealRun(ttl, upTo + front), ttl, last, id);
      if last.Commit? {
        LiveExactly(ttl, start, upTo + front, last.call, id);
      }
      hide InFlight, IdealStep, StepValues, ApplyOps;
    }
  }

  /** What is read after a registration, if it has not expired, is exactly what was written by the commits
      since then whose calls are in flight; and the lookup of each such call followed the registration. */
  lemma ValuesFollowRegistration(ttl: nat, start: int, before: seq<Event>, e: Event, after: seq<Event>,
          producer: string, now: int)
    requires e.Register? && InTime(start, before + [e] + after) && TimeAfter(start, before + [e] + after) <= now
    requires forall i :: 0 <= i < |after| ==> !Cancels(after[i], e.pipelineID)
    ensures var h, id := before + [e] + after, StepIdentity(e.pipelineID, producer);
            && ValuesAt(Run(ttl, h).state, e.pipelineID, producer, now) ==
               (if PipelineLive(Run(ttl, h).state, e.pipelineID, now)
                 then WrittenSince(ttl, h, |before| + 1, id) else map[])
            && forall k: nat, call: nat, i: nat |
                 |before| < k <= |h| && StartedAt(ttl, h[..k], i, call, id) &&
                   UndisturbedSince(h[..k], i, call, e.pipelineID) ::
                 i > |before|
  {
    var h, id := before + [e] + after, StepIdentity(e.pipelineID, producer);
    forall k: nat, call: nat, i: nat |
      |before| < k <= |h| && StartedAt(ttl, h[..k], i, call, id) && UndisturbedSince(h[..k], i, call, e.pipelineID)
      ensures i > |before|
    {
      assert h[..k][|before|] == e;
      assert Cancels(e, e.pipelineID);
    }
    hide *;
    TableHoldsWritten(ttl, start, before, e, after, id);
    SameAnswers(ttl, start, h);
    ServiceImplements(ttl, start, h);
    LaterImplements(Run(ttl, h), IdealRun(ttl, h), TimeAfter(start, h), now);
    ReadFromTable(Run(ttl, h), IdealRun(ttl, h), e.pipelineID, producer, now);
  }

  lemma ReadFromTable(c: Config, r: Ideal, p: string, producer: string, now: int)
    requires Implements(c, r, now)
    ensures PipelineLive(c.state, p, now) ==>
              p in r.tables && IdealValuesAt(r, p, producer, now) == StepValues(r.tables[p].values, producer)
    ensures !PipelineLive(c.state, p, now) ==> IdealValuesAt(r, p, producer, now) == map[]
  {
    hide Sound, SameTokens, SameCalls, StepValues;
    assert PipelineLive(c.state, p, now) <==> TableLive(r, p, now);
  }

  lemma JustStarted(ttl: nat, history: seq<Event>, call: nat, id: StepIdentity)
    requires |history| > 0
    requires var n := |history| - 1;
             && history[n].Lookup? && history[n].call == call
             && LookupSucceeds(Run(ttl, history[..n]).state, history[n].token, history[n].clock)
             && Run(ttl, history[..n]).state.tokens[history[n].token].value == id
    ensures StartedAt(ttl, history, |history| - 1, call, id)
    ensures UndisturbedSince(history, |history| - 1, call, id.pipelineID)
  {
    hide Run, LookupSucceeds;
  }

  lemma StillUndisturbed(ttl: nat, history: seq<Event>, i: nat, call: nat, id: StepIdentity)
    requires |history| > 0
    requires var before, e := history[..|history| - 1], history[|history| - 1];
             && StartedAt(ttl, before, i, call, id) && UndisturbedSince(before, i, call, id.pipelineID)
             && !Cancels(e, id.pipelineID) && !Concerns(e, call)
    ensures StartedAt(ttl, history, i, call, id) && UndisturbedSince(history, i, call, id.pipelineID)
  {
    hide Run, LookupSucceeds, Cancels, Concerns;
    assert history[..|history| - 1][..i] == history[..i];
  }

  lemma LookupMadeLive(ttl: nat, start: int, before: seq<Event>, e: Event)
    requires InTime(start, before) && e.Lookup? && OnTime(e, TimeAfter(start, before))
    requires e.call in IdealStep(IdealRun(ttl, before), ttl, e).calls
    ensures var s := Run(ttl, before).state;
            && LookupSucceeds(s, e.token, e.clock)
            && s.tokens[e.token].value == IdealStep(IdealRun(ttl, before), ttl, e).calls[e.call]
  {
    SameAnswers(ttl, start, before);
    ServiceImplements(ttl, start, before);
    hide Run, IdealRun, InTime, TimeAfter;
    LookupFindsIdentity(Run(ttl, before), IdealRun(ttl, before), TimeAfter(start, before), e.token, e.clock);
  }

  lemma LookupFindsIdentity(c: Config, r: Ideal, now: int, token: string, clock: Clock)
    requires Implements(c, r, now) && now <= clock.token && TokenLive(r.tokens, token, clock.token)
    ensures token in c.state.tokens && c.state.tokens[token].value == r.tokens[token].value
  {
    hide Sound, SamePipelines, SameCalls;
    assert TokenLive(r.tokens, token, now);
  }

  lemma CallWasLive(r: Ideal, ttl: nat, e: Event, call: nat)
    requires call in IdealStep(r, ttl, e).calls && !(e.Lookup? && e.call == call)
    ensures call in r.calls && r.calls[call] == IdealStep(r, ttl, e).calls[call]
    ensures !Cancels(e, r.calls[call].pipelineID) && !Concerns(e, call)
  {
  }

  // -- Tokens

  /** Every token's pipeline is there and expires no earlier, and no token outlives the renewal period. */
  ghost predicate TokensBacked(r: Ideal, ttl: nat, now: int) {
    forall token :: token in r.tokens ==>
      && r.tokens[token].value.pipelineID in r.tables
      && r.tokens[token].expiresAt <= r.tables[r.tokens[token].value.pipelineID].expiresAt
      && r.tokens[token].expiresAt <= now + ttl
  }

  lemma TokensStayBacked(r: Ideal, ttl: nat, now: int, e: Event)
    requires TokensBacked(r, ttl, now) && OnTime(e, now)
    ensures TokensBacked(IdealStep(r, ttl, e), ttl, TimeOf(e, now))
  {
    hide ApplyOps;
  }

  lemma {:induction false} IdealTokensBacked(ttl: nat, start: int, history: seq<Event>)
    requires InTime(start, history)
    ensures TokensBacked(IdealRun(ttl, history), ttl, TimeAfter(start, history))
    decreases |history|
  {
    if history == [] {
    } else {
      var before := history[..|history| - 1];
      IdealTokensBacked(ttl, start, before);
      TokensStayBacked(IdealRun(ttl, before), ttl, TimeAfter(start, before), history[|history| - 1]);
    }
  }

  /** In every reachable state the pipeline of a token that has not expired is present, and expires no
      earlier than the token; so the lookup of such a token can only fail if time runs out between its
      two checks. */
  lemma TokenInvariant(ttl: nat, start: int, history: seq<Event>, token: string, now: int)
    requires InTime(start, history) && TimeAfter(start, history) <= now
    requires TokenLive(Run(ttl, history).state.tokens, token, now)
    ensures var s := Run(ttl, history).state;
            var p := s.tokens[token].value.pipelineID;
            && p in s.pipelines && s.tokens[token].expiresAt <= s.pipelines[p].expiresAt
            && forall clock: Clock :: now <= clock.token <= clock.pipeline <= s.tokens[token].expiresAt ==>
              LookupSucceeds(s, token, clock)
  {
    ServiceImplements(ttl, start, history);
    IdealTokensBacked(ttl, start, history);
    var c, r := Run(ttl, history), IdealRun(ttl, history);
    LaterImplements(c, r, TimeAfter(start, history), now);
    hide *;
    LiveTokenBacked(c, r, ttl, TimeAfter(start, history), token, now);
  }

  lemma LiveTokenBacked(c: Config, r: Ideal, ttl: nat, at: int, token: string, now: int)
    requires Implements(c, r, now) && TokensBacked(r, ttl, at) && TokenLive(c.state.tokens, token, now)
    ensures var s := c.state;
            var p := s.tokens[token].value.pipelineID;
            && p in s.pipelines && s.tokens[token].expiresAt <= s.pipelines[p].expiresAt
            && forall clock: Clock :: now <= clock.token <= clock.pipeline <= s.tokens[token].expiresAt ==>
              LookupSucceeds(s, token, clock)
  {
    hide Sound, SameCalls;
    assert TokenLive(r.tokens, token, now);
    var p := r.tokens[token].value.pipelineID;
    assert TableLive(r, p, now);
    assert PipelineLive(c.state, p, now);
    hide SameTokens, SamePipelines, TokensBacked;
  }

  /** The token stands for the identity, and neither it nor its pipeline expires before `until`. */
  ghost predicate Holds(r: Ideal, token: string, id: StepIdentity, until: int) {
    && token in r.tokens && r.tokens[token].value == id && until <= r.tokens[token].expiresAt
    && id.pipelineID in r.tables && until <= r.tables[id.pipelineID].expiresAt
  }

  /** The event ends the life of a token: its pipeline is deleted, or the token is given away. */
  predicate Ends(e: Event, token: string, p: string) {
    (e.Delete? && e.pipelineID == p) || (e.Register? && token in e.grants)
  }

  lemma StillHolds(r: Ideal, ttl: nat, now: int, e: Event, token: string, id: StepIdentity, until: int)
    requires Holds(r, token, id, until) && OnTime(e, now) && until <= now + ttl && !Ends(e, token, id.pipelineID)
    ensures Holds(IdealStep(r, ttl, e), token, id, until)
  {
    hide ApplyOps;
  }

  lemma {:induction false} HoldsOn(ttl: nat, start: int, before: seq<Event>, after: seq<Event>, token: string,
          id: StepIdentity, until: int)
    requires InTime(start, before + after) && Holds(IdealRun(ttl, before), token, id, until)
    requires until <= TimeAfter(start, before) + ttl
    requires forall i :: 0 <= i < |after| ==> !Ends(after[i], token, id.pipelineID)
    ensures Holds(IdealRun(ttl, before + after), token, id, until)
    decreases |after|
  {
    if after == [] {
      assert before + [] == before;
    } else {
      var front := after[..|after| - 1];
      LastOf(before, after);
      HoldsOn(ttl, start, before, front, token, id, until);
      TimePasses(start, before, front);
      StillHolds(IdealRun(ttl, before + front), ttl, TimeAfter(start, before + front), after[|after| - 1], token, id,
        until);
    }
  }

  /** A token that was used successfully keeps working for the whole renewal period after that, through
      every interleaving of other calls, registrations and collections, unless its pipeline is deleted or
      the token is given to another step. */
  lemma TokenLifetime(ttl: nat, start: int, before: seq<Event>, e: Event, after: seq<Event>, later: Clock)
    requires e.Lookup? && InTime(start, before + [e] + after)
    requires LookupSucceeds(Run(ttl, before).state, e.token, e.clock)
    requires var p := Run(ttl, before).state.tokens[e.token].value.pipelineID;
             forall i :: 0 <= i < |after| ==> !Ends(after[i], e.token, p)
    requires TimeAfter(start, before + [e] + after) <= later.token <= later.pipeline <= e.clock.stamp + ttl
    ensures LookupSucceeds(Run(ttl, before + [e] + after).state, e.token, later)
  {
    var upTo := before + [e];
    TimePasses(start, upTo, after);
    TimePasses(start, before, [e]);
    LastOf(before, [e]);
    assert upTo[..|upTo| - 1] == before && upTo[|upTo| - 1] == e;
    SameAnswers(ttl, start, before);
    ServiceImplements(ttl, start, before);
    LookupFindsIdentity(Run(ttl, before), IdealRun(ttl, before), TimeAfter(start, before), e.token, e.clock);
    var id := Run(ttl, before).state.tokens[e.token].value;
    assert Holds(IdealRun(ttl, upTo), e.token, id, e.clock.stamp + ttl);
    HoldsOn(ttl, start, upTo, after, e.token, id, e.clock.stamp + ttl);
    SameAnswers(ttl, start, upTo + after);
    hide Run, IdealRun, InTime, TimeAfter, LookupSucceeds;
  }

  // -- What expires, and what the collector leaves

  /** No pipeline outlives the renewal period. */
  ghost predicate TablesBounded(r: Ideal, ttl: nat, now: int) {
    forall p :: p in r.tables ==> r.tables[p].expiresAt <= now + ttl
  }

  lemma {:induction false} IdealTablesBounded(ttl: nat, start: int, history: seq<Event>)
    requires InTime(start, history)
    ensures TablesBounded(IdealRun(ttl, history), ttl, TimeAfter(start, history))
    decreases |history|
  {
    if history == [] {
    } else {
      hide ApplyOps, Granted, WithoutTokensOf, Cancelled, IdealLookupSucceeds;
      IdealTablesBounded(ttl, start, history[..|history| - 1]);
    }
  }

  /** The event uses the token or gives it to somebody. */
  predicate Renews(e: Event, token: string) {
    (e.Lookup? && e.token == token) || (e.Register? && token in e.grants)
  }

  lemma TokenNotRenewed(r: Ideal, ttl: nat, e: Event, token: string)
    requires !Renews(e, token)
    ensures var t := IdealStep(r, ttl, e).tokens; token in t ==> token in r.tokens && t[token] == r.tokens[token]
  {
    hide ApplyOps, Cancelled;
  }

  lemma {:induction false} TokenAges(ttl: nat, start: int, before: seq<Event>, after: seq<Event>, token: string)
    requires InTime(start, before + after) && forall i :: 0 <= i < |after| ==> !Renews(after[i], token)
    ensures var r := IdealRun(ttl, before + after);
            token in r.tokens ==> r.tokens[token].expiresAt <= TimeAfter(start, before) + ttl
    decreases |after|
  {
    if after == [] {
      assert before + [] == before;
      IdealTokensBacked(ttl, start, before);
    } else {
      hide IdealStep, Renews;
      var front := after[..|after| - 1];
      LastOf(before, after);
      TokenAges(ttl, start, before, front, token);
      TokenNotRenewed(IdealRun(ttl, before + front), ttl, after[|after| - 1], token);
    }
  }

  /** A token that is neither used nor granted for longer than the renewal period stops working. */
  lemma TokenExpires(ttl: nat, start: int, before: seq<Event>, after: seq<Event>, token: string, later: Clock)
    requires InTime(start, before + after) && forall i :: 0 <= i < |after| ==> !Renews(after[i], token)
    requires TimeAfter(start, before + after) <= later.token <= later.pipeline
    requires TimeAfter(start, before) + ttl < later.token
    ensures !LookupSucceeds(Run(ttl, before + after).state, token, later)
  {
    TokenAges(ttl, start, before, after, token);
    SameAnswers(ttl, start, before + after);
    hide Run, IdealRun, InTime, TimeAfter, ValuesAt, LookupSucceeds;
  }

  /** The event uses one of the pipeline's tokens or registers the pipeline. */
  ghost predicate Touches(s: State, e: Event, p: string) {
    (e.Lookup? && LookupSucceeds(s, e.token, e.clock) && s.tokens[e.token].value.pipelineID == p) || Registers(e, p)
  }

  lemma TableNotRenewed(c: Config, r: Ideal, ttl: nat, now: int, e: Event, p: string)
    requires Implements(c, r, now) && OnTime(e, now) && !Touches(c.state, e, p)
    ensures var t := IdealStep(r, ttl, e).tables;
            p in t ==> p in r.tables && t[p].expiresAt == r.tables[p].expiresAt
  {
    if e.Lookup? {
      LookupsAgree(c, r, now, e.token, e.clock);
      if IdealLookupSucceeds(r, e.token, e.clock) {
        LookupFindsIdentity(c, r, now, e.token, e.clock);
      }
    }
    hide ApplyOps, Cancelled, Sound, SameTokens, SamePipelines, SameCalls, Granted, WithoutTokensOf;
  }

  lemma {:induction false} TableAges(ttl: nat, start: int, before: seq<Event>, after: seq<Event>, p: string)
    requires InTime(start, before + after)
    requires forall i :: 0 <= i < |after| ==> !Touches(Run(ttl, before + after[..i]).state, after[i], p)
    ensures var r := IdealRun(ttl, before + after);
            p in r.tables ==> r.tables[p].expiresAt <= TimeAfter(start, before) + ttl
    decreases |after|
  {
    if after == [] {
      assert before + [] == before;
      IdealTablesBounded(ttl, start, before);
    } else {
      hide Run, IdealStep, Touches, Implements;
      var n := |after| - 1;
      var front := after[..n];
      LastOf(before, after);
      assert forall i :: 0 <= i < n ==> front[..i] == after[..i] && front[i] == after[i];
      TableAges(ttl, start, before, front, p);
      ServiceImplements(ttl, start, before + front);
      TableNotRenewed(Run(ttl, before + front), IdealRun(ttl, before + front), ttl,
        TimeAfter(start, before + front), after[n], p);
    }
  }

  /** A pipeline that is neither registered nor written to for longer than the renewal period reads as empty. */
  lemma PipelineExpires(ttl: nat, start: int, before: seq<Event>, after: seq<Event>, p: string, producer: string,
          now: int)
    requires InTime(start, before + after)
    requires forall i :: 0 <= i < |after| ==> !Touches(Run(ttl, before + after[..i]).state, after[i], p)
    requires TimeAfter(start, before + after) <= now && TimeAfter(start, before) + ttl < now
    ensures ValuesAt(Run(ttl, before + after).state, p, producer, now) == map[]
    ensures forall key :: ResolvedAt(Run(ttl, before + after).state, p, producer, key, now) == Ok(None)
  {
    TableAges(ttl, start, before, after, p);
    SameAnswers(ttl, start, before + after);
    hide Run, IdealRun, InTime, TimeAfter, ValuesAt, LookupSucceeds, Touches;
  }

  /** A collection leaves exactly the entries that have not reached the end of their time. */
  lemma CollectionLeavesLive(ttl: nat, before: seq<Event>, now: int)
    ensures var s, t := Run(ttl, before).state, Run(ttl, before + [Prune(now)]).state;
            && (forall token :: token in t.tokens <==> token in s.tokens && now <= s.tokens[token].expiresAt)
            && (forall token :: token in t.tokens ==> t.tokens[token] == s.tokens[token])
            && (forall p :: p in t.pipelines <==> p in s.pipelines && now <= s.pipelines[p].expiresAt)
            && (forall p :: p in t.pipelines ==> t.pipelines[p] == s.pipelines[p]) && t.objects == s.objects
  {
    LastOf(before, [Prune(now)]);
    assert before + [] == before;
    assert [Prune(now)][..0] == [];
  }

  /** A lookup that fails leaves no expired entry behind: the token is gone or its pipeline is. */
  lemma FailedLookupRemoves(s: State, ttl: nat, token: string, clock: Clock)
    requires !LookupSucceeds(s, token, clock)
    ensures var t := LookedUp(s, ttl, token, clock);
            token in t.tokens ==> t.tokens[token].value.pipelineID !in t.pipelines
    ensures var t := LookedUp(s, ttl, token, clock);
            t.objects == s.objects && t.tokens.Keys <= s.tokens.Keys && t.pipelines.Keys <= s.pipelines.Keys
  {
  }
}
