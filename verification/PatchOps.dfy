/** A patch as a list of operations, and the loop that applies them in the service
    (`internal/stepoutput/ops.go`, `internal/outputservice/service.go`). */
module PatchOps {
  import opened Wrappers
  import opened Text
  import opened Keys
  import opened Patches
  import opened OutputProto

  // ---------------------------------------------------------------------------------------------
  // From a patch to operations
  // ---------------------------------------------------------------------------------------------

  function OpOf(key: string, value: Option<string>): OutputOp {
    OutputOp(if value.Some? then OP_SET else OP_UNSET, key, value)
  }

  /** The list has exactly one operation for every entry of the patch, in some order. */
  ghost predicate OpsOf(patch: Patch, ops: seq<OutputOp>) {
    && (forall i :: 0 <= i < |ops| ==> ops[i].key in patch && ops[i] == OpOf(ops[i].key, patch[ops[i].key]))
    && (forall i, j :: 0 <= i < j < |ops| ==> ops[i].key != ops[j].key)
    && (forall k :: k in patch ==> exists i :: 0 <= i < |ops| && ops[i].key == k)
  }

  /** Lists the entries in whatever order they come. */
  method PatchToOps(patch: Patch) returns (ops: seq<OutputOp>)
    ensures OpsOf(patch, ops)
  {
    ops := [];
    var keys := patch.Keys;
    while keys != {}
      invariant keys <= patch.Keys
      invariant OpsOf(map k | k in patch && k !in keys :: patch[k], ops)
      decreases keys
    {
      var key :| key in keys;
      ghost var before := map k | k in patch && k !in keys :: patch[k];
      keys := keys - {key};
      assert (map k | k in patch && k !in keys :: patch[k]) == before[key := patch[key]];
      OpsOfOneMore(before, ops, key, patch[key]);
      ops := ops + [OpOf(key, patch[key])];
    }
    assert (map k | k in patch && k !in keys :: patch[k]) == patch;
  }

  lemma OpsOfOneMore(patch: Patch, ops: seq<OutputOp>, key: string, value: Option<string>)
    requires OpsOf(patch, ops) && key !in patch
    ensures OpsOf(patch[key := value], ops + [OpOf(key, value)])
  {
    var more := ops + [OpOf(key, value)];
    forall k | k == key || k in patch ensures exists i :: 0 <= i < |more| && more[i].key == k {
      if k == key {
        assert more[|ops|].key == k;
      } else {
        var i :| 0 <= i < |ops| && ops[i].key == k;
        assert more[i].key == k;
      }
    }
  }

  // ---------------------------------------------------------------------------------------------
  // The service's loop
  // ---------------------------------------------------------------------------------------------

  function ApplyOp(values: Values, op: OutputOp): Values {
    if op.value.Some? then values[op.key := op.value.value] else Without(values, op.key)
  }

  /** The values after the operations up to the first one with an error. */
  function ApplyOps(values: Values, ops: seq<OutputOp>): Values
    decreases |ops|
  {
    if ops == [] || !ops[0].Validate() then values else ApplyOps(ApplyOp(values, ops[0]), ops[1..])
  }

  predicate AllValid(ops: seq<OutputOp>) {
    forall i :: 0 <= i < |ops| ==> ops[i].Validate()
  }

  /** The loop stops early exactly when some operation has an error, and then keeps what it did. */
  method ApplyAll(values: Values, ops: seq<OutputOp>) returns (ok: bool, r: Values)
    ensures ok == AllValid(ops)
    ensures r == ApplyOps(values, ops)
  {
    r := values;
    for i := 0 to |ops|
      invariant forall j :: 0 <= j < i ==> ops[j].Validate()
      invariant ApplyOps(values, ops) == ApplyOps(r, ops[i..])
    {
      hide Covers, OutputOp.Validate;
      var op := ops[i];
      assert ops[i..][1..] == ops[i + 1..];
      if !op.Validate() {
        return false, r;
      }
      ghost var before := r;
      if op.op == OP_SET {
        ValidHasKind(op);
        r := r[op.key := op.value.value];
      } else {
        ValidHasKind(op);
        r := r - {op.key};
        var keys := r.Keys;
        while keys != {}
          invariant keys <= before.Keys
          invariant r == map k | k in before && k != op.key && (k in keys || !Covers(op.key, k)) :: before[k]
          decreases keys
        {
          var key :| key in keys;
          keys := keys - {key};
          if Covers(op.key, key) {
            r := r - {key};
          }
        }
        assert Covers(op.key, op.key) by { CoversItself(op.key); }
        assert r == Without(before, op.key);
      }
      assert r == ApplyOp(before, op);
    }
    ok := true;
  }

  lemma CoversItself(key: string)
    ensures Covers(key, key)
  {
  }

  lemma ValidHasKind(op: OutputOp)
    requires op.Validate()
    ensures (op.op == OP_SET <==> op.value.Some?) && (op.op == OP_UNSET <==> op.value.None?)
  {
  }

  // ---------------------------------------------------------------------------------------------
  // The order of the operations
  // ---------------------------------------------------------------------------------------------

  /** No key is blank, so that no operation has an error. */
  predicate NoBlankKey(patch: Patch) {
    forall k :: k in patch ==> TrimSpace(k) != ""
  }

  lemma OpsAreValid(patch: Patch, ops: seq<OutputOp>)
    requires OpsOf(patch, ops) && NoBlankKey(patch)
    ensures AllValid(ops)
  {
    hide TrimSpace;
  }

  /** The service's door lets a request with the operations of a patch pass exactly if it carries a token,
      the patch is not empty and no key is blank; then the loop never stops part-way. */
  lemma RequestPassesExactly(patch: Patch, ops: seq<OutputOp>, version: int, token: string)
    requires OpsOf(patch, ops)
    ensures Request(version, token, ops).Validate() <==>
            version == VERSION && TrimSpace(token) != "" && patch != map[] && NoBlankKey(patch)
    ensures Request(version, token, ops).Validate() ==> AllValid(ops)
  {
    hide TrimSpace;
    if |ops| != 0 {
      assert ops[0].key in patch;
    }
    if AllValid(ops) {
      forall k | k in patch ensures TrimSpace(k) != "" {
        var i :| 0 <= i < |ops| && ops[i].key == k;
        assert ops[i].Validate();
      }
    }
  }

  lemma {:induction false} ApplyLast(values: Values, ops: seq<OutputOp>, op: OutputOp)
    requires AllValid(ops) && op.Validate()
    ensures ApplyOps(values, ops + [op]) == ApplyOp(ApplyOps(values, ops), op)
    decreases |ops|
  {
    hide ApplyOp, OutputOp.Validate;
    if ops == [] {
      assert ([] + [op])[1..] == [];
      assert ApplyOps(ApplyOp(values, op), []) == ApplyOp(values, op);
    } else {
      assert (ops + [op])[1..] == ops[1..] + [op];
      ApplyLast(ApplyOp(values, ops[0]), ops[1..], op);
    }
  }

  lemma OpsOfOneLess(patch: Patch, ops: seq<OutputOp>)
    requires OpsOf(patch, ops) && |ops| > 0
    ensures var last := ops[|ops| - 1];
            && last.key in patch && last == OpOf(last.key, patch[last.key])
            && OpsOf(patch - {last.key}, ops[..|ops| - 1])
            && patch == (patch - {last.key})[last.key := patch[last.key]]
  {
    var n, last := |ops| - 1, ops[|ops| - 1];
    var less := patch - {last.key};
    hide OpOf;
    assert last.key in patch && last == OpOf(last.key, patch[last.key]);
    forall k | k in less ensures exists i :: 0 <= i < n && ops[..n][i].key == k {
      var i :| 0 <= i < |ops| && ops[i].key == k;
      assert ops[..n][i].key == k;
    }
    forall i | 0 <= i < n
      ensures ops[..n][i].key in less && ops[..n][i] == OpOf(ops[..n][i].key, less[ops[..n][i].key])
    {
      assert ops[i].key != last.key && ops[i].key in patch;
    }
    forall i, j | 0 <= i < j < n ensures ops[..n][i].key != ops[..n][j].key {
      assert ops[i].key != ops[j].key;
    }
  }

  /** In whatever order the entries of a patch are listed, applying them does what the patch is meant
      to do, provided no unset key is an ancestor of a set one. */
  lemma {:induction false} AnyOrderMerges(values: Values, patch: Patch, ops: seq<OutputOp>)
    requires OpsOf(patch, ops) && NoBlankKey(patch) && NoUnsetAboveSet(patch)
    ensures ApplyOps(values, ops) == Merged(values, patch)
    decreases |ops|
  {
    if |ops| == 0 {
      assert patch == map[];
    } else {
      hide TrimSpace, Above, Merged, Without;
      var last, front := ops[|ops| - 1], ops[..|ops| - 1];
      var less := patch - {last.key};
      OpsOfOneLess(patch, ops);
      OpsAreValid(patch, ops);
      assert ops == front + [last];
      assert AllValid(front) && last.Validate();
      ApplyLast(values, front, last);
      AnyOrderMerges(values, less, front);
      match last.value {
        case Some(v) => MergedSet(values, less, last.key, v);
        case None =>
          assert forall s :: s in less && SetIn(less, s) ==> SetIn(patch, s) && UnsetIn(patch, last.key);
          MergedUnset(values, less, last.key);
      }
    }
  }

  lemma {:induction false} OpsExist(patch: Patch) returns (ops: seq<OutputOp>)
    ensures OpsOf(patch, ops)
    decreases |patch|
  {
    if patch == map[] {
      ops := [];
    } else {
      var k :| k in patch;
      ops := OpsExist(patch - {k});
      OpsOfOneMore(patch - {k}, ops, k, patch[k]);
      assert (patch - {k})[k := patch[k]] == patch;
      ops := ops + [OpOf(k, patch[k])];
    }
  }

  /** If an unset key is an ancestor of a set one, the order that unsets it last loses the set value. */
  lemma ConflictingOrder(values: Values, patch: Patch, u: string, s: string) returns (ops: seq<OutputOp>)
    requires NoBlankKey(patch) && UnsetIn(patch, u) && SetIn(patch, s) && Above(u, s)
    ensures OpsOf(patch, ops) && s !in ApplyOps(values, ops) && s in Merged(values, patch)
  {
    assert Covers(u, s);
    hide TrimSpace, Above, Covers;
    var front := OpsExist(patch - {u});
    OpsOfOneMore(patch - {u}, front, u, None);
    assert (patch - {u})[u := None] == patch;
    ops := front + [OpOf(u, None)];
    OpsAreValid(patch, ops);
    assert AllValid(front) by {
      assert forall i :: 0 <= i < |front| ==> ops[i] == front[i];
    }
    assert ops[|front|].Validate();
    ApplyLast(values, front, OpOf(u, None));
  }

  /** Every order of the operations does what the patch is meant to do exactly when no unset key is an
      ancestor of a set one. */
  lemma OrderIndependentExactly(values: Values, patch: Patch)
    requires NoBlankKey(patch)
    ensures (forall ops :: OpsOf(patch, ops) ==> ApplyOps(values, ops) == Merged(values, patch)) <==>
              NoUnsetAboveSet(patch)
  {
    hide TrimSpace, Above, Merged, OpsOf, ApplyOps;
    if NoUnsetAboveSet(patch) {
      forall ops | OpsOf(patch, ops) ensures ApplyOps(values, ops) == Merged(values, patch) {
        AnyOrderMerges(values, patch, ops);
      }
    } else {
      var u, s :| u in patch && s in patch && UnsetIn(patch, u) && SetIn(patch, s) && Above(u, s);
      var ops := ConflictingOrder(values, patch, u, s);
    }
  }
}
