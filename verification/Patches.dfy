/** Patches of the stored outputs, and what applying one is meant to do. */
module Patches {
  import opened Wrappers
  import opened Keys

  type Values = map<string, string>

  /** For each affected key its new value, or nothing if the key is to be unset. */
  type Patch = map<string, Option<string>>

  predicate SetIn(patch: Patch, key: string) {
    key in patch && patch[key].Some?
  }

  predicate UnsetIn(patch: Patch, key: string) {
    key in patch && patch[key].None?
  }

  /** The patch unsets the key or one of its dotted ancestors. */
  predicate Removed(patch: Patch, key: string) {
    exists u :: u in patch && UnsetIn(patch, u) && Covers(u, key)
  }

  /** The values the patch sets. */
  function Sets(patch: Patch): Values {
    map k | k in patch && SetIn(patch, k) :: patch[k].value
  }

  /** What applying a patch is meant to do: unset keys go, with all their descendants, then the set
      keys get their values; everything else stays. */
  function Merged(prior: Values, patch: Patch): Values {
    (map k | k in prior && !Removed(patch, k) :: prior[k]) + Sets(patch)
  }

  /** The values without a key and its descendants. */
  function Without(values: Values, key: string): Values {
    map k | k in values && !Covers(key, k) :: values[k]
  }

  /** No key that is unset is a dotted ancestor of a key that is set. */
  predicate NoUnsetAboveSet(patch: Patch) {
    forall u, s :: u in patch && s in patch && UnsetIn(patch, u) && SetIn(patch, s) ==> !Above(u, s)
  }

  /** No key is a dotted ancestor of another one. */
  predicate Antichain(keys: set<string>) {
    forall a, b :: a in keys && b in keys ==> !Above(a, b)
  }

  // ---------------------------------------------------------------------------------------------
  // One more entry
  // ---------------------------------------------------------------------------------------------

  lemma RemovedOneMore(patch: Patch, key: string, value: Option<string>, k: string)
    requires key !in patch
    ensures Removed(patch[key := value], k) <==> Removed(patch, k) || (value.None? && Covers(key, k))
  {
    hide Covers;
    var more := patch[key := value];
    assert value.None? ==> UnsetIn(more, key);
    if Removed(patch, k) {
      var u :| u in patch && UnsetIn(patch, u) && Covers(u, k);
      assert UnsetIn(more, u);
    }
    if Removed(more, k) {
      var u :| u in more && UnsetIn(more, u) && Covers(u, k);
      assert u != key ==> UnsetIn(patch, u);
    }
  }

  /** What a single key becomes. */
  lemma MergedAt(prior: Values, patch: Patch, k: string)
    ensures k in Merged(prior, patch) <==> SetIn(patch, k) || (k in prior && !Removed(patch, k))
    ensures SetIn(patch, k) ==> Merged(prior, patch)[k] == patch[k].value
    ensures k in prior && !Removed(patch, k) && !SetIn(patch, k) ==> Merged(prior, patch)[k] == prior[k]
  {
    hide Removed;
  }

  lemma MergedSet(prior: Values, patch: Patch, key: string, value: string)
    requires key !in patch
    ensures Merged(prior, patch[key := Some(value)]) == Merged(prior, patch)[key := value]
  {
    hide Removed, Covers, Merged;
    var more := patch[key := Some(value)];
    forall k
      ensures k in Merged(prior, more) <==> k == key || k in Merged(prior, patch)
      ensures k in Merged(prior, more) ==> Merged(prior, more)[k] == if k == key then value else Merged(prior, patch)[k]
    {
      RemovedOneMore(patch, key, Some(value), k);
      MergedAt(prior, more, k);
      MergedAt(prior, patch, k);
    }
  }

  lemma MergedUnset(prior: Values, patch: Patch, key: string)
    requires key !in patch
    requires forall s :: s in patch && SetIn(patch, s) ==> !Above(key, s)
    ensures Merged(prior, patch[key := None]) == Without(Merged(prior, patch), key)
  {
    hide Removed, Above, Merged;
    var more := patch[key := None];
    forall k
      ensures k in Merged(prior, more) <==> k in Merged(prior, patch) && !Covers(key, k)
      ensures k in Merged(prior, more) ==> Merged(prior, more)[k] == Merged(prior, patch)[k]
    {
      RemovedOneMore(patch, key, None, k);
      MergedAt(prior, more, k);
      MergedAt(prior, patch, k);
    }
  }
}
