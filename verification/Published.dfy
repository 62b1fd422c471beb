/** What a step publishes and what a consumer reads: structured values are flattened to patches, patches
    are stored through either transport, and values are read back by key. */
module Published {
  import opened Wrappers
  import opened Text
  import opened Keys
  import opened Patches
  import opened Directory
  import opened OutputProto
  import opened PatchOps
  import opened Lookup
  import opened Flatten
  import opened Flattened
  import opened Backends

  // ---------------------------------------------------------------------------------------------
  // Flattened values are stored the same way by both transports
  // ---------------------------------------------------------------------------------------------

  /** No map key is `tmp`. */
  ghost predicate TmpFree(v: Value)
    decreases v
  {
    forall k :: k in ChildrenOf(v) ==> (!v.List? ==> k != "tmp") && TmpFree(ChildrenOf(v)[k])
  }

  /** A key that ends in a dot-free segment ends in `.tmp` only if that segment is `tmp`. */
  lemma LastSegmentTmp(key: string, last: string)
    requires '.' !in last
    ensures EndsInTmp(key + "." + last) ==> last == "tmp"
  {
    var whole := key + "." + last;
    assert whole[|key|] == '.' && forall j :: |key| < j < |whole| ==>
      whole[j] == last[j - |key| - 1] && whole[j] in last;
    if EndsInTmp(whole) {
      EndOfTmp(whole);
      var start := |whole| - 4;
      assert start == |key|;
      assert last == whole[start + 1..];
    }
  }

  lemma EndOfTmp(s: string)
    requires EndsInTmp(s)
    ensures s[|s| - 4] == '.' && s[|s| - 3] == 't' && s[|s| - 2] == 'm' && s[|s| - 1] == 'p' && s[|s| - 3..] == "tmp"
  {
    var tail := s[|s| - 4..];
    assert tail[0] == '.' && tail[1] == 't' && tail[2] == 'm' && tail[3] == 'p' && s[|s| - 3..] == tail[1..];
  }

  lemma {:induction false} LeafKeyNoTmp(prefix: string, v: Value, path: seq<string>)
    requires !EndsInTmp(prefix) && DotFree(v) && TmpFree(v) && LeafAt(v, path).Some?
    ensures !EndsInTmp(KeyOf(prefix, path))
    decreases v
  {
    if path == [] {
      assert KeyOf(prefix, []) == prefix;
    } else {
      var k := path[0];
      if v.List? {
        var i := ByIndexOnly(v.items, k);
        assert k[0] in k && IsDigit(k[0]);
      }
      hide ChildrenOf, EndsInTmp, KeyOf;
      LastSegmentTmp(prefix, k);
      LeafKeyNoTmp(prefix + "." + k, ChildrenOf(v)[k], path[1..]);
      LeafOfChild(prefix, v, k, path[1..]);
      assert path == [k] + path[1..];
    }
  }

  /** A flattened value whose map keys contain no dot and are not `tmp` gives an orderly patch. */
  lemma FlattenedIsOrderly(prefix: string, v: Value, patch: Patch)
    requires ValidKey(prefix) && !EndsInTmp(prefix) && Flattenable(v) && DotFree(v) && TmpFree(v)
    requires Walk(map[], prefix, v, patch)
    ensures Orderly(patch)
  {
    FlattenedExactly(prefix, v, patch);
    hide LeafAt, ValidKey, Flattenable, DotFree, TmpFree, KeyOf, Walk, Above, EndsInTmp;
    forall k | k in patch ensures !EndsInTmp(k) {
      var path :| LeafAt(v, path).Some? && KeyOf(prefix, path) == k;
      LeafKeyNoTmp(prefix, v, path);
    }
  }

  /** Such a value is stored the same way by both transports, in whatever order flattening meets the map
      entries and the service gets the operations: each leaf under its own key, and no null under its. */
  lemma SettingAgrees(values: Values, prefix: string, v: Value, patch: Patch, ops: seq<OutputOp>)
    requires StoredWell(values) && ValidKey(prefix) && !EndsInTmp(prefix)
    requires Flattenable(v) && DotFree(v) && TmpFree(v)
    requires Walk(map[], prefix, v, patch) && OpsOf(patch, ops)
    ensures Patched(values, patch) == ApplyOps(values, ops) && StoredWell(ApplyOps(values, ops))
    ensures forall path :: LeafAt(v, path).Some? && LeafAt(v, path).value.Some? ==>
              KeyOf(prefix, path) in ApplyOps(values, ops) &&
                ApplyOps(values, ops)[KeyOf(prefix, path)] == LeafAt(v, path).value.value
    ensures forall path :: LeafAt(v, path) == Some(None) ==> KeyOf(prefix, path) !in ApplyOps(values, ops)
    ensures forall path, text :: ValueAt(v, path) == Some(Scalar(text)) ==>
              Resolved(ApplyOps(values, ops), KeyOf(prefix, path)) == Ok(Some(text))
  {
    FlattenedIsOrderly(prefix, v, patch);
    FlattenedExactly(prefix, v, patch);
    OrderlyStep(values, patch, ops);
    ValidIsNotBlank(patch);
    AnyOrderMerges(values, patch, ops);
    hide *;
    forall path | LeafAt(v, path).Some?
      ensures SetIn(patch, KeyOf(prefix, path)) <==> LeafAt(v, path).value.Some?
      ensures UnsetIn(patch, KeyOf(prefix, path)) <==> LeafAt(v, path).value.None?
      ensures KeyOf(prefix, path) in patch && patch[KeyOf(prefix, path)] == LeafAt(v, path).value
    {
      Kind(patch, KeyOf(prefix, path));
    }
    forall k | UnsetIn(patch, k) ensures k !in Merged(values, patch) {
      UnsetIsGone(values, patch, k);
    }
    forall k | SetIn(patch, k) ensures k in Merged(values, patch) && Some(Merged(values, patch)[k]) == patch[k] {
      SetIsThere(values, patch, k);
    }
    forall path, text | ValueAt(v, path) == Some(Scalar(text))
      ensures Resolved(ApplyOps(values, ops), KeyOf(prefix, path)) == Ok(Some(text))
    {
      LeafAtExactly(v, path);
      assert LeafAt(v, path) == Some(Some(text));
      StoredIsFound(ApplyOps(values, ops), KeyOf(prefix, path));
    }
  }

  lemma Kind(patch: Patch, key: string)
    requires key in patch
    ensures (SetIn(patch, key) <==> patch[key].Some?) && (UnsetIn(patch, key) <==> patch[key].None?)
  {
  }

  lemma SetIsThere(values: Values, patch: Patch, key: string)
    requires SetIn(patch, key)
    ensures key in Merged(values, patch) && key in patch && Some(Merged(values, patch)[key]) == patch[key]
  {
    hide Removed;
  }

  lemma UnsetIsGone(values: Values, patch: Patch, key: string)
    requires UnsetIn(patch, key)
    ensures key !in Merged(values, patch)
  {
    hide Above;
    assert Covers(key, key);
  }

  // ---------------------------------------------------------------------------------------------
  // Unsetting undoes setting
  // ---------------------------------------------------------------------------------------------

  /** A key covers whatever is set below it, at every depth. */
  lemma CoversBelow(prefix: string, path: seq<string>)
    ensures Covers(prefix, KeyOf(prefix, path))
    ensures path != [] ==> Above(prefix, KeyOf(prefix, path))
  {
    if path == [] {
      assert KeyOf(prefix, path) == prefix;
    } else {
      assert Suffix(path)[0] == '.';
      assert KeyOf(prefix, path)[..|prefix| + 1] == prefix + ".";
    }
  }

  /** After a key is unset, nothing is left below it, at any depth. */
  lemma NothingBelow(values: Values, prefix: string, path: seq<string>)
    ensures KeyOf(prefix, path) !in Without(values, prefix)
  {
    hide Covers, KeyOf;
    CoversBelow(prefix, path);
  }

  lemma UnsetAlone(values: Values, key: string)
    requires TrimSpace(key) != ""
    ensures Patched(values, map[key := None]) == Without(values, key)
    ensures OpsOf(map[key := None], [OpOf(key, None)]) && ApplyOps(values, [OpOf(key, None)]) == Without(values, key)
  {
    hide TrimSpace, Above;
    NothingPatched(values);
    var nothing: Patch := map[];
    assert nothing[key := None] == map[key := None];
    PatchedUnset(values, nothing, key);
    OpsOfOneMore(nothing, [], key, None);
    assert [] + [OpOf(key, None)] == [OpOf(key, None)];
    assert [OpOf(key, None)][1..] == [];
    assert ApplyOps(Without(values, key), []) == Without(values, key);
  }

  lemma TwoPatches(values: Values, p: Patch, q: Patch)
    ensures AfterPatches(values, [p, q]) == Patched(Patched(values, p), q)
  {
    hide Patched;
    assert [p, q][1..] == [q] && [q][1..] == [];
    assert AfterPatches(Patched(values, p), [q]) == AfterPatches(Patched(Patched(values, p), q), []);
  }

  lemma TwoRequests(values: Values, r: seq<OutputOp>, s: seq<OutputOp>)
    ensures AfterRequests(values, [r, s]) == ApplyOps(ApplyOps(values, r), s)
  {
    hide ApplyOps;
    assert [r, s][1..] == [s] && [s][1..] == [];
    assert AfterRequests(ApplyOps(values, r), [s]) == AfterRequests(ApplyOps(ApplyOps(values, r), s), []);
  }

  lemma SetBelow(values: Values, prefix: string, v: Value, patch: Patch)
    requires Walk(map[], prefix, v, patch)
    ensures Without(Merged(values, patch), prefix) == Without(values, prefix)
  {
    WalkOverlays(map[], prefix, v, patch);
    forall k | k in patch ensures Covers(prefix, k) {
      var path := PathOf(prefix, v, patch, k);
      CoversBelow(prefix, path);
    }
    hide *;
    OnlyBelow(values, prefix, patch);
  }

  lemma OnlyBelow(values: Values, prefix: string, patch: Patch)
    requires forall k :: k in patch ==> Covers(prefix, k)
    ensures Without(Merged(values, patch), prefix) == Without(values, prefix)
  {
    hide Covers, Above;
    forall k | k in values && !Covers(prefix, k) ensures !Removed(patch, k) && k !in patch {
      if u :| u in patch && UnsetIn(patch, u) && Covers(u, k) {
        CoversThrough(prefix, u, k);
      }
    }
    hide Removed;
    assert forall k :: k in Sets(patch) ==> k in patch;
  }

  lemma CoversThrough(a: string, b: string, c: string)
    requires Covers(a, b) && Covers(b, c)
    ensures Covers(a, c)
  {
    hide Covers, Above, Split;
    CoversExactly(a, b);
    CoversExactly(b, c);
    CoversExactly(a, c);
  }

  /** Setting a structured value and then unsetting its key is the same as unsetting the key, with either transport;
      so if nothing was stored there before, everything is as it was. */
  lemma UnsetUndoesSetting(values: Values, prefix: string, v: Value, patch: Patch, ops: seq<OutputOp>)
    requires StoredWell(values) && ValidKey(prefix) && !EndsInTmp(prefix)
    requires Flattenable(v) && DotFree(v) && TmpFree(v)
    requires Walk(map[], prefix, v, patch) && OpsOf(patch, ops)
    ensures AfterPatches(values, [patch, map[prefix := None]]) == Without(values, prefix)
    ensures AfterRequests(values, [ops, [OpOf(prefix, None)]]) == Without(values, prefix)
    ensures (forall k :: k in values ==> !Covers(prefix, k)) ==> Without(values, prefix) == values
  {
    hide *;
    FlattenedIsOrderly(prefix, v, patch);
    OrderlyStep(values, patch, ops);
    OrderlyMerges(values, patch, ops);
    SetBelow(values, prefix, v, patch);
    PrefixIsNotBlank(prefix);
    UnsetAlone(ApplyOps(values, ops), prefix);
    TwoPatches(values, patch, map[prefix := None]);
    TwoRequests(values, ops, [OpOf(prefix, None)]);
    NothingCovered(values, prefix);
  }

  lemma OrderlyMerges(values: Values, patch: Patch, ops: seq<OutputOp>)
    requires Orderly(patch) && OpsOf(patch, ops)
    ensures ApplyOps(values, ops) == Merged(values, patch)
  {
    hide EndsInTmp, ValidKey, Merged, ApplyOps, OpsOf;
    ValidIsNotBlank(patch);
    AnyOrderMerges(values, patch, ops);
  }

  lemma NothingCovered(values: Values, key: string)
    ensures (forall k :: k in values ==> !Covers(key, k)) ==> Without(values, key) == values
  {
    hide Covers;
  }

  lemma PrefixIsNotBlank(prefix: string)
    requires ValidKey(prefix)
    ensures TrimSpace(prefix) != ""
  {
    hide ValidKey, TrimSpace;
    ValidIsNotBlank(map[prefix := None]);
  }

  // ---------------------------------------------------------------------------------------------
  // Lists
  // ---------------------------------------------------------------------------------------------

  predicate Scalars(items: seq<Value>) {
    forall i :: 0 <= i < |items| ==> items[i].Scalar?
  }

  lemma ScalarsFlatten(items: seq<Value>)
    requires Scalars(items)
    ensures Flattenable(List(items)) && DotFree(List(items))
  {
    hide Itoa, ValidKey;
    var v := List(items);
    forall k | k in ChildrenOf(v) ensures '.' !in k && Flattenable(ChildrenOf(v)[k]) && DotFree(ChildrenOf(v)[k]) {
      var i := ByIndexOnly(items, k);
      assert AllDigits(k);
      Flatten.NoChildren(items[i]);
    }
  }

  lemma ScalarPath(items: seq<Value>, path: seq<string>) returns (i: nat)
    requires Scalars(items) && LeafAt(List(items), path).Some?
    ensures i < |items| && path == [Itoa(i)] && LeafAt(List(items), path) == Some(Some(items[i].text))
  {
    hide Itoa;
    i := ByIndexOnly(items, path[0]);
    assert path == [path[0]] + path[1..];
  }

  /** Flattening a list of scalars sets the items, and nothing else. */
  lemma ScalarsSet(prefix: string, items: seq<Value>, patch: Patch)
    requires ValidKey(prefix) && Scalars(items) && Walk(map[], prefix, List(items), patch)
    ensures forall i :: 0 <= i < |items| ==> Item(prefix, i) in patch && patch[Item(prefix, i)] == Some(items[i].text)
    ensures forall k :: k in patch ==> exists i :: 0 <= i < |items| && k == Item(prefix, i)
  {
    var v := List(items);
    ScalarsFlatten(items);
    FlattenedExactly(prefix, v, patch);
    hide LeafAt, ValidKey, Flattenable, DotFree, Walk, Above, Itoa;
    forall i | 0 <= i < |items| ensures Item(prefix, i) in patch && patch[Item(prefix, i)] == Some(items[i].text) {
      ScalarLeaf(items, i);
      OneName(prefix, Itoa(i));
    }
    forall k | k in patch ensures exists i :: 0 <= i < |items| && k == Item(prefix, i) {
      var path :| LeafAt(v, path).Some? && KeyOf(prefix, path) == k;
      var i := ScalarPath(items, path);
      OneName(prefix, Itoa(i));
    }
  }

  lemma ScalarLeaf(items: seq<Value>, i: nat)
    requires Scalars(items) && i < |items|
    ensures LeafAt(List(items), [Itoa(i)]) == Some(Some(items[i].text))
  {
    ByIndexHas(items, i);
  }

  lemma OneName(prefix: string, name: string)
    ensures KeyOf(prefix, [name]) == prefix + "." + name
  {
    assert Suffix([name]) == "." + name + Suffix([]);
    assert prefix + ("." + name) == prefix + "." + name;
  }

  /** A list of scalars is set where a list of `earlier` items was before. Together they have the length
      of the longer one; so `-n` is the item that far from the end of the longer one, and old items at the
      end of a longer old list are still found. */
  lemma NegativeIndexAfterSet(values: Values, prefix: string, earlier: nat, items: seq<Value>, patch: Patch, n: nat)
    requires ValidKey(prefix) && Scalars(items) && Walk(map[], prefix, List(items), patch)
    requires IsList(Children(values.Keys, prefix), prefix, earlier) && FromEnd(prefix, n) !in values
    requires |items| <= MAX_INT + 1 && 1 <= n
    ensures var length := if earlier <= |items| then |items| else earlier;
            Resolved(Merged(values, patch), FromEnd(prefix, n)) ==
            if length == 0 || n > MAX_INT + 1 then Ok(None)
            else if length < n then Err
            else if length - n < |items| then Ok(Some(items[length - n].text))
            else Ok(Some(values[Item(prefix, length - n)]))
  {
    hide Resolved, Item, FromEnd, Children, ValidKey, Walk, IsList, Merged;
    ScalarsSet(prefix, items, patch);
    var after := Merged(values, patch);
    var length := if earlier <= |items| then |items| else earlier;
    MergedItems(values, prefix, items, patch);
    LongerList(values, prefix, earlier, items, patch);
    forall i | 0 <= i < |items| ensures FromEnd(prefix, n) != Item(prefix, i) {
      NotAnItem(prefix, n, i);
    }
    assert FromEnd(prefix, n) !in after;
    ChildrenBounded(after.Keys, prefix);
    ListFits(Children(after.Keys, prefix), prefix, length);
    if n <= length {
      NegativeIndexOfList(after, prefix, length, n);
    } else {
      ListLength(Children(after.Keys, prefix), prefix, length);
      ResolvedFromEnd(after, prefix, n);
    }
  }

  lemma ListLength(children: map<string, nat>, prefix: string, length: nat)
    requires IsList(children, prefix, length)
    ensures |children| == length
  {
    ItemsBelow(children, prefix, length, length);
    assert children.Keys == Below(children, length);
  }

  lemma NotAnItem(prefix: string, n: nat, i: nat)
    ensures FromEnd(prefix, n) != Item(prefix, i)
  {
    assert FromEnd(prefix, n)[|prefix| + 1] == '-';
    assert Item(prefix, i)[|prefix| + 1] == Itoa(i)[0];
  }

  lemma MergedItems(values: Values, prefix: string, items: seq<Value>, patch: Patch)
    requires Scalars(items)
    requires forall i :: 0 <= i < |items| ==> Item(prefix, i) in patch && patch[Item(prefix, i)] == Some(items[i].text)
    requires forall k :: k in patch ==> exists i :: 0 <= i < |items| && k == Item(prefix, i)
    ensures forall k :: k in Merged(values, patch) <==>
              k in values || exists i :: 0 <= i < |items| && k == Item(prefix, i)
    ensures forall i :: 0 <= i < |items| ==>
              Item(prefix, i) in Merged(values, patch) && Merged(values, patch)[Item(prefix, i)] == items[i].text
    ensures forall k :: k in values && k !in patch ==> Merged(values, patch)[k] == values[k]
  {
    hide Item;
    assert forall k :: k in patch ==> SetIn(patch, k);
    assert forall k :: !Removed(patch, k);
  }

  lemma LongerList(values: Values, prefix: string, earlier: nat, items: seq<Value>, patch: Patch)
    requires IsList(Children(values.Keys, prefix), prefix, earlier) && |items| <= MAX_INT + 1
    requires forall k :: k in Merged(values, patch) <==>
               k in values || exists i :: 0 <= i < |items| && k == Item(prefix, i)
    ensures var length := if earlier <= |items| then |items| else earlier;
            IsList(Children(Merged(values, patch).Keys, prefix), prefix, length)
    ensures forall i :: |items| <= i < earlier ==> Item(prefix, i) in values
    ensures forall i, j :: 0 <= i < |items| <= j < earlier ==> Item(prefix, i) != Item(prefix, j)
  {
    hide Item, ChildIndex, Merged;
    forall i | 0 <= i < |items| ensures ChildIndex(prefix, Item(prefix, i)) == Some(i) {
      ItemIndex(prefix, i);
    }
    assert forall k :: k in Children(values.Keys, prefix) ==>
      k in values && ChildIndex(prefix, k) == Some(Children(values.Keys, prefix)[k]);
  }
}
