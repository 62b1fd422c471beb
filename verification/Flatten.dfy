/** Flattening structured values to patches (`internal/stepoutput/stepoutput.go`). */
module Flatten {
  import opened Wrappers
  import opened Text
  import opened Keys
  import opened Patches

  /** A key of a map whose keys need not be strings. */
  datatype MixedKey = Str(text: string) | Other(id: int)

  /** A decoded value. Scalars are kept as the text they are stored as. */
  datatype Value =
    | Null
    | Scalar(text: string)
    | List(items: seq<Value>)
    | Map(entries: map<string, Value>)
    | MixedMap(mixed: map<MixedKey, Value>)
    | Unsupported

  /** The items of a list, by their decimal indices. */
  function ByIndex(items: seq<Value>): map<string, Value> {
    if items == [] then map[] else ByIndex(items[..|items| - 1])[Itoa(|items| - 1) := items[|items| - 1]]
  }

  lemma {:induction false} ByIndexHas(items: seq<Value>, i: nat)
    requires i < |items|
    ensures Itoa(i) in ByIndex(items) && ByIndex(items)[Itoa(i)] == items[i]
  {
    hide Itoa;
    var n := |items| - 1;
    if i == n {
    } else {
      ByIndexHas(items[..n], i);
      if Itoa(i) == Itoa(n) { ItoaInjective(i, n); }
    }
  }

  lemma {:induction false} ByIndexOnly(items: seq<Value>, k: string) returns (i: nat)
    requires k in ByIndex(items)
    ensures i < |items| && k == Itoa(i) && ByIndex(items)[k] == items[i]
  {
    hide Itoa;
    var n := |items| - 1;
    if k == Itoa(n) {
      i := n;
    } else {
      i := ByIndexOnly(items[..n], k);
    }
  }

  /** The keys of a mixed map that are strings. */
  function Texts(mixed: map<MixedKey, Value>): set<string> {
    set k | k in mixed && k.Str? :: k.text
  }

  /** The values below a container, by the name that is appended to the key. Entries of a mixed map
      whose key is no string do not count. */
  function ChildrenOf(v: Value): (r: map<string, Value>)
    ensures forall k :: k in r ==> r[k] < v
  {
    match v
    case List(items) =>
      assert forall k :: k in ByIndex(items) ==> ByIndex(items)[k] < v by {
        forall k | k in ByIndex(items) ensures ByIndex(items)[k] < v { var i := ByIndexOnly(items, k); }
      }
      ByIndex(items)
    case Map(entries) => entries
    case MixedMap(mixed) => map t | t in Texts(mixed) :: mixed[Str(t)]
    case _ => map[]
  }

  /** The leaf that a path of names leads to: the text to set, or nothing for a null. */
  function LeafAt(v: Value, path: seq<string>): Option<Option<string>>
    decreases v
  {
    if path == [] then
      match v
      case Null => Some(None)
      case Scalar(text) => Some(Some(text))
      case _ => None
    else if path[0] in ChildrenOf(v) then LeafAt(ChildrenOf(v)[path[0]], path[1..])
    else None
  }

  /** The value at a path, following indices into lists and keys into maps. */
  ghost function ValueAt(v: Value, path: seq<string>): Option<Value>
    decreases |path|
  {
    if path == [] then Some(v)
    else
      match v
      case List(items) =>
        if i: nat :| i < |items| && path[0] == Itoa(i) then ValueAt(items[i], path[1..]) else None
      case Map(entries) => if path[0] in entries then ValueAt(entries[path[0]], path[1..]) else None
      case MixedMap(mixed) => if Str(path[0]) in mixed then ValueAt(mixed[Str(path[0])], path[1..]) else None
      case _ => None
  }

  /** The leaves of a value are exactly its nulls and its scalars. */
  lemma {:induction false} LeafAtExactly(v: Value, path: seq<string>)
    ensures LeafAt(v, path) == Some(None) <==> ValueAt(v, path) == Some(Null)
    ensures forall text :: LeafAt(v, path) == Some(Some(text)) <==> ValueAt(v, path) == Some(Scalar(text))
    decreases |path|
  {
    hide Itoa;
    if path == [] {
    } else {
      match v
      case List(items) =>
        if i: nat :| i < |items| && path[0] == Itoa(i) {
          ByIndexHas(items, i);
          forall j: nat | j < |items| && path[0] == Itoa(j) ensures j == i {
            ItoaInjective(i, j);
          }
          LeafAtExactly(items[i], path[1..]);
        } else if path[0] in ByIndex(items) {
          var j := ByIndexOnly(items, path[0]);
        }
      case Map(entries) =>
        if path[0] in entries {
          LeafAtExactly(entries[path[0]], path[1..]);
        }
      case MixedMap(mixed) =>
        if Str(path[0]) in mixed {
          LeafAtExactly(mixed[Str(path[0])], path[1..]);
          assert path[0] in Texts(mixed);
        }
      case _ =>
    }
  }

  /** Flattening has no error: only supported values, and only well-formed keys in maps. */
  predicate Flattenable(v: Value)
    decreases v
  {
    && !v.Unsupported?
    && forall k :: k in ChildrenOf(v) ==> (v.List? || ValidKey(k)) && Flattenable(ChildrenOf(v)[k])
  }

  /** What flattening asks of a single value inside another one. */
  ghost predicate FineAlone(w: Value) {
    && !w.Unsupported?
    && (w.Map? ==> forall k :: k in w.entries ==> ValidKey(k))
    && (w.MixedMap? ==> forall k :: k in w.mixed && k.Str? ==> ValidKey(k.text))
  }

  lemma ChildIsAt(v: Value, k: string, path: seq<string>)
    requires k in ChildrenOf(v)
    ensures ValueAt(v, [k] + path) == ValueAt(ChildrenOf(v)[k], path)
  {
    hide Itoa;
    assert ([k] + path)[1..] == path;
    if v.List? {
      var i := ByIndexOnly(v.items, k);
      forall j: nat | j < |v.items| && k == Itoa(j) ensures j == i {
        ItoaInjective(i, j);
      }
    }
  }

  lemma OnlyChildren(v: Value, path: seq<string>)
    requires path != [] && ValueAt(v, path).Some?
    ensures path[0] in ChildrenOf(v)
  {
    hide Itoa;
    match v
    case List(items) =>
      var i: nat :| i < |items| && path[0] == Itoa(i);
      ByIndexHas(items, i);
    case MixedMap(mixed) => assert Str(path[0]) in mixed;
    case _ =>
  }

  lemma FineWithChildren(v: Value)
    ensures Flattenable(v) <==> FineAlone(v) && forall k :: k in ChildrenOf(v) ==> Flattenable(ChildrenOf(v)[k])
  {
    hide ValidKey, Itoa;
    if v.MixedMap? {
      assert forall k :: k in v.mixed && k.Str? ==> k.text in ChildrenOf(v);
    }
  }

  /** Everything inside the value is fine. */
  ghost predicate AllFine(v: Value) {
    forall path, w :: ValueAt(v, path) == Some(w) ==> FineAlone(w)
  }

  lemma AllFineWithChildren(v: Value)
    ensures AllFine(v) <==> FineAlone(v) && forall k :: k in ChildrenOf(v) ==> AllFine(ChildrenOf(v)[k])
  {
    AtTheTop(v);
    hide FineAlone, ChildrenOf, ValueAt;
    forall k, path | k in ChildrenOf(v) ensures ValueAt(ChildrenOf(v)[k], path) == ValueAt(v, [k] + path) {
      ChildIsAt(v, k, path);
    }
    if FineAlone(v) && forall k :: k in ChildrenOf(v) ==> AllFine(ChildrenOf(v)[k]) {
      forall path, w | ValueAt(v, path) == Some(w) ensures FineAlone(w) {
        if path != [] {
          OnlyChildren(v, path);
          assert path == [path[0]] + path[1..];
        }
      }
    }
  }

  /** Flattening fails exactly if somewhere inside there is an unsupported value or a malformed key of a map. */
  lemma {:induction false} FlattenableExactly(v: Value)
    ensures Flattenable(v) <==> AllFine(v)
    decreases v
  {
    FineWithChildren(v);
    AllFineWithChildren(v);
    hide FineAlone, ChildrenOf, AllFine, Flattenable;
    forall k | k in ChildrenOf(v) ensures Flattenable(ChildrenOf(v)[k]) <==> AllFine(ChildrenOf(v)[k]) {
      FlattenableExactly(ChildrenOf(v)[k]);
    }
  }

  lemma AtTheTop(v: Value)
    ensures ValueAt(v, []) == Some(v)
  {
  }

  // ---------------------------------------------------------------------------------------------
  // Normalizing
  // ---------------------------------------------------------------------------------------------

  /** Turns mixed maps into maps, everywhere. */
  function Normalize(v: Value): Value {
    match v
    case List(items) => List(seq(|items|, i requires 0 <= i < |items| => Normalize(items[i])))
    case Map(entries) => Map(map k | k in entries :: Normalize(entries[k]))
    case MixedMap(mixed) => Map(map t | t in Texts(mixed) :: Normalize(mixed[Str(t)]))
    case _ => v
  }

  lemma NormalizeChildren(v: Value)
    ensures ChildrenOf(Normalize(v)).Keys == ChildrenOf(v).Keys
    ensures forall k :: k in ChildrenOf(v) ==> ChildrenOf(Normalize(v))[k] == Normalize(ChildrenOf(v)[k])
  {
    hide Itoa;
    match v
    case List(items) =>
      var r := Normalize(v).items;
      forall k | k in ByIndex(items) ensures k in ByIndex(r) && ByIndex(r)[k] == Normalize(ByIndex(items)[k]) {
        var i := ByIndexOnly(items, k);
        ByIndexHas(r, i);
      }
      forall k | k in ByIndex(r) ensures k in ByIndex(items) {
        var i := ByIndexOnly(r, k);
        ByIndexHas(items, i);
      }
    case _ =>
  }

  /** Normalizing changes no leaf, and nothing about errors. */
  lemma {:induction false} NormalizeKeepsLeaves(v: Value, path: seq<string>)
    ensures LeafAt(Normalize(v), path) == LeafAt(v, path)
    decreases v
  {
    hide ChildrenOf;
    NormalizeChildren(v);
    if path == [] {
    } else if path[0] in ChildrenOf(v) {
      NormalizeKeepsLeaves(ChildrenOf(v)[path[0]], path[1..]);
    }
  }

  lemma {:induction false} NormalizeKeepsErrors(v: Value)
    ensures Flattenable(Normalize(v)) <==> Flattenable(v)
    decreases v
  {
    hide ChildrenOf, ValidKey;
    NormalizeChildren(v);
    forall k | k in ChildrenOf(v) ensures Flattenable(ChildrenOf(Normalize(v))[k]) <==> Flattenable(ChildrenOf(v)[k]) {
      NormalizeKeepsErrors(ChildrenOf(v)[k]);
    }
  }

  lemma {:induction false} NormalizeTwice(v: Value)
    ensures Normalize(Normalize(v)) == Normalize(v)
    decreases v
  {
    match v
    case List(items) =>
      forall i | 0 <= i < |items| { NormalizeTwice(items[i]); }
    case Map(entries) =>
      forall k | k in entries { NormalizeTwice(entries[k]); }
    case MixedMap(mixed) =>
      forall t | t in Texts(mixed) ensures Normalize(Normalize(mixed[Str(t)])) == Normalize(mixed[Str(t)]) {
        NormalizeTwice(mixed[Str(t)]);
      }
    case _ =>
  }

  // ---------------------------------------------------------------------------------------------
  // Keys and the entries they get
  // ---------------------------------------------------------------------------------------------

  function Suffix(path: seq<string>): string {
    if path == [] then "" else "." + path[0] + Suffix(path[1..])
  }

  /** The key of the leaf at a path below a prefix. */
  function KeyOf(prefix: string, path: seq<string>): string {
    prefix + Suffix(path)
  }

  /** The entries that the leaves of a value ask for. */
  ghost function Leaves(prefix: string, v: Value): iset<(string, Option<string>)> {
    iset path: seq<string> | LeafAt(v, path).Some? :: (KeyOf(prefix, path), LeafAt(v, path).value)
  }

  /** The key of a child: below a key, or at the root. */
  function ChildKey(prefix: Option<string>, name: string): string {
    match prefix
    case None => name
    case Some(p) => p + "." + name
  }

  /** The entries that the leaves below some of the children ask for. */
  ghost function LeavesBelow(prefix: Option<string>, v: Value, names: set<string>): iset<(string, Option<string>)> {
    iset k, e | k in names && k in ChildrenOf(v) && e in Leaves(ChildKey(prefix, k), ChildrenOf(v)[k]) :: e
  }

  /** The patch is the earlier one, overwritten at every key that some entry asks for, with the value of
      such an entry. (Several entries may ask for one key; then one of them wins.) */
  ghost predicate Overlaid(prior: Patch, entries: iset<(string, Option<string>)>, patch: Patch) {
    && (forall k :: k in prior ==> k in patch)
    && (forall k, l :: (k, l) in entries ==> k in patch)
    && (forall k :: k in patch ==>
          (k, patch[k]) in entries || (k in prior && prior[k] == patch[k] && forall l :: (k, l) !in entries))
  }

  lemma OverlaidTwice(a: Patch, e: iset<(string, Option<string>)>, b: Patch, f: iset<(string, Option<string>)>,
          c: Patch)
    requires Overlaid(a, e, b) && Overlaid(b, f, c)
    ensures Overlaid(a, e + f, c)
  {
  }

  lemma LeafOfChild(prefix: string, v: Value, k: string, path: seq<string>)
    requires k in ChildrenOf(v)
    ensures LeafAt(v, [k] + path) == LeafAt(ChildrenOf(v)[k], path)
    ensures KeyOf(prefix, [k] + path) == KeyOf(prefix + "." + k, path)
  {
    hide ChildrenOf;
    assert ([k] + path)[1..] == path;
    assert prefix + ("." + k + Suffix(path)) == prefix + "." + k + Suffix(path);
  }

  /** The leaves of a container are those below its children. */
  lemma LeavesOfContainer(prefix: string, v: Value)
    requires !v.Null? && !v.Scalar?
    ensures Leaves(prefix, v) == LeavesBelow(Some(prefix), v, ChildrenOf(v).Keys)
  {
    hide ChildrenOf, KeyOf;
    forall e | e in Leaves(prefix, v) ensures e in LeavesBelow(Some(prefix), v, ChildrenOf(v).Keys) {
      var path: seq<string> :| LeafAt(v, path).Some? && e == (KeyOf(prefix, path), LeafAt(v, path).value);
      LeafOfChild(prefix, v, path[0], path[1..]);
      assert path == [path[0]] + path[1..];
      assert e in Leaves(ChildKey(Some(prefix), path[0]), ChildrenOf(v)[path[0]]);
    }
    forall e | e in LeavesBelow(Some(prefix), v, ChildrenOf(v).Keys) ensures e in Leaves(prefix, v) {
      var k :| k in ChildrenOf(v) && e in Leaves(ChildKey(Some(prefix), k), ChildrenOf(v)[k]);
      var w := ChildrenOf(v)[k];
      var path: seq<string> :| LeafAt(w, path).Some? && e == (KeyOf(prefix + "." + k, path), LeafAt(w, path).value);
      LeafOfChild(prefix, v, k, path);
    }
  }

  lemma LeavesBelowOneMore(prefix: Option<string>, v: Value, names: set<string>, k: string)
    requires k in ChildrenOf(v)
    ensures LeavesBelow(prefix, v, names + {k}) ==
              LeavesBelow(prefix, v, names) + Leaves(ChildKey(prefix, k), ChildrenOf(v)[k])
  {
    hide ChildrenOf, Leaves, ChildKey;
  }

  lemma LeavesOfLeaf(prefix: string, v: Value)
    requires v.Null? || v.Scalar?
    ensures Leaves(prefix, v) == iset{(prefix, if v.Null? then None else Some(v.text))}
  {
    assert KeyOf(prefix, []) == prefix;
    assert LeafAt(v, []).Some?;
  }

  lemma ChildIsNormal(v: Value, k: string)
    requires Normalize(v) == v && k in ChildrenOf(v)
    ensures Normalize(ChildrenOf(v)[k]) == ChildrenOf(v)[k]
  {
    NormalizeChildren(v);
  }

  // ---------------------------------------------------------------------------------------------
  // Walks through a value
  // ---------------------------------------------------------------------------------------------

  /** A list is walked through from front to back, a map in any order. */
  ghost predicate WalkOrder(v: Value, order: seq<string>) {
    && (forall i, j :: 0 <= i < j < |order| ==> order[i] != order[j])
    && (forall k :: k in order <==> k in ChildrenOf(v))
    && (v.List? ==> forall i :: 0 <= i < |order| ==> order[i] == Itoa(i))
  }

  /** Some walk through the value turns the patch `prior` into `after`. */
  ghost predicate Walk(prior: Patch, prefix: string, v: Value, after: Patch)
    decreases v, 2
  {
    match v
    case Null => after == prior[prefix := None]
    case Scalar(text) => after == prior[prefix := Some(text)]
    case Unsupported => false
    case _ => WalkContainer(prior, Some(prefix), v, after)
  }

  /** Some walk through the children, in some order, turns `prior` into `after`. */
  ghost predicate WalkContainer(prior: Patch, prefix: Option<string>, v: Value, after: Patch)
    decreases v, 1
  {
    exists order :: WalkOrder(v, order) && WalkChildren(prior, prefix, v, order, after)
  }

  /** Some walk through these children, in this order, turns `prior` into `after`. */
  ghost predicate WalkChildren(prior: Patch, prefix: Option<string>, v: Value, order: seq<string>, after: Patch)
    requires forall k :: k in order ==> k in ChildrenOf(v)
    decreases v, 0, |order|
  {
    if order == [] then after == prior
    else
      var n := |order| - 1;
      exists mid ::
        WalkChildren(prior, prefix, v, order[..n], mid) &&
        Walk(mid, ChildKey(prefix, order[n]), ChildrenOf(v)[order[n]], after)
  }

  /** Some walk through a container at the root gives the patch. */
  ghost predicate RootWalk(v: Value, after: Patch) {
    WalkContainer(map[], None, v, after)
  }

  lemma WalkOneMore(prior: Patch, prefix: Option<string>, v: Value, order: seq<string>, mid: Patch, k: string,
          after: Patch)
    requires k in ChildrenOf(v) && forall n :: n in order ==> n in ChildrenOf(v)
    requires WalkChildren(prior, prefix, v, order, mid) && Walk(mid, ChildKey(prefix, k), ChildrenOf(v)[k], after)
    ensures WalkChildren(prior, prefix, v, order + [k], after)
  {
    hide ChildrenOf, Walk, ChildKey;
    var more := order + [k];
    var n := |more| - 1;
    assert more[..n] == order && more[n] == k;
    assert WalkChildren(prior, prefix, v, more[..n], mid) &&
      Walk(mid, ChildKey(prefix, more[n]), ChildrenOf(v)[more[n]], after);
  }

  lemma OrderOfNormal(v: Value, order: seq<string>)
    ensures WalkOrder(Normalize(v), order) <==> WalkOrder(v, order)
  {
    NormalizeChildren(v);
    hide ChildrenOf, Itoa;
  }

  /** Normalizing changes no walk. */
  lemma {:induction false} WalkOfNormal(prior: Patch, prefix: string, v: Value, after: Patch)
    ensures Walk(prior, prefix, Normalize(v), after) <==> Walk(prior, prefix, v, after)
    decreases v, 2
  {
    ContainerOfNormal(prior, Some(prefix), v, after);
    hide WalkContainer;
  }

  lemma {:induction false} ContainerOfNormal(prior: Patch, prefix: Option<string>, v: Value, after: Patch)
    ensures WalkContainer(prior, prefix, Normalize(v), after) <==> WalkContainer(prior, prefix, v, after)
    decreases v, 1
  {
    hide ChildrenOf, WalkOrder, WalkChildren, Normalize;
    if WalkContainer(prior, prefix, Normalize(v), after) {
      var order := OrderOf(prior, prefix, Normalize(v), after);
      OrderOfNormal(v, order);
      OrderHasChildren(v, order);
      WalkChildrenOfNormal(prior, prefix, v, order, after);
      assert WalkOrder(v, order) && WalkChildren(prior, prefix, v, order, after);
    }
    if WalkContainer(prior, prefix, v, after) {
      var order := OrderOf(prior, prefix, v, after);
      OrderOfNormal(v, order);
      WalkChildrenOfNormal(prior, prefix, v, order, after);
      assert WalkOrder(Normalize(v), order) && WalkChildren(prior, prefix, Normalize(v), order, after);
    }
  }

  lemma OrderOf(prior: Patch, prefix: Option<string>, v: Value, after: Patch) returns (order: seq<string>)
    requires WalkContainer(prior, prefix, v, after)
    ensures WalkOrder(v, order)
    ensures (forall k :: k in order ==> k in ChildrenOf(v)) && WalkChildren(prior, prefix, v, order, after)
  {
    hide ChildrenOf, WalkChildren;
    order :| WalkOrder(v, order) && WalkChildren(prior, prefix, v, order, after);
  }

  lemma OrderHasChildren(v: Value, order: seq<string>)
    requires WalkOrder(v, order)
    ensures forall k :: k in order ==> k in ChildrenOf(v)
  {
    hide ChildrenOf;
  }

  lemma {:induction false} WalkChildrenOfNormal(prior: Patch, prefix: Option<string>, v: Value, order: seq<string>,
          after: Patch)
    requires forall k :: k in order ==> k in ChildrenOf(v)
    ensures forall k :: k in order ==> k in ChildrenOf(Normalize(v))
    ensures WalkChildren(prior, prefix, Normalize(v), order, after) <==> WalkChildren(prior, prefix, v, order, after)
    decreases v, 0, |order|
  {
    hide ChildrenOf, Walk, Normalize, ChildKey;
    NormalizeChildren(v);
    if order == [] {
    } else {
      var n := |order| - 1;
      var k := order[n];
      forall mid
        ensures WalkChildren(prior, prefix, Normalize(v), order[..n], mid) <==>
                  WalkChildren(prior, prefix, v, order[..n], mid)
        ensures Walk(mid, ChildKey(prefix, k), ChildrenOf(Normalize(v))[k], after) <==>
                  Walk(mid, ChildKey(prefix, k), ChildrenOf(v)[k], after)
      {
        WalkChildrenOfNormal(prior, prefix, v, order[..n], mid);
        WalkOfNormal(mid, ChildKey(prefix, k), ChildrenOf(v)[k], after);
      }
    }
  }

  /** A walk overwrites the patch with the entries of the leaves. */
  lemma {:induction false} WalkOverlays(prior: Patch, prefix: string, v: Value, after: Patch)
    requires Walk(prior, prefix, v, after)
    ensures Overlaid(prior, Leaves(prefix, v), after)
    decreases v, 2
  {
    if v.Null? || v.Scalar? {
      LeavesOfLeaf(prefix, v);
      hide Leaves;
    } else {
      hide ChildrenOf, Leaves, LeavesBelow, WalkContainer, Overlaid;
      ContainerOverlays(prior, Some(prefix), v, after);
      LeavesOfContainer(prefix, v);
    }
  }

  lemma {:induction false} ContainerOverlays(prior: Patch, prefix: Option<string>, v: Value, after: Patch)
    requires WalkContainer(prior, prefix, v, after)
    ensures Overlaid(prior, LeavesBelow(prefix, v, ChildrenOf(v).Keys), after)
    decreases v, 1
  {
    hide ChildrenOf, LeavesBelow, WalkChildren, Overlaid;
    var order :| WalkOrder(v, order) && WalkChildren(prior, prefix, v, order, after);
    WalkChildrenOverlay(prior, prefix, v, order, after);
    assert Members(order) == ChildrenOf(v).Keys;
  }

  ghost function Members(order: seq<string>): set<string> {
    set k | k in order
  }

  lemma MembersLast(order: seq<string>)
    ensures order == [] ==> Members(order) == {}
    ensures order != [] ==> Members(order) == Members(order[..|order| - 1]) + {order[|order| - 1]}
  {
    if order == [] {
    } else {
      assert order == order[..|order| - 1] + [order[|order| - 1]];
    }
  }

  lemma {:induction false} WalkChildrenOverlay(prior: Patch, prefix: Option<string>, v: Value, order: seq<string>,
          after: Patch)
    requires forall k :: k in order ==> k in ChildrenOf(v)
    requires WalkChildren(prior, prefix, v, order, after)
    ensures Overlaid(prior, LeavesBelow(prefix, v, Members(order)), after)
    decreases v, 0, |order|
  {
    hide ChildrenOf, Leaves, LeavesBelow, Walk, Overlaid, Members, ChildKey;
    MembersLast(order);
    if order == [] {
      NothingOverlaid(prior, prefix, v);
    } else {
      var n := |order| - 1;
      var k, front := order[n], Members(order[..n]);
      var mid :| WalkChildren(prior, prefix, v, order[..n], mid) &&
        Walk(mid, ChildKey(prefix, k), ChildrenOf(v)[k], after);
      WalkChildrenOverlay(prior, prefix, v, order[..n], mid);
      WalkOverlays(mid, ChildKey(prefix, k), ChildrenOf(v)[k], after);
      hide WalkChildren;
      OverlaidTwice(prior, LeavesBelow(prefix, v, front), mid, Leaves(ChildKey(prefix, k), ChildrenOf(v)[k]), after);
      LeavesBelowOneMore(prefix, v, front, k);
    }
  }

  lemma NothingOverlaid(prior: Patch, prefix: Option<string>, v: Value)
    ensures Overlaid(prior, LeavesBelow(prefix, v, {}), prior)
  {
    hide ChildrenOf, Leaves;
  }

  // ---------------------------------------------------------------------------------------------
  // Flattening
  // ---------------------------------------------------------------------------------------------

  /** The patch that the recursive calls fill. */
  class Builder {
    var entries: Patch

    constructor ()
      ensures entries == map[]
    {
      entries := map[];
    }
  }

  method FlattenInto(patch: Builder, prefix: string, value: Value) returns (ok: bool)
    modifies patch
    ensures ok <==> Flattenable(value)
    ensures ok ==> Walk(old(patch.entries), prefix, value, patch.entries)
    decreases Normalize(value), 1
  {
    hide ChildrenOf, ValidKey, WalkOrder, WalkChildren;
    var typed := Normalize(value);
    NormalizeKeepsErrors(value);
    NormalizeTwice(value);
    match typed {
      case Null =>
        patch.entries := patch.entries[prefix := None];
        ok := true;
        NoChildren(typed);
      case Scalar(text) =>
        patch.entries := patch.entries[prefix := Some(text)];
        ok := true;
        NoChildren(typed);
      case List(items) =>
        ok := FlattenItems(patch, prefix, typed);
      case Map(entries) =>
        ok := FlattenEntries(patch, prefix, typed);
      case _ =>
        NoMixedMap(value);
        ok := false;
    }
    WalkOfNormal(old(patch.entries), prefix, value, patch.entries);
  }

  lemma NoChildren(v: Value)
    requires v.Null? || v.Scalar?
    ensures ChildrenOf(v) == map[] && Flattenable(v)
  {
  }

  lemma NoMixedMap(v: Value)
    ensures !Normalize(v).MixedMap?
  {
  }

  /** The loop over the items of a list. */
  method FlattenItems(patch: Builder, prefix: string, v: Value) returns (ok: bool)
    requires v.List? && Normalize(v) == v
    modifies patch
    ensures ok <==> Flattenable(v)
    ensures ok ==> Walk(old(patch.entries), prefix, v, patch.entries)
    decreases v, 0
  {
    hide ChildrenOf, ValidKey, Normalize, Itoa, Flattenable, WalkOrder, WalkChildren, Walk;
    ghost var order: seq<string> := [];
    NothingWalked(patch.entries, Some(prefix), v);
    for i := 0 to |v.items|
      invariant |order| == i && forall j :: 0 <= j < i ==> order[j] == Itoa(j)
      invariant forall k :: k in order ==> k in ChildrenOf(v)
      invariant WalkChildren(old(patch.entries), Some(prefix), v, order, patch.entries)
      invariant forall j :: 0 <= j < i ==> Flattenable(v.items[j])
    {
      ItemsAreChildren(v, i);
      ChildIsNormal(v, Itoa(i));
      ghost var before := patch.entries;
      ok := FlattenInto(patch, prefix + "." + Itoa(i), v.items[i]);
      if !ok {
        BadChild(v, Itoa(i));
        return;
      }
      WalkOneMore(old(patch.entries), Some(prefix), v, order, before, Itoa(i), patch.entries);
      order := order + [Itoa(i)];
    }
    AllItems(v, order);
    WalkInOrder(old(patch.entries), prefix, v, order, patch.entries);
    ok := true;
  }

  /** The loop over the entries of a map, in whatever order they come. */
  method FlattenEntries(patch: Builder, prefix: string, v: Value) returns (ok: bool)
    requires v.Map? && Normalize(v) == v
    modifies patch
    ensures ok <==> Flattenable(v)
    ensures ok ==> Walk(old(patch.entries), prefix, v, patch.entries)
    decreases v, 0
  {
    hide ValidKey, ValidateKey, Normalize, Flattenable, WalkOrder, WalkChildren, Walk;
    var keys := v.entries.Keys;
    ghost var order: seq<string> := [];
    NothingWalked(patch.entries, Some(prefix), v);
    while keys != {}
      invariant forall k :: k in keys ==> k in v.entries && k !in order
      invariant forall k :: k in v.entries ==> k in keys || k in order
      invariant forall k :: k in order ==> k in v.entries && ValidKey(k) && Flattenable(v.entries[k])
      invariant forall i, j :: 0 <= i < j < |order| ==> order[i] != order[j]
      invariant WalkChildren(old(patch.entries), Some(prefix), v, order, patch.entries)
      decreases keys
    {
      var key :| key in keys;
      keys := keys - {key};
      ValidateKeyExactly(key, false);
      if !ValidateKey(key, false) {
        BadChild(v, key);
        return false;
      }
      ChildIsNormal(v, key);
      ghost var before := patch.entries;
      ok := FlattenInto(patch, prefix + "." + key, v.entries[key]);
      if !ok {
        BadChild(v, key);
        return;
      }
      WalkOneMore(old(patch.entries), Some(prefix), v, order, before, key, patch.entries);
      order := order + [key];
    }
    AllEntries(v);
    AllKeys(v, order);
    WalkInOrder(old(patch.entries), prefix, v, order, patch.entries);
    ok := true;
  }

  lemma NothingWalked(prior: Patch, prefix: Option<string>, v: Value)
    ensures WalkChildren(prior, prefix, v, [], prior)
  {
  }

  lemma WalkInOrder(prior: Patch, prefix: string, v: Value, order: seq<string>, after: Patch)
    requires !v.Null? && !v.Scalar? && !v.Unsupported? && WalkOrder(v, order)
    requires WalkChildren(prior, Some(prefix), v, order, after)
    ensures Walk(prior, prefix, v, after)
  {
    hide WalkOrder, WalkChildren;
  }

  lemma ItemsAreChildren(v: Value, i: nat)
    requires v.List? && i < |v.items|
    ensures Itoa(i) in ChildrenOf(v) && ChildrenOf(v)[Itoa(i)] == v.items[i]
  {
    ByIndexHas(v.items, i);
  }

  lemma BadChild(v: Value, k: string)
    requires k in ChildrenOf(v) && (Flattenable(ChildrenOf(v)[k]) ==> !v.List? && !ValidKey(k))
    ensures !Flattenable(v)
  {
    hide ChildrenOf, ValidKey;
  }

  lemma AllItems(v: Value, order: seq<string>)
    requires v.List? && |order| == |v.items| && forall j :: 0 <= j < |order| ==> order[j] == Itoa(j)
    ensures WalkOrder(v, order)
    ensures (forall j :: 0 <= j < |order| ==> Flattenable(v.items[j])) ==> Flattenable(v)
  {
    hide Itoa, ValidKey;
    forall k | k in ChildrenOf(v)
      ensures exists i :: 0 <= i < |order| && order[i] == k && ChildrenOf(v)[k] == v.items[i]
    {
      var i := ByIndexOnly(v.items, k);
      assert order[i] == k;
    }
    forall i | 0 <= i < |order| ensures order[i] in ChildrenOf(v) {
      ByIndexHas(v.items, i);
    }
    assert forall i :: 0 <= i < |order| ==> Digits(order[i]) == i;
  }

  lemma AllKeys(v: Value, order: seq<string>)
    requires !v.List? && (forall i, j :: 0 <= i < j < |order| ==> order[i] != order[j])
    requires forall k :: k in order <==> k in ChildrenOf(v)
    ensures WalkOrder(v, order)
  {
    hide ChildrenOf;
  }

  lemma AllEntries(v: Value)
    requires v.Map? && forall k :: k in v.entries ==> ValidKey(k) && Flattenable(v.entries[k])
    ensures Flattenable(v)
  {
    hide ValidKey;
  }

  /** Flattens a value below a key. */
  method FlattenUnder(prefix: string, value: Value) returns (r: Result<Patch>)
    ensures r.Ok? <==> ValidKey(prefix) && Flattenable(value)
    ensures r.Ok? ==> Walk(map[], prefix, value, r.value)
  {
    ValidateKeyExactly(prefix, false);
    if !ValidateKey(prefix, false) {
      return Err;
    }
    hide *;
    var patch := new Builder();
    var ok := FlattenInto(patch, prefix, value);
    r := if ok then Ok(patch.entries) else Err;
  }

  /** Flattening at the root has no error: a map, and all its keys are well-formed strings. */
  ghost predicate RootFlattenable(v: Value) {
    && (v.Map? || (v.MixedMap? && forall k :: k in v.mixed ==> k.Str?))
    && forall k :: k in ChildrenOf(v) ==> ValidKey(k) && Flattenable(ChildrenOf(v)[k])
  }

  /** At the root the same is asked, and a map whose keys are all strings. */
  lemma RootFlattenableExactly(v: Value)
    ensures RootFlattenable(v) <==>
              Flattenable(v) && (v.Map? || (v.MixedMap? && forall k :: k in v.mixed ==> k.Str?))
  {
    hide ChildrenOf, ValidKey;
  }

  /** Flattens a map whose keys become the first segments. A key that is no string is an error here,
      although it is dropped silently further down. */
  method FlattenRoot(value: Value) returns (r: Result<Patch>)
    ensures r.Ok? <==> RootFlattenable(value)
    ensures r.Ok? ==> RootWalk(value, r.value)
  {
    hide RootWalk, Flattenable, ValidKey;
    if value.Map? {
      r := FlattenRootMap(value.entries);
    } else if value.MixedMap? {
      var converted := ConvertKeys(value.mixed);
      if converted.None? {
        return Err;
      }
      r := FlattenRootMap(converted.value);
      if r.Ok? {
        SameRootWalk(value, converted.value, r.value);
      }
    } else {
      r := Err;
    }
  }

  lemma SameRootWalk(value: Value, entries: map<string, Value>, after: Patch)
    requires value.MixedMap? && ChildrenOf(value) == entries && RootWalk(Map(entries), after)
    ensures RootWalk(value, after)
  {
    hide WalkChildren;
    var order :| WalkOrder(Map(entries), order) && WalkChildren(map[], None, Map(entries), order, after);
    SameWalkChildren(value, Map(entries), order, after);
    assert WalkOrder(value, order);
  }

  lemma {:induction false} SameWalkChildren(v: Value, w: Value, order: seq<string>, after: Patch)
    requires ChildrenOf(v) == ChildrenOf(w) && forall k :: k in order ==> k in ChildrenOf(v)
    requires WalkChildren(map[], None, w, order, after)
    ensures WalkChildren(map[], None, v, order, after)
    decreases |order|
  {
    hide ChildrenOf, Walk;
    if order == [] {
    } else {
      var n := |order| - 1;
      var mid :| WalkChildren(map[], None, w, order[..n], mid) &&
        Walk(mid, ChildKey(None, order[n]), ChildrenOf(w)[order[n]], after);
      SameWalkChildren(v, w, order[..n], mid);
    }
  }

  method ConvertKeys(mixed: map<MixedKey, Value>) returns (r: Option<map<string, Value>>)
    ensures r.Some? <==> forall k :: k in mixed ==> k.Str?
    ensures r.Some? ==> r.value == ChildrenOf(MixedMap(mixed))
  {
    var keys := mixed.Keys;
    var converted: map<string, Value> := map[];
    while keys != {}
      invariant keys <= mixed.Keys
      invariant forall k :: k in mixed && k !in keys ==> k.Str? && k.text in converted
      invariant forall t :: t in converted ==> Str(t) in mixed && converted[t] == mixed[Str(t)]
      decreases keys
    {
      var key :| key in keys;
      keys := keys - {key};
      if !key.Str? {
        return None;
      }
      converted := converted[key.text := mixed[key]];
    }
    assert converted.Keys == Texts(mixed);
    r := Some(converted);
  }

  method FlattenRootMap(entries: map<string, Value>) returns (r: Result<Patch>)
    ensures r.Ok? <==> forall k :: k in entries ==> ValidKey(k) && Flattenable(entries[k])
    ensures r.Ok? ==> RootWalk(Map(entries), r.value)
  {
    hide ValidKey, ValidateKey, Normalize, Flattenable, WalkOrder, WalkChildren, Walk;
    ghost var v := Map(entries);
    var patch := new Builder();
    var keys := entries.Keys;
    ghost var order: seq<string> := [];
    NothingWalked(patch.entries, None, v);
    while keys != {}
      invariant forall k :: k in keys ==> k in entries && k !in order
      invariant forall k :: k in entries ==> k in keys || k in order
      invariant forall k :: k in order ==> k in entries && ValidKey(k) && Flattenable(entries[k])
      invariant forall i, j :: 0 <= i < j < |order| ==> order[i] != order[j]
      invariant WalkChildren(map[], None, v, order, patch.entries)
      decreases keys
    {
      var key :| key in keys;
      keys := keys - {key};
      ValidateKeyExactly(key, false);
      if !ValidateKey(key, false) {
        return Err;
      }
      ghost var before := patch.entries;
      var ok := FlattenInto(patch, key, entries[key]);
      if !ok {
        return Err;
      }
      WalkOneMore(map[], None, v, order, before, key, patch.entries);
      order := order + [key];
    }
    AllKeys(v, order);
    r := Ok(patch.entries);
  }
}
