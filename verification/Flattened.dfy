/** What flattening gives (`internal/stepoutput/stepoutput.go`): one entry for each leaf, and when the order of
    map entries matters. */
module Flattened {
  import opened Wrappers
  import opened Text
  import opened Keys
  import opened Patches
  import opened Flatten

  // ---------------------------------------------------------------------------------------------
  // Without dots in map keys: one entry for each leaf, and no key above another
  // ---------------------------------------------------------------------------------------------

  /** No map key contains a dot. */
  ghost predicate DotFree(v: Value)
    decreases v
  {
    forall k :: k in ChildrenOf(v) ==> '.' !in k && DotFree(ChildrenOf(v)[k])
  }

  ghost predicate DotFreePath(path: seq<string>) {
    forall i :: 0 <= i < |path| ==> '.' !in path[i]
  }

  lemma {:induction false} LeafPathDotFree(v: Value, path: seq<string>)
    requires DotFree(v) && LeafAt(v, path).Some?
    ensures DotFreePath(path)
    decreases v
  {
    hide ChildrenOf;
    if path == [] {
    } else {
      LeafPathDotFree(ChildrenOf(v)[path[0]], path[1..]);
      assert forall i :: 1 <= i < |path| ==> path[i] == path[1..][i - 1];
    }
  }

  /** A leaf is the end of its path. */
  lemma {:induction false} LeafIsEnd(v: Value, path: seq<string>, longer: seq<string>)
    requires LeafAt(v, path).Some? && path < longer
    ensures LeafAt(v, longer).None?
    decreases v
  {
    if path == [] {
      NoChildren(v);
    } else {
      hide ChildrenOf;
      assert path[1..] < longer[1..];
      LeafIsEnd(ChildrenOf(v)[path[0]], path[1..], longer[1..]);
    }
  }

  predicate StartsWithDot(s: string) {
    s != "" && s[0] == '.'
  }

  /** Two texts that start with a dot-free segment agree on that segment. */
  lemma SameSegment(x: string, t: string, y: string, u: string)
    requires '.' !in x && '.' !in y && (u == "" || StartsWithDot(u))
    requires x + t <= y + u && (StartsWithDot(t) || (t == "" && x == y + u))
    ensures x == y && t <= u
  {
    var a, b := x + t, y + u;
    assert forall i :: 0 <= i < |a| ==> a[i] == b[i];
    assert forall i :: 0 <= i < |x| ==> b[i] == x[i] && b[i] in x;
    assert forall i :: 0 <= i < |y| ==> b[i] == y[i] && b[i] in y;
    assert |y| < |b| ==> b[|y|] == '.';
    assert |x| < |a| ==> b[|x|] == '.';
    assert |x| == |y|;
    assert x == b[..|x|] == y;
    assert t == a[|x|..] && u == b[|x|..];
  }

  lemma SuffixStarts(path: seq<string>)
    ensures Suffix(path) == "" || StartsWithDot(Suffix(path))
  {
  }

  lemma {:induction false} SuffixInjective(p: seq<string>, q: seq<string>)
    requires DotFreePath(p) && DotFreePath(q) && Suffix(p) == Suffix(q)
    ensures p == q
  {
    if p == [] || q == [] {
    } else {
      SuffixStarts(p[1..]);
      SuffixStarts(q[1..]);
      assert Suffix(p)[1..] == p[0] + Suffix(p[1..]) && Suffix(q)[1..] == q[0] + Suffix(q[1..]);
      SuffixHeads(p[0], Suffix(p[1..]), q[0], Suffix(q[1..]));
      SuffixInjective(p[1..], q[1..]);
      assert p == [p[0]] + p[1..] && q == [q[0]] + q[1..];
    }
  }

  lemma SuffixHeads(x: string, t: string, y: string, u: string)
    requires '.' !in x && '.' !in y && (t == "" || StartsWithDot(t)) && (u == "" || StartsWithDot(u))
    requires x + t == y + u
    ensures x == y && t == u
  {
    if t == "" {
      assert x + t == x;
      SameSegment(x, t, y, u);
      assert y + u == y ==> u == "";
      assert |x| == |y| + |u|;
    } else {
      SameSegment(x, t, y, u);
      assert |t| == |u|;
    }
  }

  lemma {:induction false} SuffixAbove(p: seq<string>, q: seq<string>)
    requires DotFreePath(p) && DotFreePath(q) && Suffix(p) + "." <= Suffix(q)
    ensures p < q
  {
    if p == [] {
    } else {
      var t, u := Suffix(p[1..]) + ".", Suffix(q[1..]);
      SuffixStarts(p[1..]);
      SuffixStarts(q[1..]);
      assert p[0] + t == (Suffix(p) + ".")[1..] && q[0] + u == Suffix(q)[1..];
      SameSegment(p[0], t, q[0], u);
      SuffixAbove(p[1..], q[1..]);
      assert p == [p[0]] + p[1..] && q == [q[0]] + q[1..];
    }
  }

  lemma {:induction false} LeafKeyValid(prefix: string, v: Value, path: seq<string>)
    requires ValidKey(prefix) && Flattenable(v) && LeafAt(v, path).Some?
    ensures ValidKey(KeyOf(prefix, path))
    decreases v
  {
    if path == [] {
      assert KeyOf(prefix, []) == prefix;
    } else {
      var k := path[0];
      if v.List? {
        var i := ByIndexOnly(v.items, k);
        DigitsAreValid(i);
      }
      hide ChildrenOf, ValidKey, Itoa, KeyOf;
      ValidKeyConcat(prefix, k);
      LeafKeyValid(prefix + "." + k, ChildrenOf(v)[k], path[1..]);
      LeafOfChild(prefix, v, k, path[1..]);
      assert path == [k] + path[1..];
    }
  }

  lemma DigitsAreValid(i: nat)
    ensures ValidKey(Itoa(i))
  {
    assert forall j :: 0 <= j < |Itoa(i)| ==> IsDigit(Itoa(i)[j]) && Fits(Itoa(i), j);
  }

  /** Flattening a value without dotted map keys: every leaf has its own entry with its own value, there
      are no other entries, every key is well-formed, and no key is an ancestor of another. */
  lemma FlattenedExactly(prefix: string, v: Value, patch: Patch)
    requires ValidKey(prefix) && Flattenable(v) && DotFree(v) && Walk(map[], prefix, v, patch)
    ensures forall path :: LeafAt(v, path).Some? ==>
              KeyOf(prefix, path) in patch && patch[KeyOf(prefix, path)] == LeafAt(v, path).value
    ensures forall p, q :: LeafAt(v, p).Some? && LeafAt(v, q).Some? && KeyOf(prefix, p) == KeyOf(prefix, q) ==> p == q
    ensures forall k :: k in patch ==> ValidKey(k) && exists path :: LeafAt(v, path).Some? && KeyOf(prefix, path) == k
    ensures Antichain(patch.Keys)
  {
    WalkOverlays(map[], prefix, v, patch);
    DotFreeIsUnique(v);
    hide LeafAt, ValidKey, Flattenable, DotFree, Suffix, Walk, Overlaid, Leaves, Above, LeafKeysDiffer;
    forall p, q | LeafAt(v, p).Some? && LeafAt(v, q).Some? && KeyOf(prefix, p) == KeyOf(prefix, q) ensures p == q {
      assert KeyOf(prefix, p)[|prefix|..] == Suffix(p) && KeyOf(prefix, q)[|prefix|..] == Suffix(q);
      SameSuffix(v, p, q);
    }
    forall path | LeafAt(v, path).Some?
      ensures KeyOf(prefix, path) in patch && patch[KeyOf(prefix, path)] == LeafAt(v, path).value
    {
      LeafAsks(prefix, v, path, patch);
      var p := PathOf(prefix, v, patch, KeyOf(prefix, path));
      assert p == path;
    }
    forall k | k in patch ensures ValidKey(k) && exists path :: LeafAt(v, path).Some? && KeyOf(prefix, path) == k {
      var path := PathOf(prefix, v, patch, k);
      LeafKeyValid(prefix, v, path);
    }
    forall a, b | a in patch && b in patch ensures !Above(a, b) {
      var p := PathOf(prefix, v, patch, a);
      var q := PathOf(prefix, v, patch, b);
      NotAbove(prefix, v, p, q);
    }
  }

  /** Different leaves have different keys. */
  ghost predicate LeafKeysDiffer(v: Value) {
    forall p, q :: LeafAt(v, p).Some? && LeafAt(v, q).Some? && Suffix(p) == Suffix(q) ==> p == q
  }

  lemma SameSuffix(v: Value, p: seq<string>, q: seq<string>)
    requires LeafKeysDiffer(v) && LeafAt(v, p).Some? && LeafAt(v, q).Some? && Suffix(p) == Suffix(q)
    ensures p == q
  {
    hide LeafAt, Suffix;
  }

  lemma DotFreeIsUnique(v: Value)
    requires DotFree(v)
    ensures LeafKeysDiffer(v)
  {
    hide LeafAt, DotFree, Suffix;
    forall p, q | LeafAt(v, p).Some? && LeafAt(v, q).Some? && Suffix(p) == Suffix(q) ensures p == q {
      LeafPathDotFree(v, p);
      LeafPathDotFree(v, q);
      SuffixInjective(p, q);
    }
  }

  lemma LeafAsks(prefix: string, v: Value, path: seq<string>, patch: Patch)
    requires LeafAt(v, path).Some? && Overlaid(map[], Leaves(prefix, v), patch)
    ensures KeyOf(prefix, path) in patch
  {
    hide LeafAt;
    assert (KeyOf(prefix, path), LeafAt(v, path).value) in Leaves(prefix, v);
  }

  lemma PathOf(prefix: string, v: Value, patch: Patch, k: string) returns (path: seq<string>)
    requires Overlaid(map[], Leaves(prefix, v), patch) && k in patch
    ensures LeafAt(v, path).Some? && KeyOf(prefix, path) == k && patch[k] == LeafAt(v, path).value
  {
    hide LeafAt;
    assert (k, patch[k]) in Leaves(prefix, v);
    path :| LeafAt(v, path).Some? && (k, patch[k]) == (KeyOf(prefix, path), LeafAt(v, path).value);
  }

  lemma NotAbove(prefix: string, v: Value, p: seq<string>, q: seq<string>)
    requires DotFree(v) && LeafAt(v, p).Some? && LeafAt(v, q).Some?
    ensures !Above(KeyOf(prefix, p), KeyOf(prefix, q))
  {
    LeafPathDotFree(v, p);
    LeafPathDotFree(v, q);
    hide LeafAt, Suffix, DotFree;
    if Above(KeyOf(prefix, p), KeyOf(prefix, q)) {
      assert (KeyOf(prefix, p) + ".")[|prefix|..] == Suffix(p) + "." && KeyOf(prefix, q)[|prefix|..] == Suffix(q);
      SuffixAbove(p, q);
      LeafIsEnd(v, p, q);
    }
  }

  // ---------------------------------------------------------------------------------------------
  // When the order of the map entries does not matter
  // ---------------------------------------------------------------------------------------------

  /** No two leaves with different contents have the same key. */
  ghost predicate NoCompetition(v: Value) {
    forall p, q :: LeafAt(v, p).Some? && LeafAt(v, q).Some? && Suffix(p) == Suffix(q) ==> LeafAt(v, p) == LeafAt(v, q)
  }

  /** Any value without errors can be walked through, and any of its children in any order. */
  lemma {:induction false} WalkExists(prior: Patch, prefix: string, v: Value) returns (after: Patch)
    requires Flattenable(v)
    ensures Walk(prior, prefix, v, after)
    decreases v, 1
  {
    hide ChildrenOf, ValidKey, WalkChildren, WalkOrder;
    if v.Null? {
      after := prior[prefix := None];
    } else if v.Scalar? {
      after := prior[prefix := Some(v.text)];
    } else {
      var order := OrderExists(v);
      OrderHasChildren(v, order);
      after := WalkChildrenExist(prior, Some(prefix), v, order);
    }
  }

  lemma {:induction false} WalkChildrenExist(prior: Patch, prefix: Option<string>, v: Value, order: seq<string>)
    returns (after: Patch)
    requires forall k :: k in ChildrenOf(v) ==> Flattenable(ChildrenOf(v)[k])
    requires forall k :: k in order ==> k in ChildrenOf(v)
    ensures WalkChildren(prior, prefix, v, order, after)
    decreases v, 0, |order|
  {
    hide ChildrenOf, Flattenable, Walk, ChildKey;
    if order == [] {
      after := prior;
    } else {
      var n := |order| - 1;
      var mid := WalkChildrenExist(prior, prefix, v, order[..n]);
      after := WalkExists(mid, ChildKey(prefix, order[n]), ChildrenOf(v)[order[n]]);
    }
  }

  lemma OrderExists(v: Value) returns (order: seq<string>)
    ensures WalkOrder(v, order)
  {
    hide Itoa;
    if v.List? {
      order := seq(|v.items|, i requires 0 <= i < |v.items| => Itoa(i));
      AllItems(v, order);
    } else {
      hide ChildrenOf;
      order := KeysInOrder(ChildrenOf(v).Keys);
    }
  }

  lemma {:induction false} KeysInOrder(keys: set<string>) returns (order: seq<string>)
    ensures forall i, j :: 0 <= i < j < |order| ==> order[i] != order[j]
    ensures forall k :: k in order <==> k in keys
    decreases keys
  {
    if keys == {} {
      order := [];
    } else {
      var k :| k in keys;
      order := KeysInOrder(keys - {k});
      order := order + [k];
    }
  }

  /** The key of a leaf below a container. */
  function KeyBelow(prefix: Option<string>, path: seq<string>): string
    requires path != []
  {
    KeyOf(ChildKey(prefix, path[0]), path[1..])
  }

  /** Every leaf gets its way in some walk. */
  lemma {:induction false} LeafCanWin(prior: Patch, prefix: string, v: Value, path: seq<string>) returns (after: Patch)
    requires Flattenable(v) && LeafAt(v, path).Some?
    ensures Walk(prior, prefix, v, after)
    ensures KeyOf(prefix, path) in after && after[KeyOf(prefix, path)] == LeafAt(v, path).value
    decreases v, 1
  {
    hide ChildrenOf, ValidKey, WalkOrder, WalkChildren, KeyOf, Flattenable;
    if path == [] {
      assert KeyOf(prefix, []) == prefix by { EmptyPath(prefix); }
      after := prior[prefix := LeafAt(v, path).value];
    } else {
      FlattenableChildren(v);
      if v.Null? || v.Scalar? {
        NoChildren(v);
      }
      var order;
      order, after := ChildCanWin(prior, Some(prefix), v, path);
      WalkInOrder(prior, prefix, v, order, after);
      LeafOfChild(prefix, v, path[0], path[1..]);
      assert path == [path[0]] + path[1..];
    }
  }

  lemma EmptyPath(prefix: string)
    ensures KeyOf(prefix, []) == prefix
  {
  }

  lemma FlattenableChildren(v: Value)
    requires Flattenable(v)
    ensures !v.Unsupported? && forall k :: k in ChildrenOf(v) ==> Flattenable(ChildrenOf(v)[k])
  {
    hide ChildrenOf, ValidKey;
  }

  lemma {:induction false} ChildCanWin(prior: Patch, prefix: Option<string>, v: Value, path: seq<string>)
    returns (order: seq<string>, after: Patch)
    requires path != [] && LeafAt(v, path).Some? && forall k :: k in ChildrenOf(v) ==> Flattenable(ChildrenOf(v)[k])
    ensures WalkOrder(v, order) && WalkChildren(prior, prefix, v, order, after)
    ensures KeyBelow(prefix, path) in after && after[KeyBelow(prefix, path)] == LeafAt(v, path).value
    decreases v, 0
  {
    hide ChildrenOf, ValidKey, WalkChildren, Walk, KeyOf, Flattenable, Itoa, ChildKey;
    var k := path[0];
    var front;
    order, front := OrderWith(v, k);
    var mid := WalkChildrenExist(prior, prefix, v, front);
    var won := LeafCanWin(mid, ChildKey(prefix, k), ChildrenOf(v)[k], path[1..]);
    WalkOneMore(prior, prefix, v, front, mid, k, won);
    assert order[..|front| + 1] == front + [k] && order[|front|] == (front + [k])[|front|];
    if v.List? {
      after := ItemsLeave(prior, prefix, v, order, |front|, won, path);
    } else {
      after := won;
    }
  }

  /** An order in which the children in `front` come before `k`, and nothing after it unless it must. */
  lemma OrderWith(v: Value, k: string) returns (order: seq<string>, front: seq<string>)
    requires k in ChildrenOf(v)
    ensures WalkOrder(v, order) && front + [k] <= order && (!v.List? ==> order == front + [k])
    ensures forall n :: n in front ==> n in ChildrenOf(v)
  {
    hide Itoa;
    if v.List? {
      order := seq(|v.items|, i requires 0 <= i < |v.items| => Itoa(i));
      AllItems(v, order);
      var i := ByIndexOnly(v.items, k);
      front := order[..i];
      assert order[..i + 1] == front + [k];
    } else {
      hide ChildrenOf;
      front := KeysInOrder(ChildrenOf(v).Keys - {k});
      order := front + [k];
    }
  }

  /** The items after `i` leave the keys below item `i` alone. */
  lemma {:induction false} ItemsLeave(prior: Patch, prefix: Option<string>, v: Value, order: seq<string>, i: nat,
          won: Patch, path: seq<string>)
    returns (after: Patch)
    requires v.List? && WalkOrder(v, order) && i < |order| && path != [] && path[0] == order[i]
    requires forall k :: k in ChildrenOf(v) ==> Flattenable(ChildrenOf(v)[k])
    requires WalkChildren(prior, prefix, v, order[..i + 1], won) && KeyBelow(prefix, path) in won
    ensures WalkChildren(prior, prefix, v, order, after)
    ensures KeyBelow(prefix, path) in after && after[KeyBelow(prefix, path)] == won[KeyBelow(prefix, path)]
  {
    hide ChildrenOf, WalkChildren, Walk, KeyBelow, Flattenable, Itoa, ChildKey, Overlaid, Leaves;
    after := won;
    for m := i + 1 to |order|
      invariant WalkChildren(prior, prefix, v, order[..m], after)
      invariant KeyBelow(prefix, path) in after && after[KeyBelow(prefix, path)] == won[KeyBelow(prefix, path)]
    {
      var k, before := order[m], after;
      assert k in order;
      after := WalkExists(before, ChildKey(prefix, k), ChildrenOf(v)[k]);
      WalkOneMore(prior, prefix, v, order[..m], before, k, after);
      assert order[..m + 1] == order[..m] + [k];
      WalkOverlays(before, ChildKey(prefix, k), ChildrenOf(v)[k], after);
      OtherItem(prefix, i, m, ChildrenOf(v)[k], path);
      LeftAlone(before, Leaves(ChildKey(prefix, k), ChildrenOf(v)[k]), after, KeyBelow(prefix, path));
    }
    assert order[..|order|] == order;
  }

  lemma LeftAlone(prior: Patch, entries: iset<(string, Option<string>)>, after: Patch, key: string)
    requires Overlaid(prior, entries, after) && key in prior && forall l :: (key, l) !in entries
    ensures key in after && after[key] == prior[key]
  {
  }

  lemma OtherItem(prefix: Option<string>, i: nat, m: nat, item: Value, path: seq<string>)
    requires path != [] && path[0] == Itoa(i) && i != m
    ensures forall l :: (KeyBelow(prefix, path), l) !in Leaves(ChildKey(prefix, Itoa(m)), item)
  {
    hide LeafAt, Itoa;
    forall q: seq<string> ensures KeyOf(ChildKey(prefix, Itoa(m)), q) != KeyBelow(prefix, path) {
      var x, y := KeyOf(ChildKey(prefix, Itoa(m)), q), KeyBelow(prefix, path);
      if x == y {
        var cut := if prefix.Some? then |prefix.value| + 1 else 0;
        assert x[cut..] == Itoa(m) + Suffix(q) && y[cut..] == Itoa(i) + Suffix(path[1..]);
        DigitsOnly(m);
        DigitsOnly(i);
        SuffixStarts(q);
        SuffixStarts(path[1..]);
        SuffixHeads(Itoa(m), Suffix(q), Itoa(i), Suffix(path[1..]));
        ItoaInjective(m, i);
      }
    }
  }

  lemma DigitsOnly(n: nat)
    ensures '.' !in Itoa(n)
  {
    assert AllDigits(Itoa(n));
  }

  /** The result of flattening does not depend on the order of map entries exactly if no two leaves with
      different contents compete for a key. */
  lemma OrderIrrelevantExactly(prefix: string, v: Value)
    requires Flattenable(v)
    ensures (forall a, b :: Walk(map[], prefix, v, a) && Walk(map[], prefix, v, b) ==> a == b) <==> NoCompetition(v)
  {
    hide LeafAt, Flattenable, Suffix, Walk;
    if NoCompetition(v) {
      forall a, b | Walk(map[], prefix, v, a) && Walk(map[], prefix, v, b) ensures a == b {
        WalkOverlays(map[], prefix, v, a);
        WalkOverlays(map[], prefix, v, b);
        hide Overlaid, Leaves, KeyOf;
        forall k | k in a || k in b ensures k in a && k in b && a[k] == b[k] {
          var c, d := if k in a then a else b, if k in a then b else a;
          var p := PathOf(prefix, v, c, k);
          LeafAsks(prefix, v, p, d);
          var q := PathOf(prefix, v, d, k);
          SameKeySameSuffix(prefix, p, q);
        }
      }
    } else {
      var p, q :| LeafAt(v, p).Some? && LeafAt(v, q).Some? && Suffix(p) == Suffix(q) && LeafAt(v, p) != LeafAt(v, q);
      var a := LeafCanWin(map[], prefix, v, p);
      var b := LeafCanWin(map[], prefix, v, q);
      assert KeyOf(prefix, p) == KeyOf(prefix, q);
      assert a != b;
    }
  }

  lemma SameKeySameSuffix(prefix: string, p: seq<string>, q: seq<string>)
    requires KeyOf(prefix, p) == KeyOf(prefix, q)
    ensures Suffix(p) == Suffix(q)
  {
    hide Suffix;
    assert KeyOf(prefix, p)[|prefix|..] == Suffix(p) && KeyOf(prefix, q)[|prefix|..] == Suffix(q);
  }

  /** Without dots in map keys the order never matters. */
  lemma FlattenedTheSame(prefix: string, v: Value, a: Patch, b: Patch)
    requires Flattenable(v) && DotFree(v) && Walk(map[], prefix, v, a) && Walk(map[], prefix, v, b)
    ensures a == b
  {
    DotFreeIsUnique(v);
    OrderIrrelevantExactly(prefix, v);
    hide LeafAt, Flattenable, DotFree, Walk, Suffix;
  }

  const INNER: Value := Map(map["b" := Scalar("2")])
  const COMPETING: Value := Map(map["a.b" := Scalar("1"), "a" := INNER])

  lemma CompetingIsFlattenable()
    ensures Flattenable(COMPETING)
  {
    assert Fits("a.b", 0) && Fits("a.b", 1) && Fits("a.b", 2);
    assert Fits("a", 0) && Fits("b", 0);
    hide ValidKey;
    assert Flattenable(Scalar("1")) && Flattenable(Scalar("2"));
    assert Flattenable(INNER);
  }

  /** Walking through the entry `a`, whatever came before, sets `p.a.b` to its leaf. */
  lemma WalkInner(prior: Patch)
    ensures Walk(prior, "p.a", INNER, prior["p.a.b" := Some("2")])
  {
    assert "p.a" + "." + "b" == "p.a.b";
    assert Walk(prior, ChildKey(Some("p.a"), "b"), Scalar("2"), prior["p.a.b" := Some("2")]);
    assert WalkChildren(prior, Some("p.a"), INNER, [], prior);
    hide Walk;
    WalkOneMore(prior, Some("p.a"), INNER, [], prior, "b", prior["p.a.b" := Some("2")]);
    assert [] + ["b"] == ["b"];
    assert WalkOrder(INNER, ["b"]);
    WalkInOrder(prior, "p.a", INNER, ["b"], prior["p.a.b" := Some("2")]);
  }

  lemma WalkTwo(prefix: string, v: Value, k: string, l: string, mid: Patch, after: Patch)
    requires k in ChildrenOf(v) && l in ChildrenOf(v)
    requires Walk(map[], ChildKey(Some(prefix), k), ChildrenOf(v)[k], mid)
    requires Walk(mid, ChildKey(Some(prefix), l), ChildrenOf(v)[l], after)
    ensures WalkChildren(map[], Some(prefix), v, [k, l], after)
  {
    NothingWalked(map[], Some(prefix), v);
    hide Walk, WalkChildren, ChildrenOf;
    WalkOneMore(map[], Some(prefix), v, [], map[], k, mid);
    WalkOneMore(map[], Some(prefix), v, [] + [k], mid, l, after);
    assert [] + [k] + [l] == [k, l];
  }

  lemma WalkText(prior: Patch, prefix: string, text: string)
    ensures Walk(prior, prefix, Scalar(text), prior[prefix := Some(text)])
  {
  }

  /** With a dot in a map key two leaves can compete for one key; then the one walked through last wins. */
  lemma DottedKeysCompete()
    ensures Flattenable(COMPETING)
    ensures WalkOrder(COMPETING, ["a", "a.b"]) && WalkOrder(COMPETING, ["a.b", "a"])
    ensures WalkChildren(map[], Some("p"), COMPETING, ["a", "a.b"], map["p.a.b" := Some("1")])
    ensures WalkChildren(map[], Some("p"), COMPETING, ["a.b", "a"], map["p.a.b" := Some("2")])
  {
    var one, two := map["p.a.b" := Some("1")], map["p.a.b" := Some("2")];
    hide Walk, WalkChildren, Flattenable;
    CompetingIsFlattenable();
    assert ChildKey(Some("p"), "a") == "p.a" && ChildKey(Some("p"), "a.b") == "p.a.b";
    assert ChildrenOf(COMPETING)["a"] == INNER && ChildrenOf(COMPETING)["a.b"] == Scalar("1");
    assert one["p.a.b" := Some("2")] == two && two["p.a.b" := Some("1")] == one;
    WalkInner(map[]);
    WalkInner(one);
    WalkText(map[], "p.a.b", "1");
    WalkText(two, "p.a.b", "1");
    WalkTwo("p", COMPETING, "a", "a.b", two, one);
    WalkTwo("p", COMPETING, "a.b", "a", one, two);
  }

  // ---------------------------------------------------------------------------------------------
  // At the root
  // ---------------------------------------------------------------------------------------------

  /** At the root the first name of the path starts the key. */
  function RootKey(path: seq<string>): string {
    if path == [] then "" else path[0] + Suffix(path[1..])
  }

  lemma RootKeySuffix(path: seq<string>)
    requires path != []
    ensures Suffix(path) == "." + RootKey(path) && RootKey(path) == KeyBelow(None, path)
  {
    assert "." + path[0] + Suffix(path[1..]) == "." + (path[0] + Suffix(path[1..]));
  }

  /** Keys are the names on the path, joined by dots. */
  lemma {:induction false} KeysAreJoined(prefix: string, path: seq<string>)
    ensures KeyOf(prefix, path) == Join([prefix] + path, '.')
    ensures path != [] ==> RootKey(path) == Join(path, '.')
    decreases |path|
  {
    assert ([prefix] + path)[1..] == path;
    if path == [] {
    } else {
      KeysAreJoined(path[0], path[1..]);
      assert path == [path[0]] + path[1..];
      assert prefix + ("." + path[0] + Suffix(path[1..])) == prefix + "." + (path[0] + Suffix(path[1..]));
    }
  }

  lemma RootPathNotEmpty(v: Value, path: seq<string>)
    requires RootFlattenable(v) && LeafAt(v, path).Some?
    ensures path != [] && path[0] in ChildrenOf(v)
  {
    hide ChildrenOf, ValidKey, Flattenable;
  }

  lemma RootPathOf(v: Value, patch: Patch, k: string) returns (path: seq<string>)
    requires Overlaid(map[], LeavesBelow(None, v, ChildrenOf(v).Keys), patch) && k in patch
    ensures path != [] && LeafAt(v, path).Some? && RootKey(path) == k && LeafAt(v, path).value == patch[k]
  {
    hide LeafAt, ChildrenOf;
    assert (k, patch[k]) in LeavesBelow(None, v, ChildrenOf(v).Keys);
    var name :| name in ChildrenOf(v) && (k, patch[k]) in Leaves(ChildKey(None, name), ChildrenOf(v)[name]);
    assert ChildKey(None, name) == name;
    var rest: seq<string> :| LeafAt(ChildrenOf(v)[name], rest).Some? &&
      (k, patch[k]) == (KeyOf(name, rest), LeafAt(ChildrenOf(v)[name], rest).value);
    LeafOfChild("", v, name, rest);
    path := [name] + rest;
    assert path[1..] == rest;
  }

  lemma RootLeafAsks(v: Value, path: seq<string>, patch: Patch)
    requires RootFlattenable(v) && LeafAt(v, path).Some?
    requires Overlaid(map[], LeavesBelow(None, v, ChildrenOf(v).Keys), patch)
    ensures RootKey(path) in patch
  {
    RootPathNotEmpty(v, path);
    hide ChildrenOf, RootFlattenable;
    var child := ChildrenOf(v)[path[0]];
    assert (KeyOf(path[0], path[1..]), LeafAt(child, path[1..]).value) in Leaves(ChildKey(None, path[0]), child);
    assert (RootKey(path), LeafAt(v, path).value) in LeavesBelow(None, v, ChildrenOf(v).Keys);
  }

  /** Flattening a map without dotted keys at the root: every leaf has its own entry with its own value,
      there are no other entries, every key is well-formed, and no key is an ancestor of another. */
  lemma RootFlattenedExactly(v: Value, patch: Patch)
    requires RootFlattenable(v) && DotFree(v) && RootWalk(v, patch)
    ensures forall path :: LeafAt(v, path).Some? ==>
              RootKey(path) in patch && patch[RootKey(path)] == LeafAt(v, path).value
    ensures forall p, q :: LeafAt(v, p).Some? && LeafAt(v, q).Some? && RootKey(p) == RootKey(q) ==> p == q
    ensures forall k :: k in patch ==> ValidKey(k) && exists path :: LeafAt(v, path).Some? && RootKey(path) == k
    ensures Antichain(patch.Keys)
  {
    ContainerOverlays(map[], None, v, patch);
    DotFreeIsUnique(v);
    hide LeafAt, ValidKey, RootFlattenable, DotFree, RootKey, Suffix, Above, ChildrenOf, LeavesBelow, Overlaid;
    hide RootWalk;
    hide LeafKeysDiffer;
    forall p, q | LeafAt(v, p).Some? && LeafAt(v, q).Some? && RootKey(p) == RootKey(q) ensures p == q {
      RootPathsDiffer(v, p, q);
    }
    forall path | LeafAt(v, path).Some?
      ensures RootKey(path) in patch && patch[RootKey(path)] == LeafAt(v, path).value
    {
      RootLeafAsks(v, path, patch);
      var p := RootPathOf(v, patch, RootKey(path));
      assert p == path;
    }
    forall k | k in patch ensures ValidKey(k) && exists path :: LeafAt(v, path).Some? && RootKey(path) == k {
      var path := RootPathOf(v, patch, k);
      RootKeyValid(v, path);
    }
    forall a, b | a in patch && b in patch ensures !Above(a, b) {
      var p := RootPathOf(v, patch, a);
      var q := RootPathOf(v, patch, b);
      RootNotAbove(v, p, q);
    }
  }

  lemma RootPathsDiffer(v: Value, p: seq<string>, q: seq<string>)
    requires RootFlattenable(v) && LeafKeysDiffer(v)
    requires LeafAt(v, p).Some? && LeafAt(v, q).Some? && RootKey(p) == RootKey(q)
    ensures p == q
  {
    RootPathNotEmpty(v, p);
    RootPathNotEmpty(v, q);
    hide Suffix, RootKey, ChildrenOf, LeafAt;
    RootKeySuffix(p);
    RootKeySuffix(q);
  }

  lemma RootKeyValid(v: Value, path: seq<string>)
    requires RootFlattenable(v) && LeafAt(v, path).Some?
    ensures ValidKey(RootKey(path))
  {
    hide Suffix, ChildrenOf, ValidKey, Flattenable;
    LeafKeyValid(path[0], ChildrenOf(v)[path[0]], path[1..]);
  }

  lemma RootNotAbove(v: Value, p: seq<string>, q: seq<string>)
    requires DotFree(v) && p != [] && q != [] && LeafAt(v, p).Some? && LeafAt(v, q).Some?
    ensures !Above(RootKey(p), RootKey(q))
  {
    hide DotFree, Suffix, RootKey, ChildrenOf;
    LeafPathDotFree(v, p);
    LeafPathDotFree(v, q);
    if Above(RootKey(p), RootKey(q)) {
      RootKeySuffix(p);
      RootKeySuffix(q);
      assert Suffix(p) + "." == "." + (RootKey(p) + ".");
      SuffixAbove(p, q);
      LeafIsEnd(v, p, q);
    }
  }

  /** The same for flattening at the root. */
  lemma RootOrderIrrelevantExactly(v: Value)
    requires RootFlattenable(v)
    ensures (forall a, b :: RootWalk(v, a) && RootWalk(v, b) ==> a == b) <==> NoCompetition(v)
  {
    hide LeafAt, RootFlattenable, ChildrenOf, Suffix, WalkOrder, WalkChildren;
    if NoCompetition(v) {
      forall a, b | RootWalk(v, a) && RootWalk(v, b) ensures a == b {
        ContainerOverlays(map[], None, v, a);
        ContainerOverlays(map[], None, v, b);
        hide Overlaid, LeavesBelow, RootKey;
        forall k | k in a || k in b ensures k in a && k in b && a[k] == b[k] {
          var c, d := if k in a then a else b, if k in a then b else a;
          var p := RootPathOf(v, c, k);
          RootLeafAsks(v, p, d);
          var q := RootPathOf(v, d, k);
          RootKeySuffix(p);
          RootKeySuffix(q);
        }
      }
    } else {
      var p, q :| LeafAt(v, p).Some? && LeafAt(v, q).Some? && Suffix(p) == Suffix(q) && LeafAt(v, p) != LeafAt(v, q);
      RootPathNotEmpty(v, p);
      RootPathNotEmpty(v, q);
      RootChildrenFine(v);
      var o, a := ChildCanWin(map[], None, v, p);
      var r, b := ChildCanWin(map[], None, v, q);
      RootKeySuffix(p);
      RootKeySuffix(q);
      hide KeyBelow, RootKey;
      SameAfterDot(RootKey(p), RootKey(q));
      assert RootWalk(v, a) && RootWalk(v, b) && a != b;
    }
  }

  lemma SameAfterDot(x: string, y: string)
    requires "." + x == "." + y
    ensures x == y
  {
    assert ("." + x)[1..] == x && ("." + y)[1..] == y;
  }

  lemma RootChildrenFine(v: Value)
    requires RootFlattenable(v)
    ensures forall k :: k in ChildrenOf(v) ==> Flattenable(ChildrenOf(v)[k])
  {
    hide ChildrenOf, ValidKey, Flattenable;
  }
}
