/** Dependency graphs: reachability, and orders in which every dependency comes first. */
module Graph {

  datatype Vertex = Vertex(name: string, dependsOn: seq<string>)

  type Edges = set<(string, string)>

  /** An edge from every vertex to each of its dependencies. */
  function EdgesOf(vs: seq<Vertex>): Edges {
    set v, d | v in vs && d in v.dependsOn :: (v.name, d)
  }

  function Names(vs: seq<Vertex>): set<string> {
    set v | v in vs :: v.name
  }

  // ---------------------------------------------------------------------------------------------
  // Reachability
  // ---------------------------------------------------------------------------------------------

  ghost predicate IsPath(e: Edges, p: seq<string>) {
    |p| > 0 && forall i :: 0 <= i < |p| - 1 ==> (p[i], p[i + 1]) in e
  }

  /** The reflexive and transitive closure of the edges. */
  ghost predicate Reaches(e: Edges, a: string, b: string) {
    exists p :: IsPath(e, p) && p[0] == a && p[|p| - 1] == b
  }

  lemma ReachesItself(e: Edges, a: string)
    ensures Reaches(e, a, a)
  {
    assert IsPath(e, [a]) && [a][0] == a;
  }

  lemma EdgeThenReaches(e: Edges, a: string, b: string, c: string)
    requires (a, b) in e && Reaches(e, b, c)
    ensures Reaches(e, a, c)
  {
    var p :| IsPath(e, p) && p[0] == b && p[|p| - 1] == c;
    var q := [a] + p;
    assert IsPath(e, q) && q[0] == a && q[|q| - 1] == c;
  }

  /** A vertex that reaches another one is that one, or has an edge to a vertex that reaches it. */
  lemma ReachesCases(e: Edges, a: string, c: string) returns (b: string)
    requires Reaches(e, a, c)
    ensures a == c || ((a, b) in e && Reaches(e, b, c))
  {
    var p :| IsPath(e, p) && p[0] == a && p[|p| - 1] == c;
    if |p| == 1 {
      b := a;
    } else {
      b := p[1];
      var q := p[1..];
      assert (p[0], p[1]) in e;
      assert IsPath(e, q) && q[0] == b && q[|q| - 1] == c;
    }
  }

  /** Nothing leads out of a set that contains all successors of its members. */
  lemma {:induction false} ClosedSetHolds(e: Edges, within: set<string>, p: seq<string>)
    requires IsPath(e, p) && p[0] in within
    requires forall a, b :: a in within && (a, b) in e ==> b in within
    ensures p[|p| - 1] in within
  {
    if |p| == 1 {
    } else {
      assert (p[0], p[1]) in e;
      assert IsPath(e, p[1..]) by {
        forall i | 0 <= i < |p| - 2 ensures (p[1..][i], p[1..][i + 1]) in e {
          assert (p[i + 1], p[i + 2]) in e;
        }
      }
      ClosedSetHolds(e, within, p[1..]);
    }
  }

  lemma MoreEdgesReachMore(e: Edges, f: Edges, a: string, b: string)
    requires e <= f && Reaches(e, a, b)
    ensures Reaches(f, a, b)
  {
    var p :| IsPath(e, p) && p[0] == a && p[|p| - 1] == b;
    assert IsPath(f, p);
  }

  // ---------------------------------------------------------------------------------------------
  // What a depth-first search with a shared set of visited vertices knows when it fails
  // ---------------------------------------------------------------------------------------------

  /** A search from `a` for `b` that grew the visited vertices from `before` to `after` and did not
      find `b`: every vertex it added has only visited successors, none of which is `b`. */
  ghost predicate Explored(e: Edges, before: set<string>, after: set<string>, a: string, b: string) {
    && a != b && a in after && before <= after
    && forall v, w :: v in after - before && (v, w) in e ==> w in after && w != b
  }

  /** A failed search that started with nothing visited has seen everything there is. */
  lemma ExploredMeansUnreachable(e: Edges, after: set<string>, a: string, b: string)
    requires Explored(e, {}, after, a, b)
    ensures !Reaches(e, a, b)
  {
    forall p | IsPath(e, p) && p[0] == a ensures p[|p| - 1] != b {
      if |p| > 1 {
        var q := p[..|p| - 1];
        assert IsPath(e, q) by {
          forall i | 0 <= i < |q| - 1 ensures (q[i], q[i + 1]) in e {
            assert (p[i], p[i + 1]) in e;
          }
        }
        ClosedSetHolds(e, after, q);
        assert (p[|p| - 2], p[|p| - 1]) in e;
      }
    }
  }

  lemma NothingMissed(e: Edges, before: set<string>, after: set<string>, a: string, b: string)
    requires Explored(e, before, after, a, b)
    ensures before == {} ==> !Reaches(e, a, b)
  {
    if before == {} {
      ExploredMeansUnreachable(e, after, a, b);
    }
  }

  // ---------------------------------------------------------------------------------------------
  // Topological order
  // ---------------------------------------------------------------------------------------------

  /** All names differ. */
  ghost predicate Distinct(vs: seq<Vertex>) {
    forall i, j :: 0 <= i < j < |vs| ==> vs[i].name != vs[j].name
  }

  /** One of the first `k` vertices has the name. */
  ghost predicate NamedBefore(vs: seq<Vertex>, k: nat, name: string)
    requires k <= |vs|
  {
    exists j :: 0 <= j < k && vs[j].name == name
  }

  /** Names are unique, and every dependency names an earlier vertex. */
  ghost predicate TopologicallyOrdered(vs: seq<Vertex>) {
    && Distinct(vs)
    && forall i, d :: 0 <= i < |vs| && d in vs[i].dependsOn ==> NamedBefore(vs, i, d)
  }

  lemma OrderedIsDistinct(vs: seq<Vertex>)
    requires TopologicallyOrdered(vs)
    ensures Distinct(vs)
  {
    hide Distinct;
  }

  /** The vertex at `k` has a new name and only known dependencies. */
  ghost predicate InOrderAt(vs: seq<Vertex>, k: nat)
    requires k < |vs|
  {
    && !NamedBefore(vs, k, vs[k].name)
    && forall d :: d in vs[k].dependsOn ==> NamedBefore(vs, k, d)
  }

  lemma InOrderExactly(vs: seq<Vertex>)
    ensures TopologicallyOrdered(vs) <==> forall k :: 0 <= k < |vs| ==> InOrderAt(vs, k)
  {
    if forall k :: 0 <= k < |vs| ==> InOrderAt(vs, k) {
      forall i, j | 0 <= i < j < |vs| ensures vs[i].name != vs[j].name {
        assert InOrderAt(vs, j);
      }
      forall i, d | 0 <= i < |vs| && d in vs[i].dependsOn ensures NamedBefore(vs, i, d) {
        assert InOrderAt(vs, i);
      }
    }
  }

  /** The place of a vertex in the order. */
  ghost function Place(vs: seq<Vertex>, name: string): (i: nat)
    requires name in Names(vs)
    ensures i < |vs| && vs[i].name == name
  {
    var i :| 0 <= i < |vs| && vs[i].name == name;
    i
  }

  /** An edge starts at the place of its vertex. */
  lemma EdgeAtPlace(vs: seq<Vertex>, a: string, b: string)
    requires Distinct(vs) && (a, b) in EdgesOf(vs)
    ensures a in Names(vs) && b in vs[Place(vs, a)].dependsOn
  {
    var v, d :| v in vs && d in v.dependsOn && (v.name, d) == (a, b);
    var i :| 0 <= i < |vs| && vs[i] == v;
    assert Place(vs, a) == i;
  }

  /** An edge leads to an earlier place. */
  lemma EdgeGoesBack(vs: seq<Vertex>, a: string, b: string)
    requires TopologicallyOrdered(vs) && (a, b) in EdgesOf(vs)
    ensures a in Names(vs) && b in Names(vs) && Place(vs, b) < Place(vs, a)
  {
    EdgeAtPlace(vs, a, b);
    var i := Place(vs, a);
    assert NamedBefore(vs, i, b);
    var j :| 0 <= j < i && vs[j].name == b;
    assert Place(vs, b) == j;
  }

  /** In an ordered list whatever a vertex reaches comes before it, so there is no cycle, and every
      dependency exists. */
  lemma {:induction false} ReachesGoesBack(vs: seq<Vertex>, a: string, b: string)
    requires TopologicallyOrdered(vs) && a in Names(vs) && Reaches(EdgesOf(vs), a, b)
    ensures b in Names(vs) && (a != b ==> Place(vs, b) < Place(vs, a))
    decreases Place(vs, a)
  {
    if a == b {
    } else {
      var c := ReachesCases(EdgesOf(vs), a, b);
      EdgeGoesBack(vs, a, c);
      ReachesGoesBack(vs, c, b);
    }
  }

  lemma NoCycle(vs: seq<Vertex>, a: string, b: string)
    requires TopologicallyOrdered(vs) && a in Names(vs)
    requires Reaches(EdgesOf(vs), a, b) && Reaches(EdgesOf(vs), b, a)
    ensures a == b
  {
    if a != b {
      ReachesGoesBack(vs, a, b);
      ReachesGoesBack(vs, b, a);
    }
  }
}
