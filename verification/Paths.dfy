/** Paths of a relation over names: the declarative side of both dependency checks. */
module Paths {

  type Relation = (string, string) -> bool

  ghost predicate IsPath(edge: Relation, path: seq<string>) {
    |path| > 0 && forall i :: 0 <= i < |path| - 1 ==> edge(path[i], path[i + 1])
  }

  ghost predicate Joins(edge: Relation, path: seq<string>, a: string, b: string) {
    IsPath(edge, path) && path[0] == a && path[|path| - 1] == b
  }

  /** `b` is reached from `a` by one or more edges. */
  ghost predicate Leads(edge: Relation, a: string, b: string) {
    exists path :: Joins(edge, path, a, b) && |path| >= 2
  }

  /** `b` is reached from `a` by any number of edges, including none. */
  ghost predicate Reaches(edge: Relation, a: string, b: string) {
    a == b || Leads(edge, a, b)
  }

  ghost predicate OnCycle(edge: Relation, a: string) {
    Leads(edge, a, a)
  }

  lemma EdgeLeads(edge: Relation, a: string, b: string)
    requires edge(a, b)
    ensures Leads(edge, a, b)
  {
    assert Joins(edge, [a, b], a, b);
  }

  lemma JoinPaths(edge: Relation, p: seq<string>, q: seq<string>, a: string, b: string, c: string)
    requires Joins(edge, p, a, b) && Joins(edge, q, b, c)
    ensures Joins(edge, p + q[1..], a, c)
  {
    var r := p + q[1..];
    forall i | 0 <= i < |r| - 1
      ensures edge(r[i], r[i + 1])
    {
      if i >= |p| - 1 {
        var k := i - (|p| - 1);
        assert edge(q[k], q[k + 1]);
      }
    }
  }

  lemma LeadsTransitive(edge: Relation, a: string, b: string, c: string)
    requires Reaches(edge, a, b) && Reaches(edge, b, c)
    ensures Reaches(edge, a, c)
    ensures Leads(edge, a, b) || Leads(edge, b, c) ==> Leads(edge, a, c)
  {
    if Leads(edge, a, b) && Leads(edge, b, c) {
      var p :| Joins(edge, p, a, b) && |p| >= 2;
      var q :| Joins(edge, q, b, c) && |q| >= 2;
      JoinPaths(edge, p, q, a, b, c);
    }
  }

  /** Reaching is the smallest relation that contains every edge, is reflexive and extends by an edge. */
  lemma ReachesByEdge(edge: Relation, a: string, b: string, c: string)
    requires Reaches(edge, a, b) && edge(b, c)
    ensures Reaches(edge, a, c) && Leads(edge, a, c)
  {
    EdgeLeads(edge, b, c);
    LeadsTransitive(edge, a, b, c);
  }

  lemma EdgeReaches(edge: Relation, a: string, b: string, c: string)
    requires edge(a, b) && Reaches(edge, b, c)
    ensures Leads(edge, a, c)
  {
    EdgeLeads(edge, a, b);
    LeadsTransitive(edge, a, b, c);
  }

  /** A nonempty walk has a last edge. */
  lemma LastEdge(edge: Relation, a: string, c: string) returns (b: string)
    requires Leads(edge, a, c)
    ensures Reaches(edge, a, b) && edge(b, c)
  {
    var p :| Joins(edge, p, a, c) && |p| >= 2;
    var n := |p| - 1;
    b := p[n - 1];
    assert Joins(edge, p[..n], a, b);
    assert edge(p[n - 1], p[n - 1 + 1]);
  }

  /** A nonempty walk has a first edge. */
  lemma FirstEdge(edge: Relation, a: string, c: string) returns (b: string)
    requires Leads(edge, a, c)
    ensures edge(a, b) && Reaches(edge, b, c)
  {
    var p :| Joins(edge, p, a, c) && |p| >= 2;
    b := p[1];
    assert edge(p[0], p[0 + 1]);
    assert Joins(edge, p[1..], b, c);
  }

  // ----- relations that differ at one node only -----

  ghost predicate AgreeExceptAt(e: Relation, f: Relation, x: string) {
    forall a, b :: a != x ==> (e(a, b) <==> f(a, b))
  }

  /** A walk of `e` is a walk of `f`, or `f` already walks to the node where they differ. */
  lemma {:induction false} WalkTransfers(e: Relation, f: Relation, x: string, path: seq<string>)
    requires AgreeExceptAt(e, f, x) && IsPath(e, path)
    ensures Reaches(f, path[0], path[|path| - 1]) || Reaches(f, path[0], x)
  {
    if |path| > 1 {
      var n := |path| - 1;
      WalkTransfers(e, f, x, path[..n]);
      assert e(path[n - 1], path[n - 1 + 1]);
      if path[n - 1] != x && Reaches(f, path[0], path[n - 1]) {
        ReachesByEdge(f, path[0], path[n - 1], path[n]);
      }
    }
  }

  lemma ReachTransfers(e: Relation, f: Relation, x: string, a: string, b: string)
    requires AgreeExceptAt(e, f, x) && Reaches(e, a, b)
    ensures Reaches(f, a, b) || Reaches(f, a, x)
  {
    if a != b {
      var p :| Joins(e, p, a, b) && |p| >= 2;
      WalkTransfers(e, f, x, p);
    }
  }

  /** Whoever does not walk to `x` cannot tell the two relations apart. */
  lemma AvoidingAgrees(e: Relation, f: Relation, x: string, a: string, b: string)
    requires AgreeExceptAt(e, f, x)
    ensures Reaches(e, a, x) <==> Reaches(f, a, x)
    ensures !Reaches(e, a, x) ==> (Reaches(e, a, b) <==> Reaches(f, a, b))
  {
    if Reaches(e, a, x) { ReachTransfers(e, f, x, a, x); }
    if Reaches(f, a, x) { ReachTransfers(f, e, x, a, x); }
    if Reaches(e, a, b) { ReachTransfers(e, f, x, a, b); }
    if Reaches(f, a, b) { ReachTransfers(f, e, x, a, b); }
  }

  // ----- relations with fewer edges -----

  ghost predicate IncludedIn(e: Relation, f: Relation) {
    forall a, b :: e(a, b) ==> f(a, b)
  }
}
