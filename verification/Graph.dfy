// Reachability in a finite directed graph, by explicit paths.
module Graph {

  type Edges<!T> = map<T, set<T>>

  ghost predicate Path<T>(g: Edges<T>, p: seq<T>) {
    p != [] && forall i :: 0 <= i < |p| - 1 ==> p[i] in g && p[i + 1] in g[p[i]]
  }

  ghost predicate Reaches<T(!new)>(g: Edges<T>, x: T, y: T) {
    exists p :: Path(g, p) && p[0] == x && p[|p| - 1] == y
  }

  lemma ReachesSelf<T(!new)>(g: Edges<T>, x: T)
    ensures Reaches(g, x, x)
  {
    assert Path(g, [x]);
  }

  lemma ReachesCons<T(!new)>(g: Edges<T>, x: T, y: T, z: T)
    requires x in g && y in g[x] && Reaches(g, y, z)
    ensures Reaches(g, x, z)
  {
    var p :| Path(g, p) && p[0] == y && p[|p| - 1] == z;
    var q := [x] + p;
    assert forall i :: 0 < i < |q| ==> q[i] == p[i - 1];
    assert Path(g, q) && q[0] == x && q[|q| - 1] == z;
  }

  // A set closed under the edges holds everything its members reach.
  lemma {:induction false} ClosedSetHoldsPath<T>(g: Edges<T>, s: set<T>, p: seq<T>, n: nat)
    requires Path(g, p) && p[0] in s && n < |p|
    requires forall x :: x in s && x in g ==> g[x] <= s
    ensures p[n] in s
  {
    if n > 0 { ClosedSetHoldsPath(g, s, p, n - 1); }
  }

  lemma ClosedSetHoldsReach<T(!new)>(g: Edges<T>, s: set<T>, x: T, y: T)
    requires x in s && Reaches(g, x, y)
    requires forall x :: x in s && x in g ==> g[x] <= s
    ensures y in s
  {
    var p :| Path(g, p) && p[0] == x && p[|p| - 1] == y;
    ClosedSetHoldsPath(g, s, p, |p| - 1);
  }

  lemma SmallerSet<T>(a: set<T>, b: set<T>)
    requires a <= b
    ensures |a| <= |b| && (a < b ==> |a| < |b|)
  {
    var c := b - a;
    assert b == a + c && |b| == |a| + |c|;
  }
}
