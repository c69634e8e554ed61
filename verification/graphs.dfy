/**
 * Adjacency-list graphs keyed by pixel points, as the map's `graph`
 * dictionary is: every key maps to the list of its neighbours.
 */
module Graphs {
  import opened Geometry

  type Graph = map<Point, seq<Point>>

  /** Every neighbour listed is itself a key. */
  ghost predicate Closed(g: Graph) {
    forall a, b {:trigger b in g[a]} :: a in g && b in g[a] ==> b in g
  }

  /** Adjacency is symmetric. */
  ghost predicate Symmetric(g: Graph) {
    forall a, b {:trigger b in g[a]} :: a in g && b in g[a] ==> b in g && a in g[b]
  }

  /** No node lists itself as a neighbour. */
  ghost predicate Loopless(g: Graph) {
    forall a {:trigger g[a]} :: a in g ==> a !in g[a]
  }

  /** A non-empty sequence of keys, each one listed as a neighbour of the one before. */
  predicate IsPath(g: Graph, p: seq<Point>) {
    && |p| > 0
    && (forall i :: 0 <= i < |p| ==> p[i] in g)
    && (forall i :: 0 <= i < |p| - 1 ==> p[i] in g && p[i + 1] in g[p[i]])
  }

  ghost predicate Reachable(g: Graph, a: Point, b: Point) {
    exists p :: IsPath(g, p) && p[0] == a && p[|p| - 1] == b
  }

  /** Every key can reach every key. */
  ghost predicate Connected(g: Graph) {
    forall a, b {:trigger Reachable(g, a, b)} :: a in g && b in g ==> Reachable(g, a, b)
  }

  /** What the walk graph of a generated map satisfies. */
  ghost predicate Sound(g: Graph) {
    Closed(g) && Symmetric(g) && Loopless(g) && Connected(g)
  }

  predicate Distinct(s: seq<Point>) {
    forall i, j :: 0 <= i < j < |s| ==> s[i] != s[j]
  }

  function Last(s: seq<Point>): Point
    requires |s| > 0
  {
    s[|s| - 1]
  }

  function MinusAll(s: seq<Point>, off: Point): (r: seq<Point>)
    ensures |r| == |s|
  {
    seq(|s|, i requires 0 <= i < |s| => Minus(s[i], off))
  }

  /** Every key and every listed neighbour moved by minus `off`. */
  function Translate(g: Graph, off: Point): Graph {
    map q | q in g :: Minus(q, off) := MinusAll(g[q], off)
  }

  /** The moved graph's keys are exactly the moved keys, with moved lists. */
  lemma TranslateKey(g: Graph, off: Point, a: Point)
    ensures a in Translate(g, off) <==> Plus(a, off) in g
    ensures a in Translate(g, off) ==> Translate(g, off)[a] == MinusAll(g[Plus(a, off)], off)
  {
    var t := Translate(g, off);
    assert Minus(Plus(a, off), off) == a;
    if a in t {
      var k :| k in g && Minus(k, off) == a;
      assert Plus(a, off) == k;
    }
  }

  lemma MinusAllMembership(s: seq<Point>, off: Point, q: Point)
    ensures q in s <==> Minus(q, off) in MinusAll(s, off)
  {
    var r := MinusAll(s, off);
    if Minus(q, off) in r {
      var i :| 0 <= i < |s| && r[i] == Minus(q, off);
      assert r[i] == Minus(s[i], off);
      assert s[i] == q;
    }
    if q in s {
      var i :| 0 <= i < |s| && s[i] == q;
      assert r[i] == Minus(q, off);
    }
  }

  /** A path moved by the offset is a path of the moved graph. */
  lemma {:induction false} TranslatePath(g: Graph, off: Point, p: seq<Point>)
    requires IsPath(g, p)
    ensures IsPath(Translate(g, off), MinusAll(p, off))
  {
    var t, tp := Translate(g, off), MinusAll(p, off);
    forall i | 0 <= i < |p|
      ensures tp[i] in t
    {
      assert tp[i] == Minus(p[i], off);
      assert Plus(tp[i], off) == p[i];
      TranslateKey(g, off, tp[i]);
    }
    forall i | 0 <= i < |p| - 1
      ensures tp[i] in t && tp[i + 1] in t[tp[i]]
    {
      assert tp[i] == Minus(p[i], off) && tp[i + 1] == Minus(p[i + 1], off);
      assert Plus(tp[i], off) == p[i];
      TranslateKey(g, off, tp[i]);
      MinusAllMembership(g[p[i]], off, p[i + 1]);
    }
  }

  lemma TranslateSymmetric(g: Graph, off: Point)
    requires Symmetric(g)
    ensures Symmetric(Translate(g, off))
  {
    var t := Translate(g, off);
    forall a, b | a in t && b in t[a]
      ensures b in t && a in t[b]
    {
      var a0, b0 := Plus(a, off), Plus(b, off);
      assert Minus(a0, off) == a && Minus(b0, off) == b;
      TranslateKey(g, off, a);
      MinusAllMembership(g[a0], off, b0);
      assert b0 in g && a0 in g[b0];
      TranslateKey(g, off, b);
      MinusAllMembership(g[b0], off, a0);
    }
  }

  lemma TranslateLoopless(g: Graph, off: Point)
    requires Loopless(g)
    ensures Loopless(Translate(g, off))
  {
    var t := Translate(g, off);
    forall a | a in t
      ensures a !in t[a]
    {
      var a0 := Plus(a, off);
      assert Minus(a0, off) == a;
      TranslateKey(g, off, a);
      MinusAllMembership(g[a0], off, a0);
    }
  }

  lemma TranslateConnected(g: Graph, off: Point)
    requires Connected(g)
    ensures Connected(Translate(g, off))
  {
    var t := Translate(g, off);
    forall a, b | a in t && b in t
      ensures Reachable(t, a, b)
    {
      var a0, b0 := Plus(a, off), Plus(b, off);
      assert Minus(a0, off) == a && Minus(b0, off) == b;
      TranslateKey(g, off, a);
      TranslateKey(g, off, b);
      assert Reachable(g, a0, b0);
      var p :| IsPath(g, p) && p[0] == a0 && p[|p| - 1] == b0;
      TranslatePath(g, off, p);
      var tp := MinusAll(p, off);
      assert tp[0] == a && tp[|tp| - 1] == b;
    }
  }

  /**
   * Moving every key and neighbour by the same offset keeps every property
   * the walk graph of a generated map has.
   */
  lemma TranslateSound(g: Graph, off: Point)
    requires Sound(g)
    ensures Sound(Translate(g, off))
  {
    TranslateSymmetric(g, off);
    TranslateLoopless(g, off);
    TranslateConnected(g, off);
  }

  /** Joining a path that ends where the next one starts. */
  lemma JoinPaths(g: Graph, p: seq<Point>, q: seq<Point>)
    requires IsPath(g, p) && IsPath(g, q) && Last(p) == q[0]
    ensures IsPath(g, p + q[1..]) && (p + q[1..])[0] == p[0] && Last(p + q[1..]) == Last(q)
  {
    var r := p + q[1..];
    forall i | 0 <= i < |r| - 1
      ensures r[i] in g && r[i + 1] in g[r[i]]
    {
      if i < |p| - 1 {
      } else {
        assert r[i] == q[i - |p| + 1] && r[i + 1] == q[i - |p| + 2];
      }
    }
  }
}
