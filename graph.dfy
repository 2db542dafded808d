/**
 * Undirected connectivity over a set of index pairs: the meaning of the
 * clusters the near-duplicate filter builds (app/analyzer.py:247-273). Two
 * reviews are in one cluster exactly when a chain of similar pairs joins them.
 */
module Graph {

  /** `u` and `v` are joined by an edge, in either orientation. */
  predicate Adjacent(e: set<(nat, nat)>, u: nat, v: nat) {
    (u, v) in e || (v, u) in e
  }

  /** A non-empty sequence of nodes, each adjacent to the next. */
  ghost predicate IsWalk(e: set<(nat, nat)>, p: seq<nat>) {
    |p| >= 1 && forall k | 0 <= k < |p| - 1 :: Adjacent(e, p[k], p[k + 1])
  }

  /** Some walk leads from `x` to `y`. */
  ghost predicate Connected(e: set<(nat, nat)>, x: nat, y: nat) {
    exists p :: IsWalk(e, p) && p[0] == x && p[|p| - 1] == y
  }

  /** The nodes below `m` connected to `x`: the cluster of `x`. */
  ghost function Component(e: set<(nat, nat)>, m: nat, x: nat): set<nat> {
    set y | 0 <= y < m && Connected(e, x, y)
  }

  /** Every edge joins two nodes below `m`. */
  ghost predicate EdgesBelow(e: set<(nat, nat)>, m: nat) {
    forall d | d in e :: d.0 < m && d.1 < m
  }

  /** `lab` gives two nodes below `|lab|` the same label exactly when they are connected. */
  ghost predicate LabelsComponents(lab: seq<nat>, e: set<(nat, nat)>) {
    forall x, y | 0 <= x < |lab| && 0 <= y < |lab| :: lab[x] == lab[y] <==> Connected(e, x, y)
  }

  lemma ConnectedRefl(e: set<(nat, nat)>, x: nat)
    ensures Connected(e, x, x)
  {
    assert IsWalk(e, [x]);
  }

  lemma ConnectedEdge(e: set<(nat, nat)>, u: nat, v: nat)
    requires Adjacent(e, u, v)
    ensures Connected(e, u, v)
  {
    assert IsWalk(e, [u, v]);
  }

  lemma ConnectedTrans(e: set<(nat, nat)>, x: nat, y: nat, z: nat)
    requires Connected(e, x, y) && Connected(e, y, z)
    ensures Connected(e, x, z)
  {
    var p :| IsWalk(e, p) && p[0] == x && p[|p| - 1] == y;
    var q :| IsWalk(e, q) && q[0] == y && q[|q| - 1] == z;
    var w := p + q[1..];
    forall k | 0 <= k < |w| - 1
      ensures Adjacent(e, w[k], w[k + 1])
    {
      if k < |p| - 1 {
        assert w[k] == p[k] && w[k + 1] == p[k + 1];
      } else {
        assert w[k] == q[k - |p| + 1] && w[k + 1] == q[k - |p| + 2];
      }
    }
    assert IsWalk(e, w);
  }

  lemma ConnectedSym(e: set<(nat, nat)>, x: nat, y: nat)
    requires Connected(e, x, y)
    ensures Connected(e, y, x)
  {
    var p :| IsWalk(e, p) && p[0] == x && p[|p| - 1] == y;
    var w := seq(|p|, k requires 0 <= k < |p| => p[|p| - 1 - k]);
    forall k | 0 <= k < |w| - 1
      ensures Adjacent(e, w[k], w[k + 1])
    {
      assert Adjacent(e, p[|p| - 2 - k], p[|p| - 1 - k]);
    }
    assert IsWalk(e, w);
  }

  /** Connected nodes have the same cluster. */
  lemma SameComponent(e: set<(nat, nat)>, m: nat, x: nat, y: nat)
    requires Connected(e, x, y)
    ensures Component(e, m, x) == Component(e, m, y)
  {
    ConnectedSym(e, x, y);
    forall z | 0 <= z < m && Connected(e, y, z) ensures Connected(e, x, z) {
      ConnectedTrans(e, x, y, z);
    }
    forall z | 0 <= z < m && Connected(e, x, z) ensures Connected(e, y, z) {
      ConnectedTrans(e, y, x, z);
    }
  }

  /** More edges never disconnect anything. */
  lemma ConnectedMono(e: set<(nat, nat)>, f: set<(nat, nat)>, x: nat, y: nat)
    requires e <= f && Connected(e, x, y)
    ensures Connected(f, x, y)
  {
    var p :| IsWalk(e, p) && p[0] == x && p[|p| - 1] == y;
    assert IsWalk(f, p);
  }

  lemma EmptyWalk(p: seq<nat>)
    ensures IsWalk({}, p) ==> |p| == 1
  {
    if |p| > 1 {
      assert !Adjacent({}, p[0], p[1]);
    }
  }

  /** With no edges each node is connected to itself only. */
  lemma NoEdges(x: nat, y: nat)
    ensures Connected({}, x, y) <==> x == y
  {
    if Connected({}, x, y) {
      var p :| IsWalk({}, p) && p[0] == x && p[|p| - 1] == y;
      EmptyWalk(p);
    } else {
      ConnectedRefl({}, x);
    }
  }

  /** A labelling that agrees across every edge is constant along every walk. */
  lemma {:induction false} WalkKeepsLabel(e: set<(nat, nat)>, lab: seq<nat>, p: seq<nat>, k: nat)
    requires forall d | d in e :: d.0 < |lab| && d.1 < |lab| && lab[d.0] == lab[d.1]
    requires IsWalk(e, p) && p[0] < |lab| && k < |p|
    ensures p[k] < |lab| && lab[p[k]] == lab[p[0]]
  {
    if k > 0 {
      WalkKeepsLabel(e, lab, p, k - 1);
      assert Adjacent(e, p[k - 1], p[k]);
    }
  }

  lemma ConnectedKeepsLabel(e: set<(nat, nat)>, lab: seq<nat>, x: nat, y: nat)
    requires forall d | d in e :: d.0 < |lab| && d.1 < |lab| && lab[d.0] == lab[d.1]
    requires x < |lab| && y < |lab| && Connected(e, x, y)
    ensures lab[x] == lab[y]
  {
    var p :| IsWalk(e, p) && p[0] == x && p[|p| - 1] == y;
    WalkKeepsLabel(e, lab, p, |p| - 1);
  }

  /** The identity labelling describes the graph without edges. */
  lemma IdentityLabels(m: nat)
    ensures LabelsComponents(seq(m, i => i), {})
  {
    var lab: seq<nat> := seq(m, i => i);
    forall x, y | 0 <= x < m && 0 <= y < m
      ensures lab[x] == lab[y] <==> Connected({}, x, y)
    {
      NoEdges(x, y);
    }
  }

  /** Relabel the class of `b` with the label of `a`. */
  function Merged(lab: seq<nat>, a: nat, b: nat): (r: seq<nat>)
    requires a < |lab| && b < |lab|
    ensures |r| == |lab|
    ensures r[a] == lab[a] && r[b] == lab[a]
    ensures forall x | 0 <= x < |lab| :: lab[x] != lab[b] ==> r[x] == lab[x]
  {
    seq(|lab|, x requires 0 <= x < |lab| => if lab[x] == lab[b] then lab[a] else lab[x])
  }

  /**
   * Adding the edge `(a, b)` joins the classes of `a` and `b`: relabelling one
   * of them keeps the labelling exact.
   */
  lemma MergeEdge(lab: seq<nat>, e: set<(nat, nat)>, a: nat, b: nat)
    requires a < |lab| && b < |lab|
    requires EdgesBelow(e, |lab|) && LabelsComponents(lab, e)
    ensures LabelsComponents(Merged(lab, a, b), e + {(a, b)})
  {
    var f := e + {(a, b)};
    var r := Merged(lab, a, b);
    forall d | d in f
      ensures d.0 < |r| && d.1 < |r| && r[d.0] == r[d.1]
    {
      if d in e {
        ConnectedEdge(e, d.0, d.1);
      }
    }
    forall x, y | 0 <= x < |r| && 0 <= y < |r|
      ensures r[x] == r[y] <==> Connected(f, x, y)
    {
      if Connected(f, x, y) {
        ConnectedKeepsLabel(f, r, x, y);
      }
      if r[x] == r[y] {
        ConnectedEdge(f, a, b);
        ConnectedEdge(f, b, a);
        if lab[x] == lab[y] {
          ConnectedMono(e, f, x, y);
        } else if lab[x] == lab[b] {
          assert lab[y] == lab[a];
          ConnectedMono(e, f, x, b);
          ConnectedMono(e, f, a, y);
          ConnectedTrans(f, x, b, a);
          ConnectedTrans(f, x, a, y);
        } else {
          assert lab[x] == lab[a] && lab[y] == lab[b];
          ConnectedMono(e, f, x, a);
          ConnectedMono(e, f, b, y);
          ConnectedTrans(f, x, a, b);
          ConnectedTrans(f, x, b, y);
        }
      }
    }
  }

  /** Under an exact labelling, a node's cluster is the set of nodes sharing its label. */
  lemma ComponentIsLabelClass(lab: seq<nat>, e: set<(nat, nat)>, x: nat)
    requires LabelsComponents(lab, e) && x < |lab|
    ensures Component(e, |lab|, x) == set y | 0 <= y < |lab| && lab[y] == lab[x]
    ensures x in Component(e, |lab|, x)
  {
    ConnectedRefl(e, x);
  }
}
