/**
 * The representative array of the near-duplicate clustering
 * (app/analyzer.py:253-264): `rep[x]` is the parent of `x`, a root is its own
 * parent, `find` follows parents with path halving and `union` hangs the root
 * of `b` under the root of `a`.
 *
 * The source keeps no ranks. To show that every parent chain ends, the proofs
 * carry a ghost `rank` that strictly grows along parent links and stays below
 * a ghost `bound`; neither one influences what the methods do.
 */
module UnionFind {
  import opened Graph

  /** Every parent is an index, and a non-root's parent has a higher rank. */
  ghost predicate Ranked(r: seq<nat>, rank: seq<nat>, bound: nat) {
    && |rank| == |r|
    && forall x | 0 <= x < |r| :: r[x] < |r| && rank[x] <= bound && (r[x] != x ==> rank[x] < rank[r[x]])
  }

  /** The root at the end of the parent chain from `x`. */
  ghost function Root(r: seq<nat>, rank: seq<nat>, bound: nat, x: nat): (root: nat)
    requires Ranked(r, rank, bound) && x < |r|
    ensures root < |r| && r[root] == root
    decreases bound - rank[x]
  {
    if r[x] == x then x else Root(r, rank, bound, r[x])
  }

  /** The root of every element: the cluster label `find` reports. */
  ghost function Roots(r: seq<nat>, rank: seq<nat>, bound: nat): (lab: seq<nat>)
    requires Ranked(r, rank, bound)
    ensures |lab| == |r|
    ensures forall x | 0 <= x < |r| :: lab[x] == Root(r, rank, bound, x)
  {
    seq(|r|, x requires 0 <= x < |r| => Root(r, rank, bound, x))
  }

  /** `list(range(m))`: every element its own root. */
  lemma InitialRoots(r: seq<nat>)
    requires forall x | 0 <= x < |r| :: r[x] == x
    ensures Ranked(r, seq(|r|, x => 0), 0)
    ensures Roots(r, seq(|r|, x => 0), 0) == seq(|r|, x => x)
  {
  }

  /** Pointing `x` at its grandparent keeps the ranking and changes no root. */
  lemma {:induction false} HalvingKeepsRoot(r: seq<nat>, rank: seq<nat>, bound: nat, x: nat, y: nat)
    requires Ranked(r, rank, bound) && x < |r| && y < |r|
    ensures Ranked(r[x := r[r[x]]], rank, bound)
    ensures Root(r[x := r[r[x]]], rank, bound, y) == Root(r, rank, bound, y)
    decreases bound - rank[y]
  {
    var h := r[x := r[r[x]]];
    assert Ranked(h, rank, bound) by {
      forall z | 0 <= z < |h|
        ensures h[z] < |h| && rank[z] <= bound && (h[z] != z ==> rank[z] < rank[h[z]])
      {
        if z == x && h[z] != z && r[x] != x && r[r[x]] != r[x] {
          assert rank[x] < rank[r[x]] < rank[r[r[x]]];
        }
      }
    }
    if r[y] != y {
      HalvingKeepsRoot(r, rank, bound, x, r[y]);
      if y == x && r[r[x]] != r[x] {
        HalvingKeepsRoot(r, rank, bound, x, r[r[x]]);
      }
    }
  }

  lemma HalvingKeepsRoots(r: seq<nat>, rank: seq<nat>, bound: nat, x: nat)
    requires Ranked(r, rank, bound) && x < |r|
    ensures Ranked(r[x := r[r[x]]], rank, bound)
    ensures Roots(r[x := r[r[x]]], rank, bound) == Roots(r, rank, bound)
  {
    HalvingKeepsRoot(r, rank, bound, x, x);
    forall y | 0 <= y < |r|
      ensures Root(r[x := r[r[x]]], rank, bound, y) == Root(r, rank, bound, y)
    {
      HalvingKeepsRoot(r, rank, bound, x, y);
    }
  }

  /**
   * `find(x)`: returns the root of `x`. Path halving rewrites parents on the
   * way but changes the root of no element.
   */
  method Find(rep: array<nat>, x: nat, ghost rank: seq<nat>, ghost bound: nat) returns (root: nat)
    requires Ranked(rep[..], rank, bound) && x < rep.Length
    modifies rep
    ensures Ranked(rep[..], rank, bound)
    ensures Roots(rep[..], rank, bound) == Roots(old(rep[..]), rank, bound)
    ensures root == Root(old(rep[..]), rank, bound, x)
  {
    root := x;
    while rep[root] != root
      invariant root < rep.Length && Ranked(rep[..], rank, bound)
      invariant Roots(rep[..], rank, bound) == Roots(old(rep[..]), rank, bound)
      invariant Root(rep[..], rank, bound, root) == Root(old(rep[..]), rank, bound, x)
      decreases bound - rank[root]
    {
      HalvingKeepsRoots(rep[..], rank, bound, root);
      rep[root] := rep[rep[root]];
      root := rep[root];
    }
  }

  /** The new ranks after hanging root `rb` under root `ra`. */
  ghost function Linked(rank: seq<nat>, ra: nat, rb: nat): seq<nat>
    requires ra < |rank| && rb < |rank|
  {
    rank[ra := if rank[ra] > rank[rb] then rank[ra] else rank[rb] + 1]
  }

  /** After `rep[rb] = ra` the elements rooted at `rb` are rooted at `ra`; the rest keep their root. */
  lemma {:induction false} LinkRoot(r: seq<nat>, rank: seq<nat>, bound: nat, ra: nat, rb: nat, y: nat)
    requires Ranked(r, rank, bound) && ra < |r| && rb < |r| && y < |r|
    requires r[ra] == ra && r[rb] == rb && ra != rb
    ensures Ranked(r[rb := ra], Linked(rank, ra, rb), bound + 1)
    ensures Root(r[rb := ra], Linked(rank, ra, rb), bound + 1, y) ==
      if Root(r, rank, bound, y) == rb then ra else Root(r, rank, bound, y)
    decreases bound - rank[y]
  {
    var h, hr := r[rb := ra], Linked(rank, ra, rb);
    assert Ranked(h, hr, bound + 1) by {
      forall z | 0 <= z < |h|
        ensures h[z] < |h| && hr[z] <= bound + 1 && (h[z] != z ==> hr[z] < hr[h[z]])
      {
      }
    }
    if r[y] != y {
      LinkRoot(r, rank, bound, ra, rb, r[y]);
    }
  }

  lemma LinkRoots(r: seq<nat>, rank: seq<nat>, bound: nat, ra: nat, rb: nat, a: nat, b: nat)
    requires Ranked(r, rank, bound) && a < |r| && b < |r|
    requires ra == Root(r, rank, bound, a) && rb == Root(r, rank, bound, b) && ra != rb
    ensures Ranked(r[rb := ra], Linked(rank, ra, rb), bound + 1)
    ensures Roots(r[rb := ra], Linked(rank, ra, rb), bound + 1) == Merged(Roots(r, rank, bound), a, b)
  {
    LinkRoot(r, rank, bound, ra, rb, a);
    forall y | 0 <= y < |r|
      ensures Root(r[rb := ra], Linked(rank, ra, rb), bound + 1, y) == Merged(Roots(r, rank, bound), a, b)[y]
    {
      LinkRoot(r, rank, bound, ra, rb, y);
    }
  }

  /**
   * `union(a, b)`: afterwards the class of `b` carries the root of `a`, which
   * is `Merged`; when both already share a root nothing changes.
   */
  method Union(rep: array<nat>, a: nat, b: nat, ghost rank: seq<nat>, ghost bound: nat)
    returns (ghost rank': seq<nat>, ghost bound': nat)
    requires Ranked(rep[..], rank, bound) && a < rep.Length && b < rep.Length
    modifies rep
    ensures Ranked(rep[..], rank', bound')
    ensures Roots(rep[..], rank', bound') == Merged(Roots(old(rep[..]), rank, bound), a, b)
  {
    ghost var lab := Roots(rep[..], rank, bound);
    var ra := Find(rep, a, rank, bound);
    var rb := Find(rep, b, rank, bound);
    rank', bound' := rank, bound;
    if ra != rb {
      LinkRoots(rep[..], rank, bound, ra, rb, a, b);
      rep[rb] := ra;
      rank', bound' := Linked(rank, ra, rb), bound + 1;
    } else {
      assert Merged(lab, a, b) == lab;
    }
  }
}
