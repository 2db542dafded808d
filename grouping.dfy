/**
 * The two "keep one, drop the rest" passes of the suspicious-review filter
 * (app/analyzer.py:229-244 and 266-287) share one shape: bucket the indices
 * `0..n-1` by a key into a dictionary (`setdefault(key, []).append(i)`),
 * then walk the buckets in insertion order and, in every bucket of at least
 * `minSize` members, keep the first member not yet dropped and drop all others.
 */
module Grouping {
  import opened Wrappers
  import opened Similarity

  /** A dictionary from keys to index lists, with its keys in insertion order. */
  datatype Groups<K> = Groups(order: seq<K>, members: map<K, seq<nat>>)

  /** `groups.setdefault(k, []).append(i)` */
  function Insert<K(==)>(g: Groups<K>, k: K, i: nat): (h: Groups<K>)
    ensures k in h.members && h.members.Keys == g.members.Keys + {k}
    ensures h.members[k] == (if k in g.members then g.members[k] else []) + [i]
  {
    if k in g.members then Groups(g.order, g.members[k := g.members[k] + [i]])
    else Groups(g.order + [k], g.members[k := [i]])
  }

  /** The dictionary built by inserting every index `i` under `keys[i]`, in order. */
  function GroupAll<K(==)>(keys: seq<K>): Groups<K> {
    if keys == [] then Groups([], map[])
    else Insert(GroupAll(keys[..|keys| - 1]), keys[|keys| - 1], |keys| - 1)
  }

  /** The members of a list, as a set. */
  function Elems<T>(s: seq<T>): set<T> {
    set x | x in s
  }

  predicate Increasing(s: seq<nat>) {
    forall p, q | 0 <= p < q < |s| :: s[p] < s[q]
  }

  predicate NoDuplicates<K(==)>(s: seq<K>) {
    forall p, q | 0 <= p < q < |s| :: s[p] != s[q]
  }

  /** The indices `j` with the same key as `i`. */
  ghost function Class<K>(keys: seq<K>, i: nat): set<nat>
    requires i < |keys|
  {
    set j | 0 <= j < |keys| && keys[j] == keys[i]
  }

  /** Every key is listed once in `order`, and `order` lists exactly the keys with a bucket. */
  lemma {:induction false} GroupOrder<K>(keys: seq<K>)
    ensures NoDuplicates(GroupAll(keys).order)
    ensures forall k :: k in GroupAll(keys).order <==> k in GroupAll(keys).members
  {
    if keys != [] {
      GroupOrder(keys[..|keys| - 1]);
    }
  }

  /** A bucket holds, in increasing order, indices that carry its key. */
  lemma {:induction false} GroupSound<K>(keys: seq<K>)
    ensures forall k | k in GroupAll(keys).members ::
      GroupAll(keys).members[k] != [] && Increasing(GroupAll(keys).members[k])
    ensures forall k | k in GroupAll(keys).members ::
      forall j | j in GroupAll(keys).members[k] :: j < |keys| && keys[j] == k
  {
    if keys != [] {
      var n := |keys| - 1;
      var prev := keys[..n];
      GroupSound(prev);
      var g0, g := GroupAll(prev), GroupAll(keys);
      assert g == Insert(g0, keys[n], n);
      forall k | k in g.members
        ensures g.members[k] != [] && Increasing(g.members[k])
        ensures forall j | j in g.members[k] :: j < |keys| && keys[j] == k
      {
        if k != keys[n] {
          var b := g0.members[k];
          assert g.members[k] == b;
          forall j | j in b ensures j < |keys| && keys[j] == k {
            assert keys[j] == prev[j];
          }
        } else {
          var b0 := if k in g0.members then g0.members[k] else [];
          assert g.members[k] == b0 + [n];
          forall j | j in b0 ensures j < n && keys[j] == k {
            assert keys[j] == prev[j];
          }
          AppendIncreasing(b0, n);
        }
      }
    }
  }

  lemma AppendIncreasing(b: seq<nat>, n: nat)
    requires Increasing(b) && forall j | j in b :: j < n
    ensures Increasing(b + [n])
  {
    assert forall p | 0 <= p < |b| :: b[p] in b;
  }

  /** Every index is in the bucket of its key. */
  lemma {:induction false} GroupComplete<K>(keys: seq<K>)
    ensures forall j | 0 <= j < |keys| :: keys[j] in GroupAll(keys).members && j in GroupAll(keys).members[keys[j]]
  {
    if keys != [] {
      var n := |keys| - 1;
      var prev := keys[..n];
      GroupComplete(prev);
      var g0, g := GroupAll(prev), GroupAll(keys);
      assert g == Insert(g0, keys[n], n);
      forall j | 0 <= j < |keys|
        ensures keys[j] in g.members && j in g.members[keys[j]]
      {
        if j < n {
          assert keys[j] == prev[j];
          assert j in g0.members[keys[j]];
        }
      }
    }
  }

  /** A list without repeats has as many distinct elements as it is long. */
  lemma {:induction false} IncreasingCard(s: seq<nat>)
    requires Increasing(s)
    ensures |Elems(s)| == |s|
  {
    if s != [] {
      var t := s[..|s| - 1];
      IncreasingCard(t);
      assert Elems(s) == Elems(t) + {s[|s| - 1]};
    }
  }

  /** A bucket of `GroupAll(keys)` is the class of any of its members. */
  lemma BucketIsClass<K>(keys: seq<K>, i: nat)
    requires i < |keys|
    ensures var g := GroupAll(keys);
      && keys[i] in g.members
      && Elems(g.members[keys[i]]) == Class(keys, i)
      && |g.members[keys[i]]| == |Class(keys, i)|
  {
    GroupSound(keys);
    GroupComplete(keys);
    var b := GroupAll(keys).members[keys[i]];
    IncreasingCard(b);
  }

  /**
   * `i` is the member of class `c` that a pass keeps: the first one the
   * earlier passes had not dropped.
   */
  predicate IsSurvivor(c: set<nat>, drop: set<nat>, i: nat) {
    i in c && i !in drop && forall j | j in c && j < i :: j in drop
  }

  /** A class keeps at most one member. */
  lemma SurvivorUnique(c: set<nat>, drop: set<nat>, i: nat, j: nat)
    requires IsSurvivor(c, drop, i) && IsSurvivor(c, drop, j)
    ensures i == j
  {
  }

  /** Only what a class's own members had suffered decides its survivor. */
  lemma SurvivorLocal(c: set<nat>, d: set<nat>, e: set<nat>, i: nat)
    requires forall j | j in c :: j in d <==> j in e
    ensures IsSurvivor(c, d, i) <==> IsSurvivor(c, e, i)
  {
  }

  /** What one pass drops: every non-survivor of a class of at least `minSize` members. */
  ghost function Collapsed<K>(keys: seq<K>, drop: set<nat>, minSize: nat): set<nat> {
    set i | 0 <= i < |keys| && |Class(keys, i)| >= minSize && !IsSurvivor(Class(keys, i), drop, i)
  }

  /** The part of `Collapsed` that belongs to the keys of `ks`. */
  ghost function CollapsedAmong<K>(keys: seq<K>, drop: set<nat>, minSize: nat, ks: seq<K>): set<nat> {
    set i | 0 <= i < |keys| && keys[i] in ks && |Class(keys, i)| >= minSize && !IsSurvivor(Class(keys, i), drop, i)
  }

  /** The first loop over a bucket: `kept` is the first member not in `drop`, if any. */
  method FirstKept(g: seq<nat>, drop: set<nat>) returns (kept: Option<nat>)
    requires Increasing(g)
    ensures forall i | i in g :: Some(i) == kept <==> IsSurvivor(Elems(g), drop, i)
    ensures kept.Some? ==> kept.value in g
  {
    ghost var c := Elems(g);
    kept := None;
    for p := 0 to |g|
      invariant forall q | 0 <= q < p :: g[q] in drop
    {
      if g[p] !in drop {
        assert IsSurvivor(c, drop, g[p]) by {
          forall j | j in c && j < g[p] ensures j in drop {
            var q :| 0 <= q < |g| && g[q] == j;
          }
        }
        kept := Some(g[p]);
        break;
      }
    }
    forall i | i in g
      ensures Some(i) == kept <==> IsSurvivor(c, drop, i)
    {
      if kept.Some? && IsSurvivor(c, drop, i) {
        SurvivorUnique(c, drop, i, kept.value);
      }
    }
  }

  /** The members of `g` other than `kept`. */
  function Others(g: seq<nat>, kept: Option<nat>): (o: set<nat>)
    ensures forall i :: i in o <==> i in g && Some(i) != kept
  {
    if g == [] then {}
    else Others(g[..|g| - 1], kept) + (if Some(g[|g| - 1]) != kept then {g[|g| - 1]} else {})
  }

  lemma CardAddOne(s: set<nat>, i: nat)
    ensures |s + {i}| == if i in s then |s| else |s| + 1
  {
    if i in s {
      assert s + {i} == s;
    } else {
      assert (s + {i}) - {i} == s;
    }
  }

  lemma OthersStep(g: seq<nat>, q: nat, kept: Option<nat>)
    requires q < |g|
    ensures Others(g[..q + 1], kept) == Others(g[..q], kept) + (if Some(g[q]) != kept then {g[q]} else {})
  {
    assert g[..q + 1][..q] == g[..q];
  }

  /** The second loop over a bucket: drop every member but `kept`, counting the newly dropped. */
  method DropOthers(g: seq<nat>, kept: Option<nat>, drop: set<nat>) returns (drop': set<nat>, added: nat)
    ensures drop' == drop + Others(g, kept)
    ensures added == |drop' - drop|
  {
    drop', added := drop, 0;
    for q := 0 to |g|
      invariant drop' == drop + Others(g[..q], kept)
      invariant |drop'| == |drop| + added
    {
      drop', added := DropMember(g, q, kept, drop, drop', added);
    }
    assert g[..|g|] == g;
    NestedDifference(drop, drop', drop');
  }

  /** One turn of the loop of `DropOthers`: drop `g[q]` unless it is the kept member. */
  method DropMember(g: seq<nat>, q: nat, kept: Option<nat>, ghost drop: set<nat>, dropped: set<nat>, added: nat)
    returns (dropped': set<nat>, added': nat)
    requires q < |g|
    requires dropped == drop + Others(g[..q], kept) && |dropped| == |drop| + added
    ensures dropped' == drop + Others(g[..q + 1], kept) && |dropped'| == |drop| + added'
  {
    var i := g[q];
    OthersStep(g, q, kept);
    dropped', added' := dropped, added;
    if Some(i) != kept {
      CardAddOne(dropped, i);
      if i !in dropped {
        added' := added + 1;
      }
      dropped' := dropped + {i};
    }
  }

  /** The members of bucket `b` that a pass drops when `drop` holds the earlier drops. */
  function Pruned(b: seq<nat>, drop: set<nat>): set<nat> {
    set i | i in b && !IsSurvivor(Elems(b), drop, i)
  }

  /**
   * The loop body over one bucket: below `minSize` nothing happens;
   * otherwise the bucket's survivor stays and every other member is dropped,
   * and `added` counts the members that were not dropped before.
   */
  method CollapseGroup(g: seq<nat>, minSize: nat, drop: set<nat>) returns (drop': set<nat>, added: nat)
    requires Increasing(g)
    ensures drop' == drop + (if |g| >= minSize then Pruned(g, drop) else {})
    ensures added == |drop' - drop|
  {
    if |g| < minSize {
      assert drop - drop == {};
      return drop, 0;
    }
    var kept := FirstKept(g, drop);
    drop', added := DropOthers(g, kept, drop);
    assert Others(g, kept) == Pruned(g, drop);
  }

  /** Sizes of nested sets: what a later pass adds is counted apart from what came before. */
  lemma NestedDifference(a: set<nat>, b: set<nat>, c: set<nat>)
    requires a <= b <= c
    ensures |c - a| == |b - a| + |c - b|
    ensures |c| == |a| + |c - a|
  {
    assert c - a == (b - a) + (c - b);
    assert (b - a) * (c - b) == {};
    assert c == a + (c - a);
    assert a * (c - a) == {};
  }

  /** What the bucket at `order[t]` looks like, as the loop of `CollapseGroups` needs it. */
  lemma BucketAt<K>(keys: seq<K>, t: nat)
    requires t < |GroupAll(keys).order|
    ensures var g := GroupAll(keys); var k := g.order[t];
      && k in g.members
      && Increasing(g.members[k])
      && k !in g.order[..t]
      && g.order[..t + 1] == g.order[..t] + [k]
      && (forall j | j in g.members[k] :: j < |keys| && keys[j] == k)
  {
    var g := GroupAll(keys);
    var k := g.order[t];
    GroupOrder(keys);
    assert k in g.order;
    assert k !in g.order[..t] by {
      forall p | 0 <= p < t ensures g.order[..t][p] != k {
        assert g.order[..t][p] == g.order[p];
      }
    }
    assert g.order[..t + 1] == g.order[..t] + [k];
    GroupSound(keys);
  }

  lemma AmongAppend<K>(keys: seq<K>, drop: set<nat>, minSize: nat, ks: seq<K>, k: K)
    ensures CollapsedAmong(keys, drop, minSize, ks + [k]) ==
      CollapsedAmong(keys, drop, minSize, ks) + CollapsedAmong(keys, drop, minSize, [k])
  {
  }

  /** The part of `Collapsed` that belongs to one key is what its bucket loses. */
  lemma AmongBucket<K>(keys: seq<K>, drop: set<nat>, minSize: nat, k: K)
    requires k in GroupAll(keys).members
    ensures var b := GroupAll(keys).members[k];
      CollapsedAmong(keys, drop, minSize, [k]) == if |b| >= minSize then Pruned(b, drop) else {}
  {
    GroupSound(keys);
    var b := GroupAll(keys).members[k];
    var i0 := b[0];
    assert i0 in b;
    BucketIsClass(keys, i0);
    var c := Class(keys, i0);
    var l, r := CollapsedAmong(keys, drop, minSize, [k]), if |b| >= minSize then Pruned(b, drop) else {};
    forall i | i in l
      ensures i in r
    {
      SameClass(keys, i, i0);
      assert i in Elems(b);
    }
    forall i | i in r
      ensures i in l
    {
      SameClass(keys, i, i0);
    }
  }

  lemma PrunedLocal(b: seq<nat>, d: set<nat>, e: set<nat>)
    requires forall j | j in b :: j in d <==> j in e
    ensures Pruned(b, d) == Pruned(b, e)
  {
    forall i | i in b
      ensures IsSurvivor(Elems(b), d, i) <==> IsSurvivor(Elems(b), e, i)
    {
      SurvivorLocal(Elems(b), d, e, i);
    }
  }

  /** Once every key has been visited, the visited part of `Collapsed` is all of it. */
  lemma AmongAll<K>(keys: seq<K>, drop: set<nat>, minSize: nat, ks: seq<K>)
    requires forall i | 0 <= i < |keys| :: keys[i] in ks
    ensures CollapsedAmong(keys, drop, minSize, ks) == Collapsed(keys, drop, minSize)
  {
  }

  /**
   * `for idxs in groups.values(): ...` — one bucket after another in insertion
   * order. The result is the whole `Collapsed` set whatever that order is,
   * because buckets are disjoint.
   */
  method CollapseGroups<K(==)>(g: Groups<K>, ghost keys: seq<K>, minSize: nat, drop0: set<nat>)
    returns (drop: set<nat>, added: nat)
    requires g == GroupAll(keys)
    ensures drop == drop0 + Collapsed(keys, drop0, minSize)
    ensures added == |drop - drop0|
  {
    drop, added := drop0, 0;
    for t := 0 to |g.order|
      invariant drop == drop0 + CollapsedAmong(keys, drop0, minSize, g.order[..t])
      invariant added == |drop - drop0|
    {
      var k := g.order[t];
      BucketAt(keys, t);
      var d, c := CollapseGroup(g.members[k], minSize, drop);
      CollapseStep(keys, minSize, drop0, drop, g.order[..t], k, d);
      NestedDifference(drop0, drop, d);
      drop, added := d, added + c;
    }
    GroupComplete(keys);
    GroupOrder(keys);
    assert g.order[..|g.order|] == g.order;
    AmongAll(keys, drop0, minSize, g.order);
  }

  /** One bucket of the loop of `CollapseGroups` adds exactly that bucket's part of `Collapsed`. */
  lemma CollapseStep<K>(keys: seq<K>, minSize: nat, drop0: set<nat>, drop: set<nat>, ks: seq<K>, k: K, d: set<nat>)
    requires k in GroupAll(keys).members && k !in ks
    requires forall j | j in GroupAll(keys).members[k] :: j < |keys| && keys[j] == k
    requires drop == drop0 + CollapsedAmong(keys, drop0, minSize, ks)
    requires var b := GroupAll(keys).members[k];
      d == drop + (if |b| >= minSize then Pruned(b, drop) else {})
    ensures d == drop0 + CollapsedAmong(keys, drop0, minSize, ks + [k])
  {
    var b := GroupAll(keys).members[k];
    forall j | j in b
      ensures j in drop <==> j in drop0
    {
    }
    PrunedLocal(b, drop, drop0);
    AmongBucket(keys, drop0, minSize, k);
    AmongAppend(keys, drop0, minSize, ks, k);
  }

  // ----- what one pass guarantees -----

  /** In a class big enough to collapse, a member is kept exactly when it is the class's survivor. */
  lemma CollapsedMember<K>(keys: seq<K>, drop: set<nat>, minSize: nat, i: nat)
    requires i < |keys| && |Class(keys, i)| >= minSize
    ensures i !in drop + Collapsed(keys, drop, minSize) <==> IsSurvivor(Class(keys, i), drop, i)
  {
  }

  /** Two indices with one key share one class. */
  lemma SameClass<K>(keys: seq<K>, i: nat, j: nat)
    requires i < |keys| && j < |keys| && keys[i] == keys[j]
    ensures Class(keys, i) == Class(keys, j)
    ensures i in Class(keys, i) && j in Class(keys, i)
  {
  }

  /** A pass that collapses classes of two or more leaves at most one of two indices with one key. */
  lemma CollapsedKeepsOne<K>(keys: seq<K>, drop: set<nat>, minSize: nat, i: nat, j: nat)
    requires i < j < |keys| && keys[i] == keys[j] && minSize <= 2
    ensures i in drop + Collapsed(keys, drop, minSize) || j in drop + Collapsed(keys, drop, minSize)
  {
    var c := Class(keys, i);
    SameClass(keys, i, j);
    SubsetSize({i, j}, c);
    CollapsedMember(keys, drop, minSize, i);
    CollapsedMember(keys, drop, minSize, j);
    if IsSurvivor(c, drop, i) && IsSurvivor(c, drop, j) {
      SurvivorUnique(c, drop, i, j);
    }
  }
}
