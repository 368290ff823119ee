/** Generic k-means clustering, parameterised by a context that supplies the
    initial centroids, the centroid of a group of elements, the distance of two
    elements and a per-iteration stop callback.  Elements are referred to by
    their position in the element sequence. */
module Kmeans {
  import opened Common
  import opened Search

  /** Element `index` belongs to a cluster, at distance `diff` from the
      centroid it was matched against. */
  datatype Assignment = Assignment(index: nat, diff: nat)

  datatype Cluster<T> = Cluster(centroid: T, elements: seq<Assignment>)

  /** The largest deviation inside one cluster (the source's `Diff`). */
  datatype Deviation = Deviation(index: nat, diff: nat)

  /** The four callbacks of the clustering context.  Distances are `u32`
      values strictly below `u32::MAX`, the sentinel of the nearest-centroid
      scan. */
  datatype Context<!T> = Context(
    initializeCentroid: nat -> T,
    determineCentroid: seq<T> -> T,
    diff: (T, T) -> Score,
    iterationCallback: (nat, seq<Cluster<T>>) -> bool)

  /* ---------------------------------------------------------------------- */
  /* Initialisation and reset                                               */
  /* ---------------------------------------------------------------------- */

  /** `k` clusters, the i-th centred on the context's i-th initial centroid,
      none with members; built by appending, as the source pushes. */
  function InitializeClusters<T(==)>(ctx: Context<T>, k: nat): (cs: seq<Cluster<T>>)
    ensures |cs| == k
    ensures forall i :: 0 <= i < k ==> cs[i] == Cluster(ctx.initializeCentroid(i), [])
  {
    if k == 0 then [] else InitializeClusters(ctx, k - 1) + [Cluster(ctx.initializeCentroid(k - 1), [])]
  }

  /** Every cluster loses its members and keeps its centroid. */
  function ResetAssignments<T(==)>(cs: seq<Cluster<T>>): (r: seq<Cluster<T>>)
    ensures |r| == |cs|
    ensures forall c :: 0 <= c < |cs| ==> r[c].centroid == cs[c].centroid && r[c].elements == []
  {
    seq(|cs|, c requires 0 <= c < |cs| => cs[c].(elements := []))
  }

  /* ---------------------------------------------------------------------- */
  /* Reassignment                                                           */
  /* ---------------------------------------------------------------------- */

  /** Distances of `e` from every centroid, in cluster order. */
  function Diffs<T(==)>(ctx: Context<T>, cs: seq<Cluster<T>>, e: T): (ds: seq<nat>)
    ensures |ds| == |cs|
    ensures forall j :: 0 <= j < |cs| ==> ds[j] == ctx.diff(cs[j].centroid, e) < U32_MAX
  {
    seq<nat>(|cs|, j requires 0 <= j < |cs| => ctx.diff(cs[j].centroid, e))
  }

  /** The cluster `e` joins: the first one whose centroid is nearest. */
  function Nearest<T(==)>(ctx: Context<T>, cs: seq<Cluster<T>>, e: T): (c: nat)
    requires 0 < |cs|
    ensures c < |cs|
  {
    FirstMinimum(Diffs(ctx, cs, e))
  }

  /** `e` joins a cluster whose centroid is nearest to it, and no earlier
      cluster is as near. */
  lemma NearestIsFirstNearest<T>(ctx: Context<T>, cs: seq<Cluster<T>>, e: T)
    requires 0 < |cs|
    ensures forall j :: 0 <= j < |cs| ==> ctx.diff(cs[Nearest(ctx, cs, e)].centroid, e) <= ctx.diff(cs[j].centroid, e)
    ensures forall j :: 0 <= j < Nearest(ctx, cs, e) ==> ctx.diff(cs[Nearest(ctx, cs, e)].centroid, e) < ctx.diff(cs[j].centroid, e)
  {
    var ds := Diffs(ctx, cs, e);
    assert IsFirstMinimum(ds, Nearest(ctx, cs, e));
  }

  /** The distance of `e` from the centroid of the cluster it joins. */
  function NearestDiff<T(==)>(ctx: Context<T>, cs: seq<Cluster<T>>, e: T): nat
    requires 0 < |cs|
  {
    Diffs(ctx, cs, e)[Nearest(ctx, cs, e)]
  }

  predicate SameCentroids<T(==)>(a: seq<Cluster<T>>, b: seq<Cluster<T>>)
  {
    |a| == |b| && forall c :: 0 <= c < |a| ==> a[c].centroid == b[c].centroid
  }

  /** Only the centroids take part in the choice of the nearest cluster. */
  lemma NearestDependsOnCentroids<T>(ctx: Context<T>, a: seq<Cluster<T>>, b: seq<Cluster<T>>, e: T)
    requires 0 < |a| && SameCentroids(a, b)
    ensures Diffs(ctx, a, e) == Diffs(ctx, b, e)
    ensures Nearest(ctx, a, e) == Nearest(ctx, b, e)
  {
    assert Diffs(ctx, a, e) == Diffs(ctx, b, e);
  }

  /** Reference definition: the assignments cluster `c` receives from the
      first `n` elements, in element order. */
  function Assigned<T(==)>(ctx: Context<T>, cs: seq<Cluster<T>>, elements: seq<T>, c: nat, n: nat): seq<Assignment>
    requires 0 < |cs| && n <= |elements|
  {
    if n == 0 then []
    else
      Assigned(ctx, cs, elements, c, n - 1)
      + (if Nearest(ctx, cs, elements[n - 1]) == c
         then [Assignment(n - 1, NearestDiff(ctx, cs, elements[n - 1]))]
         else [])
  }

  /** The source's element loop over the first `n` elements: each element is
      appended to the cluster it is nearest to, with that distance. */
  function Reassign<T(==)>(ctx: Context<T>, cs: seq<Cluster<T>>, elements: seq<T>, n: nat): (r: seq<Cluster<T>>)
    requires n <= |elements|
    requires 0 < |cs| || n == 0
    ensures SameCentroids(r, cs)
  {
    if n == 0 then cs
    else
      var prev := Reassign(ctx, cs, elements, n - 1);
      var e := elements[n - 1];
      var j := Nearest(ctx, prev, e);
      prev[j := prev[j].(elements := prev[j].elements + [Assignment(n - 1, Diffs(ctx, prev, e)[j])])]
  }

  /** Reassignment appends to every cluster exactly its reference
      assignments. */
  lemma {:induction false} ReassignSpec<T>(ctx: Context<T>, cs: seq<Cluster<T>>, elements: seq<T>, n: nat)
    requires 0 < |cs| && n <= |elements|
    ensures forall c :: 0 <= c < |cs| ==>
      Reassign(ctx, cs, elements, n)[c].elements == cs[c].elements + Assigned(ctx, cs, elements, c, n)
  {
    if n > 0 {
      ReassignSpec(ctx, cs, elements, n - 1);
      NearestDependsOnCentroids(ctx, Reassign(ctx, cs, elements, n - 1), cs, elements[n - 1]);
    }
  }

  /** An assignment is in the reference list exactly when its element is
      among the first `n`, joins `c`, and carries the nearest distance. */
  lemma {:induction false} AssignedMembership<T>(ctx: Context<T>, cs: seq<Cluster<T>>, elements: seq<T>, c: nat, n: nat, a: Assignment)
    requires 0 < |cs| && n <= |elements|
    ensures a in Assigned(ctx, cs, elements, c, n) <==>
      a.index < n && Nearest(ctx, cs, elements[a.index]) == c
      && a.diff == NearestDiff(ctx, cs, elements[a.index])
  {
    if n > 0 {
      AssignedMembership(ctx, cs, elements, c, n - 1, a);
    }
  }

  /** Each cluster lists its new members in ascending element order. */
  lemma {:induction false} AssignedAscending<T>(ctx: Context<T>, cs: seq<Cluster<T>>, elements: seq<T>, c: nat, n: nat)
    requires 0 < |cs| && n <= |elements|
    ensures forall p, q :: 0 <= p < q < |Assigned(ctx, cs, elements, c, n)| ==>
      Assigned(ctx, cs, elements, c, n)[p].index < Assigned(ctx, cs, elements, c, n)[q].index
    ensures forall a :: a in Assigned(ctx, cs, elements, c, n) ==> a.index < n
  {
    if n > 0 {
      AssignedAscending(ctx, cs, elements, c, n - 1);
    }
  }

  /** Element indices of an assignment list. */
  function IndicesOf(list: seq<Assignment>): set<nat>
  {
    set a | a in list :: a.index
  }

  /** After a reset and a full reassignment every element belongs to exactly
      one cluster: the first nearest one. */
  lemma Partition<T>(ctx: Context<T>, cs: seq<Cluster<T>>, elements: seq<T>, i: nat, c: nat)
    requires 0 < |cs| && c < |cs|
    ensures i in IndicesOf(Reassign(ctx, ResetAssignments(cs), elements, |elements|)[c].elements)
      <==> i < |elements| && Nearest(ctx, cs, elements[i]) == c
  {
    var reset := ResetAssignments(cs);
    var n := |elements|;
    var r := Reassign(ctx, reset, elements, n);
    ReassignSpec(ctx, reset, elements, n);
    if i < n {
      NearestDependsOnCentroids(ctx, reset, cs, elements[i]);
      if Nearest(ctx, cs, elements[i]) == c {
        AssignedMembership(ctx, reset, elements, c, n, Assignment(i, NearestDiff(ctx, reset, elements[i])));
      }
    }
    if i in IndicesOf(r[c].elements) {
      var a :| a in r[c].elements && a.index == i;
      AssignedMembership(ctx, reset, elements, c, n, a);
      NearestDependsOnCentroids(ctx, reset, cs, elements[i]);
    }
  }

  /* ---------------------------------------------------------------------- */
  /* Centroid recalculation                                                 */
  /* ---------------------------------------------------------------------- */

  /** Every member of every cluster refers to one of `n` elements. */
  predicate ValidIndices<T>(cs: seq<Cluster<T>>, n: nat)
  {
    forall c, k :: 0 <= c < |cs| && 0 <= k < |cs[c].elements| ==> cs[c].elements[k].index < n
  }

  /** The elements an assignment list refers to, in list order. */
  function Members<T>(list: seq<Assignment>, elements: seq<T>): (ms: seq<T>)
    requires forall k :: 0 <= k < |list| ==> list[k].index < |elements|
    ensures |ms| == |list|
    ensures forall k :: 0 <= k < |list| ==> ms[k] == elements[list[k].index]
  {
    seq(|list|, k requires 0 <= k < |list| => elements[list[k].index])
  }

  /** The centroid of the elements an assignment list refers to. */
  function RecalculateCentroid<T>(ctx: Context<T>, list: seq<Assignment>, elements: seq<T>): T
    requires forall k :: 0 <= k < |list| ==> list[k].index < |elements|
  {
    ctx.determineCentroid(Members(list, elements))
  }

  /** Every cluster with members is re-centred on them; empty clusters keep
      their centroid; no membership changes. */
  function RecalculateCentroids<T(==)>(ctx: Context<T>, cs: seq<Cluster<T>>, elements: seq<T>): (r: seq<Cluster<T>>)
    requires ValidIndices(cs, |elements|)
    ensures |r| == |cs|
    ensures forall c :: 0 <= c < |cs| ==> r[c].elements == cs[c].elements
    ensures forall c :: 0 <= c < |cs| && |cs[c].elements| == 0 ==> r[c].centroid == cs[c].centroid
    ensures forall c :: 0 <= c < |cs| && 0 < |cs[c].elements| ==>
      r[c].centroid == ctx.determineCentroid(Members(cs[c].elements, elements))
  {
    seq(|cs|, c requires 0 <= c < |cs| =>
      if |cs[c].elements| == 0 then cs[c]
      else cs[c].(centroid := RecalculateCentroid(ctx, cs[c].elements, elements)))
  }

  /* ---------------------------------------------------------------------- */
  /* Highest deviations                                                     */
  /* ---------------------------------------------------------------------- */

  /** Position of a member with the largest distance; among equal maxima the
      last one, as `Iterator::max_by` picks it. */
  function PeakPosition(list: seq<Assignment>): (p: nat)
    requires 0 < |list|
    ensures p < |list|
    ensures forall k :: 0 <= k < |list| ==> list[k].diff <= list[p].diff
    ensures forall k :: p < k < |list| ==> list[k].diff < list[p].diff
  {
    if |list| == 1 then 0
    else
      var p := PeakPosition(list[..|list| - 1]);
      if list[p].diff <= list[|list| - 1].diff then |list| - 1 else p
  }

  function Peak<T>(c: Cluster<T>): Deviation
    requires 0 < |c.elements|
  {
    var a := c.elements[PeakPosition(c.elements)];
    Deviation(a.index, a.diff)
  }

  /** A cluster gives up an element only when it has at least two. */
  predicate IsDonor<T>(c: Cluster<T>) { 2 <= |c.elements| }

  /** Number of donor clusters among `cs`. */
  function DonorCount<T>(cs: seq<Cluster<T>>): nat
  {
    if |cs| == 0 then 0
    else DonorCount(cs[..|cs| - 1]) + (if IsDonor(cs[|cs| - 1]) then 1 else 0)
  }

  /** `i` is the index of a member of some donor cluster. */
  predicate DonorMember<T>(cs: seq<Cluster<T>>, i: nat)
  {
    exists c, k :: 0 <= c < |cs| && IsDonor(cs[c]) && 0 <= k < |cs[c].elements| && cs[c].elements[k].index == i
  }

  /** The peak of every donor cluster, in cluster order. */
  function Donors<T>(cs: seq<Cluster<T>>): (ds: seq<Deviation>)
    ensures |ds| == DonorCount(cs)
  {
    if |cs| == 0 then []
    else
      var last := cs[|cs| - 1];
      Donors(cs[..|cs| - 1]) + (if IsDonor(last) then [Peak(last)] else [])
  }

  /** The m-th entry of `Donors` is the peak of the m-th donor cluster. */
  lemma {:induction false} DonorsInClusterOrder<T>(cs: seq<Cluster<T>>, c: nat)
    requires c < |cs| && IsDonor(cs[c])
    ensures DonorCount(cs[..c]) < |Donors(cs)|
    ensures Donors(cs)[DonorCount(cs[..c])] == Peak(cs[c])
  {
    var init := cs[..|cs| - 1];
    if c < |cs| - 1 {
      assert init[..c] == cs[..c];
      assert init[c] == cs[c];
      DonorsInClusterOrder(init, c);
    } else {
      assert init == cs[..c];
    }
  }

  /** Every entry of `Donors` names a member of a donor cluster. */
  lemma {:induction false} DonorsAreMembers<T>(cs: seq<Cluster<T>>, d: Deviation)
    requires d in Donors(cs)
    ensures DonorMember(cs, d.index)
  {
    var init := cs[..|cs| - 1];
    var last := cs[|cs| - 1];
    if d in Donors(init) {
      DonorsAreMembers(init, d);
      var c, k :| 0 <= c < |init| && IsDonor(init[c]) && 0 <= k < |init[c].elements| && init[c].elements[k].index == d.index;
      assert cs[c] == init[c];
    } else {
      var p := PeakPosition(last.elements);
      assert cs[|cs| - 1].elements[p].index == d.index;
    }
  }

  /** Non-increasing by distance. */
  predicate Descending(ds: seq<Deviation>)
  {
    forall p, q :: 0 <= p < q < |ds| ==> ds[q].diff <= ds[p].diff
  }

  /** The entries of `ds` with distance `v`, in order. */
  function WithDiff(ds: seq<Deviation>, v: nat): seq<Deviation>
  {
    if |ds| == 0 then []
    else (if ds[0].diff == v then [ds[0]] else []) + WithDiff(ds[1..], v)
  }

  lemma {:induction false} WithDiffAppend(a: seq<Deviation>, b: seq<Deviation>, v: nat)
    ensures WithDiff(a + b, v) == WithDiff(a, v) + WithDiff(b, v)
  {
    if |a| > 0 {
      assert (a + b)[0] == a[0];
      assert (a + b)[1..] == a[1..] + b;
      WithDiffAppend(a[1..], b, v);
    } else {
      assert a + b == b;
    }
  }

  /** `d` goes in front of the first entry that is not larger than it. */
  function Insert(d: Deviation, ds: seq<Deviation>): (r: seq<Deviation>)
    ensures multiset(r) == multiset(ds) + multiset{d}
    ensures |r| == |ds| + 1
    ensures 0 < |ds| ==> r[0] == d || r[0] == ds[0]
  {
    if |ds| == 0 || ds[0].diff <= d.diff then [d] + ds
    else
      assert ds == [ds[0]] + ds[1..];
      [ds[0]] + Insert(d, ds[1..])
  }

  lemma {:induction false} InsertDescending(d: Deviation, ds: seq<Deviation>)
    requires Descending(ds)
    ensures Descending(Insert(d, ds))
    ensures forall v :: WithDiff(Insert(d, ds), v) == WithDiff([d] + ds, v)
  {
    if |ds| == 0 || ds[0].diff <= d.diff {
    } else {
      InsertDescending(d, ds[1..]);
      var r := Insert(d, ds);
      assert r == [ds[0]] + Insert(d, ds[1..]);
      forall v
        ensures WithDiff(r, v) == WithDiff([d] + ds, v)
      {
        assert r[1..] == Insert(d, ds[1..]);
        assert ([d] + ds)[1..] == ds;
        assert ([d] + ds[1..])[1..] == ds[1..];
        assert ds == [ds[0]] + ds[1..];
        WithDiffAppend([ds[0]], ds[1..], v);
      }
    }
  }

  /** Stable sort by distance, largest first (`sort_by` with the reversed
      comparison). */
  function SortDescending(ds: seq<Deviation>): (r: seq<Deviation>)
    ensures multiset(r) == multiset(ds)
    ensures |r| == |ds|
  {
    if |ds| == 0 then []
    else
      assert ds == [ds[0]] + ds[1..];
      Insert(ds[0], SortDescending(ds[1..]))
  }

  /** The sort orders by distance and keeps entries of equal distance in their
      original order. */
  lemma {:induction false} SortDescendingSpec(ds: seq<Deviation>)
    ensures Descending(SortDescending(ds))
    ensures forall v :: WithDiff(SortDescending(ds), v) == WithDiff(ds, v)
  {
    if |ds| > 0 {
      SortDescendingSpec(ds[1..]);
      InsertDescending(ds[0], SortDescending(ds[1..]));
      forall v
        ensures WithDiff(SortDescending(ds), v) == WithDiff(ds, v)
      {
        assert ds == [ds[0]] + ds[1..];
        WithDiffAppend([ds[0]], SortDescending(ds[1..]), v);
        WithDiffAppend([ds[0]], ds[1..], v);
      }
    }
  }

  /** The peaks of all donor clusters, largest distance first. */
  function HighestDeviations<T>(cs: seq<Cluster<T>>): (ds: seq<Deviation>)
    ensures multiset(ds) == multiset(Donors(cs))
    ensures Descending(ds)
    ensures forall v :: WithDiff(ds, v) == WithDiff(Donors(cs), v)
  {
    SortDescendingSpec(Donors(cs));
    SortDescending(Donors(cs))
  }

  /** Every highest deviation names a member of a donor cluster. */
  lemma HighestDeviationsAreMembers<T>(cs: seq<Cluster<T>>, m: nat)
    requires m < |HighestDeviations(cs)|
    ensures DonorMember(cs, HighestDeviations(cs)[m].index)
  {
    var ds := HighestDeviations(cs);
    assert ds[m] in multiset(ds);
    DonorsAreMembers(cs, ds[m]);
  }

  /* ---------------------------------------------------------------------- */
  /* Filling empty clusters                                                 */
  /* ---------------------------------------------------------------------- */

  /** Number of clusters without members at positions `lo .. hi-1`. */
  function EmptyCount<T>(cs: seq<Cluster<T>>, lo: nat, hi: nat): nat
    requires lo <= hi <= |cs|
    decreases hi - lo
  {
    if lo == hi then 0
    else (if |cs[lo].elements| == 0 then 1 else 0) + EmptyCount(cs, lo + 1, hi)
  }

  lemma {:induction false} EmptyCountUpdate<T>(cs: seq<Cluster<T>>, c: nat, x: Cluster<T>, lo: nat, hi: nat)
    requires c < lo <= hi <= |cs|
    ensures EmptyCount(cs[c := x], lo, hi) == EmptyCount(cs, lo, hi)
    decreases hi - lo
  {
    if lo < hi {
      EmptyCountUpdate(cs, c, x, lo + 1, hi);
    }
  }

  lemma EmptyCountUpdateAll<T>(cs: seq<Cluster<T>>, c: nat, x: Cluster<T>, lo: nat)
    requires c < lo <= |cs|
    ensures forall i: nat :: lo <= i <= |cs| ==> EmptyCount(cs[c := x], lo, i) == EmptyCount(cs, lo, i)
  {
    forall i: nat | lo <= i <= |cs| {
      EmptyCountUpdate(cs, c, x, lo, i);
    }
  }

  lemma {:induction false} EmptyCountSplit<T>(cs: seq<Cluster<T>>, lo: nat, hi: nat)
    requires lo < hi <= |cs|
    ensures EmptyCount(cs, lo, hi) == EmptyCount(cs, lo, hi - 1) + (if |cs[hi - 1].elements| == 0 then 1 else 0)
    decreases hi - lo
  {
    if lo < hi - 1 {
      EmptyCountSplit(cs, lo + 1, hi);
    }
  }

  /** A cluster holding only element `d.index`, at distance 0, centred on it. */
  function Seeded<T>(ctx: Context<T>, d: Deviation, elements: seq<T>): Cluster<T>
    requires d.index < |elements|
  {
    var list := [Assignment(d.index, 0)];
    Cluster(RecalculateCentroid(ctx, list, elements), list)
  }

  /** The cluster at position `c`, once the donor list has been popped
      `EmptyCount(cs, 0, c)` times before it. */
  function Refilled<T>(ctx: Context<T>, cs: seq<Cluster<T>>, c: nat, donors: seq<Deviation>, elements: seq<T>): Cluster<T>
    requires c < |cs|
    requires forall m :: 0 <= m < |donors| ==> donors[m].index < |elements|
  {
    var j := EmptyCount(cs, 0, c);
    if 0 < |cs[c].elements| || |donors| <= j then cs[c]
    else Seeded(ctx, donors[|donors| - 1 - j], elements)
  }

  /** The source's loop over the clusters from position `c` on: every empty
      cluster takes the element popped from the end of `donors`, until the
      donors run out. */
  function FillFrom<T>(ctx: Context<T>, cs: seq<Cluster<T>>, c: nat, donors: seq<Deviation>, elements: seq<T>): (r: seq<Cluster<T>>)
    requires c <= |cs|
    requires forall m :: 0 <= m < |donors| ==> donors[m].index < |elements|
    ensures |r| == |cs|
    ensures forall i :: 0 <= i < c ==> r[i] == cs[i]
    ensures forall i :: c <= i < |cs| ==>
      r[i] == (if 0 < |cs[i].elements| || |donors| <= EmptyCount(cs, c, i) then cs[i]
               else Seeded(ctx, donors[|donors| - 1 - EmptyCount(cs, c, i)], elements))
    decreases |cs| - c
  {
    if c == |cs| || |donors| == 0 then cs
    else if 0 < |cs[c].elements| then
      FillFrom(ctx, cs, c + 1, donors, elements)
    else
      var filled := Seeded(ctx, donors[|donors| - 1], elements);
      var next := cs[c := filled];
      var rest := donors[..|donors| - 1];
      EmptyCountUpdateAll(cs, c, filled, c + 1);
      FillFrom(ctx, next, c + 1, rest, elements)
  }

  /** Outcome of `fill_empty_clusters`: whether the clustering is already
      perfect, and the clusters afterwards. */
  datatype Repair<T> = Repair(perfect: bool, clusters: seq<Cluster<T>>)

  /** Stops with "perfect" when the largest deviation of all donors is 0;
      otherwise seeds the empty clusters, in order, with the elements of the
      smallest highest deviations. */
  function FillEmptyClusters<T(==)>(ctx: Context<T>, cs: seq<Cluster<T>>, elements: seq<T>): (r: Repair<T>)
    requires ValidIndices(cs, |elements|)
    ensures |r.clusters| == |cs|
    ensures forall m :: 0 <= m < |HighestDeviations(cs)| ==> HighestDeviations(cs)[m].index < |elements|
    ensures r.perfect <==> 0 < |HighestDeviations(cs)| && HighestDeviations(cs)[0].diff == 0
    ensures r.perfect ==> r.clusters == cs
    ensures !r.perfect ==> forall c :: 0 <= c < |cs| ==>
      r.clusters[c] == Refilled(ctx, cs, c, HighestDeviations(cs), elements)
  {
    var ds := HighestDeviations(cs);
    assert forall m :: 0 <= m < |ds| ==> ds[m].index < |elements| by {
      forall m | 0 <= m < |ds| {
        HighestDeviationsAreMembers(cs, m);
      }
    }
    if 0 < |ds| && ds[0].diff == 0 then Repair(true, cs)
    else
      var filled := FillFrom(ctx, cs, 0, ds, elements);
      assert forall c :: 0 <= c < |cs| ==> filled[c] == Refilled(ctx, cs, c, ds, elements);
      Repair(false, filled)
  }

  /** Number of clusters among the first `hi` that were empty in `cs` and have
      members in `r`. */
  function NewlySeeded<T>(cs: seq<Cluster<T>>, r: seq<Cluster<T>>, hi: nat): nat
    requires hi <= |cs| <= |r|
  {
    if hi == 0 then 0
    else NewlySeeded(cs, r, hi - 1) + (if |cs[hi - 1].elements| == 0 && 0 < |r[hi - 1].elements| then 1 else 0)
  }

  function Min(a: nat, b: nat): nat { if a <= b then a else b }

  /** A repair that is not "perfect" seeds as many empty clusters as there
      are both empty clusters and donors. */
  lemma {:induction false} SeededCount<T>(ctx: Context<T>, cs: seq<Cluster<T>>, elements: seq<T>, hi: nat)
    requires ValidIndices(cs, |elements|) && hi <= |cs|
    requires !FillEmptyClusters(ctx, cs, elements).perfect
    ensures NewlySeeded(cs, FillEmptyClusters(ctx, cs, elements).clusters, hi)
      == Min(EmptyCount(cs, 0, hi), |HighestDeviations(cs)|)
  {
    if hi > 0 {
      SeededCount(ctx, cs, elements, hi - 1);
      EmptyCountSplit(cs, 0, hi);
    }
  }

  /** A seeded cluster holds one element at distance 0, and that element
      stays a member of the donor cluster it was taken from: after a repair an
      element can belong to two clusters. */
  lemma DonatedElementStays<T>(ctx: Context<T>, cs: seq<Cluster<T>>, elements: seq<T>, c: nat)
    requires ValidIndices(cs, |elements|) && c < |cs|
    requires !FillEmptyClusters(ctx, cs, elements).perfect
    requires |cs[c].elements| == 0 && 0 < |FillEmptyClusters(ctx, cs, elements).clusters[c].elements|
    ensures var r := FillEmptyClusters(ctx, cs, elements).clusters;
      && r[c].elements == [Assignment(r[c].elements[0].index, 0)]
      && DonorMember(r, r[c].elements[0].index)
  {
    var r := FillEmptyClusters(ctx, cs, elements).clusters;
    var ds := HighestDeviations(cs);
    var j := EmptyCount(cs, 0, c);
    HighestDeviationsAreMembers(cs, |ds| - 1 - j);
    var i := ds[|ds| - 1 - j].index;
    var c', k :| 0 <= c' < |cs| && IsDonor(cs[c']) && 0 <= k < |cs[c'].elements| && cs[c'].elements[k].index == i;
    assert r[c'] == cs[c'];
  }

  /* ---------------------------------------------------------------------- */
  /* The main loop                                                          */
  /* ---------------------------------------------------------------------- */

  /** Why the loop ended: all iterations done, a repair found the clustering
      perfect, or the iteration callback asked to stop. */
  datatype Stop = Exhausted | Perfect | Callback

  /** Clusters after the loop, with the number of iterations that ran. */
  datatype Run<T> = Run(clusters: seq<Cluster<T>>, iterations: nat, stop: Stop)

  /** One reset, reassignment and re-centring pass. */
  function Regroup<T(==)>(ctx: Context<T>, cs: seq<Cluster<T>>, elements: seq<T>): (r: seq<Cluster<T>>)
    requires 0 < |cs|
    ensures |r| == |cs|
    ensures ValidIndices(r, |elements|)
  {
    var grouped := Reassign(ctx, ResetAssignments(cs), elements, |elements|);
    assert ValidIndices(grouped, |elements|) by {
      ReassignSpec(ctx, ResetAssignments(cs), elements, |elements|);
      forall c | 0 <= c < |grouped| {
        AssignedAscending(ctx, ResetAssignments(cs), elements, c, |elements|);
      }
    }
    RecalculateCentroids(ctx, grouped, elements)
  }

  /** Iteration `i` is a repair iteration when `interval` divides it. */
  predicate RepairsOn(i: nat, interval: nat)
    requires 0 < interval
  {
    i % interval == 0
  }

  /** The clustering a repair calls "perfect": some cluster donates, and
      the largest distance of all donors is 0. */
  predicate Settled<T>(cs: seq<Cluster<T>>)
  {
    0 < |HighestDeviations(cs)| && HighestDeviations(cs)[0].diff == 0
  }

  /** Iteration `i`: regroup, then repair when `i` is divisible by
      `interval`. Only a repair can report "perfect", and it does exactly
      when the regrouped clusters are settled; any other iteration keeps the
      regrouped clusters as they are. */
  function Step<T(==)>(ctx: Context<T>, cs: seq<Cluster<T>>, elements: seq<T>, interval: nat, i: nat): (r: Repair<T>)
    requires 0 < |cs| && 0 < interval
    ensures |r.clusters| == |cs|
    ensures r.perfect ==> RepairsOn(i, interval) && Settled(r.clusters)
    ensures RepairsOn(i, interval) ==> (r.perfect <==> Settled(Regroup(ctx, cs, elements)))
    ensures !RepairsOn(i, interval) ==> !r.perfect && r.clusters == Regroup(ctx, cs, elements)
  {
    var regrouped := Regroup(ctx, cs, elements);
    if RepairsOn(i, interval) then FillEmptyClusters(ctx, regrouped, elements)
    else Repair(false, regrouped)
  }

  /** Iterations `i .. maxIterations-1` of the loop, repairing empty clusters
      on every iteration divisible by `interval`. An early stop happens in
      iteration `r.iterations - 1`: "perfect" only on a repair iteration,
      "callback" only when the callback returned true for the final
      clusters. */
  function Iterate<T(==)>(ctx: Context<T>, cs: seq<Cluster<T>>, elements: seq<T>, maxIterations: nat, interval: nat, i: nat): (r: Run<T>)
    requires 0 < |cs| && 0 < interval && i <= maxIterations
    ensures |r.clusters| == |cs|
    ensures i <= r.iterations <= maxIterations
    ensures r.stop == Exhausted ==> r.iterations == maxIterations
    ensures r.stop == Perfect ==> i < r.iterations && RepairsOn(r.iterations - 1, interval) && Settled(r.clusters)
    ensures r.stop == Callback ==> i < r.iterations && ctx.iterationCallback(r.iterations - 1, r.clusters)
    decreases maxIterations - i, 1
  {
    if i == maxIterations then Run(cs, i, Exhausted)
    else Continue(ctx, Step(ctx, cs, elements, interval, i), elements, maxIterations, interval, i)
  }

  /** The end of iteration `i`, given its repaired clusters: stop on a
      perfect repair or when the callback asks to, otherwise go on. */
  function Continue<T(==)>(ctx: Context<T>, repaired: Repair<T>, elements: seq<T>, maxIterations: nat, interval: nat, i: nat): (r: Run<T>)
    requires 0 < |repaired.clusters| && 0 < interval && i < maxIterations
    requires repaired.perfect ==> RepairsOn(i, interval) && Settled(repaired.clusters)
    ensures |r.clusters| == |repaired.clusters|
    ensures i < r.iterations <= maxIterations
    ensures repaired.perfect ==> r == Run(repaired.clusters, i + 1, Perfect)
    ensures !repaired.perfect && ctx.iterationCallback(i, repaired.clusters) ==> r == Run(repaired.clusters, i + 1, Callback)
    ensures r.stop == Exhausted ==> r.iterations == maxIterations
    ensures r.stop == Perfect ==> RepairsOn(r.iterations - 1, interval) && Settled(r.clusters)
    ensures r.stop == Callback ==> ctx.iterationCallback(r.iterations - 1, r.clusters)
    decreases maxIterations - i, 0
  {
    if repaired.perfect then Run(repaired.clusters, i + 1, Perfect)
    else if ctx.iterationCallback(i, repaired.clusters) then Run(repaired.clusters, i + 1, Callback)
    else Iterate(ctx, repaired.clusters, elements, maxIterations, interval, i + 1)
  }

  /** Iteration `i` ends the run when its repair is perfect or, failing
      that, when the callback returns true; otherwise the run goes on from
      the clusters that iteration produced. */
  lemma IterateUnrolls<T>(ctx: Context<T>, cs: seq<Cluster<T>>, elements: seq<T>, maxIterations: nat, interval: nat, i: nat)
    requires 0 < |cs| && 0 < interval && i < maxIterations
    ensures var s := Step(ctx, cs, elements, interval, i);
      && (s.perfect ==> Iterate(ctx, cs, elements, maxIterations, interval, i) == Run(s.clusters, i + 1, Perfect))
      && (!s.perfect && ctx.iterationCallback(i, s.clusters) ==>
            Iterate(ctx, cs, elements, maxIterations, interval, i) == Run(s.clusters, i + 1, Callback))
      && (!s.perfect && !ctx.iterationCallback(i, s.clusters) ==>
            Iterate(ctx, cs, elements, maxIterations, interval, i) == Iterate(ctx, s.clusters, elements, maxIterations, interval, i + 1))
  {
  }

  /** The whole clustering run: `k` initial clusters, at most `maxIterations`
      iterations. */
  function OptimizeRun<T(==)>(ctx: Context<T>, k: nat, elements: seq<T>, maxIterations: nat, interval: nat): (r: Run<T>)
    requires 0 < k && 0 < interval
    ensures |r.clusters| == k
    ensures r.iterations <= maxIterations
    ensures maxIterations == 0 ==> r.clusters == InitializeClusters(ctx, k)
  {
    Iterate(ctx, InitializeClusters(ctx, k), elements, maxIterations, interval, 0)
  }

  function Optimize<T(==)>(ctx: Context<T>, k: nat, elements: seq<T>, maxIterations: nat, interval: nat): (cs: seq<Cluster<T>>)
    requires 0 < k && 0 < interval
    ensures |cs| == k
  {
    OptimizeRun(ctx, k, elements, maxIterations, interval).clusters
  }

  /** The centroids of the clusters, in cluster order. */
  function Centroids<T>(cs: seq<Cluster<T>>): (r: seq<T>)
    ensures |r| == |cs|
    ensures forall c :: 0 <= c < |cs| ==> r[c] == cs[c].centroid
  {
    seq(|cs|, c requires 0 <= c < |cs| => cs[c].centroid)
  }

  /* ---------------------------------------------------------------------- */
  /* Centroid invariant                                                     */
  /* ---------------------------------------------------------------------- */

  /** `determineCentroid` yields a `P`-centroid for every non-empty group
      drawn from `elements`. */
  ghost predicate CentroidsKeep<T(!new)>(ctx: Context<T>, elements: seq<T>, P: T -> bool)
  {
    forall ms: seq<T> :: 0 < |ms| && (forall m :: m in ms ==> m in elements) ==> P(ctx.determineCentroid(ms))
  }

  ghost predicate AllCentroids<T>(cs: seq<Cluster<T>>, P: T -> bool)
  {
    forall c :: 0 <= c < |cs| ==> P(cs[c].centroid)
  }

  lemma RegroupKeeps<T(!new)>(ctx: Context<T>, cs: seq<Cluster<T>>, elements: seq<T>, P: T -> bool)
    requires 0 < |cs| && AllCentroids(cs, P) && CentroidsKeep(ctx, elements, P)
    ensures AllCentroids(Regroup(ctx, cs, elements), P)
  {
    var grouped := Reassign(ctx, ResetAssignments(cs), elements, |elements|);
    var r := Regroup(ctx, cs, elements);
    forall c | 0 <= c < |r|
      ensures P(r[c].centroid)
    {
      if 0 < |grouped[c].elements| {
        var ms := Members(grouped[c].elements, elements);
        assert forall m :: m in ms ==> m in elements;
      }
    }
  }

  /** A refilled cluster keeps its centroid or is re-centred on one element. */
  lemma RefilledKeeps<T(!new)>(ctx: Context<T>, cs: seq<Cluster<T>>, c: nat, donors: seq<Deviation>, elements: seq<T>, P: T -> bool)
    requires c < |cs| && P(cs[c].centroid) && CentroidsKeep(ctx, elements, P)
    requires forall m :: 0 <= m < |donors| ==> donors[m].index < |elements|
    ensures P(Refilled(ctx, cs, c, donors, elements).centroid)
  {
    var j := EmptyCount(cs, 0, c);
    if |cs[c].elements| == 0 && j < |donors| {
      var d := donors[|donors| - 1 - j];
      assert Members([Assignment(d.index, 0)], elements) == [elements[d.index]];
    }
  }

  lemma FillKeeps<T(!new)>(ctx: Context<T>, cs: seq<Cluster<T>>, elements: seq<T>, P: T -> bool)
    requires ValidIndices(cs, |elements|) && AllCentroids(cs, P) && CentroidsKeep(ctx, elements, P)
    ensures AllCentroids(FillEmptyClusters(ctx, cs, elements).clusters, P)
  {
    var r := FillEmptyClusters(ctx, cs, elements);
    var ds := HighestDeviations(cs);
    if !r.perfect {
      forall c | 0 <= c < |cs|
        ensures P(r.clusters[c].centroid)
      {
        RefilledKeeps(ctx, cs, c, ds, elements, P);
      }
    }
  }

  /** Every centroid the loop ever holds satisfies `P`, when the initial ones
      do and `determineCentroid` preserves it. */
  lemma {:induction false} IterateKeeps<T(!new)>(ctx: Context<T>, cs: seq<Cluster<T>>, elements: seq<T>, maxIterations: nat, interval: nat, i: nat, P: T -> bool)
    requires 0 < |cs| && 0 < interval && i <= maxIterations
    requires AllCentroids(cs, P) && CentroidsKeep(ctx, elements, P)
    ensures AllCentroids(Iterate(ctx, cs, elements, maxIterations, interval, i).clusters, P)
    decreases maxIterations - i
  {
    if i < maxIterations {
      RegroupKeeps(ctx, cs, elements, P);
      var regrouped := Regroup(ctx, cs, elements);
      if RepairsOn(i, interval) {
        FillKeeps(ctx, regrouped, elements, P);
      }
      var repaired := Step(ctx, cs, elements, interval, i);
      if !repaired.perfect && !ctx.iterationCallback(i, repaired.clusters) {
        IterateKeeps(ctx, repaired.clusters, elements, maxIterations, interval, i + 1, P);
      }
    }
  }

  /** The final centroids satisfy every property that the initial centroids
      have and that centroids of element groups have. */
  lemma OptimizeKeeps<T(!new)>(ctx: Context<T>, k: nat, elements: seq<T>, maxIterations: nat, interval: nat, P: T -> bool)
    requires 0 < k && 0 < interval
    requires forall i: nat :: i < k ==> P(ctx.initializeCentroid(i))
    requires CentroidsKeep(ctx, elements, P)
    ensures AllCentroids(Optimize(ctx, k, elements, maxIterations, interval), P)
  {
    IterateKeeps(ctx, InitializeClusters(ctx, k), elements, maxIterations, interval, 0, P);
  }
}
