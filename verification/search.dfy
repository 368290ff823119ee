/** The linear "first strict minimum" scan that every matcher of the source
    performs: start from the `u32::MAX` sentinel and replace the best candidate
    only when a strictly smaller difference turns up. */
module Search {
  import opened Common

  /** `p` is the earliest position holding the minimum of `ds`. */
  predicate IsFirstMinimum(ds: seq<nat>, p: nat)
  {
    && p < |ds|
    && (forall j :: 0 <= j < |ds| ==> ds[p] <= ds[j])
    && (forall j :: 0 <= j < p ==> ds[p] < ds[j])
  }

  /** At most one position is the first minimum. */
  lemma FirstMinimumUnique(ds: seq<nat>, p: nat, q: nat)
    requires IsFirstMinimum(ds, p) && IsFirstMinimum(ds, q)
    ensures p == q
  {
    assert ds[p] == ds[q];
  }

  /** The scan from position `j` on, with `best`/`bestDiff` the state after
      positions `0 .. j-1`; `bestDiff` is the sentinel before the first step. */
  function ScanFrom(ds: seq<nat>, j: nat, best: nat, bestDiff: nat): (p: nat)
    requires 0 < |ds| && j <= |ds|
    requires forall i :: 0 <= i < |ds| ==> ds[i] < U32_MAX
    requires j == 0 ==> bestDiff == U32_MAX
    requires 0 < j ==> IsFirstMinimum(ds[..j], best) && bestDiff == ds[best]
    ensures IsFirstMinimum(ds, p)
    decreases |ds| - j
  {
    if j == |ds| then
      assert ds[..j] == ds;
      best
    else if ds[j] < bestDiff then
      ScanFrom(ds, j + 1, j, ds[j])
    else
      ScanFrom(ds, j + 1, best, bestDiff)
  }

  /** The position the source's scan settles on: the first minimum. */
  function FirstMinimum(ds: seq<nat>): (p: nat)
    requires 0 < |ds|
    requires forall i :: 0 <= i < |ds| ==> ds[i] < U32_MAX
    ensures IsFirstMinimum(ds, p)
  {
    ScanFrom(ds, 0, 0, U32_MAX)
  }
}
