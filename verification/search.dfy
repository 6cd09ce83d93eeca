/**
 * The two scans the viewer's hit tests share: front to back for the first
 * position that holds, back to front for the last position with a value.
 */
module Search {
  import opened Wrappers

  /** The first position from `i` on where `bs` holds, or -1. */
  function FirstFrom(bs: seq<bool>, i: nat): (r: int)
    requires i <= |bs|
    ensures r == -1 || i <= r < |bs|
    ensures r >= 0 ==> bs[r] && forall j :: i <= j < r ==> !bs[j]
    ensures r == -1 <==> forall j :: i <= j < |bs| ==> !bs[j]
    decreases |bs| - i
  {
    if i == |bs| then -1
    else if bs[i] then i
    else FirstFrom(bs, i + 1)
  }

  /** The last position below `k` that holds a value, or -1. */
  function LastBelow<T>(xs: seq<Option<T>>, k: nat): (r: int)
    requires k <= |xs|
    ensures -1 <= r < k
    ensures r >= 0 ==> xs[r].Some? && forall j :: r < j < k ==> xs[j].None?
    ensures r == -1 <==> forall j :: 0 <= j < k ==> xs[j].None?
  {
    if k == 0 then -1
    else if xs[k - 1].Some? then k - 1
    else LastBelow(xs, k - 1)
  }

  /** The first index whose element satisfies `p`, or -1 when none does. */
  function First<T>(xs: seq<T>, p: T -> bool): (r: int)
    ensures -1 <= r < |xs|
    ensures r == -1 <==> forall k :: 0 <= k < |xs| ==> !p(xs[k])
    ensures r >= 0 ==> p(xs[r]) && forall k :: 0 <= k < r ==> !p(xs[k])
  {
    var bs := seq(|xs|, k requires 0 <= k < |xs| => p(xs[k]));
    assert forall k :: 0 <= k < |xs| ==> bs[k] == p(xs[k]);
    FirstFrom(bs, 0)
  }
}
