/**
 * The revision history of a page, as the page title object reports it:
 * the latest revision ID, the first revision, and the revision ID just
 * after or just before a given ID.
 */
module PageHistory {
  import opened Wrappers

  /** Revision IDs of one page, oldest first: positive and strictly increasing. */
  predicate IsHistory(h: seq<int>)
  {
    && (forall i :: 0 <= i < |h| ==> 0 < h[i])
    && (forall i, j :: 0 <= i < j < |h| ==> h[i] < h[j])
  }

  type History = h: seq<int> | IsHistory(h) witness []

  /** The latest revision ID of the page, or 0 when it has no revision. */
  function LatestRevId(h: History): (r: int)
    ensures r == 0 <==> h == []
    ensures h != [] ==> r in h && forall x :: x in h ==> x <= r
  {
    if h == [] then 0 else h[|h| - 1]
  }

  /** The ID of the page's first revision, if it has one. */
  function FirstRevision(h: History): (r: Option<int>)
    ensures r.None? <==> h == []
    ensures r.Some? ==> r.value in h && forall x :: x in h ==> r.value <= x
  {
    if h == [] then None else Some(h[0])
  }

  /**
   * The revision ID that follows `id` on the page: the smallest ID of the
   * history above `id`, or None when `id` is at or after the latest one.
   */
  function NextRevisionId(h: History, id: int): (r: Option<int>)
    ensures r.Some? ==> r.value in h && id < r.value
    ensures r.Some? ==> forall x :: x in h && id < x ==> r.value <= x
    ensures r.None? ==> forall x :: x in h ==> x <= id
    decreases |h|
  {
    if h == [] then None
    else if id < h[0] then Some(h[0])
    else
      assert h == [h[0]] + h[1..];
      NextRevisionId(h[1..], id)
  }

  /**
   * The revision ID that precedes `id` on the page: the largest ID of the
   * history below `id`, or None when `id` is at or before the first one.
   */
  function PreviousRevisionId(h: History, id: int): (r: Option<int>)
    ensures r.Some? ==> r.value in h && r.value < id
    ensures r.Some? ==> forall x :: x in h && x < id ==> x <= r.value
    ensures r.None? ==> forall x :: x in h ==> id <= x
    decreases |h|
  {
    if h == [] then None
    else if h[|h| - 1] < id then Some(h[|h| - 1])
    else
      assert h == h[..|h| - 1] + [h[|h| - 1]];
      PreviousRevisionId(h[..|h| - 1], id)
  }

  /** For a revision of the page, the next revision is its right-hand neighbour. */
  lemma NextOfPosition(h: History, i: nat)
    requires i < |h|
    ensures NextRevisionId(h, h[i]) == if i + 1 < |h| then Some(h[i + 1]) else None
  {
    var r := NextRevisionId(h, h[i]);
    if i + 1 < |h| {
      assert h[i + 1] in h;
      var j :| 0 <= j < |h| && h[j] == r.value;
      assert i < j;
      assert h[i + 1] <= h[j];
    } else {
      assert forall x :: x in h ==> x <= h[i];
    }
  }

  /** For a revision of the page, the previous revision is its left-hand neighbour. */
  lemma PreviousOfPosition(h: History, i: nat)
    requires i < |h|
    ensures PreviousRevisionId(h, h[i]) == if 0 < i then Some(h[i - 1]) else None
  {
    var r := PreviousRevisionId(h, h[i]);
    if 0 < i {
      assert h[i - 1] in h;
      var j :| 0 <= j < |h| && h[j] == r.value;
      assert j < i;
      assert h[j] <= h[i - 1];
    } else {
      assert forall x :: x in h ==> h[i] <= x;
    }
  }
}
