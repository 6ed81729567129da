/**
 * Turning a request's "oldid", "direction" and "diff" parameters into
 * concrete revision IDs of a page: fracf_getRequestOldId and
 * fracf_getRequestDiffId. Revision ID 0 stands for "the latest revision";
 * None stands for PHP's null.
 */
module RevisionResolution {
  import opened Wrappers
  import opened PageHistory

  /** The "direction" parameter. `Unset` is its absence or any other value. */
  datatype Direction = Next | Prev | Unset

  /**
   * A present "diff" parameter: "next", "prev", or any other value, which
   * is read as an integer (`DiffNumber` holds that integer).
   */
  datatype DiffParam = DiffNext | DiffPrev | DiffNumber(n: int)

  /** The already-parsed parameters of one request. */
  datatype Params = Params(oldid: Option<int>, direction: Direction, diff: Option<DiffParam>)

  /**
   * What fracf_getRequestDiffId yields: the returned "diff" ID and the
   * value its by-reference `refId` argument holds afterwards.
   */
  datatype DiffResult = DiffResult(diffId: Option<int>, refId: Option<int>)

  /** Move `id` one revision in `direction` when such a revision exists; otherwise keep it. */
  function Step(h: History, id: int, direction: Direction): (r: int)
    ensures r == id || r in h
    ensures direction == Next && r != id ==> id < r
    ensures direction == Prev && r != id ==> r < id
    ensures direction == Unset ==> r == id
    ensures direction == Next && (exists x :: x in h && id < x) ==>
              id < r && forall x :: x in h && id < x ==> r <= x
    ensures direction == Prev && (exists x :: x in h && x < id) ==>
              r < id && forall x :: x in h && x < id ==> x <= r
    ensures direction == Next && (forall x :: x in h ==> x <= id) ==> r == id
    ensures direction == Prev && (forall x :: x in h ==> id <= x) ==> r == id
  {
    match direction
    case Next => NextRevisionId(h, id).GetOr(id)
    case Prev => PreviousRevisionId(h, id).GetOr(id)
    case Unset => id
  }

  /** Reference definition of `Step` by position in the history. */
  function StepAt(h: History, i: nat, direction: Direction): (r: int)
    requires i < |h|
    ensures r in h
    ensures direction == Next ==> h[i] <= r
    ensures direction == Prev ==> r <= h[i]
  {
    match direction
    case Next => if i + 1 < |h| then h[i + 1] else h[i]
    case Prev => if 0 < i then h[i - 1] else h[i]
    case Unset => h[i]
  }

  /** Stepping from a revision of the page reaches its neighbour by position, or stays. */
  lemma StepByPosition(h: History, i: nat, direction: Direction)
    requires i < |h|
    ensures Step(h, h[i], direction) == StepAt(h, i, direction)
  {
    match direction
    case Next => NextOfPosition(h, i);
    case Prev => PreviousOfPosition(h, i);
    case Unset =>
  }

  /**
   * fracf_getRequestOldId: the "oldid" revision of the request, 0 read as
   * the latest revision, then moved by "direction".
   */
  function GetRequestOldId(p: Params, h: History): (r: Option<int>)
    ensures r.None? <==> p.oldid.None? || (p.oldid == Some(0) && h == [])
    ensures r.Some? ==> r.value != 0
    ensures r.Some? && r.value != p.oldid.value ==> r.value in h
    ensures p.direction == Unset && p.oldid.Some? && p.oldid.value != 0 ==> r == p.oldid
    ensures h == [] ==> r == if p.oldid == Some(0) then None else p.oldid
  {
    match p.oldid
    case None => None
    case Some(requested) =>
      var oldId := if requested == 0 then LatestRevId(h) else requested;
      if oldId == 0 then None else Some(Step(h, oldId, p.direction))
  }

  /**
   * fracf_getRequestOldId on a revision of the page, or on 0 with the
   * latest revision at position `i`: the neighbour in the requested
   * direction, or the revision itself when there is none.
   */
  lemma OldIdByPosition(p: Params, h: History, i: nat)
    requires i < |h|
    requires p.oldid == Some(h[i]) || (p.oldid == Some(0) && i == |h| - 1)
    ensures GetRequestOldId(p, h) == Some(StepAt(h, i, p.direction))
  {
    StepByPosition(h, i, p.direction);
  }

  /**
   * The revision the "diff" is taken against before the "diff" parameter
   * is looked at: the caller's `refId` (0 read as the latest revision,
   * which may itself be 0), or, without one, the request's "oldid".
   */
  function DiffAnchor(p: Params, h: History, refId: Option<int>): (r: Option<int>)
    ensures refId.Some? ==> r == Some(if refId.value == 0 then LatestRevId(h) else refId.value)
    ensures refId.None? ==> r == GetRequestOldId(p, h)
  {
    match refId
    case None => GetRequestOldId(p, h)
    case Some(given) => Some(if given == 0 then LatestRevId(h) else given)
  }

  /**
   * fracf_getRequestDiffId: the "diff" revision of the request, with the
   * by-reference `refId` both read (as the anchor, when non-null) and
   * written (with the anchor actually used, when the result is non-null).
   */
  function GetRequestDiffId(p: Params, h: History, refId: Option<int>): (r: DiffResult)
    ensures p.diff.None? ==> r == DiffResult(None, refId)
    ensures r.diffId.None? ==> r.refId == refId
    ensures r.diffId.Some? ==> r.refId.Some?
    ensures r.diffId.Some? && DiffAnchor(p, h, refId).Some? ==> r.refId == DiffAnchor(p, h, refId)
    ensures r.diffId.Some? && refId.Some? && refId.value != 0 ==> r.refId == refId
    ensures r.diffId.None? <==>
              || p.diff.None?
              || (h == [] && p.diff == Some(DiffNumber(0)))
              || (h == [] && !p.diff.value.DiffNumber? && DiffAnchor(p, h, refId).None?)
  {
    match p.diff
    case None => DiffResult(None, refId)
    case Some(DiffNext) =>
      (match DiffAnchor(p, h, refId)
       case None =>
         (match FirstRevision(h)
          case None => DiffResult(None, refId)
          case Some(first) => DiffResult(Some(first), Some(first)))
       case Some(oldId) => DiffResult(Some(Step(h, oldId, Next)), Some(oldId)))
    case Some(DiffPrev) =>
      (match DiffAnchor(p, h, refId)
       case None =>
         var latest := LatestRevId(h);
         if latest == 0 then DiffResult(None, refId) else DiffResult(Some(latest), Some(latest))
       case Some(oldId) => DiffResult(Some(Step(h, oldId, Prev)), Some(oldId)))
    case Some(DiffNumber(n)) =>
      var diffId := if n == 0 then LatestRevId(h) else n;
      if diffId == 0 then DiffResult(None, refId)
      else
        (match DiffAnchor(p, h, refId)
         case None => DiffResult(Some(diffId), Some(Step(h, diffId, Prev)))
         case Some(oldId) => DiffResult(Some(diffId), Some(oldId)))
  }

  /**
   * Without an anchor, diff=next compares the first revision with itself
   * and diff=prev the latest revision with itself; both give null on a
   * page without revisions.
   */
  lemma DiffWithoutAnchor(p: Params, h: History, refId: Option<int>)
    requires DiffAnchor(p, h, refId).None?
    requires p.diff == Some(DiffNext) || p.diff == Some(DiffPrev)
    ensures h == [] ==> GetRequestDiffId(p, h, refId) == DiffResult(None, None)
    ensures h != [] && p.diff == Some(DiffNext) ==>
              GetRequestDiffId(p, h, refId) == DiffResult(Some(h[0]), Some(h[0]))
    ensures h != [] && p.diff == Some(DiffPrev) ==>
              GetRequestDiffId(p, h, refId) == DiffResult(Some(h[|h| - 1]), Some(h[|h| - 1]))
  {
  }

  /**
   * With an anchor at position `i`, diff=next and diff=prev give the
   * neighbouring revision, or the anchor itself at the edge of the
   * history, and the anchor is what `refId` holds afterwards.
   */
  lemma DiffNeighbourByPosition(p: Params, h: History, refId: Option<int>, i: nat)
    requires i < |h| && DiffAnchor(p, h, refId) == Some(h[i])
    requires p.diff == Some(DiffNext) || p.diff == Some(DiffPrev)
    ensures GetRequestDiffId(p, h, refId) ==
              DiffResult(Some(StepAt(h, i, if p.diff == Some(DiffNext) then Next else Prev)), Some(h[i]))
  {
    StepByPosition(h, i, if p.diff == Some(DiffNext) then Next else Prev);
  }

  /**
   * A numeric "diff" of 0 means the latest revision. Without an anchor, a
   * diff naming the revision at position `i` is compared with the
   * revision before it, or with itself when it is the first.
   */
  lemma DiffNumberByPosition(p: Params, h: History, refId: Option<int>, i: nat)
    requires i < |h| && DiffAnchor(p, h, refId).None?
    requires p.diff == Some(DiffNumber(h[i])) || (p.diff == Some(DiffNumber(0)) && i == |h| - 1)
    ensures GetRequestDiffId(p, h, refId) == DiffResult(Some(h[i]), Some(StepAt(h, i, Prev)))
  {
    StepByPosition(h, i, Prev);
  }

  /** With an anchor, a numeric "diff" keeps the anchor as `refId`; 0 on an empty page gives null. */
  lemma DiffNumberWithAnchor(p: Params, h: History, refId: Option<int>, n: int)
    requires DiffAnchor(p, h, refId).Some? && p.diff == Some(DiffNumber(n))
    ensures n == 0 && h == [] ==> GetRequestDiffId(p, h, refId) == DiffResult(None, refId)
    ensures n != 0 ==> GetRequestDiffId(p, h, refId) == DiffResult(Some(n), DiffAnchor(p, h, refId))
    ensures n == 0 && h != [] ==>
              GetRequestDiffId(p, h, refId) == DiffResult(Some(h[|h| - 1]), DiffAnchor(p, h, refId))
  {
  }

  /**
   * A `refId` of 0 on a page without revisions stays 0 rather than null,
   * so diff=next and diff=prev then return 0 and write 0 back.
   */
  lemma ZeroRefIdOnEmptyPage(p: Params, h: History)
    requires h == []
    requires p.diff == Some(DiffNext) || p.diff == Some(DiffPrev)
    ensures GetRequestDiffId(p, h, Some(0)) == DiffResult(Some(0), Some(0))
  {
  }

  /**
   * Used as its comment recommends, with `refId` holding the result of
   * fracf_getRequestOldId, fracf_getRequestDiffId never yields 0: a
   * non-null result and the `refId` written with it are non-zero IDs.
   */
  lemma ChainedDiffIsNonZero(p: Params, h: History)
    ensures var r := GetRequestDiffId(p, h, GetRequestOldId(p, h));
            r.diffId.Some? ==> r.diffId.value != 0 && r.refId.value != 0
  {
  }
}
