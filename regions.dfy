/** The ordered region list: the size and capacity rules applied when a drag
    is committed, and the first-hit removal used in Remove mode
    (ocr_camera.py, `mouse_cb`). A region's identity is its position. */
module Regions {
  import opened Wrappers
  import opened Geometry

  /** Drags smaller than this in either dimension are ignored. */
  const MIN_BOX: int := 8
  /** At most this many regions exist at any time. */
  const MAX_REGIONS: nat := 10

  /** Large enough in both dimensions to become a region. */
  predicate Committable(r: Rect)
  {
    r.w >= MIN_BOX && r.h >= MIN_BOX
  }

  /** What a mouse-up reports about the rectangle it tried to add. */
  datatype AddOutcome = Added | LimitReached | TooSmall

  /** The size test comes first; the capacity test only applies to a
      rectangle that passed it. */
  function Classify(rs: seq<Rect>, r: Rect): (o: AddOutcome)
    ensures o == TooSmall <==> !Committable(r)
    ensures o == LimitReached <==> Committable(r) && |rs| >= MAX_REGIONS
    ensures o == Added <==> Committable(r) && |rs| < MAX_REGIONS
  {
    if !Committable(r) then TooSmall
    else if |rs| >= MAX_REGIONS then LimitReached
    else Added
  }

  /** The region list after a committed drag of `r`. */
  function Commit(rs: seq<Rect>, r: Rect): (o: seq<Rect>)
    // the cap is kept, and a full list is never changed
    ensures |rs| <= MAX_REGIONS ==> |o| <= MAX_REGIONS
    ensures |rs| >= MAX_REGIONS ==> o == rs
    // a large enough rectangle is appended whenever there is room
    ensures Committable(r) && |rs| < MAX_REGIONS ==> o == rs + [r]
    // a rectangle below the minimum size is never added
    ensures !Committable(r) ==> o == rs
    // the only possible change is appending `r` at the end
    ensures o == rs || (o == rs + [r] && Committable(r))
  {
    if Classify(rs, r) == Added then rs + [r] else rs
  }

  /** The lowest index whose region contains the point, if any. */
  function FirstHit(rs: seq<Rect>, px: int, py: int): (k: Option<nat>)
    ensures k.Some? ==> k.value < |rs| && PointInRect(px, py, rs[k.value])
    ensures k.Some? ==> forall j :: 0 <= j < k.value ==> !PointInRect(px, py, rs[j])
    ensures k.None? <==> forall j :: 0 <= j < |rs| ==> !PointInRect(px, py, rs[j])
    decreases |rs|
  {
    if |rs| == 0 then None
    else if PointInRect(px, py, rs[0]) then Some(0)
    else match FirstHit(rs[1..], px, py)
      case None => None
      case Some(k) => Some(k + 1)
  }

  /** `list.pop(i)`: the element at `i` goes, the later ones move down by one. */
  function RemoveAt(rs: seq<Rect>, i: nat): (o: seq<Rect>)
    requires i < |rs|
    ensures |o| == |rs| - 1
    ensures forall j :: 0 <= j < i ==> o[j] == rs[j]
    ensures forall j :: i <= j < |o| ==> o[j] == rs[j + 1]
  {
    rs[..i] + rs[i + 1..]
  }

  /** Removing one position removes exactly that one region. */
  lemma RemoveAtMultiset(rs: seq<Rect>, i: nat)
    requires i < |rs|
    ensures multiset(RemoveAt(rs, i)) + multiset{rs[i]} == multiset(rs)
  {
    assert rs == rs[..i] + [rs[i]] + rs[i + 1..];
  }

  /** A click in Remove mode: the first region that contains the point is
      popped; a click that hits nothing changes nothing. */
  function RemoveFirstHit(rs: seq<Rect>, px: int, py: int): (o: seq<Rect>)
    ensures |o| <= |rs|
    ensures forall j :: 0 <= j < |o| ==> o[j] in rs
  {
    match FirstHit(rs, px, py)
    case None => rs
    case Some(k) => RemoveAt(rs, k)
  }

  /** When `k` is the lowest index that contains the point, exactly region
      `k` is removed and the later ones shift down. */
  lemma RemoveFirstHitLowest(rs: seq<Rect>, px: int, py: int, k: nat)
    requires k < |rs| && PointInRect(px, py, rs[k])
    requires forall j :: 0 <= j < k ==> !PointInRect(px, py, rs[j])
    ensures RemoveFirstHit(rs, px, py) == RemoveAt(rs, k)
    ensures |RemoveFirstHit(rs, px, py)| == |rs| - 1
  {
  }

  /** A click that is inside no region leaves the list unchanged. */
  lemma RemoveFirstHitMiss(rs: seq<Rect>, px: int, py: int)
    requires forall j :: 0 <= j < |rs| ==> !PointInRect(px, py, rs[j])
    ensures RemoveFirstHit(rs, px, py) == rs
  {
  }
}
