/**
 * Kotlin integer progressions as sequences: `lo..hi`, `lo until hi` and
 * `hi downTo lo`, listed in iteration order.
 */
module Ranges {

  /** `lo..hi`: the integers from `lo` up to `hi` inclusive (empty when `hi < lo`). */
  function Span(lo: int, hi: int): (r: seq<int>)
    ensures |r| == if hi < lo then 0 else hi - lo + 1
    ensures forall i :: 0 <= i < |r| ==> r[i] == lo + i
    ensures forall x :: x in r <==> lo <= x <= hi
  {
    var s := seq(if hi < lo then 0 else hi - lo + 1, i => lo + i);
    forall x | lo <= x <= hi ensures x in s {
      assert s[x - lo] == x;
    }
    s
  }

  /** `lo until hi`: the integers from `lo` up to `hi` exclusive. */
  function Until(lo: int, hi: int): (r: seq<int>)
    ensures forall i :: 0 <= i < |r| ==> r[i] == lo + i
    ensures forall x :: x in r <==> lo <= x < hi
  {
    Span(lo, hi - 1)
  }

  /** `hi downTo lo`: the integers from `hi` down to `lo` inclusive. */
  function DownTo(hi: int, lo: int): (r: seq<int>)
    ensures |r| == if hi < lo then 0 else hi - lo + 1
    ensures forall i :: 0 <= i < |r| ==> r[i] == hi - i
    ensures forall x :: x in r <==> lo <= x <= hi
  {
    var s := seq(if hi < lo then 0 else hi - lo + 1, i => hi - i);
    forall x | lo <= x <= hi ensures x in s {
      assert s[hi - x] == x;
    }
    s
  }
}
