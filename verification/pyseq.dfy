/**
 This module models the small part of Python's list semantics that the
 pager-window computation relies on: `range(lo, hi)` as a sequence of
 consecutive integers, and slicing `s[lo:hi]` with Python's rules for
 negative and out-of-range bounds.
 */
module PySeq {

  /** The integers lo, lo+1, ..., hi-1 (empty when hi <= lo), as Python's `range(lo, hi)`. */
  function Interval(lo: int, hi: int): (r: seq<int>)
    ensures |r| == if hi <= lo then 0 else hi - lo
    ensures forall k :: 0 <= k < |r| ==> r[k] == lo + k
  {
    if hi <= lo then [] else seq(hi - lo, k => lo + k)
  }

  /** A sequence whose every element is smaller than the next. */
  predicate StrictlyAscending(s: seq<int>) {
    forall i, j :: 0 <= i < j < |s| ==> s[i] < s[j]
  }

  /**
   Python's normalisation of one slice bound against a sequence of length
   `len`: a negative bound counts from the end, and the result is clipped
   into [0, len].
   */
  function SliceBound(i: int, len: nat): (k: nat)
    ensures k <= len
    ensures 0 <= i <= len ==> k == i
    ensures i > len ==> k == len
    ensures i < 0 && 0 <= i + len ==> k == i + len
    ensures i + len < 0 ==> k == 0
  {
    if i < 0 then
      if i + len < 0 then 0 else i + len
    else if i > len then len
    else i
  }

  /**
   Python's `s[lo:hi]` (step 1): both bounds are normalised, and the slice
   is empty when the normalised stop does not exceed the normalised start.
   */
  function PySlice<T>(s: seq<T>, lo: int, hi: int): (r: seq<T>)
    ensures |r| <= |s|
    ensures |r| == if SliceBound(hi, |s|) <= SliceBound(lo, |s|) then 0
                   else SliceBound(hi, |s|) - SliceBound(lo, |s|)
    ensures forall k :: 0 <= k < |r| ==> r[k] == s[SliceBound(lo, |s|) + k]
    ensures 0 <= lo <= hi <= |s| ==> r == s[lo..hi]
    ensures 0 <= lo <= |s| <= hi ==> r == s[lo..]
    ensures 0 <= hi <= lo ==> r == []
    ensures lo >= |s| || hi + |s| <= 0 ==> r == []
    ensures lo < 0 && 0 <= lo + |s| && 0 <= hi <= |s| ==>
      r == (if lo + |s| < hi then s[lo + |s|..hi] else [])
    ensures lo + |s| < 0 && 0 <= hi <= |s| ==> r == s[..hi]
    ensures 0 <= lo <= |s| && hi < 0 && 0 <= hi + |s| ==>
      r == (if lo < hi + |s| then s[lo..hi + |s|] else [])
  {
    var start := SliceBound(lo, |s|);
    var stop := SliceBound(hi, |s|);
    if stop <= start then [] else s[start..stop]
  }

  /**
   Slicing a run of consecutive integers with non-negative bounds yields
   again a run of consecutive integers: the bounds are clipped to the run's
   length and shifted by its first element.
   */
  lemma SliceOfInterval(first: int, len: nat, lo: int, hi: int)
    requires 0 <= lo && 0 <= hi
    ensures PySlice(Interval(first, first + len), lo, hi)
         == Interval(first + lo, first + (if hi < len then hi else len))
  {
    var s := Interval(first, first + len);
    var r := PySlice(s, lo, hi);
    var e := Interval(first + lo, first + (if hi < len then hi else len));
    assert |r| == |e|;
    forall k | 0 <= k < |r|
      ensures r[k] == e[k]
    {
      assert r[k] == s[lo + k];
    }
  }

  /** A run of consecutive integers is strictly ascending. */
  lemma IntervalAscending(lo: int, hi: int)
    ensures StrictlyAscending(Interval(lo, hi))
  {
  }

  /** Membership in a run of consecutive integers is a range test. */
  lemma IntervalMembership(lo: int, hi: int, p: int)
    ensures p in Interval(lo, hi) <==> lo <= p < hi
  {
    if lo <= p < hi {
      assert Interval(lo, hi)[p - lo] == p;
    }
  }

  /** Two adjacent runs of consecutive integers concatenate to one run. */
  lemma IntervalConcat(lo: int, mid: int, hi: int)
    requires lo <= mid <= hi
    ensures Interval(lo, mid) + Interval(mid, hi) == Interval(lo, hi)
  {
    var a := Interval(lo, mid) + Interval(mid, hi);
    var b := Interval(lo, hi);
    assert |a| == |b|;
    forall k | 0 <= k < |a|
      ensures a[k] == b[k]
    {
      if k < mid - lo {
        assert a[k] == Interval(lo, mid)[k];
      } else {
        assert a[k] == Interval(mid, hi)[k - (mid - lo)];
      }
    }
  }
}
