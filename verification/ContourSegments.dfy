/** Stepping over the segments of a measured contour (SkContourMeasure.h).  A curve is cut into several
    segments with the same point index. */
module ContourSegments {

  datatype Segment = Segment(distance: real, ptIndex: nat, tValue: nat, segType: nat)

  /** Some later segment belongs to another curve. */
  predicate HasNext(segs: seq<Segment>, seg: nat)
    requires seg < |segs|
  {
    exists i :: seg < i < |segs| && segs[i].ptIndex != segs[seg].ptIndex
  }

  /** i is the first segment after seg with another point index. */
  predicate IsNext(segs: seq<Segment>, seg: nat, i: nat)
    requires seg < |segs|
  {
    && seg < i < |segs| && segs[i].ptIndex != segs[seg].ptIndex
    && forall k :: seg < k < i ==> segs[k].ptIndex == segs[seg].ptIndex
  }

  /** `Segment::Next`.  The source does not check for the end: the caller knows that a later segment with
      another index exists. */
  method Next(segs: seq<Segment>, seg: nat) returns (next: nat)
    requires seg < |segs| && HasNext(segs, seg)
    ensures IsNext(segs, seg, next)
  {
    var ptIndex := segs[seg].ptIndex;
    next := seg + 1;
    while segs[next].ptIndex == ptIndex
      invariant seg < next < |segs|
      invariant forall k :: seg < k < next ==> segs[k].ptIndex == ptIndex
      invariant exists i :: next <= i < |segs| && segs[i].ptIndex != ptIndex
      decreases |segs| - next
    {
      next := next + 1;
    }
  }

  /** The first segment of a maximal run of equal point indices. */
  predicate StartsRun(segs: seq<Segment>, i: nat)
    requires i < |segs|
  {
    i == 0 || segs[i].ptIndex != segs[i - 1].ptIndex
  }

  /** A walk from one segment by repeated Next until there is no next one. */
  ghost predicate IsWalk(segs: seq<Segment>, walk: seq<nat>)
  {
    && |walk| > 0 && walk[0] == 0 && (forall j :: 0 <= j < |walk| ==> walk[j] < |segs|)
    && (forall j :: 0 <= j < |walk| - 1 ==> IsNext(segs, walk[j], walk[j + 1]))
    && !HasNext(segs, walk[|walk| - 1])
  }

  /** Steps on with Next as long as its caller may. */
  method Walk(segs: seq<Segment>) returns (walk: seq<nat>)
    requires |segs| > 0
    ensures IsWalk(segs, walk)
  {
    var seg := 0;
    walk := [0];
    while HasNext(segs, seg)
      invariant |walk| > 0 && walk[0] == 0 && walk[|walk| - 1] == seg
      invariant forall j :: 0 <= j < |walk| ==> walk[j] < |segs|
      invariant forall j :: 0 <= j < |walk| - 1 ==> IsNext(segs, walk[j], walk[j + 1])
      decreases |segs| - seg
    {
      seg := Next(segs, seg);
      walk := walk + [seg];
    }
  }

  lemma {:induction false} WalkPrefix(segs: seq<Segment>, walk: seq<nat>, n: nat)
    requires IsWalk(segs, walk) && n < |walk|
    ensures forall i :: 0 <= i <= walk[n] ==> (StartsRun(segs, i) <==> i in walk[..n + 1])
    ensures forall j, k :: 0 <= j < k <= n ==> walk[j] < walk[k]
  {
    if n > 0 {
      WalkPrefix(segs, walk, n - 1);
      var a, b := walk[n - 1], walk[n];
      assert IsNext(segs, walk[n - 1], walk[n - 1 + 1]);
      forall i | a < i <= b
        ensures StartsRun(segs, i) <==> i == b
      {
        assert i - 1 == a || segs[i - 1].ptIndex == segs[a].ptIndex;
      }
      assert walk[..n + 1] == walk[..n] + [b];
    }
  }

  /** Repeated Next visits the first segment of every maximal run of equal point indices, in order and only
      those. */
  lemma WalkVisitsRuns(segs: seq<Segment>, walk: seq<nat>)
    requires IsWalk(segs, walk)
    ensures forall i :: 0 <= i < |segs| ==> (StartsRun(segs, i) <==> i in walk)
    ensures forall j, k :: 0 <= j < k < |walk| ==> walk[j] < walk[k]
  {
    var n := |walk| - 1;
    WalkPrefix(segs, walk, n);
    assert walk[..n + 1] == walk;
    forall i | walk[n] < i < |segs|
      ensures !StartsRun(segs, i) && i !in walk
    {
      assert segs[i].ptIndex == segs[walk[n]].ptIndex;
      assert i - 1 == walk[n] || segs[i - 1].ptIndex == segs[walk[n]].ptIndex;
    }
  }
}
