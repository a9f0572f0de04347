/** The pause rule of the Plyr player (custom.js:214-220): a paused video is
    hidden again unless its alt text sits at position 0 of the shared play
    order, as `Array.prototype.indexOf` reports it when the pause happens. */
module PlayOrder {
  import opened Wrappers
  import opened Pipeline

  /** `indexOf`: the position of the first element equal to `alt`, or -1. */
  function IndexOf(order: seq<string>, alt: string): (r: int)
    ensures -1 <= r < |order|
    ensures r == -1 <==> alt !in order
    ensures r >= 0 ==> order[r] == alt && forall k :: 0 <= k < r ==> order[k] != alt
  {
    if |order| == 0 then -1
    else if order[0] == alt then 0
    else
      var rest := IndexOf(order[1..], alt);
      if rest == -1 then -1 else rest + 1
  }

  /** The test of the `pause` handler: a paused video hides exactly when its
      alt text is in the play order and differs from the first one recorded. */
  function HidesOnPause(order: seq<string>, alt: string): (b: bool)
    ensures b <==> alt in order && order[0] != alt
  {
    IndexOf(order, alt) > 0
  }

  /** Appending to the play order never moves an alt text already in it, so
      the answer a pause gets does not depend on how many videos were built
      after this one. */
  lemma IndexOfStable(order: seq<string>, more: seq<string>, alt: string)
    requires alt in order
    ensures IndexOf(order + more, alt) == IndexOf(order, alt)
  {
    var i := IndexOf(order, alt);
    assert (order + more)[i] == alt;
    forall k | 0 <= k < i ensures (order + more)[k] != alt {
      assert (order + more)[k] == order[k];
    }
  }

  /** On a walk from an empty play order the first-video build is never hidden
      by a pause, however the play order grows afterwards; any other build is
      hidden exactly when its alt text differs from the first build's. */
  lemma PauseAfterWalk(jobs: seq<Option<Job>>, more: seq<string>)
    ensures var r := Replay(jobs, []);
      forall j :: 0 <= j < |r.1| ==>
        && (r.1[j].isFirst ==> !HidesOnPause(r.0 + more, r.1[j].alt))
        && (HidesOnPause(r.0 + more, r.1[j].alt) <==> r.1[j].alt != r.1[0].alt)
  {
    var r := Replay(jobs, []);
    ReplayOrder(jobs, []);
    ReplayFirst(jobs, []);
    forall j | 0 <= j < |r.1|
      ensures HidesOnPause(r.0 + more, r.1[j].alt) <==> r.1[j].alt != r.1[0].alt
    {
      assert r.0[j] == r.1[j].alt;
      assert (r.0 + more)[j] == r.1[j].alt;
      assert (r.0 + more)[0] == r.1[0].alt;
    }
  }
}
