/** The class flags of a Vimeo container (custom.js:27-79): it starts
    `video-loading`; the iframe's `load` event swaps that for `has-video` and
    after a delay either shows the first video or attaches the hover
    controller; a backup timeout does the same from the loading state only.
    The 1000 ms delay and the 8000 ms timeout are events here, in any order. */
module Vimeo {
  import Hover

  datatype State = State(
    videoLoading: bool,   // class `video-loading`
    hasVideo: bool,       // class `has-video`
    isFirst: bool,        // `isFirstVideo` of the builder call
    readyPending: nat,    // 1000 ms callbacks scheduled by `load`, not yet run
    hover: Hover.State)   // class `loaded` and the attached controllers

  datatype Event =
    | IframeLoad          // the iframe's `load` event
    | ReadyDelayFires     // a 1000 ms callback scheduled by `load`
    | LoadTimeout         // the 8000 ms backup timeout
    | Pointer(e: Hover.Event)

  /** The container as `createVimeoBackground` leaves it. */
  function Init(isFirst: bool): (s: State)
    ensures Inv(s) && s.videoLoading
  {
    State(true, false, isFirst, 0, Hover.Init(false))
  }

  /** What holds of every reachable container: exactly one of `video-loading`
      and `has-video`; nothing shown, scheduled or attached while loading;
      never a controller on the first video, and no hide pending without a
      controller; `loaded` only with `has-video`. */
  predicate Inv(s: State) {
    && Hover.Valid(s.hover)
    && (s.videoLoading <==> !s.hasVideo)
    && (s.videoLoading ==> !s.hover.loaded && |s.hover.handles| == 0 && s.readyPending == 0)
    && (|s.hover.handles| == 0 ==> s.hover.pending == {})
    && (s.isFirst ==> |s.hover.handles| == 0)
    && (s.hover.loaded ==> s.hasVideo)
  }

  /** The video is ready: the first one is shown, any other gets a hover
      controller. */
  function Reveal(s: State): (r: State)
    ensures r.hover.loaded == (s.hover.loaded || s.isFirst)
    ensures |r.hover.handles| == |s.hover.handles| + (if s.isFirst then 0 else 1)
  {
    if s.isFirst then s.(hover := s.hover.(loaded := true)) else s.(hover := Hover.Attach(s.hover))
  }

  function Step(s: State, e: Event): (r: State)
    ensures Inv(s) ==> Inv(r)
  {
    match e
    case IframeLoad =>
      s.(videoLoading := false, hasVideo := true, readyPending := s.readyPending + 1)
    case ReadyDelayFires =>
      if s.readyPending == 0 then s else Reveal(s.(readyPending := s.readyPending - 1))
    case LoadTimeout =>
      if s.videoLoading then Reveal(s.(videoLoading := false, hasVideo := true)) else s
    case Pointer(p) =>
      s.(hover := Hover.Step(s.hover, p))
  }

  function Run(s: State, events: seq<Event>): State
    decreases |events|
  {
    if |events| == 0 then s else Run(Step(s, events[0]), events[1..])
  }

  /** Every container reachable from the builder's state satisfies `Inv`. */
  lemma {:induction false} RunInv(s: State, events: seq<Event>)
    requires Inv(s)
    ensures Inv(Run(s, events))
    decreases |events|
  {
    if |events| > 0 {
      RunInv(Step(s, events[0]), events[1..]);
    }
  }

  /** A video other than the first is never shown by its own load, delay or
      timeout: only a pointer event on its controller sets `loaded`. */
  lemma {:induction false} NoPointerNoShow(s: State, events: seq<Event>)
    requires !s.isFirst && !s.hover.loaded
    requires forall i :: 0 <= i < |events| ==> !events[i].Pointer?
    ensures !Run(s, events).hover.loaded
    decreases |events|
  {
    if |events| > 0 {
      var r := Step(s, events[0]);
      assert !r.isFirst && !r.hover.loaded;
      assert forall i :: 0 <= i < |events[1..]| ==> !events[1..][i].Pointer? by {
        forall i | 0 <= i < |events[1..]| ensures !events[1..][i].Pointer? {
          assert events[1..][i] == events[i + 1];
        }
      }
      NoPointerNoShow(r, events[1..]);
    }
  }

  /** The backup timeout on a container still loading: `has-video` without
      `video-loading`, `loaded` exactly for the first video, and one
      controller exactly for the others. */
  lemma TimeoutWhileLoading(s: State)
    requires Inv(s) && s.videoLoading
    ensures var r := Step(s, LoadTimeout);
      && !r.videoLoading && r.hasVideo
      && r.hover.loaded == s.isFirst
      && (|r.hover.handles| == 1 <==> !s.isFirst)
      && (|r.hover.handles| == 0 <==> s.isFirst)
  {
  }

  /** Once the iframe has loaded, the backup timeout changes nothing. */
  lemma TimeoutAfterLoad(s: State)
    requires Inv(s) && !s.videoLoading
    ensures Step(s, LoadTimeout) == s
  {
  }

  /** A pointer event on a container without a controller changes nothing:
      the first video and a video still loading ignore the pointer. */
  lemma PointerIgnoredWithoutControls(s: State, p: Hover.Event)
    requires Inv(s) && (s.isFirst || s.videoLoading)
    ensures Step(s, Pointer(p)) == s
  {
  }

  lemma RunThree(s: State, e0: Event, e1: Event, e2: Event)
    ensures Run(s, [e0, e1, e2]) == Step(Step(Step(s, e0), e1), e2)
  {
    assert [e0, e1, e2][1..] == [e1, e2];
    assert [e1, e2][1..] == [e2];
    assert [e2][1..] == [];
    assert Run(Step(Step(s, e0), e1), [e2]) == Run(Step(Step(Step(s, e0), e1), e2), []);
  }

  /** An iframe that loads only after the backup timeout gets a second
      controller once its delay runs; a touch then toggles `loaded` twice and
      has no effect. */
  lemma LateLoadDoublesControls()
    ensures var r := Run(Init(false), [LoadTimeout, IframeLoad, ReadyDelayFires]);
      |r.hover.handles| == 2 && Step(r, Pointer(Hover.Touch)) == r
  {
    RunThree(Init(false), LoadTimeout, IframeLoad, ReadyDelayFires);
    var r := Run(Init(false), [LoadTimeout, IframeLoad, ReadyDelayFires]);
    Hover.TouchWithTwoControllers(r.hover);
  }

  /** A first video whose iframe loads is shown after the delay and never
      gets a controller. */
  lemma FirstShownAfterLoad()
    ensures var r := Run(Init(true), [IframeLoad, ReadyDelayFires]);
      r.hover.loaded && r.hasVideo && !r.videoLoading && |r.hover.handles| == 0
  {
    assert [IframeLoad, ReadyDelayFires][1..] == [ReadyDelayFires];
    assert [ReadyDelayFires][1..] == [];
  }

  /** Any other video is not shown by loading: after the delay it has one
      controller and waits for the pointer. */
  lemma LaterWaitsForPointer()
    ensures var r := Run(Init(false), [IframeLoad, ReadyDelayFires]);
      !r.hover.loaded && r.hasVideo && |r.hover.handles| == 1
  {
    assert [IframeLoad, ReadyDelayFires][1..] == [ReadyDelayFires];
    assert [ReadyDelayFires][1..] == [];
  }
}
