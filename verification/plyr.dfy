/** The class flags of a Plyr container (custom.js:114-248): it starts
    `video-loading`; the player's events and the 10000 ms backup timeout move
    the flags. The player itself is not modelled: its events arrive in any
    order, and the outcome of the first video's autoplay attempt is an event
    of its own. */
module Plyr {
  import PlayOrder

  datatype State = State(
    videoLoading: bool,     // class `video-loading`
    hasVideo: bool,         // class `has-video`
    loaded: bool,           // class `loaded`
    isFirst: bool,          // `isFirstVideo` of the builder call
    alt: string,            // the image's alt text
    autoplayPending: bool,  // the first video's `play()` has not settled
    controls: bool)         // `addPlyrControls` has run

  datatype Event =
    | Ready                        // the player's `ready` event
    | AutoplaySettled(ok: bool)    // the first video's `play()` resolves or rejects
    | Playing                      // the player's `playing` event
    | Paused(order: seq<string>)   // the player's `pause` event, with the play order at that time
    | PlayerError                  // the player's `error` event
    | InitThrew                    // the `Plyr` constructor threw
    | LoadTimeout                  // the 10000 ms backup timeout

  function Init(isFirst: bool, alt: string): (s: State)
    ensures Inv(s) && s.videoLoading && !s.hasVideo && !s.loaded
  {
    State(true, false, false, isFirst, alt, false, false)
  }

  /** `has-video` is never present while `video-loading` is: every handler
      that adds `has-video` removes `video-loading` first, and nothing adds
      `video-loading` back. Only the first video attempts autoplay, and only
      the others get controls. */
  predicate Inv(s: State) {
    && (s.videoLoading ==> !s.hasVideo)
    && (s.autoplayPending ==> s.isFirst)
    && (s.controls ==> !s.isFirst)
  }

  function Step(s: State, e: Event): (r: State)
    ensures Inv(s) ==> Inv(r)
    ensures r.isFirst == s.isFirst && r.alt == s.alt
  {
    match e
    case Ready =>
      var shown := s.(videoLoading := false, hasVideo := true);
      if s.isFirst then shown.(autoplayPending := true) else shown.(controls := true)
    case AutoplaySettled(ok) =>
      if !s.autoplayPending then s
      else if ok then s.(autoplayPending := false, loaded := true)
      else s.(autoplayPending := false, hasVideo := false)
    case Playing =>
      s.(loaded := true)
    case Paused(order) =>
      if PlayOrder.HidesOnPause(order, s.alt) then s.(loaded := false) else s
    case PlayerError =>
      s.(videoLoading := false, hasVideo := false, loaded := false)
    case InitThrew =>
      s.(videoLoading := false, hasVideo := false)
    case LoadTimeout =>
      if s.videoLoading then
        var r := s.(videoLoading := false);
        if s.isFirst && s.hasVideo then r.(loaded := true) else r
      else s
  }

  function Run(s: State, events: seq<Event>): State
    decreases |events|
  {
    if |events| == 0 then s else Run(Step(s, events[0]), events[1..])
  }

  lemma {:induction false} RunInv(s: State, events: seq<Event>)
    requires Inv(s)
    ensures Inv(Run(s, events))
    ensures Run(s, events).isFirst == s.isFirst
    decreases |events|
  {
    if |events| > 0 {
      RunInv(Step(s, events[0]), events[1..]);
    }
  }

  /** A video other than the first gets its controls from its `ready` event,
      and no later event takes them away. */
  lemma {:induction false} ReadyAttachesControls(s: State, events: seq<Event>)
    requires !s.isFirst
    requires s.controls || Ready in events
    ensures Run(s, events).controls
    decreases |events|
  {
    if |events| > 0 {
      var r := Step(s, events[0]);
      assert r.controls || Ready in events[1..] by {
        if !s.controls && events[0] != Ready {
          assert events == [events[0]] + events[1..];
        }
      }
      ReadyAttachesControls(r, events[1..]);
    }
  }

  /** The backup timeout only ever removes `video-loading`: its branch that
      would show the first video needs `has-video` while still loading, which
      no reachable state has. */
  lemma TimeoutOnlyStopsLoading(s: State)
    requires Inv(s)
    ensures Step(s, LoadTimeout) == s.(videoLoading := false)
  {
  }

  /** In particular, a first video whose player never becomes ready is not
      shown by the timeout. */
  lemma TimeoutNeverShows(events: seq<Event>, alt: string)
    ensures var s := Run(Init(true, alt), events);
      Step(s, LoadTimeout).loaded == s.loaded && Step(s, LoadTimeout).hasVideo == s.hasVideo
  {
    RunInv(Init(true, alt), events);
  }

  /** A pause hides the video unless its alt text is the first one in the
      play order: the first video, and any video sharing its alt text, stays
      shown. */
  lemma PauseKeepsFirstAlt(s: State, order: seq<string>)
    requires |order| > 0 && order[0] == s.alt
    ensures Step(s, Paused(order)) == s
  {
  }

  lemma PauseHidesOthers(s: State, order: seq<string>)
    requires s.alt in order && order[0] != s.alt
    ensures !Step(s, Paused(order)).loaded
  {
  }
}
