/** The hover and touch controller that `addVimeoControls` attaches to a
    container (custom.js:82-109), as a step function over explicit events.
    Timers are abstracted to ids: a `mouseleave` schedules a hide and keeps its
    id in the controller's one `hoverTimeout` handle, overwriting any earlier
    id without clearing it; a `mouseenter` clears only the id in the handle.
    A container can end up with several controllers (see the Vimeo module),
    each with its own handle, all sharing the container's `loaded` class. */
module Hover {
  import opened Wrappers

  datatype State = State(
    loaded: bool,            // the container has class `loaded`
    pending: set<nat>,       // hide timers scheduled and not yet fired or cleared
    handles: seq<Option<nat>>, // each controller's `hoverTimeout`
    next: nat)               // the id the next timer gets

  datatype Event = Enter | Leave | Touch | HideFires(id: nat)

  /** A container with no controller yet. */
  function Init(loaded: bool): (s: State)
    ensures Valid(s) && |s.handles| == 0 && s.pending == {}
  {
    State(loaded, {}, [], 0)
  }

  /** Every timer id in use was handed out already. */
  predicate Valid(s: State) {
    && (forall id :: id in s.pending ==> id < s.next)
    && (forall i :: 0 <= i < |s.handles| && s.handles[i].Some? ==> s.handles[i].value < s.next)
  }

  /** The ids held in the controllers' handles. */
  function Held(handles: seq<Option<nat>>): (ids: set<nat>)
    ensures forall id :: id in ids <==> exists i :: 0 <= i < |handles| && handles[i] == Some(id)
    decreases |handles|
  {
    if |handles| == 0 then {}
    else
      var prefix := handles[..|handles| - 1];
      var ids := Held(prefix);
      assert forall i :: 0 <= i < |prefix| ==> prefix[i] == handles[i];
      match handles[|handles| - 1]
      case None => ids
      case Some(id) => ids + {id}
  }

  /** The ids `lo` to `hi - 1`. */
  function Range(lo: nat, hi: nat): (ids: set<nat>)
    ensures forall id :: id in ids <==> lo <= id < hi
    decreases hi
  {
    if hi <= lo then {} else Range(lo, hi - 1) + {hi - 1}
  }

  /** `addVimeoControls`: one more controller, its handle still unset. */
  function Attach(s: State): State {
    s.(handles := s.handles + [None])
  }

  /** How the container reacts to one event: every controller's listener runs,
      in the order they were attached. */
  function Step(s: State, e: Event): (r: State)
    ensures Valid(s) ==> Valid(r)
    ensures r.handles == s.handles || (e == Leave && |r.handles| == |s.handles|)
  {
    match e
    case Enter =>
      if |s.handles| == 0 then s
      else s.(pending := s.pending - Held(s.handles), loaded := true)
    case Leave =>
      var k := |s.handles|;
      s.(handles := seq(k, i requires 0 <= i < k => Some(s.next + i)),
         pending := s.pending + Range(s.next, s.next + k),
         next := s.next + k)
    case Touch =>
      if |s.handles| % 2 == 1 then s.(loaded := !s.loaded) else s
    case HideFires(id) =>
      if id in s.pending then s.(pending := s.pending - {id}, loaded := false) else s
  }

  /** The events applied one after the other. */
  function Run(s: State, events: seq<Event>): State
    decreases |events|
  {
    if |events| == 0 then s else Run(Step(s, events[0]), events[1..])
  }

  lemma {:induction false} RunValid(s: State, events: seq<Event>)
    requires Valid(s)
    ensures Valid(Run(s, events))
    ensures |Run(s, events).handles| == |s.handles|
    decreases |events|
  {
    if |events| > 0 {
      RunValid(Step(s, events[0]), events[1..]);
    }
  }

  /** A leave on a container with one controller schedules one hide, with
      the next id, and puts that id in the handle. */
  lemma LeaveOne(s: State)
    requires |s.handles| == 1
    ensures Step(s, Leave) == s.(handles := [Some(s.next)], pending := s.pending + {s.next}, next := s.next + 1)
  {
    assert Range(s.next, s.next + 1) == {s.next};
    assert Step(s, Leave).handles == [Some(s.next)];
  }

  lemma RunThree(s: State, e0: Event, e1: Event, e2: Event)
    ensures Run(s, [e0, e1, e2]) == Step(Step(Step(s, e0), e1), e2)
  {
    assert [e0, e1, e2][1..] == [e1, e2];
    RunTwo(Step(s, e0), e1, e2);
  }

  lemma RunTwo(s: State, e0: Event, e1: Event)
    ensures Run(s, [e0, e1]) == Step(Step(s, e0), e1)
  {
    assert [e0, e1][1..] == [e1];
    assert [e1][1..] == [];
    assert Run(Step(s, e0), [e1]) == Run(Step(Step(s, e0), e1), []);
  }

  /** An enter on a container with one controller clears the id in its
      handle and shows the container. */
  lemma EnterOne(s: State, id: nat)
    requires s.handles == [Some(id)]
    ensures Step(s, Enter) == s.(pending := s.pending - {id}, loaded := true)
  {
    assert Held(s.handles) == {id};
  }

  /** Leave, Leave, Enter on one controller: the enter clears only the second
      hide, so the first one still fires and removes `loaded`. */
  lemma LeaveLeaveEnterStillHides(s: State)
    requires Valid(s) && |s.handles| == 1
    ensures var r := Run(s, [Leave, Leave, Enter]);
      r.loaded && s.next in r.pending && !Step(r, HideFires(s.next)).loaded
  {
    LeaveOne(s);
    var a := Step(s, Leave);
    LeaveOne(a);
    var b := Step(a, Leave);
    EnterOne(b, s.next + 1);
    RunThree(s, Leave, Leave, Enter);
  }

  /** A leave straight after which the pointer enters again leaves the
      pending hides exactly as they were, and the container shown. */
  lemma LeaveEnterRestores(s: State)
    requires Valid(s) && |s.handles| == 1
    ensures Run(s, [Leave, Enter]).pending == s.pending
    ensures Run(s, [Leave, Enter]).loaded
  {
    LeaveOne(s);
    EnterOne(Step(s, Leave), s.next);
    assert s.next !in s.pending;
    RunTwo(s, Leave, Enter);
  }

  /** Touch toggles `loaded` once per controller and clears no timer: with one
      controller it flips the class, and two touches undo each other. */
  lemma TouchToggles(s: State)
    requires |s.handles| == 1
    ensures Step(s, Touch).loaded == !s.loaded
    ensures Step(s, Touch).pending == s.pending
    ensures Run(s, [Touch, Touch]) == s
  {
    RunTwo(s, Touch, Touch);
  }

  /** With two controllers on the container a touch toggles twice and has no
      effect. */
  lemma TouchWithTwoControllers(s: State)
    requires |s.handles| == 2
    ensures Step(s, Touch) == s
  {
  }

  /** A hide timer that was cleared or already fired does nothing. */
  lemma StaleHide(s: State, id: nat)
    requires id !in s.pending
    ensures Step(s, HideFires(id)) == s
  {
  }

  /** Without a leave and without a touch nothing can hide a container that
      starts with no pending hide: it stays shown once it is shown. */
  lemma {:induction false} ShownUntilLeaveOrTouch(s: State, events: seq<Event>)
    requires s.pending == {}
    requires forall i :: 0 <= i < |events| ==> events[i] != Leave && events[i] != Touch
    ensures Run(s, events).pending == {}
    ensures Run(s, events).loaded == (s.loaded || (|s.handles| > 0 && Enter in events))
    decreases |events|
  {
    if |events| > 0 {
      var t := Step(s, events[0]);
      assert t.pending == {};
      ShownUntilLeaveOrTouch(t, events[1..]);
      assert Enter in events <==> events[0] == Enter || Enter in events[1..] by {
        assert events == [events[0]] + events[1..];
      }
    }
  }
}
