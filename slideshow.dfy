// `HeroSlideshow` in app/page.tsx: an index over the main images with
// wrap-around stepping, and the pause state kept in two booleans.
module Slideshow {

  /** `(i + 1) % N`: the following slide, wrapping from the last to the first. */
  function NextIndex(i: nat, n: nat): (r: nat)
    requires i < n
    ensures r < n
    ensures r == if i == n - 1 then 0 else i + 1
  {
    (i + 1) % n
  }

  /** `(i - 1 + N) % N`: the preceding slide, wrapping from the first to the last. */
  function PrevIndex(i: nat, n: nat): (r: nat)
    requires i < n
    ensures r < n
    ensures r == if i == 0 then n - 1 else i - 1
  {
    (i - 1 + n) % n
  }

  /** Stepping forward then back (or back then forward) returns to the same slide. */
  lemma PrevUndoesNext(i: nat, n: nat)
    requires i < n
    ensures PrevIndex(NextIndex(i, n), n) == i
    ensures NextIndex(PrevIndex(i, n), n) == i
  {
  }

  /** The two stored booleans of the controller: `paused` and `userPaused`. */
  datatype Pause = Pause(paused: bool, userPaused: bool)

  /** The events that change them. */
  datatype Event =
    | UserToggle   // the play/pause button, or Space / "Spacebar"
    | Hidden       // `visibilitychange` with `document.hidden`
    | Visible      // `visibilitychange` with the document shown again

  /** The state on mount: playing, not paused by the user. */
  const Initial: Pause := Pause(false, false)

  /** One event handled atomically. */
  function Step(s: Pause, e: Event): Pause {
    match e
    case UserToggle => Pause(!s.paused, !s.paused)
    case Hidden => Pause(true, s.userPaused)
    case Visible => if s.userPaused then s else Pause(false, s.userPaused)
  }

  /** Events handled in order. */
  function Run(s: Pause, es: seq<Event>): Pause
    decreases |es|
  {
    if es == [] then s else Run(Step(s, es[0]), es[1..])
  }

  /** A user pause always keeps the slideshow paused. */
  predicate Consistent(s: Pause) {
    s.userPaused ==> s.paused
  }

  /**
   * The autoplay interval exists exactly when there is more than one slide,
   * the controller is not paused and reduced motion is not requested.
   */
  predicate AutoplayOn(n: nat, s: Pause, reducedMotion: bool) {
    n > 1 && !s.paused && !reducedMotion
  }

  /** What each event does to the two booleans. */
  lemma StepEffect(s: Pause, e: Event)
    requires Consistent(s)
    ensures e.UserToggle? ==> Step(s, e).paused == !s.paused && Step(s, e).userPaused == Step(s, e).paused
    ensures e.Hidden? ==> Step(s, e).paused && Step(s, e).userPaused == s.userPaused
    ensures e.Visible? ==> Step(s, e).paused == s.userPaused && Step(s, e).userPaused == s.userPaused
    ensures Consistent(Step(s, e))
  {
  }

  /** Every sequence of events from a consistent state ends in a consistent state. */
  lemma {:induction false} RunConsistent(s: Pause, es: seq<Event>)
    requires Consistent(s)
    ensures Consistent(Run(s, es))
    decreases |es|
  {
    if es != [] {
      StepEffect(s, es[0]);
      RunConsistent(Step(s, es[0]), es[1..]);
    }
  }

  /** Visibility changes never clear (or set) a user pause: it is sticky until toggled. */
  lemma {:induction false} UserPauseSticky(s: Pause, es: seq<Event>)
    requires forall k :: 0 <= k < |es| ==> !es[k].UserToggle?
    ensures Run(s, es).userPaused == s.userPaused
    decreases |es|
  {
    if es != [] {
      UserPauseSticky(Step(s, es[0]), es[1..]);
    }
  }

  /** After the document is hidden the autoplay interval is off, whatever came before. */
  lemma {:induction false} HiddenStopsAutoplay(s: Pause, es: seq<Event>, n: nat, reducedMotion: bool)
    requires es != [] && es[|es| - 1] == Hidden
    ensures !AutoplayOn(n, Run(s, es), reducedMotion)
    decreases |es|
  {
    if |es| > 1 {
      HiddenStopsAutoplay(Step(s, es[0]), es[1..], n, reducedMotion);
    }
  }

  /** While the user has paused, the autoplay interval is off in every reachable state. */
  lemma UserPauseStopsAutoplay(es: seq<Event>, n: nat, reducedMotion: bool)
    ensures Run(Initial, es).userPaused ==> !AutoplayOn(n, Run(Initial, es), reducedMotion)
  {
    RunConsistent(Initial, es);
  }

  /**
   * If the user never toggles while the document is hidden, `paused` is
   * exactly "paused by the user or hidden" after every event.
   */
  lemma PausedTracksCauses(s: Pause, hidden: bool, e: Event)
    requires s.paused == (s.userPaused || hidden)
    requires e.UserToggle? ==> !hidden
    ensures Step(s, e).paused == (Step(s, e).userPaused || (if e.UserToggle? then hidden else e.Hidden?))
  {
  }

  /**
   * A toggle while the document is hidden (which the browser does not deliver
   * in practice) resumes play although the document is still hidden.
   */
  lemma ToggleWhileHiddenResumes()
    ensures Step(Step(Initial, Hidden), UserToggle) == Pause(false, false)
  {
  }

  /** The controller of the main slideshow. */
  class Controller {
    const images: seq<string>
    const reducedMotion: bool
    var idx: nat
    var paused: bool
    var userPaused: bool

    /** The shown index is within the list, and a user pause implies a pause. */
    predicate Valid()
      reads this
    {
      idx < |images| && Consistent(State())
    }

    function State(): Pause
      reads this
    {
      Pause(paused, userPaused)
    }

    /** Whether the `setInterval` of the autoplay effect exists. */
    predicate TimerRunning()
      reads this
    {
      AutoplayOn(|images|, State(), reducedMotion)
    }

    /** The image on screen (`MAIN_IMAGES[idx]`). */
    function Current(): (src: string)
      reads this
      requires Valid()
      ensures src in images
    {
      images[idx]
    }

    /** Mount: first slide, playing; the `prefers-reduced-motion` answer is fixed here. */
    constructor (images: seq<string>, reducedMotion: bool)
      requires |images| > 0
      ensures this.images == images && this.reducedMotion == reducedMotion
      ensures idx == 0 && State() == Initial
      ensures Valid()
    {
      this.images := images;
      this.reducedMotion := reducedMotion;
      idx := 0;
      paused := false;
      userPaused := false;
    }

    /** `next`: the following slide; the pause state is untouched. */
    method Next()
      requires Valid()
      modifies this
      ensures Valid()
      ensures idx == NextIndex(old(idx), |images|) && State() == old(State())
    {
      idx := NextIndex(idx, |images|);
    }

    /** `prev`: the preceding slide; the pause state is untouched. */
    method Prev()
      requires Valid()
      modifies this
      ensures Valid()
      ensures idx == PrevIndex(old(idx), |images|) && State() == old(State())
    {
      idx := PrevIndex(idx, |images|);
    }

    /** The play/pause button and Space: flip `paused` and record it as the user's choice. */
    method TogglePause()
      requires Valid()
      modifies this
      ensures Valid()
      ensures State() == Step(old(State()), UserToggle) && idx == old(idx)
    {
      var s := Step(State(), UserToggle);
      paused := s.paused;
      userPaused := s.userPaused;
    }

    /** `visibilitychange`: pause when hidden; when shown, resume unless the user paused. */
    method OnVisibilityChange(hidden: bool)
      requires Valid()
      modifies this
      ensures Valid()
      ensures State() == Step(old(State()), if hidden then Hidden else Visible) && idx == old(idx)
    {
      var s := Step(State(), if hidden then Hidden else Visible);
      paused := s.paused;
    }

    /** One tick of the autoplay interval, which only exists while the timer runs. */
    method Tick()
      requires Valid() && TimerRunning()
      modifies this
      ensures Valid()
      ensures idx == NextIndex(old(idx), |images|) && State() == old(State())
    {
      Next();
    }

    /**
     * The window `keydown` handler: arrows step, Space toggles the pause;
     * `preventDefault` is reported for Space only.
     */
    method OnKey(key: string) returns (preventDefault: bool)
      requires Valid()
      modifies this
      ensures Valid()
      ensures preventDefault <==> key == " " || key == "Spacebar"
      ensures key == "ArrowRight" ==> idx == NextIndex(old(idx), |images|) && State() == old(State())
      ensures key == "ArrowLeft" ==> idx == PrevIndex(old(idx), |images|) && State() == old(State())
      ensures preventDefault ==> State() == Step(old(State()), UserToggle) && idx == old(idx)
      ensures key !in ["ArrowRight", "ArrowLeft", " ", "Spacebar"] ==> idx == old(idx) && State() == old(State())
    {
      preventDefault := false;
      if key == "ArrowRight" {
        Next();
      } else if key == "ArrowLeft" {
        Prev();
      } else if key == " " || key == "Spacebar" {
        preventDefault := true;
        TogglePause();
      }
    }
  }
}
