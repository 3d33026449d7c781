/** Page navigation of the love-letter book: the LoveBook controller.

    The controller keeps the current page, the number of pages and a flag
    that is set while a page transition is in flight.  A transition ends in a
    completion callback that the browser runs 650 ms later; every completion
    uses the same delay, so the timers are modelled as a FIFO queue of pending
    completions and the `Timer` event fires the oldest one.  Whether the two
    page elements exist in the document is a parameter (`found`) of each move:
    when either is missing the completion runs at once.

    The behaviour is stated on values (`BookState`, `Step`, `Run`) and the
    class `LoveBook` is proved to follow it call by call. */
module Book {

  /** Number of pages of the book. */
  const TotalPages: int := 16

  /** Words on the "next" button: on the last page and elsewhere. */
  const EndLabel: string := "Конец"
  const NextLabel: string := "Далее"

  /** A completion callback waiting on its timer. */
  datatype Completion = Inc | Dec | SetFirst

  /** What the navigation refresh renders: the disabled state of both
      buttons, the word on the next button and whether the book container
      carries the `transitioning` class. */
  datatype NavView = NavView(prevDisabled: bool, nextDisabled: bool, nextLabel: string, containerTransitioning: bool)

  /** The controller's state, including what was last rendered. */
  datatype BookState = BookState(
    page: int,
    transitioning: bool,
    pending: seq<Completion>,
    shown: NavView,
    indicator: int)

  /** What a key press asks for. */
  datatype Intent = RequestNext | RequestPrevious | NoIntent

  /** Inputs of the controller: button clicks, key presses and a timer firing. */
  datatype Event =
    | NextClick(found: bool)
    | PreviousClick(found: bool)
    | StartClick(found: bool)
    | KeyDown(key: string, found: bool)
    | Timer

  /** The navigation view as a function of the state. */
  function Navigation(page: int, transitioning: bool): NavView
  {
    NavView(
      page == 1 || transitioning,
      page == TotalPages || transitioning,
      if page == TotalPages then EndLabel else NextLabel,
      transitioning)
  }

  /** The keydown handler's mapping of keys to requests. */
  function KeyIntent(key: string): Intent
  {
    if key == "ArrowRight" || key == " " then RequestNext
    else if key == "ArrowLeft" then RequestPrevious
    else NoIntent
  }

  /** The page a completion leaves the book on. */
  function Target(c: Completion, page: int): int
  {
    match c
    case Inc => page + 1
    case Dec => page - 1
    case SetFirst => 1
  }

  /** A completion callback: move the page, clear the flag, re-render. */
  function Complete(s: BookState, c: Completion): BookState
  {
    var p := Target(c, s.page);
    s.(page := p, transitioning := false, shown := Navigation(p, false), indicator := p)
  }

  /** An accepted move: set the flag, optionally re-render, then hand the
      completion to the page transition, which queues it behind a timer or,
      without page elements, runs it at once. */
  function Begin(s: BookState, c: Completion, render: bool, found: bool): BookState
  {
    var t := s.(transitioning := true, shown := if render then Navigation(s.page, true) else s.shown);
    if found then t.(pending := t.pending + [c]) else Complete(t, c)
  }

  predicate NextAccepted(s: BookState)
  {
    s.page < TotalPages && !s.transitioning
  }

  predicate PreviousAccepted(s: BookState)
  {
    s.page > 1 && !s.transitioning
  }

  function StepNext(s: BookState, found: bool): BookState
  {
    if NextAccepted(s) then Begin(s, Inc, true, found) else s
  }

  function StepPrevious(s: BookState, found: bool): BookState
  {
    if PreviousAccepted(s) then Begin(s, Dec, true, found) else s
  }

  /** One input applied to the state. */
  function Step(s: BookState, e: Event): BookState
  {
    match e
    case NextClick(found) => StepNext(s, found)
    case PreviousClick(found) => StepPrevious(s, found)
    case StartClick(found) =>
      if s.page == 1 then s else Begin(s, SetFirst, false, found)
    case KeyDown(key, found) =>
      (match KeyIntent(key)
       case RequestNext => StepNext(s, found)
       case RequestPrevious => StepPrevious(s, found)
       case NoIntent => s)
    case Timer =>
      if s.pending == [] then s else Complete(s.(pending := s.pending[1..]), s.pending[0])
  }

  /** A sequence of inputs applied in order. */
  function Run(s: BookState, evs: seq<Event>): BookState
    decreases |evs|
  {
    if evs == [] then s else Run(Step(s, evs[0]), evs[1..])
  }

  /** The state right after construction. */
  function Init(): BookState
  {
    BookState(1, false, [], Navigation(1, false), 1)
  }

  /** The page stays in range and at most one completion, the one that
      matches the flag, is pending. */
  ghost predicate Bounded(s: BookState)
  {
    && 1 <= s.page <= TotalPages
    && |s.pending| <= 1
    && (s.transitioning <==> s.pending != [])
    && (s.pending == [Inc] ==> s.page < TotalPages)
    && (s.pending == [Dec] ==> s.page > 1)
  }

  /** The rendered controls and the page indicator match the state. */
  ghost predicate Rendered(s: BookState)
  {
    s.shown == Navigation(s.page, s.transitioning) && s.indicator == s.page
  }

  ghost predicate Consistent(s: BookState)
  {
    Bounded(s) && Rendered(s)
  }

  predicate NoStart(evs: seq<Event>)
  {
    forall i :: 0 <= i < |evs| ==> !evs[i].StartClick?
  }

  /** Every go-to-start click in `evs` arrives while no transition is in flight. */
  ghost predicate StartOnlyWhenIdle(s: BookState, evs: seq<Event>)
    decreases |evs|
  {
    evs == [] || ((evs[0].StartClick? ==> !s.transitioning) && StartOnlyWhenIdle(Step(s, evs[0]), evs[1..]))
  }

  /** k forward steps, each followed by its timer. */
  function Walk(k: nat): seq<Event>
  {
    if k == 0 then [] else Walk(k - 1) + [NextClick(true), Timer]
  }

  /** The interleaving that drives the page to 0: next, go-to-start, the
      forward completion fires, previous, then both remaining timers. */
  function Race(): seq<Event>
  {
    [NextClick(true), StartClick(true), Timer, PreviousClick(true), Timer, Timer]
  }

  // ---------------------------------------------------------------------
  // Properties of single steps

  /** Next and previous are accepted exactly when the guards hold; a rejected
      request changes nothing; an accepted one sets the flag until its
      completion, which moves the page by exactly one; without page elements
      the completion has run before the call returns. */
  lemma MoveGuards(s: BookState, found: bool)
    ensures Step(s, NextClick(found)) != s <==> NextAccepted(s)
    ensures Step(s, PreviousClick(found)) != s <==> PreviousAccepted(s)
    ensures NextAccepted(s) ==>
      var t := Step(s, NextClick(found));
      if found then t.transitioning && t.page == s.page && t.pending == s.pending + [Inc]
      else !t.transitioning && t.page == s.page + 1 && t.pending == s.pending
    ensures PreviousAccepted(s) ==>
      var t := Step(s, PreviousClick(found));
      if found then t.transitioning && t.page == s.page && t.pending == s.pending + [Dec]
      else !t.transitioning && t.page == s.page - 1 && t.pending == s.pending
  {
    if NextAccepted(s) {
      var t := Step(s, NextClick(found));
      if found { assert |t.pending| != |s.pending|; } else { assert t.page != s.page; }
    }
    if PreviousAccepted(s) {
      var t := Step(s, PreviousClick(found));
      if found { assert |t.pending| != |s.pending|; } else { assert t.page != s.page; }
    }
  }

  /** Go-to-start changes the state exactly when the book is not on page 1. */
  lemma StartGuard(s: BookState, found: bool)
    ensures Step(s, StartClick(found)) != s <==> s.page != 1
  {
    if s.page != 1 {
      var t := Step(s, StartClick(found));
      if found { assert |t.pending| != |s.pending|; } else { assert t.page != s.page; }
    }
  }

  /** Go-to-start ignores the flag: it keeps whatever completion is pending
      and queues its own behind it, so during a transition two are pending. */
  lemma StartIgnoresFlag(s: BookState)
    requires s.page != 1
    ensures Step(s, StartClick(true)).pending == s.pending + [SetFirst]
    ensures Step(s, StartClick(true)).transitioning
    ensures Bounded(s) && s.transitioning ==> |Step(s, StartClick(true)).pending| == 2
  {
  }

  /** Unlike next and previous, go-to-start does not re-render when it starts:
      from an idle state the buttons still show as enabled while the
      transition runs. */
  lemma StartLeavesControlsStale(s: BookState)
    requires Consistent(s) && !s.transitioning && s.page != 1
    ensures var t := Step(s, StartClick(true)); t.transitioning && !t.shown.containerTransitioning && !t.shown.prevDisabled
  {
  }

  /** The rendered buttons are disabled exactly when a click would be
      rejected; the next label is the terminal word exactly on the last page;
      the container carries the class exactly while transitioning. */
  lemma ControlsMatchGuards(s: BookState)
    requires Consistent(s)
    ensures s.shown.prevDisabled <==> !PreviousAccepted(s)
    ensures s.shown.nextDisabled <==> !NextAccepted(s)
    ensures s.shown.nextLabel == EndLabel <==> s.page == TotalPages
    ensures s.shown.containerTransitioning <==> s.transitioning
  {
  }

  /** Right arrow and space act as the next button, left arrow as the
      previous button, and every other key does nothing. */
  lemma KeysActAsButtons(s: BookState, key: string, found: bool)
    ensures key == "ArrowRight" || key == " " ==> Step(s, KeyDown(key, found)) == Step(s, NextClick(found))
    ensures key == "ArrowLeft" ==> Step(s, KeyDown(key, found)) == Step(s, PreviousClick(found))
    ensures key != "ArrowRight" && key != " " && key != "ArrowLeft" ==> Step(s, KeyDown(key, found)) == s
  {
  }

  /** Any step other than go-to-start keeps the state consistent. */
  lemma StepConsistent(s: BookState, e: Event)
    requires Consistent(s) && !e.StartClick?
    ensures Consistent(Step(s, e))
  {
    StepBounded(s, e);
  }

  /** Any step keeps the bounds when go-to-start arrives only while idle. */
  lemma StepBounded(s: BookState, e: Event)
    requires Bounded(s) && (e.StartClick? ==> !s.transitioning)
    ensures Bounded(Step(s, e))
  {
    if !s.transitioning {
      assert s.pending == [];
      forall c: Completion ensures s.pending + [c] == [c] {
        assert s.pending + [c] == [] + [c];
      }
    }
  }

  // ---------------------------------------------------------------------
  // Properties of runs

  lemma {:induction false} RunAppend(s: BookState, a: seq<Event>, b: seq<Event>)
    ensures Run(s, a + b) == Run(Run(s, a), b)
    decreases |a|
  {
    if a != [] {
      assert (a + b)[0] == a[0];
      assert (a + b)[1..] == a[1..] + b;
      RunAppend(Step(s, a[0]), a[1..], b);
    } else {
      assert a + b == b;
    }
  }

  /** Using only next, previous, keys and timers, the page stays within
      [1, TotalPages], at most one completion is pending and the controls
      always show the state. */
  lemma {:induction false} RunWithoutStartConsistent(s: BookState, evs: seq<Event>)
    requires Consistent(s) && NoStart(evs)
    ensures Consistent(Run(s, evs))
    ensures 1 <= Run(s, evs).page <= TotalPages
    decreases |evs|
  {
    if evs != [] {
      StepConsistent(s, evs[0]);
      assert NoStart(evs[1..]) by {
        forall i | 0 <= i < |evs[1..]| ensures !evs[1..][i].StartClick? {
          assert evs[1..][i] == evs[i + 1];
        }
      }
      RunWithoutStartConsistent(Step(s, evs[0]), evs[1..]);
    }
  }

  /** The bound survives go-to-start clicks that arrive while idle. */
  lemma {:induction false} RunIdleStartBounded(s: BookState, evs: seq<Event>)
    requires Bounded(s) && StartOnlyWhenIdle(s, evs)
    ensures Bounded(Run(s, evs))
    decreases |evs|
  {
    if evs != [] {
      StepBounded(s, evs[0]);
      RunIdleStartBounded(Step(s, evs[0]), evs[1..]);
    }
  }

  /** While a transition is in flight, any sequence of next and previous
      requests (by button or key) leaves the state unchanged. */
  lemma {:induction false} RequestsIgnoredWhileTransitioning(s: BookState, evs: seq<Event>)
    requires s.transitioning
    requires forall i :: 0 <= i < |evs| ==> evs[i].NextClick? || evs[i].PreviousClick? || evs[i].KeyDown?
    ensures Run(s, evs) == s
    decreases |evs|
  {
    if evs != [] {
      assert Step(s, evs[0]) == s;
      assert forall i :: 0 <= i < |evs[1..]| ==> evs[1..][i] == evs[i + 1];
      RequestsIgnoredWhileTransitioning(s, evs[1..]);
    }
  }

  /** A full forward transition: the click and its timer leave the book idle
      on the next page with nothing pending and the controls re-rendered. */
  lemma FullTransition(s: BookState)
    requires Consistent(s) && NextAccepted(s)
    ensures var t := Run(s, [NextClick(true), Timer]);
      t.page == s.page + 1 && !t.transitioning && t.pending == [] && Consistent(t)
  {
    var t1 := Step(s, NextClick(true));
    assert t1.pending == [Inc];
    var t2 := Step(t1, Timer);
    assert Run(s, [NextClick(true), Timer]) == Run(t1, [Timer]);
    assert Run(t1, [Timer]) == Run(t2, []);
  }

  /** A full backward transition: the click and its timer leave the book
      idle on the previous page with nothing pending and the controls
      re-rendered. */
  lemma FullPreviousTransition(s: BookState)
    requires Consistent(s) && PreviousAccepted(s)
    ensures var t := Run(s, [PreviousClick(true), Timer]);
      t.page == s.page - 1 && !t.transitioning && t.pending == [] && Consistent(t)
  {
    var t1 := Step(s, PreviousClick(true));
    assert t1.pending == [Dec];
    var t2 := Step(t1, Timer);
    assert Run(s, [PreviousClick(true), Timer]) == Run(t1, [Timer]);
    assert Run(t1, [Timer]) == Run(t2, []);
  }

  /** A full go-to-start from an idle page other than 1: the click and its
      timer leave the book idle on page 1 with nothing pending and the
      controls re-rendered, although they were stale in between. */
  lemma FullStartTransition(s: BookState)
    requires Consistent(s) && !s.transitioning && s.page != 1
    ensures var t := Run(s, [StartClick(true), Timer]);
      t.page == 1 && !t.transitioning && t.pending == [] && Consistent(t)
  {
    var t1 := Step(s, StartClick(true));
    assert t1.pending == [SetFirst];
    var t2 := Step(t1, Timer);
    assert Run(s, [StartClick(true), Timer]) == Run(t1, [Timer]);
    assert Run(t1, [Timer]) == Run(t2, []);
  }

  /** Walking forward k times from the start reaches page k + 1, idle. */
  lemma {:induction false} WalkReaches(k: nat)
    requires k < TotalPages
    ensures Run(Init(), Walk(k)) == BookState(k + 1, false, [], Navigation(k + 1, false), k + 1)
  {
    if k > 0 {
      WalkReaches(k - 1);
      RunAppend(Init(), Walk(k - 1), [NextClick(true), Timer]);
      FullTransition(Run(Init(), Walk(k - 1)));
    }
  }

  /** From any page p with 1 < p < TotalPages reached by walking forward,
      the race interleaving leaves the book on page 0: the page bound does
      not hold once go-to-start is clicked during a transition. */
  lemma RaceLeavesRange(p: int)
    requires 1 < p < TotalPages
    ensures Run(Init(), Walk(p - 1) + Race()).page == 0
  {
    WalkReaches(p - 1);
    RunAppend(Init(), Walk(p - 1), Race());
    var s := Run(Init(), Walk(p - 1));
    var r := Race();
    var s1 := Step(s, r[0]);
    var s2 := Step(s1, r[1]);
    assert s2.pending == [Inc, SetFirst];
    var s3 := Step(s2, r[2]);
    assert s3.page == p + 1 && s3.pending == [SetFirst] && !s3.transitioning;
    var s4 := Step(s3, r[3]);
    assert s4.pending == [SetFirst, Dec];
    var s5 := Step(s4, r[4]);
    assert s5.page == 1 && s5.pending == [Dec];
    var s6 := Step(s5, r[5]);
    assert s6.page == 0;
    assert Run(s, r) == Run(s1, r[1..]);
    assert Run(s1, r[1..]) == Run(s2, r[2..]);
    assert Run(s2, r[2..]) == Run(s3, r[3..]);
    assert Run(s3, r[3..]) == Run(s4, r[4..]);
    assert Run(s4, r[4..]) == Run(s5, r[5..]);
    assert Run(s5, r[5..]) == Run(s6, []);
  }

  /** Five rapid next presses from the start: only the first starts a
      transition, and once its timer fires the book is on page 2. */
  lemma FiveRapidPresses()
    ensures var s := Run(Init(), [NextClick(true), NextClick(true), NextClick(true), NextClick(true), NextClick(true)]);
      s.page == 1 && s.transitioning && s.pending == [Inc]
    ensures var s := Run(Init(), [NextClick(true), NextClick(true), NextClick(true), NextClick(true), NextClick(true), Timer]);
      s.page == 2 && !s.transitioning && s.pending == []
  {
    var presses := [NextClick(true), NextClick(true), NextClick(true), NextClick(true)];
    var s1 := Step(Init(), NextClick(true));
    assert s1.transitioning && s1.pending == [Inc] && s1.page == 1;
    RequestsIgnoredWhileTransitioning(s1, presses);
    RequestsIgnoredWhileTransitioning(s1, presses[1..]);
    assert [NextClick(true)] + presses == [NextClick(true), NextClick(true), NextClick(true), NextClick(true), NextClick(true)];
    RunAppend(Init(), [NextClick(true)], presses);
    assert Run(Init(), [NextClick(true)]) == s1;
    RunAppend(Init(), [NextClick(true)] + presses, [Timer]);
    assert [NextClick(true)] + presses + [Timer] == [NextClick(true), NextClick(true), NextClick(true), NextClick(true), NextClick(true), Timer];
    assert Run(s1, [Timer]) == Step(s1, Timer);
  }

  // ---------------------------------------------------------------------
  // The controller object

  class LoveBook {
    var currentPage: int
    const totalPages: int := TotalPages
    var isTransitioning: bool
    /** Completions whose timers have not fired yet, oldest first. */
    var pending: seq<Completion>
    /** The navigation last rendered by UpdateNavigation. */
    var shown: NavView
    /** The page number last written to the page indicator. */
    var indicator: int

    ghost function State(): BookState
      reads this
    {
      BookState(currentPage, isTransitioning, pending, shown, indicator)
    }

    constructor ()
      ensures State() == Init()
    {
      currentPage := 1;
      isTransitioning := false;
      pending := [];
      shown := Navigation(1, false);
      indicator := 1;
    }

    method UpdateNavigation()
      modifies this`shown
      ensures shown == Navigation(currentPage, isTransitioning)
    {
      var prevDisabled := currentPage == 1 || isTransitioning;
      var nextDisabled := currentPage == totalPages || isTransitioning;
      var word := if currentPage == totalPages then EndLabel else NextLabel;
      shown := NavView(prevDisabled, nextDisabled, word, isTransitioning);
    }

    method UpdatePageIndicator()
      modifies this`indicator
      ensures indicator == currentPage
    {
      indicator := currentPage;
    }

    /** The completion callbacks of nextPage, previousPage and goToStart. */
    method RunCompletion(c: Completion)
      modifies this
      ensures State() == Complete(old(State()), c)
    {
      match c {
        case Inc => currentPage := currentPage + 1;
        case Dec => currentPage := currentPage - 1;
        case SetFirst => currentPage := 1;
      }
      isTransitioning := false;
      UpdateNavigation();
      UpdatePageIndicator();
    }

    /** Runs the completion at once when a page element is missing, and
        otherwise schedules it behind the 650 ms timer. */
    method TransitionPage(c: Completion, found: bool)
      modifies this
      ensures State() == if found then old(State()).(pending := old(pending) + [c]) else Complete(old(State()), c)
    {
      if !found {
        RunCompletion(c);
        return;
      }
      pending := pending + [c];
    }

    method NextPage(found: bool)
      modifies this
      ensures State() == Step(old(State()), NextClick(found))
    {
      if currentPage < totalPages && !isTransitioning {
        isTransitioning := true;
        UpdateNavigation();
        TransitionPage(Inc, found);
      }
    }

    method PreviousPage(found: bool)
      modifies this
      ensures State() == Step(old(State()), PreviousClick(found))
    {
      if currentPage > 1 && !isTransitioning {
        isTransitioning := true;
        UpdateNavigation();
        TransitionPage(Dec, found);
      }
    }

    method GoToStart(found: bool)
      modifies this
      ensures State() == Step(old(State()), StartClick(found))
    {
      var current := currentPage;
      if current == 1 {
        return;
      }
      isTransitioning := true;
      TransitionPage(SetFirst, found);
    }

    /** The keydown listener. */
    method KeyDown(key: string, found: bool)
      modifies this
      ensures State() == Step(old(State()), Event.KeyDown(key, found))
    {
      if key == "ArrowRight" || key == " " {
        NextPage(found);
      } else if key == "ArrowLeft" {
        PreviousPage(found);
      }
    }

    /** The oldest pending timer fires and runs its completion. */
    method Fire() returns (fired: bool)
      modifies this
      ensures fired <==> old(pending) != []
      ensures State() == Step(old(State()), Timer)
    {
      if pending == [] {
        return false;
      }
      var c := pending[0];
      pending := pending[1..];
      RunCompletion(c);
      return true;
    }
  }
}
