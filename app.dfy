/**
 * The view router: one field, `currentView`, chooses the screen. The
 * dashboard offers its four sections; every exercise screen offers "back",
 * which returns to the dashboard. There is no stack of earlier views.
 */
module App {
  import opened Types

  /** What `renderView` mounts. */
  datatype Screen = DashboardScreen | ExerciseScreen(kind: View)

  /** The section cards of the dashboard, in display order. */
  const SECTIONS: seq<View> := [MultipleChoice, FillInBlank, EducationalCards, ReadingComprehension]

  /** A user action: a click on the dashboard section card at `index`, or "back" on an exercise screen. */
  datatype UiEvent = SelectSection(index: nat) | Back

  /**
   * `renderView`: the dashboard for the dashboard view, and for each exercise
   * view the screen of that exercise.
   */
  function RenderView(v: View): (s: Screen)
    ensures s == DashboardScreen <==> v == Dashboard
    ensures s.ExerciseScreen? ==> s.kind == v
  {
    match v
    case Dashboard => DashboardScreen
    case FillInBlank => ExerciseScreen(FillInBlank)
    case MultipleChoice => ExerciseScreen(MultipleChoice)
    case ReadingComprehension => ExerciseScreen(ReadingComprehension)
    case EducationalCards => ExerciseScreen(EducationalCards)
  }

  /**
   * The view after an event reaches the mounted screen. The dashboard's
   * section cards call `setCurrentView` with their view; an exercise
   * screen's "back" sets the dashboard; an event the mounted screen has no
   * control for changes nothing.
   */
  function Step(v: View, e: UiEvent): (next: View)
    ensures RenderView(v).DashboardScreen? && e.SelectSection? && e.index < |SECTIONS| ==> next == SECTIONS[e.index]
    ensures RenderView(v).ExerciseScreen? && e.Back? ==> next == Dashboard
    ensures RenderView(v).DashboardScreen? && e.Back? ==> next == v
    ensures RenderView(v).DashboardScreen? && e.SelectSection? && e.index >= |SECTIONS| ==> next == v
    ensures RenderView(v).ExerciseScreen? && e.SelectSection? ==> next == v
  {
    match RenderView(v)
    case DashboardScreen =>
      if e.SelectSection? && e.index < |SECTIONS| then SECTIONS[e.index] else v
    case ExerciseScreen(_) =>
      if e.Back? then Dashboard else v
  }

  /** The view after a sequence of events, first to last. */
  function Run(v: View, events: seq<UiEvent>): View
    decreases |events|
  {
    if events == [] then v else Run(Step(v, events[0]), events[1..])
  }

  lemma {:induction false} RunSnoc(v: View, events: seq<UiEvent>, e: UiEvent)
    ensures Run(v, events + [e]) == Step(Run(v, events), e)
    decreases |events|
  {
    if events == [] {
      assert [e][1..] == [];
    } else {
      assert (events + [e])[1..] == events[1..] + [e];
      RunSnoc(Step(v, events[0]), events[1..], e);
    }
  }

  /** The four section cards lead to the four exercise views, each to a different one. */
  lemma SectionsAreTheExercises()
    ensures forall v :: v in SECTIONS <==> RenderView(v).ExerciseScreen?
    ensures forall i, j :: 0 <= i < j < |SECTIONS| ==> SECTIONS[i] != SECTIONS[j]
  {
  }

  /**
   * No navigation stack: however long the history of events, whenever an
   * exercise is on screen a single "back" returns to the dashboard, and
   * from the dashboard "back" does nothing.
   */
  lemma {:induction false} BackAlwaysReturns(events: seq<UiEvent>)
    ensures Run(Dashboard, events + [Back]) == Dashboard
  {
    RunSnoc(Dashboard, events, Back);
  }

  class AppState {
    var currentView: View

    /** `useState(View.DASHBOARD)`: the first screen is the dashboard. */
    constructor ()
      ensures currentView == Dashboard && RenderView(currentView) == DashboardScreen
    {
      currentView := Dashboard;
    }

    /** An event delivered to the mounted screen; `setCurrentView` is the only state change. */
    method Dispatch(e: UiEvent)
      modifies this
      ensures currentView == Step(old(currentView), e)
    {
      currentView := Step(currentView, e);
    }
  }
}
