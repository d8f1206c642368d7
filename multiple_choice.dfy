/**
 * The multiple-choice session: fetch an exercise, let the choice change
 * freely until it is confirmed, then colour the options and give feedback.
 */
module MultipleChoice {
  import opened Wrappers
  import opened Types
  import opened SessionCounter
  import opened GeminiService

  /**
   * JavaScript truthiness of `selectedAnswer`: `null` and the empty string
   * are false. It gates `handleSubmit` and enables the confirm button.
   */
  function HasChoice(selectedAnswer: Option<string>): (has: bool)
    ensures has <==> selectedAnswer.Some? && |selectedAnswer.value| > 0
  {
    selectedAnswer.Some? && selectedAnswer.value != ""
  }

  class Session {
    var exercise: Option<MCQExercise>
    var loading: bool
    var selectedAnswer: Option<string>
    var isSubmitted: bool
    var exerciseCount: int

    /**
     * The session invariant: the counter stays in 1..25; a submitted
     * exercise has a (non-empty) choice; a displayed exercise has four
     * options, and nothing is displayed while loading.
     */
    ghost predicate Valid()
      reads this
    {
      && 1 <= exerciseCount <= EXERCISES_PER_SESSION
      && (isSubmitted ==> HasChoice(selectedAnswer))
      && (exercise.Some? ==> MultipleChoiceAccepted(exercise.value) && !loading)
    }

    /** The state on mount, before the first fetch. */
    constructor ()
      ensures Valid()
      ensures exercise == None && loading && selectedAnswer == None && !isSubmitted && exerciseCount == 1
    {
      exercise := None;
      loading := true;
      selectedAnswer := None;
      isSubmitted := false;
      exerciseCount := 1;
    }

    /** The synchronous part of `fetchExercise`, before the request. */
    method StartFetch()
      requires Valid()
      modifies this
      ensures Valid()
      ensures loading && exercise == None && selectedAnswer == None && !isSubmitted
      ensures exerciseCount == old(exerciseCount)
    {
      loading := true;
      exercise := None;
      selectedAnswer := None;
      isSubmitted := false;
    }

    /** `fetchExercise`: reset, request, display the exercise as generated. */
    method FetchExercise(replies: seq<Reply<MCQExercise>>) returns (g: Generation<MCQExercise>)
      requires Valid()
      modifies this
      ensures Valid()
      ensures g == Retry(replies, MultipleChoiceAccepted)
      ensures exercise == if g.Generated? then Some(g.exercise) else None
      ensures loading <==> g.Unanswered?
      ensures selectedAnswer == None && !isSubmitted && exerciseCount == old(exerciseCount)
    {
      StartFetch();
      g := GenerateMultipleChoice(replies);
      match g
      case Generated(e, _) =>
        exercise := Some(e);
        loading := false;
      case CallFailed(_) =>
        loading := false;
      case Unanswered =>
    }

    /** `handleNextExercise`: advance the counter around 1..25 and fetch. */
    method HandleNextExercise(replies: seq<Reply<MCQExercise>>) returns (g: Generation<MCQExercise>)
      requires Valid()
      modifies this
      ensures Valid()
      ensures exerciseCount == NextCount(old(exerciseCount), EXERCISES_PER_SESSION)
      ensures g == Retry(replies, MultipleChoiceAccepted)
      ensures exercise == if g.Generated? then Some(g.exercise) else None
      ensures loading <==> g.Unanswered?
      ensures selectedAnswer == None && !isSubmitted
    {
      exerciseCount := NextCount(exerciseCount, EXERCISES_PER_SESSION);
      g := FetchExercise(replies);
    }

    /** `handleOptionClick`: before submission each click replaces the choice; after it, clicks are ignored. */
    method HandleOptionClick(option: string)
      requires Valid()
      modifies this
      ensures Valid()
      ensures old(isSubmitted) ==> unchanged(this)
      ensures !old(isSubmitted) ==> selectedAnswer == Some(option) && !isSubmitted
      ensures exercise == old(exercise) && loading == old(loading) && exerciseCount == old(exerciseCount)
    {
      if isSubmitted {
        return;
      }
      selectedAnswer := Some(option);
    }

    /** `handleSubmit`: submits exactly when there is a choice; the choice itself is kept. */
    method HandleSubmit()
      requires Valid()
      modifies this
      ensures Valid()
      ensures isSubmitted == (old(isSubmitted) || HasChoice(old(selectedAnswer)))
      ensures selectedAnswer == old(selectedAnswer) && exercise == old(exercise)
      ensures loading == old(loading) && exerciseCount == old(exerciseCount)
    {
      if HasChoice(selectedAnswer) {
        isSubmitted := true;
      }
    }

    /** The displayed exercise's correct answer is `option`. */
    predicate IsCorrectAnswer(option: string)
      reads this
    {
      exercise.Some? && option == exercise.value.correctAnswer
    }

    /**
     * `getButtonClass`: before submission only the current choice is blue and
     * the rest neutral; afterwards the correct option is green, the chosen
     * wrong option red, and every other option dimmed.
     */
    function ButtonClass(option: string): (c: OptionStyle)
      reads this
      ensures !isSubmitted ==> (c == Highlighted <==> selectedAnswer == Some(option))
      ensures !isSubmitted ==> (c == Neutral <==> selectedAnswer != Some(option))
      ensures isSubmitted ==> (c == Correct <==> IsCorrectAnswer(option))
      ensures c == Wrong <==> isSubmitted && selectedAnswer == Some(option) && !IsCorrectAnswer(option)
      ensures c == Dimmed <==> isSubmitted && !IsCorrectAnswer(option) && selectedAnswer != Some(option)
    {
      if !isSubmitted then
        if selectedAnswer == Some(option) then Highlighted else Neutral
      else if IsCorrectAnswer(option) then Correct
      else if selectedAnswer == Some(option) then Wrong
      else Dimmed
    }

    /** `feedbackMessage`: none before submission, praise exactly when the choice is the correct answer. */
    function Feedback(): (v: Verdict)
      reads this
      ensures v == NoVerdict <==> !isSubmitted
      ensures v == RightAnswer <==> isSubmitted && exercise.Some? && selectedAnswer == Some(exercise.value.correctAnswer)
    {
      if !isSubmitted then NoVerdict
      else if exercise.Some? && selectedAnswer == Some(exercise.value.correctAnswer) then RightAnswer
      else WrongAnswer
    }

    /**
     * Before submission at most one option value is blue, and only one that
     * was clicked; a click before submission moves the highlight to the
     * clicked option.
     */
    lemma HighlightFollowsChoice(o1: string, o2: string)
      requires Valid() && !isSubmitted
      requires ButtonClass(o1) == Highlighted && ButtonClass(o2) == Highlighted
      ensures o1 == o2 && selectedAnswer == Some(o1)
    {
    }

    /**
     * After submission: a red option exists among the options exactly when
     * the feedback says wrong and the choice was one of the options; and
     * when the correct answer is not among the options no option is green
     * and a click on any option is judged wrong, since the generator does not check it.
     */
    lemma AnsweredDisplayAgrees()
      requires Valid() && isSubmitted && exercise.Some?
      ensures Feedback() == WrongAnswer && selectedAnswer.value in exercise.value.options
          <==> exists o :: o in exercise.value.options && ButtonClass(o) == Wrong
      ensures exercise.value.correctAnswer !in exercise.value.options && selectedAnswer.value in exercise.value.options ==>
          Feedback() == WrongAnswer && forall o :: o in exercise.value.options ==> ButtonClass(o) != Correct
    {
      if Feedback() == WrongAnswer && selectedAnswer.value in exercise.value.options {
        assert ButtonClass(selectedAnswer.value) == Wrong;
      }
    }
  }
}
