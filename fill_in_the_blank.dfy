/**
 * The fill-in-the-blank session: fetch an exercise, shuffle its options,
 * take one click as both the choice and the submission, colour the options,
 * and move on to the next exercise.
 */
module FillInTheBlank {
  import opened Wrappers
  import opened Types
  import opened SessionCounter
  import opened GeminiService
  import BlankSentence

  /** Exchanges positions `i` and `j`; indices outside the sequence leave it as it is. */
  function SwapAt(s: seq<string>, i: nat, j: nat): (r: seq<string>)
    ensures |r| == |s| && multiset(r) == multiset(s)
  {
    if i < |s| && j < |s| then s[i := s[j]][j := s[i]] else s
  }

  /**
   * The displayed order of the options. The random comparator of the
   * source's sort is replaced by the sequence of exchanges it amounts to,
   * given as a parameter: every ordering is some sequence of exchanges.
   * The result is a permutation: no option is added, dropped or duplicated.
   */
  function Shuffle(options: seq<string>, swaps: seq<(nat, nat)>): (r: seq<string>)
    ensures |r| == |options| && multiset(r) == multiset(options)
    decreases |swaps|
  {
    if swaps == [] then options
    else Shuffle(SwapAt(options, swaps[0].0, swaps[0].1), swaps[1..])
  }

  /** The exercise as displayed: the generated one with its options shuffled. */
  function Shuffled(e: FillBlankExercise, swaps: seq<(nat, nat)>): (shown: FillBlankExercise)
    ensures shown.sentence == e.sentence && shown.answer == e.answer
    ensures |shown.options| == |e.options| && multiset(shown.options) == multiset(e.options)
  {
    e.(options := Shuffle(e.options, swaps))
  }

  /** A shuffled exercise still passes the generator's check, and keeps its sentence and answer. */
  lemma ShufflePreservesAcceptance(e: FillBlankExercise, swaps: seq<(nat, nat)>)
    requires FillBlankAccepted(e)
    ensures FillBlankAccepted(Shuffled(e, swaps))
    ensures Shuffled(e, swaps).sentence == e.sentence && Shuffled(e, swaps).answer == e.answer
  {
    var shown := Shuffle(e.options, swaps);
    assert e.answer in multiset(e.options);
    assert e.answer in multiset(shown);
  }

  class Session {
    var exercise: Option<FillBlankExercise>
    var loading: bool
    var selectedAnswer: Option<string>
    var isSubmitted: bool
    var exerciseCount: int

    /**
     * The session invariant: the counter stays in 1..25; a choice exists
     * exactly when the exercise is submitted; a displayed exercise has four
     * options with the answer among them, and nothing is displayed while loading.
     */
    ghost predicate Valid()
      reads this
    {
      && 1 <= exerciseCount <= EXERCISES_PER_SESSION
      && (isSubmitted <==> selectedAnswer.Some?)
      && (exercise.Some? ==> FillBlankAccepted(exercise.value) && !loading)
    }

    /** The state on mount, before the first fetch. */
    constructor ()
      ensures Valid()
      ensures exercise == None && loading && selectedAnswer == None && !isSubmitted && exerciseCount == 1
    {
      exercise := None;
      loading := true;
      selectedAnswer := None;
      isSubmitted := false;
      exerciseCount := 1;
    }

    /** The synchronous part of `fetchExercise`, before the request. */
    method StartFetch()
      requires Valid()
      modifies this
      ensures Valid()
      ensures loading && exercise == None && selectedAnswer == None && !isSubmitted
      ensures exerciseCount == old(exerciseCount)
    {
      loading := true;
      exercise := None;
      selectedAnswer := None;
      isSubmitted := false;
    }

    /**
     * `fetchExercise`: reset, request, display the shuffled exercise. Loading
     * ends whether the request succeeds or throws; only a request that never
     * settles leaves the session loading.
     */
    method FetchExercise(replies: seq<Reply<FillBlankExercise>>, swaps: seq<(nat, nat)>)
      returns (g: Generation<FillBlankExercise>)
      requires Valid()
      modifies this
      ensures Valid()
      ensures g == Retry(replies, FillBlankAccepted)
      ensures exercise == if g.Generated? then Some(Shuffled(g.exercise, swaps)) else None
      ensures loading <==> g.Unanswered?
      ensures selectedAnswer == None && !isSubmitted && exerciseCount == old(exerciseCount)
    {
      StartFetch();
      g := GenerateFillInTheBlank(replies);
      match g
      case Generated(e, _) =>
        ShufflePreservesAcceptance(e, swaps);
        exercise := Some(Shuffled(e, swaps));
        loading := false;
      case CallFailed(_) =>
        loading := false;
      case Unanswered =>
    }

    /** `handleNextExercise`: advance the counter around 1..25 and fetch. */
    method HandleNextExercise(replies: seq<Reply<FillBlankExercise>>, swaps: seq<(nat, nat)>)
      returns (g: Generation<FillBlankExercise>)
      requires Valid()
      modifies this
      ensures Valid()
      ensures exerciseCount == NextCount(old(exerciseCount), EXERCISES_PER_SESSION)
      ensures g == Retry(replies, FillBlankAccepted)
      ensures exercise == if g.Generated? then Some(Shuffled(g.exercise, swaps)) else None
      ensures loading <==> g.Unanswered?
      ensures selectedAnswer == None && !isSubmitted
    {
      exerciseCount := NextCount(exerciseCount, EXERCISES_PER_SESSION);
      g := FetchExercise(replies, swaps);
    }

    /** `handleOptionClick`: the first click chooses and submits at once; later clicks change nothing. */
    method HandleOptionClick(option: string)
      requires Valid()
      modifies this
      ensures Valid()
      ensures old(isSubmitted) ==> unchanged(this)
      ensures !old(isSubmitted) ==> selectedAnswer == Some(option) && isSubmitted
      ensures exercise == old(exercise) && loading == old(loading) && exerciseCount == old(exerciseCount)
    {
      if isSubmitted {
        return;
      }
      selectedAnswer := Some(option);
      isSubmitted := true;
    }

    /** The displayed exercise's answer is `option`. */
    predicate IsAnswer(option: string)
      reads this
    {
      exercise.Some? && option == exercise.value.answer
    }

    /**
     * `getButtonClass`: neutral before submission; afterwards the answer is
     * green, the chosen wrong option red, and every other option dimmed.
     */
    function ButtonClass(option: string): (c: OptionStyle)
      reads this
      ensures !isSubmitted ==> c == Neutral
      ensures isSubmitted ==> (c == Correct <==> IsAnswer(option))
      ensures c == Wrong <==> isSubmitted && selectedAnswer == Some(option) && !IsAnswer(option)
      ensures c == Dimmed <==> isSubmitted && !IsAnswer(option) && selectedAnswer != Some(option)
      ensures c != Highlighted
    {
      if !isSubmitted then Neutral
      else if IsAnswer(option) then Correct
      else if selectedAnswer == Some(option) then Wrong
      else Dimmed
    }

    /** The feedback line: none before submission, praise exactly when the choice is the answer. */
    function Feedback(): (v: Verdict)
      reads this
      ensures v == NoVerdict <==> !isSubmitted || exercise.None?
      ensures v == RightAnswer <==> isSubmitted && exercise.Some? && selectedAnswer == Some(exercise.value.answer)
    {
      if !isSubmitted || exercise.None? then NoVerdict
      else if selectedAnswer == Some(exercise.value.answer) then RightAnswer
      else WrongAnswer
    }

    /** `getSentenceWithContent`: the sentence cut at the blank, with the answer content in it. */
    function SentenceWithContent(): (v: Option<BlankSentence.SentenceView>)
      reads this
      ensures v.Some? <==> exercise.Some?
      ensures v.Some? ==> v.value.content == BlankSentence.ContentFor(isSubmitted, selectedAnswer, exercise.value.answer)
      ensures v.Some? ==> v.value == BlankSentence.Render(exercise.value.sentence, BlankSentence.ContentFor(isSubmitted, selectedAnswer, exercise.value.answer))
    {
      match exercise
      case None => None
      case Some(e) => Some(BlankSentence.Render(e.sentence, BlankSentence.ContentFor(isSubmitted, selectedAnswer, e.answer)))
    }

    /**
     * After a click on one of the displayed options, the colours, the
     * sentence and the feedback line agree: exactly the options equal to the
     * answer are green, and there is one of them; a red option exists exactly
     * when the feedback says wrong; the blank shows the answer alone exactly
     * when the feedback says right.
     */
    lemma AnsweredDisplayAgrees()
      requires Valid() && isSubmitted && exercise.Some?
      requires selectedAnswer.value in exercise.value.options
      ensures forall o :: o in exercise.value.options ==> (ButtonClass(o) == Correct <==> o == exercise.value.answer)
      ensures exists o :: o in exercise.value.options && ButtonClass(o) == Correct
      ensures (exists o :: o in exercise.value.options && ButtonClass(o) == Wrong) <==> Feedback() == WrongAnswer
      ensures SentenceWithContent().value.content.ShowAnswer? <==> Feedback() == RightAnswer
    {
      var e := exercise.value;
      assert ButtonClass(e.answer) == Correct;
      if Feedback() == WrongAnswer {
        assert ButtonClass(selectedAnswer.value) == Wrong;
      }
    }
  }
}
