/**
 * The reading-comprehension session: fetch a paragraph with one question,
 * reveal the answer on demand, read the paragraph aloud with a play/stop
 * toggle, and move on. Speech synthesis itself is outside the model: the
 * handlers return the command they give it.
 */
module ReadingComprehension {
  import opened Wrappers
  import opened Types
  import opened SessionCounter
  import opened GeminiService

  /** The language tag given to every utterance. */
  const SPEECH_LANG: string := "ar-SA"

  /** What a handler asks of the speech engine. */
  datatype SpeechCommand = NoSpeech | CancelSpeech | Speak(text: string, lang: string)

  class Session {
    var exercise: Option<ReadingExercise>
    var loading: bool
    var showAnswer: bool
    var exerciseCount: int
    var isSpeaking: bool

    /** The counter stays in 1..25, and nothing is displayed while loading. */
    ghost predicate Valid()
      reads this
    {
      && 1 <= exerciseCount <= EXERCISES_PER_SESSION
      && (exercise.Some? ==> !loading)
    }

    /** The state on mount, before the first fetch. */
    constructor ()
      ensures Valid()
      ensures exercise == None && loading && !showAnswer && exerciseCount == 1 && !isSpeaking
    {
      exercise := None;
      loading := true;
      showAnswer := false;
      exerciseCount := 1;
      isSpeaking := false;
    }

    /** The synchronous part of `fetchExercise`: hide everything and stop any narration. */
    method StartFetch() returns (speech: SpeechCommand)
      requires Valid()
      modifies this
      ensures Valid()
      ensures loading && exercise == None && !showAnswer && !isSpeaking && speech == CancelSpeech
      ensures exerciseCount == old(exerciseCount)
    {
      loading := true;
      exercise := None;
      showAnswer := false;
      speech := CancelSpeech;
      isSpeaking := false;
    }

    /** `fetchExercise`: reset, request, display the exercise as parsed; loading ends either way. */
    method FetchExercise(reply: Reply<ReadingExercise>) returns (g: Generation<ReadingExercise>, speech: SpeechCommand)
      requires Valid()
      modifies this
      ensures Valid()
      ensures g == ParseOnce(reply)
      ensures exercise == if reply.Payload? then Some(reply.payload) else None
      ensures !loading && !showAnswer && !isSpeaking && speech == CancelSpeech
      ensures exerciseCount == old(exerciseCount)
    {
      speech := StartFetch();
      g := ParseOnce(reply);
      if g.Generated? {
        exercise := Some(g.exercise);
      }
      loading := false;
    }

    /** `handleNextExercise`: advance the counter around 1..25 and fetch. */
    method HandleNextExercise(reply: Reply<ReadingExercise>) returns (g: Generation<ReadingExercise>, speech: SpeechCommand)
      requires Valid()
      modifies this
      ensures Valid()
      ensures exerciseCount == NextCount(old(exerciseCount), EXERCISES_PER_SESSION)
      ensures g == ParseOnce(reply)
      ensures exercise == if reply.Payload? then Some(reply.payload) else None
      ensures !loading && !showAnswer && !isSpeaking && speech == CancelSpeech
    {
      exerciseCount := NextCount(exerciseCount, EXERCISES_PER_SESSION);
      g, speech := FetchExercise(reply);
    }

    /** The "show answer" button. */
    method RevealAnswer()
      requires Valid()
      modifies this
      ensures Valid()
      ensures showAnswer
      ensures exercise == old(exercise) && loading == old(loading)
      ensures exerciseCount == old(exerciseCount) && isSpeaking == old(isSpeaking)
    {
      showAnswer := true;
    }

    /**
     * `speakText`: while narrating, a press cancels and starts nothing;
     * otherwise it asks for an utterance of `text` in Arabic. `isSpeaking`
     * turns on only when the engine reports that the utterance started.
     */
    method SpeakText(text: string) returns (speech: SpeechCommand)
      requires Valid()
      modifies this
      ensures Valid()
      ensures old(isSpeaking) ==> speech == CancelSpeech && !isSpeaking
      ensures !old(isSpeaking) ==> speech == Speak(text, SPEECH_LANG) && !isSpeaking
      ensures exercise == old(exercise) && loading == old(loading)
      ensures showAnswer == old(showAnswer) && exerciseCount == old(exerciseCount)
    {
      if isSpeaking {
        speech := CancelSpeech;
        isSpeaking := false;
        return;
      }
      speech := Speak(text, SPEECH_LANG);
    }

    /** The utterance's start callback. */
    method OnSpeechStart()
      requires Valid()
      modifies this`isSpeaking
      ensures Valid() && isSpeaking
    {
      isSpeaking := true;
    }

    /** The utterance's end and error callbacks, which do the same. */
    method OnSpeechStop()
      requires Valid()
      modifies this`isSpeaking
      ensures Valid() && !isSpeaking
    {
      isSpeaking := false;
    }

    /** The exercise is on screen (not loading, and one was received). */
    predicate Displayed()
      reads this
    {
      !loading && exercise.Some?
    }

    /** The answer and the "next text" button are shown. */
    function NextButtonShown(): (shown: bool)
      reads this
      ensures shown ==> showAnswer && Displayed()
    {
      Displayed() && showAnswer
    }

    /** The "show answer" button is shown. */
    function RevealButtonShown(): (shown: bool)
      reads this
      ensures shown ==> !showAnswer && Displayed()
    {
      Displayed() && !showAnswer
    }

    /** While the exercise is on screen exactly one of the two buttons is shown, and neither otherwise. */
    lemma OneButtonAtATime()
      ensures Displayed() ==> NextButtonShown() != RevealButtonShown()
      ensures !Displayed() ==> !NextButtonShown() && !RevealButtonShown()
    {
    }
  }
}
