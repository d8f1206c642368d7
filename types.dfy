/**
 * The shared data model: the top-level views and the four exercise records
 * of types.ts, plus the history records that the history view consumes.
 * Strings are sequences of characters; `T | null` is an `Option<T>`.
 */
module Types {
  import opened Wrappers

  /** The five top-level screens, in the order of the `View` enum. */
  datatype View = Dashboard | FillInBlank | MultipleChoice | ReadingComprehension | EducationalCards

  datatype FillBlankExercise = FillBlankExercise(sentence: string, options: seq<string>, answer: string)

  datatype MCQExercise = MCQExercise(question: string, options: seq<string>, correctAnswer: string)

  datatype ReadingExercise = ReadingExercise(paragraph: string, question: string, answer: string)

  datatype EducationalCard = EducationalCard(concept: string, explanation: string, example: string)

  // The history records are not declared in types.ts; their shape follows how
  // the history view reads them: an exercise with an explanation, paired with
  // the answer that was chosen.

  datatype FillBlankRecord = FillBlankRecord(sentence: string, options: seq<string>, answer: string, explanation: string)

  /** `explanation` is optional: the view tests it before rendering it. */
  datatype MCQRecord = MCQRecord(question: string, options: seq<string>, correctAnswer: string, explanation: Option<string>)

  datatype ReadingRecord = ReadingRecord(paragraph: string, question: string, options: seq<string>, correctAnswer: string, explanation: string)

  datatype FillBlankHistoryItem = FillBlankHistoryItem(exercise: FillBlankRecord, selectedAnswer: string)

  datatype MCQHistoryItem = MCQHistoryItem(exercise: MCQRecord, selectedAnswer: string)

  datatype ReadingHistoryItem = ReadingHistoryItem(exercise: ReadingRecord, selectedAnswer: string)

  /** The three per-kind lists, newest first. */
  datatype HistoryState = HistoryState(
    fillInBlank: seq<FillBlankHistoryItem>,
    multipleChoice: seq<MCQHistoryItem>,
    readingComprehension: seq<ReadingHistoryItem>)

  /**
   * The colour category of an option button. Each class string of the
   * components falls in exactly one of these: the neutral slate button, the
   * blue highlight of a tentative choice, green for the correct answer, red
   * for a wrong choice, and the dimmed slate of an option that is neither.
   */
  datatype OptionStyle = Neutral | Highlighted | Correct | Wrong | Dimmed

  /** The feedback line under an answered exercise. */
  datatype Verdict = NoVerdict | RightAnswer | WrongAnswer
}
