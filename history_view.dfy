/**
 * The history screen: the three lists of answered exercises, newest first,
 * each item numbered from the length of its list down to 1, each option of
 * a multiple-choice or reading item coloured by whether it is the correct
 * answer or the wrong choice; an empty-state message when there is nothing.
 */
module HistoryView {
  import opened Wrappers
  import opened Types
  import BlankSentence

  /** A fill-in-the-blank item as displayed. */
  datatype FillBlankItemView = FillBlankItemView(number: int, sentence: BlankSentence.SentenceView, explanation: string)

  /** One option of a multiple-choice or reading item, with its colour. */
  datatype OptionView = OptionView(text: string, style: OptionStyle)

  /** A multiple-choice item as displayed; the explanation block is absent when `explanation` is `None`. */
  datatype MCQItemView = MCQItemView(number: int, question: string, options: seq<OptionView>, explanation: Option<string>)

  /** A reading item as displayed; its explanation is always shown. */
  datatype ReadingItemView = ReadingItemView(number: int, paragraph: string, question: string, options: seq<OptionView>, explanation: string)

  /** The screen: the empty-state message, or the sections, each present only when its list is not empty. */
  datatype HistoryScreen =
    | EmptyState
    | Sections(
        fillInBlank: Option<seq<FillBlankItemView>>,
        multipleChoice: Option<seq<MCQItemView>>,
        readingComprehension: Option<seq<ReadingItemView>>)

  /** A fill-in-the-blank item was answered correctly. */
  function IsAnswerCorrect(item: FillBlankHistoryItem): (correct: bool)
    ensures correct <==> BlankSentence.ContentFor(true, Some(item.selectedAnswer), item.exercise.answer).ShowAnswer?
  {
    item.selectedAnswer == item.exercise.answer
  }

  /**
   * `renderFillInTheBlankItem`: numbered `total - index`; a correct item
   * shows the answer alone in the blank, a wrong one the struck-through
   * choice followed by the answer.
   */
  function RenderFillInTheBlankItem(item: FillBlankHistoryItem, index: nat, total: nat): (v: FillBlankItemView)
    ensures v.number == total - index
    ensures IsAnswerCorrect(item) ==> v.sentence.content == BlankSentence.ShowAnswer(item.exercise.answer)
    ensures !IsAnswerCorrect(item) ==> v.sentence.content == BlankSentence.ShowCorrection(item.selectedAnswer, item.exercise.answer)
    ensures v.sentence == BlankSentence.Render(item.exercise.sentence, v.sentence.content)
    ensures v.explanation == item.exercise.explanation
  {
    var content := BlankSentence.ContentFor(true, Some(item.selectedAnswer), item.exercise.answer);
    FillBlankItemView(total - index, BlankSentence.Render(item.exercise.sentence, content), item.exercise.explanation)
  }

  /**
   * The colour of one option of an answered item: green when it is the
   * correct answer, else red when it was chosen, else neutral. The correct
   * answer is never red.
   */
  function OptionStyleFor(option: string, correctAnswer: string, selectedAnswer: string): (s: OptionStyle)
    ensures s == Correct || s == Wrong || s == Neutral
    ensures s == Correct <==> option == correctAnswer
    ensures s == Wrong <==> option == selectedAnswer && option != correctAnswer
  {
    if option == correctAnswer then Correct
    else if option == selectedAnswer then Wrong
    else Neutral
  }

  /** The options in their stored order, each with its colour. */
  function RenderOptions(options: seq<string>, correctAnswer: string, selectedAnswer: string): (vs: seq<OptionView>)
    ensures |vs| == |options|
    ensures forall i :: 0 <= i < |options| ==> vs[i].text == options[i]
    ensures forall i :: 0 <= i < |options| ==> (vs[i].style == Correct <==> options[i] == correctAnswer)
    ensures forall i :: 0 <= i < |options| ==> (vs[i].style == Wrong <==> options[i] == selectedAnswer && options[i] != correctAnswer)
    ensures forall i :: 0 <= i < |options| ==> (vs[i].style == Neutral <==> options[i] != correctAnswer && options[i] != selectedAnswer)
  {
    seq(|options|, i requires 0 <= i < |options| => OptionView(options[i], OptionStyleFor(options[i], correctAnswer, selectedAnswer)))
  }

  /** JavaScript truthiness of the optional explanation: absent and empty both hide the block. */
  function ShownExplanation(explanation: Option<string>): (shown: Option<string>)
    ensures shown.Some? <==> explanation.Some? && explanation.value != ""
    ensures shown.Some? ==> shown == explanation
  {
    if explanation.Some? && explanation.value != "" then explanation else None
  }

  /** `renderMCQItem`: numbered `total - index`, options coloured, explanation only when present. */
  function RenderMCQItem(item: MCQHistoryItem, index: nat, total: nat): (v: MCQItemView)
    ensures v.number == total - index && v.question == item.exercise.question
    ensures v.options == RenderOptions(item.exercise.options, item.exercise.correctAnswer, item.selectedAnswer)
    ensures v.explanation.Some? <==> item.exercise.explanation.Some? && item.exercise.explanation.value != ""
    ensures v.explanation.Some? ==> v.explanation == item.exercise.explanation
  {
    MCQItemView(total - index, item.exercise.question,
      RenderOptions(item.exercise.options, item.exercise.correctAnswer, item.selectedAnswer),
      ShownExplanation(item.exercise.explanation))
  }

  /** `renderReadingItem`: numbered `total - index`, options coloured, explanation always shown. */
  function RenderReadingItem(item: ReadingHistoryItem, index: nat, total: nat): (v: ReadingItemView)
    ensures v.number == total - index
    ensures v.paragraph == item.exercise.paragraph && v.question == item.exercise.question
    ensures v.options == RenderOptions(item.exercise.options, item.exercise.correctAnswer, item.selectedAnswer)
    ensures v.explanation == item.exercise.explanation
  {
    ReadingItemView(total - index, item.exercise.paragraph, item.exercise.question,
      RenderOptions(item.exercise.options, item.exercise.correctAnswer, item.selectedAnswer),
      item.exercise.explanation)
  }

  /** Numbering from the list length down to 1: the newest (first) item has the largest number. */
  predicate NumberedNewestFirst(numbers: seq<int>)
  {
    forall i :: 0 <= i < |numbers| ==> numbers[i] == |numbers| - i
  }

  /** The fill-in-the-blank section: every item in order. */
  function RenderFillInBlankSection(items: seq<FillBlankHistoryItem>): (vs: seq<FillBlankItemView>)
    ensures |vs| == |items|
    ensures NumberedNewestFirst(seq(|vs|, i requires 0 <= i < |vs| => vs[i].number))
    ensures forall i :: 0 <= i < |items| ==> vs[i] == RenderFillInTheBlankItem(items[i], i, |items|)
  {
    seq(|items|, i requires 0 <= i < |items| => RenderFillInTheBlankItem(items[i], i, |items|))
  }

  /** The multiple-choice section: every item in order. */
  function RenderMCQSection(items: seq<MCQHistoryItem>): (vs: seq<MCQItemView>)
    ensures |vs| == |items|
    ensures NumberedNewestFirst(seq(|vs|, i requires 0 <= i < |vs| => vs[i].number))
    ensures forall i :: 0 <= i < |items| ==> vs[i] == RenderMCQItem(items[i], i, |items|)
  {
    seq(|items|, i requires 0 <= i < |items| => RenderMCQItem(items[i], i, |items|))
  }

  /** The reading section: every item in order. */
  function RenderReadingSection(items: seq<ReadingHistoryItem>): (vs: seq<ReadingItemView>)
    ensures |vs| == |items|
    ensures NumberedNewestFirst(seq(|vs|, i requires 0 <= i < |vs| => vs[i].number))
    ensures forall i :: 0 <= i < |items| ==> vs[i] == RenderReadingItem(items[i], i, |items|)
  {
    seq(|items|, i requires 0 <= i < |items| => RenderReadingItem(items[i], i, |items|))
  }

  /** Numbers given newest first are distinct, run from the length down to 1, and fall by one each step. */
  lemma NumbersDistinct(numbers: seq<int>)
    requires NumberedNewestFirst(numbers)
    ensures forall i, j :: 0 <= i < j < |numbers| ==> numbers[i] > numbers[j]
    ensures forall i :: 0 <= i < |numbers| ==> 1 <= numbers[i] <= |numbers|
    ensures |numbers| > 0 ==> numbers[0] == |numbers| && numbers[|numbers| - 1] == 1
  {
  }

  /** `isEmpty`: all three lists are empty. */
  function IsEmpty(h: HistoryState): (empty: bool)
    ensures empty <==> h.fillInBlank == [] && h.multipleChoice == [] && h.readingComprehension == []
  {
    |h.fillInBlank| == 0 && |h.multipleChoice| == 0 && |h.readingComprehension| == 0
  }

  /** `Section(items)` when the list is not empty, else nothing. */
  function SectionIf<T>(present: bool, items: seq<T>): (s: Option<seq<T>>)
    ensures s.Some? <==> present
    ensures s.Some? ==> s.value == items
  {
    if present then Some(items) else None
  }

  /**
   * The history screen: the empty-state message exactly when every list is
   * empty; otherwise each section is rendered exactly when its own list is
   * not empty.
   */
  function Render(h: HistoryState): (screen: HistoryScreen)
    ensures screen.EmptyState? <==> IsEmpty(h)
    ensures screen.Sections? ==> (screen.fillInBlank.Some? <==> |h.fillInBlank| > 0)
    ensures screen.Sections? ==> (screen.multipleChoice.Some? <==> |h.multipleChoice| > 0)
    ensures screen.Sections? ==> (screen.readingComprehension.Some? <==> |h.readingComprehension| > 0)
    ensures screen.Sections? && screen.fillInBlank.Some? ==> screen.fillInBlank.value == RenderFillInBlankSection(h.fillInBlank)
    ensures screen.Sections? && screen.multipleChoice.Some? ==> screen.multipleChoice.value == RenderMCQSection(h.multipleChoice)
    ensures screen.Sections? && screen.readingComprehension.Some? ==> screen.readingComprehension.value == RenderReadingSection(h.readingComprehension)
  {
    if IsEmpty(h) then EmptyState
    else Sections(
      SectionIf(|h.fillInBlank| > 0, RenderFillInBlankSection(h.fillInBlank)),
      SectionIf(|h.multipleChoice| > 0, RenderMCQSection(h.multipleChoice)),
      SectionIf(|h.readingComprehension| > 0, RenderReadingSection(h.readingComprehension)))
  }

  /**
   * In a fill-in-the-blank item whose sentence has exactly one blank, the
   * displayed text around the blank puts the sentence back together, and
   * the blank holds the answer, preceded by the choice when it was wrong.
   */
  lemma FillBlankItemReassembles(item: FillBlankHistoryItem, index: nat, total: nat)
    requires |BlankSentence.Split(item.exercise.sentence, BlankSentence.BLANK)| == 2
    ensures var v := RenderFillInTheBlankItem(item, index, total);
      v.sentence.before + BlankSentence.BLANK + v.sentence.after == item.exercise.sentence
      && v.sentence.content.answer == item.exercise.answer
  {
  }
}
