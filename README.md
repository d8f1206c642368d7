# Arabic exercises for young football fans — a Dafny model of the session logic

The application generates Arabic grammar exercises (fill in the blank,
multiple choice, reading comprehension, educational cards) by asking a
generative-content service for JSON payloads, and runs one small session
state machine per exercise kind: fetch an exercise, present it, take an
answer or reveal one, and move on. This project models, in Dafny:

- the content generator (`GeminiService`): the shape checks on generated
  payloads and the retry that reissues the same request until a payload
  passes. The service is an oracle, a sequence of replies. Each reply is a
  parsed payload or a thrown call. Reading and card payloads go through
  unchecked.
- the four session controllers (`FillInTheBlank`, `MultipleChoice`,
  `ReadingComprehension`, `EducationalCards`). Each is a class whose fields are the
  component's state variables and whose methods are its handlers. The
  button colouring and feedback are functions of those fields.
- the "exercise N" counter shared by the sessions (`SessionCounter`).
- the blank-sentence display shared by fill-in-the-blank and the history
  (`BlankSentence`): JavaScript's `split` on `___`, characterised by where
  it cuts (the first piece ends at the leftmost marker, the rest is the
  split of what follows it), and `join`, which undoes it.
- the history screen (`HistoryView`): numbering, option colours, the
  empty state and which sections are shown.
- the view router (`App`): one field, the current view.

Shared data types are in `Types` and `Wrappers`.

Modelling choices:

- A `null` state value is `None`. `exercise?.answer` on a `null` exercise
  is `undefined`, which equals no string and not `null` either. So every
  comparison with it is false when no exercise is loaded.
- JavaScript truthiness is explicit. The multiple-choice submit needs a
  choice that is present and non-empty. A history explanation is shown
  when it is present and non-empty.
- The shuffle of the fill-in-the-blank options is a list of exchanges
  given as a parameter. Every ordering the random sort can produce is a
  sequence of exchanges, and the model proves the result is a permutation.
- A request is modelled as completing within the handler that starts it.
  The loading phase before it completes is the post-state of `StartFetch`.
  If every reply in a finite oracle fails the check, the source would keep
  reissuing the request forever. The model returns `Unanswered` and the
  session stays in its loading state.
- The response schema describes `correctAnswer` as one of the options
  (services/geminiService.ts:59). The code checks only that there are four
  options, and the model follows the code.
  `GeminiService.MultipleChoiceAnswerUnchecked` exhibits an accepted
  payload whose answer is missing. `MultipleChoice.Session.AnsweredDisplayAgrees`
  shows that for such a payload no option is ever green and every click on
  an option is judged wrong.
- The history record types are not declared in types.ts. Their fields
  follow how the history view reads them.

## Model

| member | source | states |
|---|---|---|
| SessionCounter.JsRemainder | components/FillInTheBlank.tsx:40 | JavaScript's `%` truncates toward zero: the remainder has the sign of the dividend and is smaller than the divisor in size |
| SessionCounter.NextCount | components/FillInTheBlank.tsx:40 | `(prev % total) + 1` keeps a counter in 1..total; the top value wraps to 1 and any other value goes up by one |
| SessionCounter.AdvanceFullCycle | components/EducationalCards.tsx:37 | the counter is periodic: exactly `total` presses of "next" return to the start, and no fewer do |
| BlankSentence.Split | components/HistoryView.tsx:11 | `split('___')` always gives at least one piece |
| BlankSentence.SplitAtLeftmostMarker | components/HistoryView.tsx:11 | the first piece is a prefix of the sentence in which no marker starts, and a marker follows it exactly when there is more than one piece; a single piece is the whole sentence |
| BlankSentence.SplitRest | components/HistoryView.tsx:11 | after the first piece and its marker, the remaining pieces are the split of the rest of the sentence |
| BlankSentence.SplitPiecesMarkerFree | components/HistoryView.tsx:11 | no piece contains the marker |
| BlankSentence.SplitJoin | components/HistoryView.tsx:11 | splitting loses nothing: joining the pieces with the marker gives back the sentence |
| BlankSentence.SplitWithoutMarker | components/FillInTheBlank.tsx:66 | a sentence without the marker is one piece, so it is shown whole before the blank and nothing after it |
| BlankSentence.ContentFor | components/FillInTheBlank.tsx:67-80 | the blank is an empty box until submission, then the answer alone exactly when the choice equals it, else the choice followed by the answer |
| BlankSentence.Render | components/FillInTheBlank.tsx:82-88 | the text before the blank is the sentence up to its leftmost marker; the text after it runs from there to the leftmost marker of the rest (no marker starts inside it) or to the end; neither holds a marker; with exactly one marker they rebuild the sentence; later pieces are not shown |
| GeminiService.FillBlankAccepted | services/geminiService.ts:36 | a fill-in-the-blank payload passes exactly when it has four options and one of them equals the answer |
| GeminiService.MultipleChoiceAccepted | services/geminiService.ts:69 | a multiple-choice payload passes exactly when it has four options; its answer plays no part |
| GeminiService.Retry | services/geminiService.ts:34-39 | the recursive generator: a returned payload passes the check, and a result comes after between 1 and the number of replies requests |
| GeminiService.RetryCharacterized | services/geminiService.ts:36-38 | a result after n requests means the first n-1 replies were rejected payloads and the n-th is the returned payload unchanged (or the thrown call); no result means every reply was rejected |
| GeminiService.RetryAfterRejections | services/geminiService.ts:36-38 | k rejected payloads then an accepted one give exactly k+1 requests and return that payload; with k = 0 an accepted first reply costs one request |
| GeminiService.RetryLoop | services/geminiService.ts:36-37 | the retry as a loop over the replies computes exactly what the recursive generator does |
| GeminiService.GenerateFillInTheBlank | services/geminiService.ts:34-39 | a returned fill-in-the-blank exercise has exactly four options and its answer is one of them |
| GeminiService.GenerateMultipleChoice | services/geminiService.ts:67-73 | a returned multiple-choice exercise has exactly four options; nothing is promised about its answer |
| GeminiService.MultipleChoiceAnswerUnchecked | services/geminiService.ts:68-73 | a payload with four options whose answer is not among them is accepted on the first request |
| GeminiService.ParseOnce | services/geminiService.ts:94-95 | reading (and card) generation makes one request and returns the parsed payload unchanged, or propagates the thrown call |
| GeminiService.ParseOnceIsRetryWithoutCheck | services/geminiService.ts:116-117 | returning as parsed is the retrying generator with a check that always passes: whatever replies would follow, no second request is made |
| FillInTheBlank.Shuffle | components/FillInTheBlank.tsx:26 | the displayed options are a permutation of the generated ones: same length, same multiset |
| FillInTheBlank.Shuffled | components/FillInTheBlank.tsx:26-27 | the displayed exercise keeps the generated sentence and answer, and its options are a permutation of the generated ones |
| FillInTheBlank.ShufflePreservesAcceptance | components/FillInTheBlank.tsx:26-27 | the displayed exercise still has four options containing the answer, with the same sentence and answer |
| FillInTheBlank.Session.constructor | components/FillInTheBlank.tsx:12-16 | on mount: no exercise, loading, no choice, not submitted, counter 1 |
| FillInTheBlank.Session.StartFetch | components/FillInTheBlank.tsx:19-22 | before the request: loading, and exercise, choice and submission cleared |
| FillInTheBlank.Session.FetchExercise | components/FillInTheBlank.tsx:18-33 | the displayed exercise is the generated one with shuffled options, or none on failure; loading ends on success and on failure; the session invariant (four options with the answer among them) holds |
| FillInTheBlank.Session.HandleNextExercise | components/FillInTheBlank.tsx:39-42 | the counter advances as `(prev % 25) + 1`, then a fresh exercise is fetched |
| FillInTheBlank.Session.HandleOptionClick | components/FillInTheBlank.tsx:44-48 | the first click records the choice and submits at once; once submitted, clicks change nothing |
| FillInTheBlank.Session.ButtonClass | components/FillInTheBlank.tsx:50-61 | neutral before submission; after it the answer is green, the chosen wrong option red, all others dimmed, never blue |
| FillInTheBlank.Session.Feedback | components/FillInTheBlank.tsx:113-117 | no feedback before submission; "correct" exactly when the choice equals the answer |
| FillInTheBlank.Session.SentenceWithContent | components/FillInTheBlank.tsx:63-89 | a sentence line exists exactly when an exercise is loaded; it is the exercise's sentence cut at its first marker, as `Render` states, with the blank following the submission and the choice |
| FillInTheBlank.Session.AnsweredDisplayAgrees | components/FillInTheBlank.tsx:50-70 | after a click on an option: exactly the options equal to the answer are green and one exists; a red option exists exactly when the feedback is "wrong"; the blank shows the answer alone exactly when it is "correct" |
| MultipleChoice.Session.constructor | components/MultipleChoice.tsx:12-16 | on mount: no exercise, loading, no choice, not submitted, counter 1 |
| MultipleChoice.Session.StartFetch | components/MultipleChoice.tsx:19-22 | before the request: loading, and exercise, choice and submission cleared |
| MultipleChoice.Session.FetchExercise | components/MultipleChoice.tsx:18-31 | the displayed exercise is the generated one, or none on failure; loading ends on success and on failure |
| MultipleChoice.Session.HandleNextExercise | components/MultipleChoice.tsx:37-40 | the counter advances as `(prev % 25) + 1`, then a fresh exercise is fetched |
| MultipleChoice.Session.HandleOptionClick | components/MultipleChoice.tsx:42-45 | before submission every click replaces the choice without submitting; after submission clicks are ignored |
| MultipleChoice.HasChoice | components/MultipleChoice.tsx:48 | a choice is truthy exactly when it is present and non-empty, the test of the submit handler and of the confirm button (line 107) |
| MultipleChoice.Session.HandleSubmit | components/MultipleChoice.tsx:47-51 | submits exactly when a non-empty choice exists, the same test that enables the confirm button (line 107) |
| MultipleChoice.Session.ButtonClass | components/MultipleChoice.tsx:53-69 | before submission only the current choice is blue and the rest neutral; after it the correct option is green, the chosen wrong one red, the rest dimmed |
| MultipleChoice.Session.Feedback | components/MultipleChoice.tsx:71-77 | no feedback before submission; "correct" exactly when the choice equals the correct answer of a loaded exercise |
| MultipleChoice.Session.HighlightFollowsChoice | components/MultipleChoice.tsx:54-58 | before submission at most one option value is blue, and it is the current choice |
| MultipleChoice.Session.AnsweredDisplayAgrees | components/MultipleChoice.tsx:60-77 | after submission a red option exists exactly when the feedback is "wrong" and the choice is an option; if the correct answer is missing from the options, no option is green and every option choice is judged wrong |
| ReadingComprehension.Session.constructor | components/ReadingComprehension.tsx:12-16 | on mount: no exercise, loading, answer hidden, counter 1, not speaking |
| ReadingComprehension.Session.StartFetch | components/ReadingComprehension.tsx:19-23 | before the request: loading, exercise cleared, answer hidden, narration cancelled and not speaking |
| ReadingComprehension.Session.FetchExercise | components/ReadingComprehension.tsx:18-32 | the displayed exercise is the parsed one, or none when the call throws; loading ends either way |
| ReadingComprehension.Session.HandleNextExercise | components/ReadingComprehension.tsx:41-44 | the counter advances as `(prev % 25) + 1`, then a fresh exercise is fetched |
| ReadingComprehension.Session.RevealAnswer | components/ReadingComprehension.tsx:97 | the reveal button shows the answer and changes nothing else |
| ReadingComprehension.Session.SpeakText | components/ReadingComprehension.tsx:46-58 | while speaking, a press cancels, clears the flag and starts nothing; otherwise it asks for an Arabic (`ar-SA`) utterance of the text, and the flag waits for the start callback |
| ReadingComprehension.Session.OnSpeechStart | components/ReadingComprehension.tsx:54 | the start callback sets the speaking flag |
| ReadingComprehension.Session.OnSpeechStop | components/ReadingComprehension.tsx:55-56 | the end and error callbacks clear the speaking flag |
| ReadingComprehension.Session.NextButtonShown | components/ReadingComprehension.tsx:89-95 | the "next text" button appears only while the answer is shown on a displayed exercise |
| ReadingComprehension.Session.RevealButtonShown | components/ReadingComprehension.tsx:96-100 | the reveal button appears only while the answer is hidden on a displayed exercise |
| ReadingComprehension.Session.OneButtonAtATime | components/ReadingComprehension.tsx:89-100 | on a displayed exercise exactly one of the two buttons is shown, and neither otherwise |
| EducationalCards.LevelFor | components/EducationalCards.tsx:22 | the level is beginner exactly when the card number is at most 50, otherwise intermediate |
| EducationalCards.Session.constructor | components/EducationalCards.tsx:14-16 | on mount: no card, loading, card number 1 |
| EducationalCards.Session.StartFetch | components/EducationalCards.tsx:19-20 | before the request: loading, card cleared, card number unchanged |
| EducationalCards.Session.FetchCard | components/EducationalCards.tsx:18-30 | requests at the level of the current number; the card is the parsed one or none; loading ends either way |
| EducationalCards.Session.HandleNextCard | components/EducationalCards.tsx:36-39 | the number advances as `(prev % 100) + 1`; the fetch it starts uses the level of the number before the update |
| HistoryView.IsAnswerCorrect | components/HistoryView.tsx:12 | an item counts as correct exactly when its blank shows the answer alone |
| HistoryView.RenderFillInTheBlankItem | components/HistoryView.tsx:10-37 | numbered `total - index`; the text on both sides of the blank is the sentence cut at its first marker, as `Render` states; a correct item shows the answer alone, a wrong one the struck-through choice then the answer |
| HistoryView.OptionStyleFor | components/HistoryView.tsx:47-57 | each option is in exactly one class: green exactly when it is the correct answer, red exactly when it is the choice and not correct, else neutral; the correct answer is never red |
| HistoryView.RenderOptions | components/HistoryView.tsx:79-86 | every option is shown once, in stored order; it is marked correct exactly when it is the correct answer, wrong exactly when it is the chosen answer and not the correct one, and neutral otherwise |
| HistoryView.ShownExplanation | components/HistoryView.tsx:61 | the explanation block appears exactly when the explanation is present and non-empty |
| HistoryView.RenderMCQItem | components/HistoryView.tsx:39-68 | numbered `total - index`, options classified, the explanation shown only when present and non-empty, and then it is the exercise's own text |
| HistoryView.RenderReadingItem | components/HistoryView.tsx:70-94 | numbered `total - index`, options classified, explanation always shown |
| HistoryView.RenderFillInBlankSection | components/HistoryView.tsx:118 | every item rendered in order, numbered from the list length down |
| HistoryView.RenderMCQSection | components/HistoryView.tsx:126 | every item rendered in order, numbered from the list length down |
| HistoryView.RenderReadingSection | components/HistoryView.tsx:134 | every item rendered in order, numbered from the list length down |
| HistoryView.NumbersDistinct | components/HistoryView.tsx:29 | newest-first numbers strictly decrease, lie in 1..n, start at n and end at 1, so they are distinct |
| HistoryView.SectionIf | components/HistoryView.tsx:114 | a section is present exactly when its condition holds, and then holds its items |
| HistoryView.IsEmpty | components/HistoryView.tsx:102 | the history is empty exactly when all three lists are empty |
| HistoryView.Render | components/HistoryView.tsx:97-142 | the empty-state message exactly when all three lists are empty; otherwise each section exactly when its own list is non-empty |
| HistoryView.FillBlankItemReassembles | components/HistoryView.tsx:11-30 | for a sentence with one blank, the text around the blank rebuilds the sentence and the blank holds the answer |
| App.RenderView | App.tsx:12-27 | exactly one screen per view: the dashboard for the dashboard view, the matching exercise screen for each other view |
| App.Step | App.tsx:15-23 | on the dashboard a section card sets that section's view; on an exercise screen "back" sets the dashboard; an event with no control on the mounted screen changes nothing |
| App.SectionsAreTheExercises | components/Dashboard.tsx:9-50 | the four dashboard cards lead to the four exercise views, each to a different one |
| App.BackAlwaysReturns | App.tsx:17-23 | after any history of events, one "back" lands on the dashboard: there is no navigation stack |
| App.AppState.constructor | App.tsx:10 | the initial view is the dashboard |
| App.AppState.Dispatch | App.tsx:12-27 | the only state change is `setCurrentView`, to the view `Step` gives |

## Left out

- The generative-content SDK call, the prompts, the response schemas, `JSON.parse` and the start-up `API_KEY` check (services/geminiService.ts:1-32): a foreign network call. It is replaced by the reply oracle. A malformed JSON body is one more kind of thrown call.
- Speech synthesis (`speechSynthesis`, `SpeechSynthesisUtterance`): only the `isSpeaking` transitions and the command handed to the engine are modelled. The cancel on unmount (components/ReadingComprehension.tsx:37) is not modelled.
- The randomness of the shuffle: the exchanges are a parameter.
- React scheduling: effect re-runs, overlapping requests and the lack of cancellation. The card effect fetches again after every "next" with the new number's level (components/EducationalCards.tsx:32-34); that second fetch is not modelled. The mount-time fetch is a call of `FetchExercise` / `FetchCard` after the constructor.
- EducationalCards.Session.FetchCard: the level is returned but does not reach the request, because `generateEducationalCard` takes no parameter.
- App.RenderView: the `default:` branch of the switch cannot be reached, because `View` has exactly five values in the model.
- JSX markup, class strings beyond their colour category, icons, the dashboard and the exercise container, which always prints "/ 25", even for the card counter.
- Points, history persistence and local storage: no code for them is among the modelled files. The history lists are the history view's input.
- Console logging of failures.
- SessionCounter.JsRemainder: the contract gives the sign and the size of the remainder but not its exact value; pinning the value down needs reasoning about multiplication that the solver does not finish. `NextCount` states the exact values the counters use.
