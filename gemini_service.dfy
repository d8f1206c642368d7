/**
 * The content generator. The call to the generative-content service is an
 * oracle: the sequence of replies that successive identical requests would
 * get back. A reply is either a parsed payload or the exception the SDK
 * throws. Fill-in-the-blank and multiple-choice payloads are checked and
 * the request is reissued until one passes; reading and card payloads are
 * returned as parsed.
 */
module GeminiService {
  import opened Types

  /** What one request gets back. */
  datatype Reply<T> = Payload(payload: T) | Thrown

  /** The outcome of one generate call, with the number of requests it made. */
  datatype Generation<T> =
    | Generated(exercise: T, requests: nat)
    | CallFailed(requests: nat)
      // Every reply offered was rejected: the source would go on requesting
      // forever and its promise would never settle.
    | Unanswered

  /** The check a fill-in-the-blank payload must pass: four options, the answer among them. */
  function FillBlankAccepted(e: FillBlankExercise): (ok: bool)
    ensures ok <==> |e.options| == 4 && exists i :: 0 <= i < |e.options| && e.options[i] == e.answer
  {
    |e.options| == 4 && e.answer in e.options
  }

  /** The check a multiple-choice payload must pass: four options. The answer is NOT looked for. */
  function MultipleChoiceAccepted(e: MCQExercise): (ok: bool)
    ensures ok <==> |e.options| == 4
  {
    |e.options| == 4
  }

  /** The first `k` replies are all payloads that fail the check. */
  ghost predicate RejectedPrefix<T>(replies: seq<Reply<T>>, accept: T -> bool, k: nat)
  {
    k <= |replies| && forall j :: 0 <= j < k ==> replies[j].Payload? && !accept(replies[j].payload)
  }

  /** `g` preceded by `n` further requests. */
  function Shift<T>(g: Generation<T>, n: nat): Generation<T>
  {
    match g
    case Generated(e, m) => Generated(e, m + n)
    case CallFailed(m) => CallFailed(m + n)
    case Unanswered => Unanswered
  }

  /**
   * The generator as the source writes it: request, parse; a thrown call
   * propagates, a payload that fails `accept` makes the generator call
   * itself with the same (empty) parameters, one that passes is returned.
   */
  function Retry<T>(replies: seq<Reply<T>>, accept: T -> bool): (g: Generation<T>)
    ensures g.Generated? ==> accept(g.exercise) && 1 <= g.requests <= |replies|
    ensures g.CallFailed? ==> 1 <= g.requests <= |replies|
    decreases |replies|
  {
    if replies == [] then Unanswered
    else match replies[0]
      case Thrown => CallFailed(1)
      case Payload(p) => if accept(p) then Generated(p, 1) else Shift(Retry(replies[1..], accept), 1)
  }

  /**
   * What the generator returns, reply by reply: a result after `n`
   * requests means the first `n - 1` replies were rejected payloads and the
   * `n`-th is the accepted payload returned unchanged, or the thrown call.
   * `Unanswered` means no reply was accepted and none threw.
   */
  lemma {:induction false} RetryCharacterized<T>(replies: seq<Reply<T>>, accept: T -> bool)
    ensures var g := Retry(replies, accept);
      && (g.Generated? ==> RejectedPrefix(replies, accept, g.requests - 1) && replies[g.requests - 1] == Payload(g.exercise))
      && (g.CallFailed? ==> RejectedPrefix(replies, accept, g.requests - 1) && replies[g.requests - 1].Thrown?)
      && (g.Unanswered? ==> RejectedPrefix(replies, accept, |replies|))
    decreases |replies|
  {
    if replies != [] && replies[0].Payload? && !accept(replies[0].payload) {
      var tail := replies[1..];
      RetryCharacterized(tail, accept);
      var g := Retry(replies, accept);
      assert g == Shift(Retry(tail, accept), 1);
      forall j | 1 <= j < |replies| ensures replies[j] == tail[j - 1] { }
    }
  }

  /**
   * `k` rejected payloads followed by an accepted one: the generator makes
   * exactly `k + 1` requests and returns that payload unchanged. With
   * `k = 0`, an accepted first reply costs one request.
   */
  lemma {:induction false} RetryAfterRejections<T>(replies: seq<Reply<T>>, accept: T -> bool, k: nat)
    requires RejectedPrefix(replies, accept, k) && k < |replies|
    requires replies[k].Payload? && accept(replies[k].payload)
    ensures Retry(replies, accept) == Generated(replies[k].payload, k + 1)
    decreases k
  {
    if k > 0 {
      assert replies[0].Payload? && !accept(replies[0].payload);
      var tail := replies[1..];
      assert RejectedPrefix(tail, accept, k - 1) by {
        forall j | 0 <= j < k - 1 ensures tail[j].Payload? && !accept(tail[j].payload) {
          assert tail[j] == replies[j + 1];
        }
      }
      RetryAfterRejections(tail, accept, k - 1);
    }
  }

  /** The retry as a loop over the replies: it computes what the recursive generator does. */
  method RetryLoop<T>(replies: seq<Reply<T>>, accept: T -> bool) returns (g: Generation<T>)
    ensures g == Retry(replies, accept)
  {
    var i := 0;
    while i < |replies|
      invariant 0 <= i <= |replies|
      invariant RejectedPrefix(replies, accept, i)
      invariant Retry(replies, accept) == Shift(Retry(replies[i..], accept), i)
    {
      if replies[i].Thrown? {
        return CallFailed(i + 1);
      }
      var p := replies[i].payload;
      if accept(p) {
        return Generated(p, i + 1);
      }
      assert replies[i..][1..] == replies[i + 1..];
      ShiftTwice(Retry(replies[i + 1..], accept), 1, i);
      i := i + 1;
    }
    return Unanswered;
  }

  /** `n` further requests, then `m` more before those, are `n + m` further requests. */
  lemma ShiftTwice<T>(g: Generation<T>, n: nat, m: nat)
    ensures Shift(Shift(g, n), m) == Shift(g, n + m)
  {
  }

  /** `generateFillInTheBlank`: what it returns has four options with the answer among them. */
  method GenerateFillInTheBlank(replies: seq<Reply<FillBlankExercise>>) returns (g: Generation<FillBlankExercise>)
    ensures g == Retry(replies, FillBlankAccepted)
    ensures g.Generated? ==> |g.exercise.options| == 4 && g.exercise.answer in g.exercise.options
  {
    g := RetryLoop(replies, FillBlankAccepted);
  }

  /** `generateMultipleChoice`: what it returns has four options; nothing is said of its answer. */
  method GenerateMultipleChoice(replies: seq<Reply<MCQExercise>>) returns (g: Generation<MCQExercise>)
    ensures g == Retry(replies, MultipleChoiceAccepted)
    ensures g.Generated? ==> |g.exercise.options| == 4
  {
    g := RetryLoop(replies, MultipleChoiceAccepted);
  }

  /** A multiple-choice payload whose answer is not among its options is returned on the first request. */
  lemma MultipleChoiceAnswerUnchecked()
    ensures var e := MCQExercise("q", ["a", "b", "c", "d"], "e");
      e.correctAnswer !in e.options && Retry([Payload(e)], MultipleChoiceAccepted) == Generated(e, 1)
  {
  }

  /** The check every payload passes. */
  predicate AcceptAny<T>(e: T)
  {
    true
  }

  /**
   * `generateReadingComprehension` and `generateEducationalCard`: one
   * request; the parsed payload is returned as it is, a thrown call
   * propagates, and nothing is retried.
   */
  function ParseOnce<T>(reply: Reply<T>): (g: Generation<T>)
    ensures g.Generated? <==> reply.Payload?
    ensures g.Generated? ==> g.exercise == reply.payload
    ensures !g.Unanswered? && g.requests == 1
  {
    match reply
    case Payload(p) => Generated(p, 1)
    case Thrown => CallFailed(1)
  }

  /** Returning as parsed is the retrying generator with a check that never fails. */
  lemma ParseOnceIsRetryWithoutCheck<T>(reply: Reply<T>, later: seq<Reply<T>>)
    ensures ParseOnce(reply) == Retry([reply] + later, AcceptAny)
  {
    assert ([reply] + later)[0] == reply;
  }
}
