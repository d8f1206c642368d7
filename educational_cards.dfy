/**
 * The educational-card session: fetch a card, show it, and move on through
 * 100 cards; the first half is requested at beginner level.
 */
module EducationalCards {
  import opened Wrappers
  import opened Types
  import opened SessionCounter
  import opened GeminiService

  /** The difficulty passed along with a card request. */
  datatype Level = Beginner | Intermediate

  /** The number of cards the counter runs through. */
  const TOTAL_CARDS: int := 100

  /** Cards numbered up to this are requested at beginner level. */
  const BEGINNER_CARDS: int := 50

  /** The level chosen for a card number. */
  function LevelFor(cardCount: int): (level: Level)
    ensures level == Beginner <==> cardCount <= BEGINNER_CARDS
    ensures level == Intermediate <==> cardCount > BEGINNER_CARDS
  {
    if cardCount <= BEGINNER_CARDS then Beginner else Intermediate
  }

  class Session {
    var card: Option<EducationalCard>
    var loading: bool
    var cardCount: int

    /** The counter stays in 1..100, and nothing is displayed while loading. */
    ghost predicate Valid()
      reads this
    {
      && 1 <= cardCount <= TOTAL_CARDS
      && (card.Some? ==> !loading)
    }

    /** The state on mount, before the first fetch. */
    constructor ()
      ensures Valid()
      ensures card == None && loading && cardCount == 1
    {
      card := None;
      loading := true;
      cardCount := 1;
    }

    /** Before the request: the card is hidden and loading is shown. */
    method StartFetch()
      requires Valid()
      modifies this
      ensures Valid()
      ensures loading && card == None && cardCount == old(cardCount)
    {
      loading := true;
      card := None;
    }

    /**
     * `fetchCard`: hide the card, request one at the level of the current
     * number, display it; loading ends whether the request succeeds or throws.
     */
    method FetchCard(reply: Reply<EducationalCard>) returns (level: Level, g: Generation<EducationalCard>)
      requires Valid()
      modifies this
      ensures Valid()
      ensures level == LevelFor(cardCount) && cardCount == old(cardCount)
      ensures g == ParseOnce(reply)
      ensures card == if reply.Payload? then Some(reply.payload) else None
      ensures !loading
    {
      StartFetch();
      level := LevelFor(cardCount);
      g := ParseOnce(reply);
      if g.Generated? {
        card := Some(g.exercise);
      }
      loading := false;
    }

    /**
     * `handleNextCard`: advance the number around 1..100 and fetch. The fetch
     * it starts belongs to the render before the update, so its level is
     * that of the previous number.
     */
    method HandleNextCard(reply: Reply<EducationalCard>) returns (level: Level, g: Generation<EducationalCard>)
      requires Valid()
      modifies this
      ensures Valid()
      ensures cardCount == NextCount(old(cardCount), TOTAL_CARDS)
      ensures level == LevelFor(old(cardCount))
      ensures g == ParseOnce(reply)
      ensures card == if reply.Payload? then Some(reply.payload) else None
      ensures !loading
    {
      level, g := FetchCard(reply);
      cardCount := NextCount(cardCount, TOTAL_CARDS);
    }
  }

}
