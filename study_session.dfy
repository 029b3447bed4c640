/**
 * The study-session engine behind the study screen. The component's six
 * pieces of state are the fields of `Session`; each user action (flip,
 * answer, previous, next, shuffle, reset) is a method that computes the
 * whole transition from the state before it and then sets the new state at
 * once, as React applies the batched state updates of one handler together.
 * The random orders the source draws with `Math.random` sorts are
 * parameters, required only to be permutations of what the source sorts.
 */
module StudySession {
  import opened Cards
  import Percent

  /** The answer counters of a session. */
  datatype Stats = Stats(correct: nat, incorrect: nat, total: nat)

  /**
   * The session invariant over the component's state values: the working
   * order is a reordering of the deck, whose ids are unique; every answer is
   * counted once, and every correct one marked one more id as known; and
   * each known id takes exactly one card out of the remaining ones.
   */
  ghost predicate Inv(cards: seq<Card>, shuffled: seq<Card>, known: set<int>, stats: Stats) {
    && UniqueIds(cards)
    && IsPermutation(shuffled, cards)
    && stats.total == stats.correct + stats.incorrect
    && stats.correct == |known|
    && |Unknown(shuffled, known)| + |known| == |cards|
  }

  /** Under the invariant, every known id is the id of a card of the deck. */
  lemma KnownIdsInDeck(cards: seq<Card>, shuffled: seq<Card>, known: set<int>, stats: Stats)
    requires Inv(cards, shuffled, known, stats)
    ensures known <= IdsOf(cards)
  {
    UniqueIdsPermutation(cards, shuffled);
    UnknownCount(shuffled, known);
    IdsOfPermutation(shuffled, cards);
    assert |shuffled| == |cards| by { assert |multiset(shuffled)| == |multiset(cards)|; }
    assert |known * IdsOf(cards)| == |known|;
    assert |known - IdsOf(cards)| == 0;
    assert known - IdsOf(cards) == {};
    forall x | x in known ensures x in IdsOf(cards) {
      assert x !in known - IdsOf(cards);
    }
  }

  /** The state after mounting or resetting satisfies the invariant, with every card remaining. */
  lemma InitialInv(cards: seq<Card>, order: seq<Card>)
    requires UniqueIds(cards) && IsPermutation(order, cards)
    ensures Inv(cards, order, {}, Stats(0, 0, 0))
    ensures Unknown(order, {}) == order
  {
    UnknownOfFresh(order, {});
    assert |order| == |cards| by { assert |multiset(order)| == |multiset(cards)|; }
  }

  /**
   * Answering the i-th remaining card: the answer is counted, a correct one
   * marks the card's id (which was not yet known) and takes exactly that
   * card out of the remaining ones, an incorrect one leaves them as they
   * were, and the invariant holds afterwards.
   */
  lemma AnswerStep(cards: seq<Card>, shuffled: seq<Card>, known: set<int>, stats: Stats,
                   i: nat, isCorrect: bool)
    requires Inv(cards, shuffled, known, stats)
    requires i < |Unknown(shuffled, known)|
    ensures var r := Unknown(shuffled, known);
      var known' := if isCorrect then known + {r[i].id} else known;
      var stats' := Stats(stats.correct + (if isCorrect then 1 else 0),
                          stats.incorrect + (if isCorrect then 0 else 1),
                          stats.total + 1);
      && Inv(cards, shuffled, known', stats')
      && |known'| == |known| + (if isCorrect then 1 else 0)
      && Unknown(shuffled, known') == if isCorrect then r[..i] + r[i + 1..] else r
  {
    if isCorrect {
      MarkKnown(shuffled, cards, known, i);
    }
  }

  /**
   * Shuffling the remaining cards into `order` and putting the known cards
   * behind them: the result is a reordering of the working order whose
   * remaining cards are exactly `order`, every known card sits behind them,
   * and the invariant holds afterwards.
   */
  lemma ShuffleStep(cards: seq<Card>, shuffled: seq<Card>, known: set<int>, stats: Stats,
                    order: seq<Card>)
    requires Inv(cards, shuffled, known, stats)
    requires IsPermutation(order, Unknown(shuffled, known))
    ensures var next := order + Known(shuffled, known);
      && Inv(cards, next, known, stats)
      && IsPermutation(next, shuffled)
      && Unknown(next, known) == order
      && |order| == |Unknown(shuffled, known)|
      && forall i | |order| <= i < |next| :: next[i].id in known
  {
    var r := Unknown(shuffled, known);
    UnknownFirst(shuffled, known, order);
    assert |order| == |r| by { assert |multiset(order)| == |multiset(r)|; }
  }

  class Session {
    /** The deck's cards as handed to the component. */
    const cards: seq<Card>
    /** Cursor into `Remaining()`. */
    var currentIndex: nat
    var isFlipped: bool
    var isCompleted: bool
    var stats: Stats
    /** Working order of all the deck's cards. */
    var shuffledCards: seq<Card>
    /** Ids of the cards answered correctly in this session. */
    var knownCardIds: set<int>

    /** The invariant, and while the session runs the cursor points at a remaining card. */
    ghost predicate Valid()
      reads this
    {
      && Inv(cards, shuffledCards, knownCardIds, stats)
      && (!isCompleted && shuffledCards != [] ==> currentIndex < |Remaining()|)
    }

    /** `remainingCards`: the working order without the known cards. */
    function Remaining(): (r: seq<Card>)
      reads this
      ensures |r| <= |shuffledCards|
      ensures forall i | 0 <= i < |r| :: r[i] in shuffledCards && r[i].id !in knownCardIds
    {
      var r := Unknown(shuffledCards, knownCardIds);
      forall i | 0 <= i < |r| ensures r[i] in shuffledCards && r[i].id !in knownCardIds {
        UnknownMembers(shuffledCards, knownCardIds, r[i]);
      }
      r
    }

    /** `currentCard`: the remaining card under the cursor. */
    function CurrentCard(): (c: Card)
      reads this
      requires currentIndex < |Remaining()|
      ensures c in shuffledCards && c.id !in knownCardIds
    {
      UnknownMembers(shuffledCards, knownCardIds, Remaining()[currentIndex]);
      Remaining()[currentIndex]
    }

    /** Width of the progress bar, in percent of the deck. */
    function Progress(): (p: nat)
      reads this
      requires Valid()
      ensures p <= 100
      ensures cards != [] ==> (p == 100 <==> Remaining() == [])
    {
      Percent.Progress(|knownCardIds|, |cards|)
    }

    /** The score shown during the session: correct answers over deck size. */
    function Score(): (r: nat)
      reads this
      requires Valid()
      ensures r <= 100
      ensures cards != [] && Remaining() == [] ==> r == 100
    {
      Percent.RoundedPercent(stats.correct, |cards|)
    }

    /** The score on the completion screen: correct answers over attempts. */
    function FinalScore(): (r: nat)
      reads this
      requires Valid()
      ensures r <= 100
      ensures stats.incorrect == 0 ==> r == (if stats.total == 0 then 0 else 100)
    {
      Percent.RoundedPercent(stats.correct, stats.total)
    }

    /** Mounting the component, with the effect that fills the working order. */
    constructor (cards: seq<Card>, order: seq<Card>)
      requires UniqueIds(cards) && IsPermutation(order, cards)
      ensures Valid()
      ensures this.cards == cards && shuffledCards == order && Remaining() == order
      ensures currentIndex == 0 && !isFlipped && !isCompleted
      ensures stats == Stats(0, 0, 0) && knownCardIds == {}
    {
      this.cards := cards;
      currentIndex := 0;
      isFlipped := false;
      isCompleted := false;
      stats := Stats(0, 0, 0);
      shuffledCards := order;
      knownCardIds := {};
      new;
      InitialInv(cards, order);
    }

    /** Show the other side of the current card. */
    method Flip()
      requires Valid()
      modifies this`isFlipped
      ensures Valid()
      ensures isFlipped == !old(isFlipped)
      ensures Progress() == old(Progress())
    {
      isFlipped := !isFlipped;
    }

    /**
     * Record an answer for the current card, then move on or complete.
     * Only the study screen offers it, and that screen is shown only while
     * the session is neither loading nor completed.
     */
    method Answer(isCorrect: bool)
      requires Valid()
      requires !isCompleted && shuffledCards != []
      modifies this`stats, this`knownCardIds, this`currentIndex, this`isFlipped, this`isCompleted
      ensures Valid()
      ensures stats.total == old(stats.total) + 1
      ensures stats.correct == old(stats.correct) + (if isCorrect then 1 else 0)
      ensures stats.incorrect == old(stats.incorrect) + (if isCorrect then 0 else 1)
      ensures knownCardIds == if isCorrect then old(knownCardIds) + {old(CurrentCard()).id} else old(knownCardIds)
      ensures |knownCardIds| == old(|knownCardIds|) + (if isCorrect then 1 else 0)
      ensures Remaining() == if isCorrect then old(Remaining()[..currentIndex] + Remaining()[currentIndex + 1..])
                             else old(Remaining())
      ensures old(currentIndex) + 1 < |Remaining()| ==> currentIndex == old(currentIndex) + 1 && !isFlipped
      ensures old(currentIndex) + 1 >= |Remaining()| > 1 ==> currentIndex == 0 && !isFlipped
      ensures isCorrect && old(currentIndex) + 1 < |Remaining()| ==>
                CurrentCard() == old(Remaining())[old(currentIndex) + 2]
      ensures isCompleted <==> |Remaining()| <= 1
      ensures isCompleted ==> currentIndex == old(currentIndex) && isFlipped == old(isFlipped)
      ensures Progress() >= old(Progress())
    {
      var current := CurrentCard();
      ghost var before := Remaining();
      var newStats := Stats(stats.correct + (if isCorrect then 1 else 0),
                            stats.incorrect + (if isCorrect then 0 else 1),
                            stats.total + 1);
      var newKnown := if isCorrect then knownCardIds + {current.id} else knownCardIds;
      AnswerStep(cards, shuffledCards, knownCardIds, stats, currentIndex, isCorrect);
      var newRemaining := Unknown(shuffledCards, newKnown);
      var newIndex, newFlipped, newCompleted := currentIndex, isFlipped, isCompleted;
      if currentIndex < |newRemaining| - 1 {
        assert isCorrect ==> newRemaining[currentIndex + 1] == before[currentIndex + 2];
        newIndex, newFlipped := currentIndex + 1, false;
      } else if |newRemaining| > 1 {
        newIndex, newFlipped := 0, false;
      } else {
        newCompleted := true;
      }
      Percent.ProgressMonotonic(|knownCardIds|, |newKnown|, |cards|);
      stats, knownCardIds, currentIndex, isFlipped, isCompleted :=
        newStats, newKnown, newIndex, newFlipped, newCompleted;
    }

    /** Step back one card; nothing happens on the first card. */
    method Previous()
      requires Valid()
      modifies this`currentIndex, this`isFlipped
      ensures Valid()
      ensures old(currentIndex) > 0 ==> currentIndex == old(currentIndex) - 1 && !isFlipped
      ensures old(currentIndex) == 0 ==> currentIndex == 0 && isFlipped == old(isFlipped)
      ensures Progress() == old(Progress())
    {
      if currentIndex > 0 {
        currentIndex := currentIndex - 1;
        isFlipped := false;
      }
    }

    /** Step forward one card; nothing happens on the last remaining card. */
    method Next()
      requires Valid()
      modifies this`currentIndex, this`isFlipped
      ensures Valid()
      ensures old(currentIndex) + 1 < |Remaining()| ==> currentIndex == old(currentIndex) + 1 && !isFlipped
      ensures old(currentIndex) + 1 >= |Remaining()| ==> currentIndex == old(currentIndex) && isFlipped == old(isFlipped)
      ensures Progress() == old(Progress())
    {
      if currentIndex < |Remaining()| - 1 {
        currentIndex := currentIndex + 1;
        isFlipped := false;
      }
    }

    /**
     * Reorder the remaining cards to `order` (the source sorts them with a
     * random comparator) and put the known cards after them.
     */
    method Shuffle(order: seq<Card>)
      requires Valid()
      requires IsPermutation(order, Remaining())
      modifies this`shuffledCards, this`currentIndex, this`isFlipped
      ensures Valid()
      ensures shuffledCards == order + Known(old(shuffledCards), knownCardIds)
      ensures IsPermutation(shuffledCards, old(shuffledCards))
      ensures Remaining() == order
      ensures forall i | |order| <= i < |shuffledCards| :: shuffledCards[i].id in knownCardIds
      ensures currentIndex == 0 && !isFlipped
      ensures Progress() == old(Progress())
    {
      var next := order + Known(shuffledCards, knownCardIds);
      ShuffleStep(cards, shuffledCards, knownCardIds, stats, order);
      shuffledCards, currentIndex, isFlipped := next, 0, false;
    }

    /** Start over: a fresh order of the whole deck and all counters cleared. */
    method Reset(order: seq<Card>)
      requires Valid()
      requires IsPermutation(order, cards)
      modifies this`currentIndex, this`isFlipped, this`isCompleted, this`stats, this`knownCardIds, this`shuffledCards
      ensures Valid()
      ensures shuffledCards == order && Remaining() == order
      ensures currentIndex == 0 && !isFlipped && !isCompleted
      ensures stats == Stats(0, 0, 0) && knownCardIds == {}
    {
      InitialInv(cards, order);
      currentIndex, isFlipped, isCompleted := 0, false, false;
      stats, knownCardIds, shuffledCards := Stats(0, 0, 0), {}, order;
    }

    /**
     * The check made while rendering: a loaded session with no remaining
     * card is completed. In a valid session it never changes anything.
     */
    method CompleteIfExhausted()
      requires Valid()
      modifies this`isCompleted
      ensures Valid()
      ensures isCompleted == (old(isCompleted) || (shuffledCards != [] && Remaining() == []))
      ensures isCompleted == old(isCompleted)
    {
      if shuffledCards != [] && |Remaining()| == 0 {
        isCompleted := true;
      }
    }
  }

  /**
   * Two cards in the order [a, b]: one correct answer on a already completes
   * the session, although b was never answered.
   */
  method CompletesWithCardLeft(a: Card, b: Card) returns (s: Session)
    requires a.id != b.id
    ensures s.Valid() && s.isCompleted && s.Remaining() == [b]
    ensures s.Progress() == 50
  {
    s := new Session([a, b], [a, b]);
    s.Answer(true);
    assert s.Remaining() == [a, b][..0] + [a, b][1..];
    assert |s.knownCardIds| == 1;
    assert Percent.Progress(1, 2) == 50;
  }

  /**
   * A single card answered incorrectly completes the session with nothing
   * mastered.
   */
  method CompletesAfterWrongAnswer(a: Card) returns (s: Session)
    ensures s.Valid() && s.isCompleted
    ensures s.Remaining() == [a] && s.knownCardIds == {}
    ensures s.stats == Stats(0, 1, 1) && s.Progress() == 0 && s.FinalScore() == 0
  {
    s := new Session([a], [a]);
    s.Answer(false);
  }
}
