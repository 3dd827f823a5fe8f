/** Extra practice: a random selection of the learner's cards, shown one by
    one. Practice keeps its own counters and never reads or writes the
    scheduler's store, so it takes no store at all. */
module PracticePage {
  import opened Schema
  import opened JsText

  /** The page state: the cards drawn for this round, the position, whether
      the answer is shown, how many cards were worked through, how many were
      drawn, and whether a round is running. */
  datatype Practice = Practice(
    cards: seq<VocabularyCard>,
    currentIndex: int,
    showAnswer: bool,
    attempted: int,
    total: int,
    started: bool)

  const NotStarted := Practice([], 0, false, 0, 0, false)

  /** What the learner is told when a round ends: how many cards they
      practised. */
  datatype Notice = NoNotice | PracticeComplete(practised: int)

  /** `startPracticeSession(count)`: with no cards nothing happens; otherwise
      the first `Math.min(count, allCards.length)` cards of a shuffle of all
      cards start a new round. `shuffled` is the shuffle: any reordering of
      the cards. */
  function StartPracticeSession(allCards: seq<VocabularyCard>, shuffled: seq<VocabularyCard>, count: int, p: Practice): (r: Practice)
    requires multiset(shuffled) == multiset(allCards)
    ensures |allCards| == 0 ==> r == p
    ensures |allCards| > 0 ==>
      && r.started && r.currentIndex == 0 && !r.showAnswer && r.attempted == 0
      && r.total == |r.cards|
      && multiset(r.cards) <= multiset(allCards)
      && (0 <= count ==> |r.cards| == Min(count, |allCards|))
  {
    if |allCards| == 0 then p
    else
      assert |shuffled| == |allCards| by {
        assert |multiset(shuffled)| == |multiset(allCards)|;
      }
      var selected := SliceTo(shuffled, Min(count, |allCards|));
      assert shuffled == selected + shuffled[|selected|..];
      assert multiset(shuffled) == multiset(selected) + multiset(shuffled[|selected|..]);
      Practice(selected, 0, false, 0, |selected|, true)
  }

  function Min(a: int, b: int): int {
    if a <= b then a else b
  }

  /** `handleNextCard`: the card counts as worked through; the round moves
      on, or ends on the last card and reports the count including it. */
  function NextCard(p: Practice): (r: (Practice, Notice))
    ensures r.0.attempted == p.attempted + 1
    ensures r.0.cards == p.cards && r.0.total == p.total
    ensures p.currentIndex < |p.cards| - 1 ==>
      r.0.currentIndex == p.currentIndex + 1 && !r.0.showAnswer && r.0.started == p.started && r.1 == NoNotice
    ensures p.currentIndex >= |p.cards| - 1 ==>
      r.0.currentIndex == p.currentIndex && !r.0.started && r.1 == PracticeComplete(p.attempted + 1)
  {
    var counted := p.(attempted := p.attempted + 1);
    if p.currentIndex < |p.cards| - 1 then
      (counted.(currentIndex := p.currentIndex + 1, showAnswer := false), NoNotice)
    else
      (counted.(started := false), PracticeComplete(p.attempted + 1))
  }

  /** `handleSkipCard`: like moving on, but the card does not count. */
  function SkipCard(p: Practice): (r: (Practice, Notice))
    ensures r.0.attempted == p.attempted
    ensures r.0.cards == p.cards && r.0.total == p.total
    ensures p.currentIndex < |p.cards| - 1 ==>
      r.0.currentIndex == p.currentIndex + 1 && !r.0.showAnswer && r.0.started == p.started && r.1 == NoNotice
    ensures p.currentIndex >= |p.cards| - 1 ==>
      r.0.currentIndex == p.currentIndex && !r.0.started && r.1 == PracticeComplete(p.attempted)
  {
    if p.currentIndex < |p.cards| - 1 then
      (p.(currentIndex := p.currentIndex + 1, showAnswer := false), NoNotice)
    else
      (p.(started := false), PracticeComplete(p.attempted))
  }

  /** `handleRestartSession`: a new round of as many cards as the last one. */
  function RestartSession(allCards: seq<VocabularyCard>, shuffled: seq<VocabularyCard>, p: Practice): (r: Practice)
    requires multiset(shuffled) == multiset(allCards)
    ensures |allCards| > 0 ==> r.started && r.attempted == 0 && r.currentIndex == 0
    ensures |allCards| > 0 ==> |r.cards| == Min(|p.cards|, |allCards|)
  {
    StartPracticeSession(allCards, shuffled, |p.cards|, p)
  }

  /** A round is consistent: the position lies inside the drawn cards, the
      worked-through count never exceeds the cards already left behind (one
      more once the round is over), and the total is the number drawn. */
  predicate Consistent(p: Practice) {
    && 0 <= p.attempted <= p.currentIndex + (if p.started then 0 else 1)
    && (|p.cards| > 0 ==> p.currentIndex < |p.cards|)
    && p.total == |p.cards|
  }

  /** Starting, moving on and skipping keep a round consistent, and the
      number reported at the end of a round never exceeds the number of
      cards drawn. */
  lemma StepsKeepConsistent(allCards: seq<VocabularyCard>, shuffled: seq<VocabularyCard>, count: int, p: Practice)
    requires multiset(shuffled) == multiset(allCards) && Consistent(p)
    ensures Consistent(StartPracticeSession(allCards, shuffled, count, p))
    ensures p.started ==> Consistent(NextCard(p).0) && Consistent(SkipCard(p).0)
    ensures p.started && |p.cards| > 0 && NextCard(p).1.PracticeComplete? ==> NextCard(p).1.practised <= |p.cards|
    ensures p.started && |p.cards| > 0 && SkipCard(p).1.PracticeComplete? ==> SkipCard(p).1.practised < |p.cards|
  {
  }
}
