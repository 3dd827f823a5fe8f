/** The review page: it walks through the due list fetched when the page
    opened, asks each card in a randomly chosen mode, and turns the learner's
    self-assessment into a correct or wrong answer for the scheduler. */
module ReviewPage {
  import opened Wrappers
  import opened Schema
  import opened Storage
  import opened ReviewOutcome

  /** The four buttons under a revealed answer. */
  datatype Response = JustLearned | StillLearning | Good | Easy

  /** Only "good" and "easy" count as a correct answer. */
  function IsCorrect(r: Response): (c: bool)
    ensures c <==> (r == Good || r == Easy)
    ensures c <==> !(r == JustLearned || r == StillLearning)
  {
    r != JustLearned && r != StillLearning
  }

  datatype QuestionMode = WordMode | DefinitionMode | ImageMode

  /** The modes a card can be asked in: word and definition always, image
      only when the card has at least one image. */
  function QuestionModes(imageUrls: seq<string>): (r: seq<QuestionMode>)
    ensures |r| == if |imageUrls| > 0 then 3 else 2
    ensures r[..2] == [WordMode, DefinitionMode]
    ensures ImageMode in r <==> |imageUrls| > 0
  {
    if |imageUrls| > 0 then [WordMode, DefinitionMode, ImageMode] else [WordMode, DefinitionMode]
  }

  /** `modes[Math.floor(Math.random() * modes.length)]`, with the random
      number `u`, drawn from [0, 1), passed in. */
  function PickQuestionMode(imageUrls: seq<string>, u: real): (r: QuestionMode)
    requires 0.0 <= u < 1.0
    ensures r in QuestionModes(imageUrls)
    ensures r == ImageMode ==> |imageUrls| > 0
  {
    var modes := QuestionModes(imageUrls);
    var i := (u * |modes| as real).Floor;
    modes[i]
  }

  /** No mode is starved: every mode the card allows is the pick for some
      random number. */
  lemma EveryModeReachable(imageUrls: seq<string>, m: QuestionMode)
    requires m in QuestionModes(imageUrls)
    ensures exists u: real :: 0.0 <= u < 1.0 && PickQuestionMode(imageUrls, u) == m
  {
    var modes := QuestionModes(imageUrls);
    var n := |modes|;
    var i :| 0 <= i < n && modes[i] == m;
    var u := i as real / n as real;
    assert u * n as real == i as real;
    assert PickQuestionMode(imageUrls, u) == m;
  }

  /** The page's own state: the position in the due list, whether the answer
      is shown, the running score, and whether the walk is over. */
  datatype Page = Page(currentIndex: int, showAnswer: bool, correct: int, total: int, complete: bool)

  const StartPage := Page(0, false, 0, 0, false)

  /** What the learner is told after a response. */
  datatype Notice = NoNotice | UpdateFailed | SessionComplete(correct: int, total: int)

  /** `dueReviews?.[currentIndex]`. */
  function CurrentSession(due: seq<ReviewSession>, page: Page): (r: Option<ReviewSession>)
    ensures r.Some? <==> 0 <= page.currentIndex < |due|
    ensures r.Some? ==> r.value in due
  {
    if 0 <= page.currentIndex < |due| then Some(due[page.currentIndex]) else None
  }

  /** `handleMasteryResponse`. Nothing happens without a current session or
      without loaded settings. A failed update changes nothing and reports
      the failure. A successful one scores the answer, then moves to the
      next card, or, on the last card, ends the walk and reports the score
      including this answer. */
  function HandleMasteryResponse(
    st: MemStore, due: seq<ReviewSession>, settings: Option<StudySettings>, page: Page,
    response: Response, userId: string, now: Millis): (r: (MemStore, Page, Notice))
    requires Valid(st)
    ensures (CurrentSession(due, page).None? || settings.None?) ==> r == (st, page, NoNotice)
    ensures CurrentSession(due, page).Some? && settings.Some? ==>
      var outcome := ApplyOutcome(st, due[page.currentIndex].id, userId, IsCorrect(response), settings.value, now);
      && (outcome.Failure? ==> r == (st, page, UpdateFailed))
      && (outcome.Success? ==>
        var (st', page', notice) := r;
        && st' == outcome.value.0
        && page'.total == page.total + 1
        && page'.correct == page.correct + (if IsCorrect(response) then 1 else 0)
        && (page.currentIndex < |due| - 1 ==>
              page'.currentIndex == page.currentIndex + 1 && !page'.showAnswer && page'.complete == page.complete && notice == NoNotice)
        && (page.currentIndex == |due| - 1 ==>
              page'.currentIndex == page.currentIndex && page'.complete && notice == SessionComplete(page'.correct, page'.total)))
  {
    match CurrentSession(due, page)
    case None => (st, page, NoNotice)
    case Some(current) =>
      match settings
      case None => (st, page, NoNotice)
      case Some(s) =>
        var correct := IsCorrect(response);
        match ApplyOutcome(st, current.id, userId, correct, s, now)
        case Failure(_) => (st, page, UpdateFailed)
        case Success((st', _)) =>
          var scored := page.(correct := page.correct + (if correct then 1 else 0), total := page.total + 1);
          if page.currentIndex < |due| - 1 then
            (st', scored.(currentIndex := page.currentIndex + 1, showAnswer := false), NoNotice)
          else
            (st', scored.(complete := true), SessionComplete(scored.correct, scored.total))
  }

  /** A score is sensible: 0 <= correct <= total. */
  predicate ScoreSensible(page: Page) {
    0 <= page.correct <= page.total
  }

  /** Every response keeps the score sensible and the position inside the
      due list, and raises the total by at most one. */
  lemma ResponseKeepsPageSensible(
    st: MemStore, due: seq<ReviewSession>, settings: Option<StudySettings>, page: Page,
    response: Response, userId: string, now: Millis)
    requires Valid(st) && ScoreSensible(page) && 0 <= page.currentIndex < |due|
    ensures var page' := HandleMasteryResponse(st, due, settings, page, response, userId, now).1;
      && ScoreSensible(page')
      && 0 <= page'.currentIndex < |due|
      && page.total <= page'.total <= page.total + 1
      && page.currentIndex <= page'.currentIndex <= page.currentIndex + 1
  {
  }
}
