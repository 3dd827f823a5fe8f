/** Applying one review outcome to a stored session, as the client's
    update mutation does: read the session, run the mastery policy on its
    level with the learner's interval table, and write back the new level,
    the new due time and the bumped counters. */
module ReviewOutcome {
  import opened Wrappers
  import opened Schema
  import opened SpacedRepetition
  import opened Storage

  /** JavaScript `value || fallback` on a nullable number: `undefined`,
      `null` and 0 are all falsy and give the fallback. */
  function OrDefault(v: Option<int>, fallback: int): (r: int)
    ensures v.None? ==> r == fallback
    ensures v.Some? ==> r == (if v.value == 0 then fallback else v.value)
  {
    match v
    case None => fallback
    case Some(x) => if x == 0 then fallback else x
  }

  /** The table the mutation hands to the policy: each configured interval,
      or its default (0, 1, 3, 7, 30) when missing or 0. */
  function EffectiveIntervals(s: StudySettings): (r: Intervals)
    ensures r.level0 == OrDefault(s.level0Interval, DefaultIntervals.level0)
    ensures r.level1 == OrDefault(s.level1Interval, DefaultIntervals.level1)
    ensures r.level2 == OrDefault(s.level2Interval, DefaultIntervals.level2)
    ensures r.level3 == OrDefault(s.level3Interval, DefaultIntervals.level3)
    ensures r.level4 == OrDefault(s.level4Interval, DefaultIntervals.level4)
  {
    Intervals(
      OrDefault(s.level0Interval, 0),
      OrDefault(s.level1Interval, 1),
      OrDefault(s.level2Interval, 3),
      OrDefault(s.level3Interval, 7),
      OrDefault(s.level4Interval, 30))
  }

  /** Because of `||`, a configured 0 for levels 1 to 4 cannot take effect:
      the effective entries for those levels are never 0, and a 0 there
      yields the default instead. The stored defaults pass through unchanged. */
  lemma ZeroIntervalsReplaced(s: StudySettings, level: int)
    requires 1 <= level <= MaxLevel
    ensures IntervalDays(EffectiveIntervals(s), level) != 0
    ensures EffectiveIntervals(s.(level1Interval := Some(0))).level1 == 1
    ensures EffectiveIntervals(s.(level4Interval := Some(0))).level4 == 30
    ensures EffectiveIntervals(DefaultStudySettings(s.userId)) == DefaultIntervals
  {
  }

  /** The update payload the mutation sends: new level and due time from
      the policy applied to the stored level (0 when missing), both counters
      bumped, `lastReviewed` now; card type and active flag are not sent. */
  function OutcomePatch(current: ReviewSession, correct: bool, settings: StudySettings, now: Millis): (r: SessionPatch)
    ensures var t := CalculateNextReviewDate(OrDefault(current.masteryLevel, 0), correct, EffectiveIntervals(settings), now);
      && r.masteryLevel == Some(t.nextLevel) && r.nextReviewDate == Some(t.nextReviewDate)
    ensures r.reviewCount == Some(OrDefault(current.reviewCount, 0) + 1)
    ensures r.correctCount == Some(OrDefault(current.correctCount, 0) + (if correct then 1 else 0))
    ensures r.lastReviewed == Some(now)
    ensures r.cardType.None? && r.isActive.None?
  {
    var t := CalculateNextReviewDate(OrDefault(current.masteryLevel, 0), correct, EffectiveIntervals(settings), now);
    var reviewCount := OrDefault(current.reviewCount, 0) + 1;
    var correctCount := if correct then OrDefault(current.correctCount, 0) + 1 else OrDefault(current.correctCount, 0);
    SessionPatch(Some(t.nextLevel), Some(now), Some(t.nextReviewDate), Some(reviewCount), Some(correctCount), None, None)
  }

  /** The largest time value a JavaScript `Date` holds: 8.64e15 ms, 100
      million days either side of the epoch. Beyond it a `Date` is invalid. */
  const MaxTimeValue: int := 8_640_000_000_000_000

  predicate ValidTime(t: Millis) {
    -MaxTimeValue <= t <= MaxTimeValue
  }

  /** The mutation as one sequential step: the read and the write both go
      through the owner check, so a session that is missing or someone
      else's is "not found" and nothing changes. A due time outside the
      `Date` range makes `toISOString` throw before the write, so nothing
      changes then either. */
  function ApplyOutcome(st: MemStore, id: int, userId: string, correct: bool, settings: StudySettings, now: Millis): (r: Result<(MemStore, ReviewSession)>)
    requires Valid(st)
    ensures GetReviewSession(st, id, userId).None? ==> r == Failure(NotFound)
    ensures GetReviewSession(st, id, userId).Some? ==>
      var s := st.sessions[id];
      var t := CalculateNextReviewDate(OrDefault(s.masteryLevel, 0), correct, EffectiveIntervals(settings), now);
      (r.Failure? <==> !ValidTime(t.nextReviewDate)) && (r.Failure? ==> r.error == InvalidTime)
    ensures r.Success? ==> var (st', s') := r.value; var s := st.sessions[id];
      var t := CalculateNextReviewDate(OrDefault(s.masteryLevel, 0), correct, EffectiveIntervals(settings), now);
      && Valid(st')
      && st'.sessions == st.sessions[id := s']
      && st'.cards == st.cards && st'.currentSessionId == st.currentSessionId && st'.recentActivity == st.recentActivity
      && st'.currentCardId == st.currentCardId
      && s'.id == s.id && s'.userId == s.userId == userId && s'.cardId == s.cardId
      && s'.cardType == s.cardType && s'.isActive == s.isActive
      && s'.masteryLevel == Some(t.nextLevel) && s'.nextReviewDate == t.nextReviewDate
      && s'.reviewCount == Some(OrDefault(s.reviewCount, 0) + 1)
      && s'.correctCount == Some(OrDefault(s.correctCount, 0) + (if correct then 1 else 0))
      && s'.lastReviewed == now
  {
    match GetReviewSession(st, id, userId)
    case None => Failure(NotFound)
    case Some(current) =>
      var patch := OutcomePatch(current, correct, settings, now);
      if !ValidTime(patch.nextReviewDate.value) then Failure(InvalidTime)
      else UpdateReviewSession(st, id, patch, userId, now)
  }

  /** A level-3 interval of 10^11 days puts the next review of a correct
      level-2 answer beyond the `Date` range, so the review is not recorded. */
  lemma HugeIntervalNotRecorded(st: MemStore, id: nat, userId: string, settings: StudySettings, now: Millis)
    requires Valid(st) && id in st.sessions && st.sessions[id].userId == userId
    requires st.sessions[id].masteryLevel == Some(2) && ValidTime(now)
    requires settings.level3Interval == Some(100_000_000_000)
    ensures ApplyOutcome(st, id, userId, true, settings, now) == Failure(InvalidTime)
  {
  }

  /** A session whose scheduling state is meaningful: a level in 0..4 and
      counters with 0 <= correct <= reviews. */
  predicate WellFormed(s: ReviewSession) {
    && s.masteryLevel.Some? && 0 <= s.masteryLevel.value <= MaxLevel
    && s.reviewCount.Some? && s.correctCount.Some?
    && 0 <= s.correctCount.value <= s.reviewCount.value
  }

  predicate AllWellFormed(st: MemStore) {
    forall k :: k in st.sessions ==> WellFormed(st.sessions[k])
  }

  /** Applying an outcome keeps every session well formed: the level stays
      in 0..4, the review count grows by exactly one, the correct count by
      one exactly on a correct answer, so correct <= reviews still holds. */
  lemma ApplyOutcomePreservesWellFormed(st: MemStore, id: int, userId: string, correct: bool, settings: StudySettings, now: Millis)
    requires Valid(st) && AllWellFormed(st)
    requires ApplyOutcome(st, id, userId, correct, settings, now).Success?
    ensures var (st', s') := ApplyOutcome(st, id, userId, correct, settings, now).value;
      && AllWellFormed(st')
      && s'.reviewCount.value == st.sessions[id].reviewCount.value + 1
      && s'.correctCount.value == st.sessions[id].correctCount.value + (if correct then 1 else 0)
  {
    var (st', s') := ApplyOutcome(st, id, userId, correct, settings, now).value;
    var s := st.sessions[id];
    assert WellFormed(s);
    assert OrDefault(s.masteryLevel, 0) == s.masteryLevel.value;
    assert OrDefault(s.reviewCount, 0) == s.reviewCount.value;
    assert OrDefault(s.correctCount, 0) == s.correctCount.value;
    assert WellFormed(s');
  }

  /** Reviewing a session of one user leaves every other user's due and
      active lists unchanged. */
  lemma ApplyOutcomeIsolated(st: MemStore, id: int, userId: string, correct: bool, settings: StudySettings, now: Millis, other: string, asOf: Millis)
    requires Valid(st) && other != userId
    requires ApplyOutcome(st, id, userId, correct, settings, now).Success?
    ensures var st' := ApplyOutcome(st, id, userId, correct, settings, now).value.0;
      && ActiveReviewSessions(st', other) == ActiveReviewSessions(st, other)
      && DueReviewSessions(st', other, asOf) == DueReviewSessions(st, other, asOf)
  {
    var current := GetReviewSession(st, id, userId).value;
    UpdateIsolated(st, id, OutcomePatch(current, correct, settings, now), userId, now, other, asOf);
  }

  /** A new card is due at once with both sessions; a correct answer with
      the default table moves the recognition session to level 1, due one
      day later, with one review and one correct answer, and it is no longer
      due at the time of the answer. */
  lemma NewCardThenCorrect(st: MemStore, word: string, userId: string, created: Millis, answered: Millis)
    requires Valid(st) && created <= answered && ValidTime(answered + MillisPerDay)
    ensures var (st1, card) := CreateVocabularyCard(st, word, None, userId, created);
      var rid := st.currentSessionId;
      && st1.sessions[rid] in DueReviewSessions(st1, userId, created)
      && st1.sessions[rid + 1] in DueReviewSessions(st1, userId, created)
      && var r := ApplyOutcome(st1, rid, userId, true, DefaultStudySettings(userId), answered);
      && r.Success?
      && r.value.1.masteryLevel == Some(1)
      && r.value.1.nextReviewDate == answered + MillisPerDay
      && r.value.1.reviewCount == Some(1) && r.value.1.correctCount == Some(1)
      && r.value.1 !in DueReviewSessions(r.value.0, userId, answered)
  {
    var (st1, card) := CreateVocabularyCard(st, word, None, userId, created);
    var rid := st.currentSessionId;
    assert st1.sessions[rid] in st1.sessions.Values;
    assert st1.sessions[rid + 1] in st1.sessions.Values;
    assert EffectiveIntervals(DefaultStudySettings(userId)) == DefaultIntervals;
  }

  /** A wrong answer on a level-3 session brings it back to level 0, due at
      the time of the answer, so an active session shows up in the due list
      again straight away. */
  lemma WrongAnswerDueAgain(st: MemStore, id: nat, userId: string, settings: StudySettings, now: Millis)
    requires Valid(st) && id in st.sessions && st.sessions[id].userId == userId
    requires st.sessions[id].masteryLevel == Some(3) && IsActive(st.sessions[id]) && ValidTime(now)
    ensures var r := ApplyOutcome(st, id, userId, false, settings, now);
      && r.Success?
      && r.value.1.masteryLevel == Some(0) && r.value.1.nextReviewDate == now
      && r.value.1 in DueReviewSessions(r.value.0, userId, now)
  {
    var r := ApplyOutcome(st, id, userId, false, settings, now);
    assert r.value.0.sessions[id] == r.value.1;
    assert r.value.1 in r.value.0.sessions.Values;
  }
}
