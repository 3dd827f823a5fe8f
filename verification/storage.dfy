/** The review-session part of the in-memory store: a map from id to an
    immutable session record, a map from id to card, the two id counters
    and the rolling activity log. Every operation is a pure function from
    the store before to the store after; an operation that throws in the
    source returns `Failure` and leaves the store as it was. */
module Storage {
  import opened Wrappers
  import opened Schema

  datatype Activity = Activity(kind: string, word: string, timestamp: Millis, details: string, userId: Option<string>)

  datatype MemStore = MemStore(
    cards: map<nat, VocabularyCard>,
    sessions: map<nat, ReviewSession>,
    currentCardId: nat,
    currentSessionId: nat,
    recentActivity: seq<Activity>)

  /** Length of the rolling activity log. */
  const MaxActivity: int := 50

  /** The store as constructed: both id counters at 1, nothing stored. */
  const Initial := MemStore(map[], map[], 1, 1, [])

  predicate KeyedById(m: map<nat, ReviewSession>) {
    forall k :: k in m ==> m[k].id == k
  }

  /** The representation invariant: sessions and cards are stored under their
      own id, every id handed out is below its counter, and the log is
      within its cap. */
  predicate Valid(st: MemStore) {
    && KeyedById(st.sessions)
    && (forall k :: k in st.sessions ==> k < st.currentSessionId)
    && (forall k :: k in st.cards ==> st.cards[k].id == k && k < st.currentCardId)
    && |st.recentActivity| <= MaxActivity
  }

  lemma InitialValid()
    ensures Valid(Initial)
  {
  }

  /** `Array.from(map.values()).filter(p)` for a map whose keys are all below
      `hi`: a JavaScript `Map` iterates in insertion order, which for these
      maps is ascending id, since a key is only ever inserted fresh. */
  function Select(m: map<nat, ReviewSession>, hi: nat, p: ReviewSession -> bool): (r: seq<ReviewSession>)
    requires KeyedById(m)
    ensures forall x :: x in r <==> x.id < hi && x.id in m && m[x.id] == x && p(x)
    ensures forall i, j :: 0 <= i < j < |r| ==> r[i].id < r[j].id
  {
    if hi == 0 then []
    else Select(m, hi - 1, p) + (if hi - 1 in m && p(m[hi - 1]) then [m[hi - 1]] else [])
  }

  /** A filter no stored session passes selects nothing. */
  lemma {:induction false} SelectNone(m: map<nat, ReviewSession>, hi: nat, p: ReviewSession -> bool)
    requires KeyedById(m)
    requires forall k :: k in m && k < hi ==> !p(m[k])
    ensures Select(m, hi, p) == []
  {
    if hi > 0 {
      SelectNone(m, hi - 1, p);
    }
  }

  /** Two maps that hold the same sessions of one user give the same
      selection for any filter that only accepts that user's sessions:
      what other users' sessions do never shows in a user's query. */
  lemma {:induction false} SelectIsolated(
    m1: map<nat, ReviewSession>, hi1: nat, m2: map<nat, ReviewSession>, hi2: nat,
    userId: string, p: ReviewSession -> bool)
    requires KeyedById(m1) && KeyedById(m2)
    requires forall x :: p(x) ==> x.userId == userId
    requires forall k :: k in m1 && k < hi1 && m1[k].userId == userId ==> k in m2 && k < hi2 && m2[k] == m1[k]
    requires forall k :: k in m2 && k < hi2 && m2[k].userId == userId ==> k in m1 && k < hi1 && m1[k] == m2[k]
    ensures Select(m1, hi1, p) == Select(m2, hi2, p)
    decreases hi1 + hi2
  {
    if hi1 == 0 && hi2 == 0 {
    } else if hi1 == hi2 {
      var k := hi1 - 1;
      SelectIsolated(m1, k, m2, k, userId, p);
      var t1 := if k in m1 && p(m1[k]) then [m1[k]] else [];
      var t2 := if k in m2 && p(m2[k]) then [m2[k]] else [];
      assert t1 == t2 by {
        if k in m1 && p(m1[k]) {
          assert m1[k].userId == userId;
        }
        if k in m2 && p(m2[k]) {
          assert m2[k].userId == userId;
        }
      }
      SelectStep(m1, m2, k, p);
    } else if hi1 > hi2 {
      var k := hi1 - 1;
      SelectIsolated(m1, k, m2, hi2, userId, p);
      assert !(k in m1 && p(m1[k]));
      SelectUnfold(m1, hi1, p);
      assert Select(m1, hi1, p) == Select(m1, k, p) + [];
    } else {
      var k := hi2 - 1;
      SelectIsolated(m1, hi1, m2, k, userId, p);
      assert !(k in m2 && p(m2[k]));
      SelectUnfold(m2, hi2, p);
      assert Select(m2, hi2, p) == Select(m2, k, p) + [];
    }
  }

  /** Selections that agree below `k` and on the candidate `k` agree below `k + 1`. */
  lemma SelectStep(m1: map<nat, ReviewSession>, m2: map<nat, ReviewSession>, k: nat, p: ReviewSession -> bool)
    requires KeyedById(m1) && KeyedById(m2)
    requires Select(m1, k, p) == Select(m2, k, p)
    requires (if k in m1 && p(m1[k]) then [m1[k]] else []) == (if k in m2 && p(m2[k]) then [m2[k]] else [])
    ensures Select(m1, k + 1, p) == Select(m2, k + 1, p)
  {
    SelectUnfold(m1, k + 1, p);
    SelectUnfold(m2, k + 1, p);
  }

  /** One step of `Select`: the last candidate id is appended when it passes. */
  lemma SelectUnfold(m: map<nat, ReviewSession>, hi: nat, p: ReviewSession -> bool)
    requires KeyedById(m) && hi > 0
    ensures Select(m, hi, p) == Select(m, hi - 1, p) + (if hi - 1 in m && p(m[hi - 1]) then [m[hi - 1]] else [])
  {
  }

  /** `getReviewSession`: the session with that id, if the caller owns it. */
  function GetReviewSession(st: MemStore, id: int, userId: string): (r: Option<ReviewSession>)
    ensures r.Some? <==> id >= 0 && id in st.sessions && st.sessions[id].userId == userId
    ensures r.Some? ==> r.value == st.sessions[id] && r.value.userId == userId
  {
    if id >= 0 && id in st.sessions && st.sessions[id].userId == userId then Some(st.sessions[id]) else None
  }

  /** `getActiveReviewSessions`: the caller's active sessions, by ascending id. */
  function ActiveReviewSessions(st: MemStore, userId: string): (r: seq<ReviewSession>)
    requires Valid(st)
    ensures forall x :: x in r <==> x in st.sessions.Values && IsActive(x) && x.userId == userId
  {
    Select(st.sessions, st.currentSessionId, s => IsActive(s) && s.userId == userId)
  }

  /** The due predicate of the database query: owner, active, and next
      review no later than `now`. */
  predicate IsDue(s: ReviewSession, userId: string, now: Millis) {
    s.userId == userId && IsActive(s) && s.nextReviewDate <= now
  }

  /** `getDueReviewSessions` with the predicate of the database query. */
  function DueReviewSessions(st: MemStore, userId: string, now: Millis): (r: seq<ReviewSession>)
    requires Valid(st)
    ensures forall x :: x in r <==> x in st.sessions.Values && IsDue(x, userId, now)
  {
    Select(st.sessions, st.currentSessionId, s => IsDue(s, userId, now))
  }

  /** `s.filter(q)`. */
  function Filter<T(!new)>(s: seq<T>, q: T -> bool): (r: seq<T>)
    ensures forall x :: x in r <==> x in s && q(x)
  {
    if |s| == 0 then []
    else Filter(s[..|s| - 1], q) + (if q(s[|s| - 1]) then [s[|s| - 1]] else [])
  }

  /** Selecting with a conjunction is selecting with the first conjunct and
      filtering the result with the second, order included. */
  lemma {:induction false} SelectThenFilter(
    m: map<nat, ReviewSession>, hi: nat,
    p: ReviewSession -> bool, q: ReviewSession -> bool, pq: ReviewSession -> bool)
    requires KeyedById(m)
    requires forall x :: pq(x) == (p(x) && q(x))
    ensures Select(m, hi, pq) == Filter(Select(m, hi, p), q)
  {
    if hi > 0 {
      SelectThenFilter(m, hi - 1, p, q, pq);
      var a := Select(m, hi - 1, p);
      if hi - 1 in m && p(m[hi - 1]) {
        var x := m[hi - 1];
        assert Select(m, hi, p) == a + [x];
        assert (a + [x])[..|a|] == a;
        assert Filter(a + [x], q) == Filter(a, q) + (if q(x) then [x] else []);
        assert pq(x) == q(x);
      } else {
        assert Select(m, hi, p) == a;
        assert !(hi - 1 in m && pq(m[hi - 1]));
      }
    }
  }

  /** The due list is the active list cut down to the sessions whose next
      review has been reached, in the same order: a subset of the active set. */
  lemma DueIsReachedActive(st: MemStore, userId: string, now: Millis)
    requires Valid(st)
    ensures DueReviewSessions(st, userId, now) == Filter(ActiveReviewSessions(st, userId), (s: ReviewSession) => s.nextReviewDate <= now)
  {
    SelectThenFilter(st.sessions, st.currentSessionId,
      s => IsActive(s) && s.userId == userId, (s: ReviewSession) => s.nextReviewDate <= now, s => IsDue(s, userId, now));
  }

  /** JavaScript's `undefined <= now`: `undefined` converts to `NaN`, and every
      comparison with `NaN` is false. */
  predicate UndefinedNotAfter(now: Millis) {
    false
  }

  /** `getDueReviewSessions` of the in-memory store as written: the filter
      reads `session.nextReview`, a property no session has. */
  function DueReviewSessionsAsWritten(st: MemStore, userId: string, now: Millis): (r: seq<ReviewSession>)
    requires Valid(st)
    ensures forall x :: x in r ==> x in st.sessions.Values && IsActive(x) && x.userId == userId
  {
    Select(st.sessions, st.currentSessionId, s => IsActive(s) && UndefinedNotAfter(now) && s.userId == userId)
  }

  /** The in-memory due query as written returns nothing, even for a session
      that is due by the database predicate. */
  lemma DueAsWrittenIsEmpty(st: MemStore, userId: string, now: Millis)
    requires Valid(st)
    ensures DueReviewSessionsAsWritten(st, userId, now) == []
    ensures DueReviewSessions(st, userId, now) != [] ==> DueReviewSessionsAsWritten(st, userId, now) != DueReviewSessions(st, userId, now)
  {
    SelectNone(st.sessions, st.currentSessionId, s => IsActive(s) && UndefinedNotAfter(now) && s.userId == userId);
  }

  predicate MatchesCard(s: ReviewSession, cardId: int, cardType: string, userId: string) {
    s.cardId == Some(cardId) && s.cardType == cardType && s.userId == userId
  }

  /** `getReviewSessionByCard`: the first (lowest-id) session of the caller
      for that card and card type. */
  function ReviewSessionByCard(st: MemStore, cardId: int, cardType: string, userId: string): (r: Option<ReviewSession>)
    requires Valid(st)
    ensures r.Some? ==> r.value in st.sessions.Values && MatchesCard(r.value, cardId, cardType, userId)
    ensures r.Some? ==> forall k :: k in st.sessions && k < r.value.id ==> !MatchesCard(st.sessions[k], cardId, cardType, userId)
    ensures r.None? ==> forall k :: k in st.sessions ==> !MatchesCard(st.sessions[k], cardId, cardType, userId)
  {
    var found := Select(st.sessions, st.currentSessionId, s => MatchesCard(s, cardId, cardType, userId));
    if |found| == 0 then
      assert forall k :: k in st.sessions ==> st.sessions[k] !in found;
      None
    else
      assert found[0] in found;
      Some(found[0])
  }

  /** `createReviewSession`: the next id from the counter, the owner forced
      to the caller, `lastReviewed` set to now; every other field is taken
      from the payload as given. */
  function CreateReviewSession(st: MemStore, ins: InsertReviewSession, userId: string, now: Millis): (r: (MemStore, ReviewSession))
    requires Valid(st)
    ensures Valid(r.0)
    ensures forall k :: k in st.sessions ==> k < r.1.id
    ensures r.1.id == st.currentSessionId && r.0.currentSessionId == r.1.id + 1
    ensures r.0.sessions == st.sessions[r.1.id := r.1]
    ensures r.1.userId == userId && r.1.lastReviewed == now
    ensures r.1.cardId == ins.cardId && r.1.masteryLevel == ins.masteryLevel
    ensures r.1.nextReviewDate == ins.nextReviewDate && r.1.reviewCount == ins.reviewCount
    ensures r.1.correctCount == ins.correctCount && r.1.cardType == ins.cardType && r.1.isActive == ins.isActive
    ensures r.0.cards == st.cards && r.0.currentCardId == st.currentCardId && r.0.recentActivity == st.recentActivity
  {
    var id := st.currentSessionId;
    var s := ReviewSession(id, userId, ins.cardId, ins.masteryLevel, now, ins.nextReviewDate,
                           ins.reviewCount, ins.correctCount, ins.cardType, ins.isActive);
    (st.(sessions := st.sessions[id := s], currentSessionId := id + 1), s)
  }

  /** `{ ...existing, ...patch }`: every field the patch supplies replaces
      the stored one; id, owner and card are not part of a patch. */
  function Merge(s: ReviewSession, p: SessionPatch): (r: ReviewSession)
    ensures r.id == s.id && r.userId == s.userId && r.cardId == s.cardId
    ensures r.masteryLevel == (if p.masteryLevel.Some? then p.masteryLevel else s.masteryLevel)
    ensures r.lastReviewed == p.lastReviewed.GetOr(s.lastReviewed)
    ensures r.nextReviewDate == p.nextReviewDate.GetOr(s.nextReviewDate)
    ensures r.reviewCount == (if p.reviewCount.Some? then p.reviewCount else s.reviewCount)
    ensures r.correctCount == (if p.correctCount.Some? then p.correctCount else s.correctCount)
    ensures r.cardType == p.cardType.GetOr(s.cardType)
    ensures r.isActive == (if p.isActive.Some? then p.isActive else s.isActive)
  {
    s.(
      masteryLevel := if p.masteryLevel.Some? then p.masteryLevel else s.masteryLevel,
      lastReviewed := p.lastReviewed.GetOr(s.lastReviewed),
      nextReviewDate := p.nextReviewDate.GetOr(s.nextReviewDate),
      reviewCount := if p.reviewCount.Some? then p.reviewCount else s.reviewCount,
      correctCount := if p.correctCount.Some? then p.correctCount else s.correctCount,
      cardType := p.cardType.GetOr(s.cardType),
      isActive := if p.isActive.Some? then p.isActive else s.isActive)
  }

  /** Merging the empty patch changes nothing, and merging is idempotent. */
  lemma MergeIdempotent(s: ReviewSession, p: SessionPatch)
    ensures Merge(s, EmptyPatch) == s
    ensures Merge(Merge(s, p), p) == Merge(s, p)
  {
  }

  /** `updateReviewSession`: a session that is missing or owned by someone
      else is "not found" and nothing changes; otherwise the patch is merged
      in, `lastReviewed` is set to now and the session stays under its id. */
  function UpdateReviewSession(st: MemStore, id: int, p: SessionPatch, userId: string, now: Millis): (r: Result<(MemStore, ReviewSession)>)
    requires Valid(st)
    ensures r.Failure? <==> GetReviewSession(st, id, userId).None?
    ensures r.Failure? ==> r.error == NotFound
    ensures r.Success? ==> var (st', s') := r.value;
      && Valid(st')
      && s' == Merge(st.sessions[id], p).(lastReviewed := now)
      && st'.sessions == st.sessions[id := s']
      && st'.cards == st.cards && st'.currentSessionId == st.currentSessionId
      && st'.currentCardId == st.currentCardId && st'.recentActivity == st.recentActivity
  {
    match GetReviewSession(st, id, userId)
    case None => Failure(NotFound)
    case Some(existing) =>
      var updated := Merge(existing, p).(lastReviewed := now);
      Success((st.(sessions := st.sessions[id := updated]), updated))
  }

  /** An update by one user leaves every other user's active and due sets as
      they were. */
  lemma UpdateIsolated(st: MemStore, id: int, p: SessionPatch, userId: string, now: Millis, other: string, asOf: Millis)
    requires Valid(st) && other != userId
    requires UpdateReviewSession(st, id, p, userId, now).Success?
    ensures var st' := UpdateReviewSession(st, id, p, userId, now).value.0;
      && ActiveReviewSessions(st', other) == ActiveReviewSessions(st, other)
      && DueReviewSessions(st', other, asOf) == DueReviewSessions(st, other, asOf)
  {
    var st' := UpdateReviewSession(st, id, p, userId, now).value.0;
    SelectIsolated(st'.sessions, st'.currentSessionId, st.sessions, st.currentSessionId,
      other, s => IsActive(s) && s.userId == other);
    SelectIsolated(st'.sessions, st'.currentSessionId, st.sessions, st.currentSessionId,
      other, s => IsDue(s, other, asOf));
  }

  /** `addRecentActivity`: append the entry, then keep only the newest 50.
      Entries are recorded without an owner. */
  function AddRecentActivity(log: seq<Activity>, kind: string, word: string, details: string, now: Millis): (r: seq<Activity>)
    ensures |r| == if |log| + 1 <= MaxActivity then |log| + 1 else MaxActivity
    ensures r[|r| - 1] == Activity(kind, word, now, details, None)
    ensures r == (log + [Activity(kind, word, now, details, None)])[|log| + 1 - |r|..]
  {
    var pushed := log + [Activity(kind, word, now, details, None)];
    if |pushed| > MaxActivity then pushed[|pushed| - MaxActivity..] else pushed
  }

  /** The insert payload `createVocabularyCard` uses for each card type. */
  function InitialSession(userId: string, cardId: nat, cardType: string, now: Millis): InsertReviewSession {
    InsertReviewSession(userId, Some(cardId), Some(0), None, now, Some(0), Some(0), cardType, Some(true))
  }

  /** A session in the state `createVocabularyCard` gives it: for that card,
      owned by the caller, level 0, due at creation, no reviews, active. */
  predicate FreshSessionFor(s: ReviewSession, userId: string, cardId: nat, cardType: string, now: Millis) {
    && s.userId == userId && s.cardId == Some(cardId) && s.cardType == cardType
    && s.masteryLevel == Some(0) && s.nextReviewDate == now && s.lastReviewed == now
    && s.reviewCount == Some(0) && s.correctCount == Some(0) && IsActive(s)
  }

  /** `createVocabularyCard`: stores the card under the next card id, creates
      its `recognition` and `production` sessions, and logs the addition. */
  function CreateVocabularyCard(st: MemStore, word: string, imageUrls: Option<seq<string>>, userId: string, now: Millis): (r: (MemStore, VocabularyCard))
    requires Valid(st)
    ensures var (st', card) := r;
      && Valid(st')
      && card.id == st.currentCardId && card.userId == userId && card.word == word
      && card.imageUrls == imageUrls.GetOr([])
      && st'.cards == st.cards[card.id := card]
      && st'.currentSessionId == st.currentSessionId + 2
      && st'.sessions.Keys == st.sessions.Keys + {st.currentSessionId, st.currentSessionId + 1}
      && (forall k :: k in st.sessions ==> st'.sessions[k] == st.sessions[k])
      && FreshSessionFor(st'.sessions[st.currentSessionId], userId, card.id, "recognition", now)
      && FreshSessionFor(st'.sessions[st.currentSessionId + 1], userId, card.id, "production", now)
      && st'.recentActivity == AddRecentActivity(st.recentActivity, "add", word, "New word added to deck", now)
  {
    var id := st.currentCardId;
    var card := VocabularyCard(id, userId, word, imageUrls.GetOr([]));
    var st1 := st.(cards := st.cards[id := card], currentCardId := id + 1);
    var (st2, _) := CreateReviewSession(st1, InitialSession(userId, id, "recognition", now), userId, now);
    var (st3, _) := CreateReviewSession(st2, InitialSession(userId, id, "production", now), userId, now);
    (st3.(recentActivity := AddRecentActivity(st3.recentActivity, "add", word, "New word added to deck", now)), card)
  }

  /** The sessions `deleteVocabularyCard` removes with the card. */
  predicate BelongsToCard(s: ReviewSession, cardId: int, userId: string) {
    s.cardId == Some(cardId) && s.userId == userId
  }

  /** `deleteVocabularyCard`: a card that is missing or not the caller's is
      "not found" and nothing changes; otherwise the card goes, and so do
      exactly the caller's sessions for it. */
  function DeleteVocabularyCard(st: MemStore, id: int, userId: string): (r: Result<MemStore>)
    requires Valid(st)
    ensures r.Failure? <==> !(id >= 0 && id in st.cards && st.cards[id].userId == userId)
    ensures r.Failure? ==> r.error == NotFound
    ensures r.Success? ==>
      && Valid(r.value)
      && r.value.cards == st.cards - {id}
      && (forall k :: k in r.value.sessions <==> k in st.sessions && !BelongsToCard(st.sessions[k], id, userId))
      && (forall k :: k in r.value.sessions ==> r.value.sessions[k] == st.sessions[k])
      && r.value.currentSessionId == st.currentSessionId && r.value.currentCardId == st.currentCardId
      && r.value.recentActivity == st.recentActivity
  {
    if !(id >= 0 && id in st.cards && st.cards[id].userId == userId) then Failure(NotFound)
    else
      var kept := map k | k in st.sessions && !BelongsToCard(st.sessions[k], id, userId) :: st.sessions[k];
      Success(st.(cards := st.cards - {id}, sessions := kept))
  }

  /** `clearUserData`, for the parts of it this model holds: the caller's
      cards and sessions go, and activity entries recorded under the
      caller's id are dropped. */
  function ClearUserData(st: MemStore, userId: string): (r: MemStore)
    requires Valid(st)
    ensures Valid(r)
    ensures forall k :: k in r.sessions <==> k in st.sessions && st.sessions[k].userId != userId
    ensures forall k :: k in r.sessions ==> r.sessions[k] == st.sessions[k]
    ensures forall k :: k in r.cards <==> k in st.cards && st.cards[k].userId != userId
    ensures forall k :: k in r.cards ==> r.cards[k] == st.cards[k]
    ensures r.currentSessionId == st.currentSessionId && r.currentCardId == st.currentCardId
    ensures forall a :: a in r.recentActivity <==> a in st.recentActivity && a.userId != Some(userId)
  {
    MemStore(
      map k | k in st.cards && st.cards[k].userId != userId :: st.cards[k],
      map k | k in st.sessions && st.sessions[k].userId != userId :: st.sessions[k],
      st.currentCardId,
      st.currentSessionId,
      FilterActivity(st.recentActivity, userId))
  }

  /** `recentActivity.filter(a => a.userId !== userId)`. */
  function FilterActivity(log: seq<Activity>, userId: string): (r: seq<Activity>)
    ensures |r| <= |log|
    ensures forall a :: a in r <==> a in log && a.userId != Some(userId)
  {
    if |log| == 0 then []
    else FilterActivity(log[..|log| - 1], userId)
         + (if log[|log| - 1].userId != Some(userId) then [log[|log| - 1]] else [])
  }

  /** After clearing a user's data that user has no active sessions, no due
      sessions and no cards, and every other user keeps theirs. */
  lemma ClearedUserHasNothing(st: MemStore, userId: string, other: string, now: Millis)
    requires Valid(st) && other != userId
    ensures var st' := ClearUserData(st, userId);
      && ActiveReviewSessions(st', userId) == []
      && DueReviewSessions(st', userId, now) == []
      && (forall k :: k in st'.cards ==> st'.cards[k].userId != userId)
      && ActiveReviewSessions(st', other) == ActiveReviewSessions(st, other)
  {
    var st' := ClearUserData(st, userId);
    SelectNone(st'.sessions, st'.currentSessionId, s => IsActive(s) && s.userId == userId);
    SelectNone(st'.sessions, st'.currentSessionId, s => IsDue(s, userId, now));
    SelectIsolated(st'.sessions, st'.currentSessionId, st.sessions, st.currentSessionId,
      other, s => IsActive(s) && s.userId == other);
  }

  /** The activity entries the store writes carry no owner, so clearing a
      user's data keeps the whole activity log. */
  lemma ClearKeepsUnownedActivity(st: MemStore, userId: string)
    requires Valid(st)
    requires forall i :: 0 <= i < |st.recentActivity| ==> st.recentActivity[i].userId.None?
    ensures ClearUserData(st, userId).recentActivity == st.recentActivity
  {
    KeepAllUnowned(st.recentActivity, userId);
  }

  lemma {:induction false} KeepAllUnowned(log: seq<Activity>, userId: string)
    requires forall i :: 0 <= i < |log| ==> log[i].userId.None?
    ensures FilterActivity(log, userId) == log
  {
    if |log| > 0 {
      var prefix := log[..|log| - 1];
      assert forall i :: 0 <= i < |prefix| ==> prefix[i].userId.None?;
      KeepAllUnowned(prefix, userId);
      assert log[|log| - 1].userId != Some(userId);
      assert log == prefix + [log[|log| - 1]];
    }
  }

  /** The payload a new card's sessions are created from leaves out only
      `lastReviewed`, which the store sets to now as the column default
      would: the in-memory store and the database give the new card the
      same sessions. */
  lemma InitialSessionAsDatabaseStores(st: MemStore, userId: string, cardId: nat, cardType: string, now: Millis)
    requires Valid(st)
    ensures var ins := InitialSession(userId, cardId, cardType, now);
      CreateReviewSession(st, ins, userId, now).1 == WithColumnDefaults(ins, st.currentSessionId, now)
  {
  }
}
