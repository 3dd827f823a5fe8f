/** Read-only aggregates over the store: how many of a learner's sessions sit
    at each mastery level, and the recent-activity feed. */
module Analytics {
  import opened Wrappers
  import opened Schema
  import opened SpacedRepetition
  import opened Storage

  datatype LevelCounts = LevelCounts(level0: nat, level1: nat, level2: nat, level3: nat, level4: nat)

  function CountAt(c: LevelCounts, level: int): nat {
    match level
    case 0 => c.level0
    case 1 => c.level1
    case 2 => c.level2
    case 3 => c.level3
    case 4 => c.level4
    case _ => 0
  }

  function Total(c: LevelCounts): nat {
    c.level0 + c.level1 + c.level2 + c.level3 + c.level4
  }

  predicate AtLevel(s: ReviewSession, level: int) {
    s.masteryLevel == Some(level)
  }

  /** A level the `switch` has a case for; a missing or out-of-range level
      falls through every case and is not counted. */
  predicate HasCountedLevel(s: ReviewSession) {
    s.masteryLevel.Some? && 0 <= s.masteryLevel.value <= MaxLevel
  }

  /** One more session in the bucket of `level`; a level outside 0..4 has
      no bucket. */
  function Bump(c: LevelCounts, level: int): (r: LevelCounts)
    ensures Total(r) == Total(c) + (if 0 <= level <= MaxLevel then 1 else 0)
  {
    LevelCounts(
      c.level0 + (if level == 0 then 1 else 0),
      c.level1 + (if level == 1 then 1 else 0),
      c.level2 + (if level == 2 then 1 else 0),
      c.level3 + (if level == 3 then 1 else 0),
      c.level4 + (if level == 4 then 1 else 0))
  }

  /** Bumping the bucket of `level` adds one to that bucket only. */
  lemma BumpCount(c: LevelCounts, level: int, n: int)
    ensures CountAt(Bump(c, level), n) == CountAt(c, n) + (if n == level && 0 <= n <= MaxLevel then 1 else 0)
  {
  }

  /** The counting loop over a list of sessions, oldest first; a session
      without a level is skipped. */
  function Tally(ss: seq<ReviewSession>): (r: LevelCounts)
    ensures Total(r) <= |ss|
  {
    if |ss| == 0 then LevelCounts(0, 0, 0, 0, 0)
    else
      var c := Tally(ss[..|ss| - 1]);
      match ss[|ss| - 1].masteryLevel
      case None => c
      case Some(level) => Bump(c, level)
  }

  /** Bucket n holds exactly the sessions at level n, and the buckets
      together hold exactly the sessions whose level is in 0..4. */
  lemma {:induction false} TallyCounts(ss: seq<ReviewSession>)
    ensures forall n :: 0 <= n <= MaxLevel ==> CountAt(Tally(ss), n) == |Filter(ss, (s: ReviewSession) => AtLevel(s, n))|
    ensures Total(Tally(ss)) == |Filter(ss, HasCountedLevel)|
  {
    if |ss| > 0 {
      var prefix := ss[..|ss| - 1];
      var x := ss[|ss| - 1];
      TallyCounts(prefix);
      forall n | 0 <= n <= MaxLevel
        ensures CountAt(Tally(ss), n) == |Filter(ss, (s: ReviewSession) => AtLevel(s, n))|
      {
        if x.masteryLevel.Some? {
          BumpCount(Tally(prefix), x.masteryLevel.value, n);
        }
        assert Filter(ss, (s: ReviewSession) => AtLevel(s, n))
          == Filter(prefix, (s: ReviewSession) => AtLevel(s, n)) + (if AtLevel(x, n) then [x] else []);
      }
    }
  }

  /** `getMasteryLevelCounts` of the in-memory store: the caller's active
      sessions, bucketed by level. */
  function MasteryLevelCounts(st: MemStore, userId: string): (r: LevelCounts)
    requires Valid(st)
    ensures Total(r) <= |ActiveReviewSessions(st, userId)|
  {
    Tally(ActiveReviewSessions(st, userId))
  }

  /** Each bucket counts the caller's active sessions at that level, and the
      buckets add up to the number of the caller's active sessions whose
      level is in 0..4. */
  lemma MasteryLevelCountsMeaning(st: MemStore, userId: string)
    requires Valid(st)
    ensures forall n :: 0 <= n <= MaxLevel ==>
      CountAt(MasteryLevelCounts(st, userId), n) == |Filter(ActiveReviewSessions(st, userId), (s: ReviewSession) => AtLevel(s, n))|
    ensures Total(MasteryLevelCounts(st, userId)) == |Filter(ActiveReviewSessions(st, userId), HasCountedLevel)|
  {
    TallyCounts(ActiveReviewSessions(st, userId));
  }

  /** `getMasteryLevelCounts` of the database store: the caller's sessions,
      active or not. */
  function DbMasteryLevelCounts(st: MemStore, userId: string): (r: LevelCounts)
    requires Valid(st)
    ensures Total(r) <= |Storage.Select(st.sessions, st.currentSessionId, (x: ReviewSession) => x.userId == userId)|
  {
    Tally(Storage.Select(st.sessions, st.currentSessionId, (x: ReviewSession) => x.userId == userId))
  }

  /** Two filters that agree on every stored session select the same list. */
  lemma {:induction false} SelectCongruent(m: map<nat, ReviewSession>, hi: nat, p: ReviewSession -> bool, q: ReviewSession -> bool)
    requires KeyedById(m)
    requires forall k :: k in m && k < hi ==> p(m[k]) == q(m[k])
    ensures Storage.Select(m, hi, p) == Storage.Select(m, hi, q)
  {
    if hi > 0 {
      SelectCongruent(m, hi - 1, p, q);
    }
  }

  /** The two stores count alike when every one of the caller's sessions is
      active; a single inactive session is enough to set them apart. */
  lemma DbCountsAgreeWhenAllActive(st: MemStore, userId: string)
    requires Valid(st)
    requires forall k :: k in st.sessions && st.sessions[k].userId == userId ==> IsActive(st.sessions[k])
    ensures DbMasteryLevelCounts(st, userId) == MasteryLevelCounts(st, userId)
  {
    SelectCongruent(st.sessions, st.currentSessionId,
      (s: ReviewSession) => s.userId == userId, (s: ReviewSession) => IsActive(s) && s.userId == userId);
  }

  /** A store holding one inactive level-0 session: the in-memory count
      leaves it out, the database count includes it. */
  lemma DbCountsIncludeInactive(st: MemStore, s: ReviewSession)
    requires Valid(st) && st.sessions == map[1 := s] && st.currentSessionId == 2
    requires s.masteryLevel == Some(0) && !IsActive(s)
    ensures MasteryLevelCounts(st, s.userId).level0 == 0
    ensures DbMasteryLevelCounts(st, s.userId).level0 == 1
  {
    OnlySessionActiveList(st, s);
    OnlySessionOwnedList(st, s);
    TallySingle(s);
  }

  /** A one-session list counts that session alone. */
  lemma TallySingle(s: ReviewSession)
    ensures s.masteryLevel == Some(0) ==> Tally([s]).level0 == 1
  {
    assert [s][..0] == [];
  }

  lemma OnlySessionActiveList(st: MemStore, s: ReviewSession)
    requires Valid(st) && st.sessions == map[1 := s] && st.currentSessionId == 2 && !IsActive(s)
    ensures ActiveReviewSessions(st, s.userId) == []
  {
    var userId := s.userId;
    SelectNone(st.sessions, 2, s => IsActive(s) && s.userId == userId);
  }

  lemma OnlySessionOwnedList(st: MemStore, s: ReviewSession)
    requires Valid(st) && st.sessions == map[1 := s] && st.currentSessionId == 2
    ensures Storage.Select(st.sessions, st.currentSessionId, (x: ReviewSession) => x.userId == s.userId) == [s]
  {
    var userId := s.userId;
    assert Storage.Select(st.sessions, 2, (x: ReviewSession) => x.userId == userId)
      == Storage.Select(st.sessions, 1, (x: ReviewSession) => x.userId == userId) + [s];
    SelectNone(st.sessions, 1, (x: ReviewSession) => x.userId == userId);
  }

  /** Four sessions at levels 0, 1, 1 and 4, in any order of ids, give the
      counts {1, 2, 0, 0, 1}. */
  lemma CountsExample(a: ReviewSession, b: ReviewSession, c: ReviewSession, d: ReviewSession)
    requires a.masteryLevel == Some(0) && b.masteryLevel == Some(1)
    requires c.masteryLevel == Some(1) && d.masteryLevel == Some(4)
    ensures Tally([a, b, c, d]) == LevelCounts(1, 2, 0, 0, 1)
  {
    assert [a, b, c, d][..3] == [a, b, c];
    assert [a, b, c][..2] == [a, b];
    assert [a, b][..1] == [a];
    assert [a][..0] == [];
    var t1 := Tally([a]);
    assert t1.level0 == 1 && t1.level1 == 0 && t1.level2 == 0 && t1.level3 == 0 && t1.level4 == 0;
    var t2 := Tally([a, b]);
    assert t2.level0 == 1 && t2.level1 == 1 && t2.level2 == 0 && t2.level3 == 0 && t2.level4 == 0;
    var t3 := Tally([a, b, c]);
    assert t3.level0 == 1 && t3.level1 == 2 && t3.level2 == 0 && t3.level3 == 0 && t3.level4 == 0;
  }

  /** Newest first: timestamps never increase along the list. */
  predicate NewestFirst(s: seq<Activity>) {
    forall i, j :: 0 <= i < j < |s| ==> s[i].timestamp >= s[j].timestamp
  }

  /** Inserts `x` into a newest-first list after every entry at least as
      new. */
  function InsertByTime(s: seq<Activity>, x: Activity): (r: seq<Activity>)
    ensures multiset(r) == multiset(s) + multiset{x}
  {
    if |s| == 0 then [x]
    else if s[0].timestamp >= x.timestamp then
      assert s == [s[0]] + s[1..];
      [s[0]] + InsertByTime(s[1..], x)
    else
      [x] + s
  }

  /** Insertion keeps a newest-first list newest first. */
  lemma {:induction false} InsertKeepsOrder(s: seq<Activity>, x: Activity)
    requires NewestFirst(s)
    ensures NewestFirst(InsertByTime(s, x))
  {
    if |s| > 0 && s[0].timestamp >= x.timestamp {
      var rest := InsertByTime(s[1..], x);
      InsertKeepsOrder(s[1..], x);
      forall i | 0 <= i < |rest|
        ensures rest[i].timestamp <= s[0].timestamp
      {
        assert rest[i] in multiset(rest);
        if rest[i] != x {
          assert rest[i] in multiset(s[1..]);
        }
      }
    }
  }

  /** `[...log].sort((a, b) => b.timestamp - a.timestamp)`: the log
      rearranged newest first. */
  function SortNewestFirst(log: seq<Activity>): (r: seq<Activity>)
    ensures multiset(r) == multiset(log)
  {
    if |log| == 0 then []
    else
      assert log == log[..|log| - 1] + [log[|log| - 1]];
      InsertByTime(SortNewestFirst(log[..|log| - 1]), log[|log| - 1])
  }

  /** The sort's result is newest first. */
  lemma {:induction false} SortIsNewestFirst(log: seq<Activity>)
    ensures NewestFirst(SortNewestFirst(log))
  {
    if |log| > 0 {
      SortIsNewestFirst(log[..|log| - 1]);
      InsertKeepsOrder(SortNewestFirst(log[..|log| - 1]), log[|log| - 1]);
    }
  }

  /** How many entries the feed returns. */
  const FeedLength: int := 10

  /** `getRecentActivity`: the ten newest entries of the whole log, newest
      first. Every entry left out is no newer than the last one returned. */
  function RecentActivity(st: MemStore, userId: string): (r: seq<Activity>)
    ensures |r| == if |st.recentActivity| < FeedLength then |st.recentActivity| else FeedLength
    ensures NewestFirst(r)
    ensures multiset(r) <= multiset(st.recentActivity)
    ensures forall e :: e in multiset(st.recentActivity) - multiset(r) ==>
      |r| > 0 && e.timestamp <= r[|r| - 1].timestamp
  {
    var sorted := SortNewestFirst(st.recentActivity);
    SortIsNewestFirst(st.recentActivity);
    var k := if |sorted| < FeedLength then |sorted| else FeedLength;
    var r := sorted[..k];
    assert sorted == r + sorted[k..];
    assert multiset(sorted) == multiset(r) + multiset(sorted[k..]);
    assert forall e :: e in multiset(st.recentActivity) - multiset(r) ==> e in sorted[k..];
    r
  }
}
