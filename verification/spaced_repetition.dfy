/** The mastery policy: from the current mastery level, whether the answer was
    correct and the interval table, the next level and the time the item is
    due again. Levels run from 0 (just introduced or just failed) to 4
    (mastered); a correct answer climbs one level, a wrong one falls to 0. */
module SpacedRepetition {
  import opened Schema

  const MaxLevel: int := 4

  /** 24 h x 60 min x 60 s x 1000 ms. */
  const MillisPerDay: int := 24 * 60 * 60 * 1000

  /** The level after one answer: `Math.min(currentLevel + 1, 4)` when
      correct, 0 otherwise. */
  function NextLevel(currentLevel: int, correct: bool): (r: int)
    ensures !correct ==> r == 0
    ensures correct && currentLevel < MaxLevel ==> r == currentLevel + 1
    ensures correct && currentLevel >= MaxLevel ==> r == MaxLevel
    ensures 0 <= currentLevel <= MaxLevel ==> 0 <= r <= MaxLevel
  {
    if correct then (if currentLevel + 1 < MaxLevel then currentLevel + 1 else MaxLevel) else 0
  }

  /** The table entry the `switch (nextLevel)` picks: levels 1..4 their own
      entry, every other level (the `default` branch included) level 0's. */
  function IntervalDays(t: Intervals, level: int): int {
    match level
    case 1 => t.level1
    case 2 => t.level2
    case 3 => t.level3
    case 4 => t.level4
    case _ => t.level0
  }

  datatype Transition = Transition(nextLevel: int, nextReviewDate: Millis)

  /** `calculateNextReviewDate`, with the clock reading `now` passed in. A
      level-0 result is due at `now` exactly, whatever level 0's entry says;
      any other level is due that level's number of days after `now`. */
  function CalculateNextReviewDate(currentLevel: int, correct: bool, t: Intervals, now: Millis): (r: Transition)
    ensures r.nextLevel == NextLevel(currentLevel, correct)
    ensures r.nextLevel == 0 ==> r.nextReviewDate == now
    ensures r.nextLevel != 0 ==> r.nextReviewDate == now + IntervalDays(t, r.nextLevel) * MillisPerDay
  {
    var nextLevel := NextLevel(currentLevel, correct);
    var intervalDays := IntervalDays(t, nextLevel);
    var nextReviewDate := if nextLevel == 0 then now else now + intervalDays * MillisPerDay;
    Transition(nextLevel, nextReviewDate)
  }

  /** A table whose entries are all non-negative, as the settings form produces. */
  predicate NonNegative(t: Intervals) {
    t.level0 >= 0 && t.level1 >= 0 && t.level2 >= 0 && t.level3 >= 0 && t.level4 >= 0
  }

  /** For a level in range and a non-negative table, the next level stays in
      range, the next review never lies in the past, and the waiting time is
      a whole number of days: the table entry of the new level, or nothing at
      level 0. */
  lemma TransitionSchedule(currentLevel: int, correct: bool, t: Intervals, now: Millis)
    requires 0 <= currentLevel <= MaxLevel && NonNegative(t)
    ensures var r := CalculateNextReviewDate(currentLevel, correct, t, now);
      && 0 <= r.nextLevel <= MaxLevel
      && r.nextReviewDate >= now
      && (r.nextReviewDate - now) % MillisPerDay == 0
      && (r.nextReviewDate - now) / MillisPerDay == (if r.nextLevel == 0 then 0 else IntervalDays(t, r.nextLevel))
  {
    var r := CalculateNextReviewDate(currentLevel, correct, t, now);
    if r.nextLevel != 0 {
      var d := IntervalDays(t, r.nextLevel);
      assert r.nextReviewDate - now == d * MillisPerDay;
      assert d >= 0;
    }
  }

  /** The level reached from `start` after a series of answers, oldest first. */
  function LevelAfter(start: int, answers: seq<bool>): int
  {
    if |answers| == 0 then start
    else NextLevel(LevelAfter(start, answers[..|answers| - 1]), answers[|answers| - 1])
  }

  /** The number of correct answers since the last wrong one. */
  function TrailingCorrect(answers: seq<bool>): nat
  {
    if |answers| == 0 || !answers[|answers| - 1] then 0
    else TrailingCorrect(answers[..|answers| - 1]) + 1
  }

  function Min(a: int, b: int): int {
    if a <= b then a else b
  }

  /** The state machine's closed form: after a series of answers the level
      is the length of the final run of correct answers, capped at 4, counted
      from 0 if any answer was wrong and from the starting level otherwise. */
  lemma {:induction false} LevelAfterAnswers(start: int, answers: seq<bool>)
    requires 0 <= start <= MaxLevel
    ensures false in answers ==> LevelAfter(start, answers) == Min(TrailingCorrect(answers), MaxLevel)
    ensures false !in answers ==> LevelAfter(start, answers) == Min(start + |answers|, MaxLevel)
  {
    if |answers| > 0 {
      var prefix := answers[..|answers| - 1];
      var last := answers[|answers| - 1];
      assert answers == prefix + [last];
      LevelAfterAnswers(start, prefix);
      assert false in answers <==> false in prefix || !last;
    }
  }

  /** `getDifficultyLabel`. */
  function DifficultyLabel(level: int): (r: string)
    ensures r == "Unknown" <==> !(0 <= level <= MaxLevel)
  {
    match level
    case 0 => "Practice Again"
    case 1 => "Review"
    case 2 => "Learning"
    case 3 => "Familiar"
    case 4 => "Mastered"
    case _ => "Unknown"
  }

  /** `getDifficultyColor`: the fallback colour goes with the fallback label,
      and only mastered cards are green. */
  function DifficultyColor(level: int): (r: string)
    ensures r == "text-gray-400" <==> DifficultyLabel(level) == "Unknown"
    ensures r == "text-green-500" <==> level == MaxLevel
  {
    match level
    case 0 => "text-red-500"
    case 1 => "text-orange-500"
    case 2 => "text-yellow-500"
    case 3 => "text-blue-500"
    case 4 => "text-green-500"
    case _ => "text-gray-400"
  }

  /** Label and colour tell the five levels apart: each level in range has
      its own label and its own colour. */
  lemma LabelsDistinguishLevels(a: int, b: int)
    requires 0 <= a <= MaxLevel && 0 <= b <= MaxLevel && a != b
    ensures DifficultyLabel(a) != DifficultyLabel(b)
    ensures DifficultyColor(a) != DifficultyColor(b)
  {
  }
}
