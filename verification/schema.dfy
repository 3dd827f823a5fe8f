/** Record shapes of the shared schema: the review-session and study-settings
    tables, the partial update payload for a review session, the template
    field configuration, and the vocabulary card as far as the scheduler
    sees it. Timestamps are integer milliseconds since the epoch. */
module Schema {
  import opened Wrappers

  type Millis = int

  /** One row of `review_sessions`. Columns that are nullable in the table
      (`cardId`, `masteryLevel`, `reviewCount`, `correctCount`, `isActive`)
      are `Option`s: the in-memory store copies whatever the creator
      supplied and never fills the column defaults in. */
  datatype ReviewSession = ReviewSession(
    id: nat,
    userId: string,
    cardId: Option<int>,
    masteryLevel: Option<int>,
    lastReviewed: Millis,
    nextReviewDate: Millis,
    reviewCount: Option<int>,
    correctCount: Option<int>,
    cardType: string,
    isActive: Option<bool>)

  /** JavaScript truthiness of `session.isActive`: only `true` is truthy. */
  predicate IsActive(s: ReviewSession) {
    s.isActive == Some(true)
  }

  /** The insert payload (`insertReviewSessionSchema`): every table column but
      `id`. `nextReviewDate` and `cardType` are the mandatory ones; the rest
      may be absent. */
  datatype InsertReviewSession = InsertReviewSession(
    userId: string,
    cardId: Option<int>,
    masteryLevel: Option<int>,
    lastReviewed: Option<Millis>,
    nextReviewDate: Millis,
    reviewCount: Option<int>,
    correctCount: Option<int>,
    cardType: string,
    isActive: Option<bool>)

  /** A row as the database stores an insert: absent columns take the table
      defaults (level 0, both counts 0, active, last reviewed now). */
  function WithColumnDefaults(ins: InsertReviewSession, id: nat, now: Millis): (r: ReviewSession)
    ensures r.id == id && r.userId == ins.userId && r.cardId == ins.cardId
    ensures r.nextReviewDate == ins.nextReviewDate && r.cardType == ins.cardType
    ensures ins.masteryLevel.None? ==> r.masteryLevel == Some(0)
    ensures ins.reviewCount.None? ==> r.reviewCount == Some(0)
    ensures ins.correctCount.None? ==> r.correctCount == Some(0)
    ensures ins.isActive.None? ==> IsActive(r)
    ensures ins.lastReviewed.None? ==> r.lastReviewed == now
    ensures ins.masteryLevel.Some? ==> r.masteryLevel == ins.masteryLevel
    ensures ins.reviewCount.Some? ==> r.reviewCount == ins.reviewCount
    ensures ins.correctCount.Some? ==> r.correctCount == ins.correctCount
    ensures ins.isActive.Some? ==> r.isActive == ins.isActive
    ensures ins.lastReviewed.Some? ==> r.lastReviewed == ins.lastReviewed.value
  {
    ReviewSession(
      id, ins.userId, ins.cardId,
      Some(ins.masteryLevel.GetOr(0)),
      ins.lastReviewed.GetOr(now),
      ins.nextReviewDate,
      Some(ins.reviewCount.GetOr(0)),
      Some(ins.correctCount.GetOr(0)),
      ins.cardType,
      Some(ins.isActive.GetOr(true)))
  }

  /** `updateReviewSessionSchema`: every field optional, so an update is
      partial. The owner and the card are not part of it. */
  datatype SessionPatch = SessionPatch(
    masteryLevel: Option<int>,
    lastReviewed: Option<Millis>,
    nextReviewDate: Option<Millis>,
    reviewCount: Option<int>,
    correctCount: Option<int>,
    cardType: Option<string>,
    isActive: Option<bool>)

  const EmptyPatch := SessionPatch(None, None, None, None, None, None, None)

  /** The `level0Interval` .. `level4Interval` columns of `study_settings`,
      each nullable, in days. */
  datatype StudySettings = StudySettings(
    userId: string,
    level0Interval: Option<int>,
    level1Interval: Option<int>,
    level2Interval: Option<int>,
    level3Interval: Option<int>,
    level4Interval: Option<int>)

  /** The interval table the scheduler reads: days per mastery level. */
  datatype Intervals = Intervals(level0: int, level1: int, level2: int, level3: int, level4: int)

  /** The column defaults of `study_settings`: same session, 1, 3, 7 and 30 days. */
  const DefaultIntervals := Intervals(0, 1, 3, 7, 30)

  /** A `study_settings` row as the database creates it when no interval is supplied. */
  function DefaultStudySettings(userId: string): (r: StudySettings)
    ensures r.userId == userId
    ensures r.level0Interval == Some(DefaultIntervals.level0)
    ensures r.level1Interval == Some(DefaultIntervals.level1)
    ensures r.level2Interval == Some(DefaultIntervals.level2)
    ensures r.level3Interval == Some(DefaultIntervals.level3)
    ensures r.level4Interval == Some(DefaultIntervals.level4)
  {
    StudySettings(userId, Some(0), Some(1), Some(3), Some(7), Some(30))
  }

  /** A vocabulary card, reduced to what scheduling and review use. */
  datatype VocabularyCard = VocabularyCard(id: nat, userId: string, word: string, imageUrls: seq<string>)

  datatype FieldType = Text | TextArea | Image | Audio | Select | MultiSelect

  /** `fieldConfigSchema` after parsing. */
  datatype FieldConfig = FieldConfig(
    id: string,
    name: string,
    fieldType: FieldType,
    required: bool,
    placeholder: Option<string>,
    options: Option<seq<string>>,
    maxLength: Option<int>,
    order: int)

  /** A field configuration as submitted, before parsing; `required` may be absent. */
  datatype RawFieldConfig = RawFieldConfig(
    id: string,
    name: string,
    fieldType: FieldType,
    required: Option<bool>,
    placeholder: Option<string>,
    options: Option<seq<string>>,
    maxLength: Option<int>,
    order: int)

  /** Parsing with `fieldConfigSchema`: `required` defaults to false, the other
      attributes are taken over unchanged. */
  function ParseFieldConfig(raw: RawFieldConfig): (r: FieldConfig)
    ensures r.required <==> raw.required == Some(true)
    ensures r.id == raw.id && r.name == raw.name && r.fieldType == raw.fieldType
    ensures r.placeholder == raw.placeholder && r.options == raw.options
    ensures r.maxLength == raw.maxLength && r.order == raw.order
  {
    FieldConfig(raw.id, raw.name, raw.fieldType, raw.required.GetOr(false),
                raw.placeholder, raw.options, raw.maxLength, raw.order)
  }

  /** A stored field as it is sent back: every attribute present. */
  function AsSubmitted(f: FieldConfig): (r: RawFieldConfig)
    ensures r.required.Some?
  {
    RawFieldConfig(f.id, f.name, f.fieldType, Some(f.required), f.placeholder, f.options, f.maxLength, f.order)
  }

  /** Parsing gives back any field sent as stored, and an absent `required`
      parses as an explicit `false`. */
  lemma ParseRoundTrip(f: FieldConfig, raw: RawFieldConfig)
    ensures ParseFieldConfig(AsSubmitted(f)) == f
    ensures ParseFieldConfig(raw.(required := None)) == ParseFieldConfig(raw.(required := Some(false)))
  {
  }
}
