# Vocabulary review scheduler: a Dafny model

This project models the core of a vocabulary-learning web application: how it
schedules reviews and what its review pages do with them. It covers the
following parts.

- **Mastery policy** (`SpacedRepetition`). A correct answer raises a card's
  mastery level by one, up to 4. A wrong answer drops it to 0. The next review
  is due a configurable number of days later, or at once at level 0.
- **Review-session records** (`Schema`). The table defaults, the partial
  update payload, and the settings table with its interval columns.
- **In-memory store** (`Storage`). Creating, reading, updating and selecting
  review sessions. Creating and deleting cards with their two sessions.
  Clearing a user's data. The rolling activity log of 50 entries.
- **Client update mutation** (`ReviewOutcome`). It reads the session, applies
  the policy with the learner's intervals (using the `||` defaults), and
  writes the result back.
- **Analytics** (`Analytics`). Mastery-level counts, in both the in-memory
  form and the database form, and the feed of the 10 most recent activities.
- **Shared decks** (`SharedDecks`). Adding and removing deck cards.
- **Review page** (`ReviewPage`). Picking the question mode, handling the
  four answer buttons, and the running score.
- **Practice page** (`PracticePage`). Random rounds that do not touch the
  scheduler.
- **Template editor** (`TemplateEditor`). Adding, updating, removing and
  dragging fields, renumbering them, and the save guard.
- **Image picker** (`ImageUpload`). The `maxImages` bound, typed URLs, file
  selection, removal, and paste with its image-URL pattern.
- **Dictionary client** (`Dictionary`). The Merriam-Webster page URL, the
  audio URL, the parsing of the first entry, and example extraction.

Every operation is a pure function from the state before to the state after.
An operation that throws in the source returns `Failure` here and changes
nothing.

The world outside the model enters as parameters:

- the clock reading `now`, in milliseconds;
- the random number behind the question mode;
- the shuffle of the practice deck;
- the data URLs that file and clipboard reads produce;
- `encodeURIComponent`.

JavaScript semantics are written out where they matter:

- `||` on nullable numbers, where 0 is falsy;
- `slice(0, end)` with a negative `end`;
- `filter` by index;
- `includes`, `startsWith` and `trim`;
- `toLowerCase` on ASCII letters;
- a comparison against `undefined`, which is always false;
- insertion-ordered `Map` iteration.

Shared helpers live in `Wrappers` (`Option`, `Result`) and in `JsText`
(string and sequence built-ins).

## Model

| member | source | states |
|---|---|---|
| Schema.WithColumnDefaults | shared/schema.ts:69-80 | An insert stored by the database gets level 0, both counts 0, active and last reviewed now for every column it leaves out. Every column it supplies is kept, last-reviewed time included. |
| Schema.DefaultStudySettings | shared/schema.ts:82-94 | A fresh settings row holds the default intervals of 0, 1, 3, 7 and 30 days for levels 0 to 4. |
| Schema.ParseFieldConfig | shared/schema.ts:152-161 | A parsed field is required exactly when the submission said `true`. Every other attribute passes through unchanged. |
| Schema.ParseRoundTrip | shared/schema.ts:152-161 | A stored field sent back with all its attributes parses to itself. An absent `required` parses as `false`. |
| SpacedRepetition.NextLevel | client/src/lib/spaced-repetition.ts:18-24 | A wrong answer gives level 0. A correct one gives the next level, capped at 4. A level in 0..4 stays in 0..4. |
| SpacedRepetition.CalculateNextReviewDate | client/src/lib/spaced-repetition.ts:9-56 | The new level follows NextLevel. Level 0 is due at `now` whatever its table entry says. Any other level is due its table entry's number of days after `now`. |
| SpacedRepetition.TransitionSchedule | client/src/lib/spaced-repetition.ts:27-53 | For a level in range and a non-negative table, the next review never lies in the past. The wait is a whole number of days: the new level's entry, or 0. |
| SpacedRepetition.LevelAfterAnswers | client/src/lib/spaced-repetition.ts:18-24 | After any series of answers, the level is the final run of correct answers capped at 4. The run counts from 0 if any answer was wrong, and from the starting level otherwise. |
| SpacedRepetition.DifficultyLabel | client/src/lib/spaced-repetition.ts:69-78 | The label is "Unknown" exactly for levels outside 0..4. |
| SpacedRepetition.DifficultyColor | client/src/lib/spaced-repetition.ts:58-67 | The gray fallback colour goes exactly with the "Unknown" label, and green is given exactly at level 4. |
| SpacedRepetition.LabelsDistinguishLevels | client/src/lib/spaced-repetition.ts:58-78 | Two different levels in range get different labels and different colours. |
| Storage.Select | server/storage.ts:946-948 | Filtering the values of an id-keyed map returns exactly the stored sessions that pass, in ascending id order. |
| Storage.SelectIsolated | server/storage.ts:946-955 | Two stores that hold the same sessions for one user give that user the same selection, whatever other users' sessions are. |
| Storage.GetReviewSession | server/storage.ts:935-938 | A session is found exactly when it exists and belongs to the caller. |
| Storage.ActiveReviewSessions | server/storage.ts:946-948 | Returns exactly the caller's stored sessions whose active flag is true. |
| Storage.DueReviewSessions | server/storage.ts:1706-1714 | Returns exactly the caller's active sessions whose next review is no later than `now`. |
| Storage.DueIsReachedActive | server/storage.ts:1701-1714 | The due list is the active list, in the same order, cut down to the sessions whose review time has been reached. |
| Storage.DueReviewSessionsAsWritten | server/storage.ts:950-955 | The in-memory due query as written only returns active sessions of the caller. |
| Storage.DueAsWrittenIsEmpty | server/storage.ts:953 | The in-memory due query as written returns nothing, so it disagrees with the intended query whenever anything is due. |
| Storage.ReviewSessionByCard | server/storage.ts:940-944 | Returns the lowest-id session of the caller for that card and card type. It returns nothing only when no such session exists. |
| Storage.InitialSessionAsDatabaseStores | server/storage.ts:886-907 | The session the card form inserts is stored by the in-memory store exactly as the database would store it, column defaults included. |
| Storage.CreateReviewSession | server/storage.ts:957-967 | The new session takes the next id, is owned by the caller and was last reviewed at `now`. Every other field comes from the payload, and the store stays valid. |
| Storage.Merge | server/storage.ts:969-976 | Each field the patch supplies replaces the stored one. Id, owner and card never change. |
| Storage.MergeIdempotent | server/storage.ts:969-976 | The empty patch changes nothing. Applying a patch twice equals applying it once. |
| Storage.UpdateReviewSession | server/storage.ts:969-976 | A missing or foreign session fails with "not found" and changes nothing. Otherwise only that session changes: it becomes the merge with last reviewed set to `now`. |
| Storage.UpdateIsolated | server/storage.ts:969-976 | An update by one user leaves every other user's active and due lists unchanged. |
| Storage.AddRecentActivity | server/storage.ts:1042-1054 | The new entry goes last. The log keeps the newest 50 entries of the old log plus the new one. |
| Storage.CreateVocabularyCard | server/storage.ts:865-911 | The card takes the next card id. Exactly two new sessions, `recognition` and `production`, are created at level 0, due at once and active. Old sessions are untouched, and the addition is logged. |
| Storage.DeleteVocabularyCard | server/storage.ts:922-933 | A missing or foreign card fails with "not found". Otherwise the card is removed together with exactly the caller's sessions for it. |
| Storage.ClearUserData | server/storage.ts:227-241 | Removes exactly the user's cards and sessions. Removes exactly the activity entries recorded under the user's id. Keeps everything else. |
| Storage.FilterActivity | server/storage.ts:236 | Keeps exactly the entries not recorded under the user. |
| Storage.ClearedUserHasNothing | server/storage.ts:227-241 | After clearing, the user has no active sessions, no due sessions and no cards. Every other user keeps their active list. |
| Storage.ClearKeepsUnownedActivity | server/storage.ts:236 | Clearing keeps a log whose entries carry no owner in full, and the store only ever writes such entries. |
| ReviewOutcome.OrDefault | client/src/hooks/use-review-session.ts:59-63 | A missing value or 0 gives the fallback. Any other value is kept. |
| ReviewOutcome.EffectiveIntervals | client/src/hooks/use-review-session.ts:58-64 | Each interval is the configured one, or its default when it is missing or 0. |
| ReviewOutcome.ZeroIntervalsReplaced | client/src/hooks/use-review-session.ts:59-63 | The effective interval of levels 1 to 4 is never 0, so a configured 0 there gives the default. Stored defaults pass through unchanged. |
| ReviewOutcome.OutcomePatch | client/src/hooks/use-review-session.ts:55-73 | The payload carries the policy's level and due time for the stored level (0 when missing). The review count goes up by one and the correct count goes up on a correct answer. Card type and active flag are not sent. |
| ReviewOutcome.ApplyOutcome | client/src/hooks/use-review-session.ts:42-77 | Fails with "not found" exactly when the caller cannot read the session. For a readable session, fails with an invalid-time error exactly when the new due time lies outside the `Date` range of ±8.64e15 ms, where `toISOString` throws. Otherwise only that session changes, gets the new level, due time and counters, and keeps its owner, card, type and active flag. |
| ReviewOutcome.HugeIntervalNotRecorded | client/src/hooks/use-review-session.ts:54-69 | A correct answer at level 2 with a level-3 interval of 10^11 days is not recorded: the due time is not a valid `Date`. |
| ReviewOutcome.ApplyOutcomePreservesWellFormed | client/src/hooks/use-review-session.ts:67-73 | Levels stay in 0..4 and correct never exceeds reviews. The review count goes up by exactly one, and the correct count by one exactly on a correct answer. |
| ReviewOutcome.ApplyOutcomeIsolated | client/src/hooks/use-review-session.ts:42-77 | Reviewing one user's session leaves every other user's active and due lists unchanged. |
| ReviewOutcome.NewCardThenCorrect | server/storage.ts:886-907 | A new card's two sessions are due at once. With the default table, a correct answer moves one to level 1, due one day later with one correct review, and it is no longer due. |
| ReviewOutcome.WrongAnswerDueAgain | client/src/lib/spaced-repetition.ts:40-45 | A wrong answer at level 3 gives level 0, due at once, and the session is in the due list again. |
| Analytics.BumpCount | server/storage.ts:1025-1031 | Counting a session adds one to its level's count, and nothing for a level outside 0..4. |
| Analytics.Tally | server/storage.ts:1020-1036 | The counts add up to at most the number of sessions counted. |
| Analytics.TallyCounts | server/storage.ts:1020-1036 | Each level's count is the number of sessions at that level. The total is the number of sessions with a level in 0..4. |
| Analytics.MasteryLevelCounts | server/storage.ts:1020-1036 | The in-memory counts total at most the user's active sessions. |
| Analytics.MasteryLevelCountsMeaning | server/storage.ts:1020-1036 | Each in-memory count is the number of the user's active sessions at that level. |
| Analytics.DbMasteryLevelCounts | server/storage.ts:1801-1809 | The database counts total at most the user's sessions, inactive ones included. |
| Analytics.DbCountsAgreeWhenAllActive | server/storage.ts:1801-1809 | When all of a user's sessions are active, the database counts equal the in-memory counts. |
| Analytics.DbCountsIncludeInactive | server/storage.ts:1801-1809 | An inactive level-0 session is counted by the database version and not by the in-memory one. |
| Analytics.CountsExample | server/storage.ts:1020-1036 | Sessions at levels 0, 1, 1 and 4 count as 1, 2, 0, 0 and 1. |
| Analytics.InsertByTime | server/storage.ts:1039 | Inserting keeps every entry and adds exactly the new one. |
| Analytics.InsertKeepsOrder | server/storage.ts:1039 | Inserting into a newest-first list keeps it newest first. |
| Analytics.SortNewestFirst | server/storage.ts:1039 | Sorting is a permutation of the log. |
| Analytics.SortIsNewestFirst | server/storage.ts:1039 | The sorted log is newest first. |
| Analytics.RecentActivity | server/storage.ts:1038-1040 | The feed holds min(log length, 10) entries, newest first, all from the log. Every entry left out is no newer than the last one shown. |
| SharedDecks.AddCardToSharedDeck | server/storage.ts:1139-1167 | A missing or foreign deck fails with "not found". A card already listed fails with "already exists". Otherwise the card goes last with order equal to the old length, the count becomes the new length, and other decks are unchanged. |
| SharedDecks.WithoutCard | server/storage.ts:1176 | Keeps exactly the entries for other cards, so the removed card no longer appears. |
| SharedDecks.WithoutCardAppend | server/storage.ts:1176 | Filtering two lists in a row gives the filtered first list followed by the filtered second, and a single entry stays exactly when it is for another card, so the remaining entries keep their order. |
| SharedDecks.RemoveCardFromSharedDeck | server/storage.ts:1169-1182 | A missing or foreign deck fails with "not found". Otherwise the card's entries leave the list, the count becomes the new length, and other decks are unchanged. |
| SharedDecks.FilterKeepsDistinct | server/storage.ts:1176 | Removing a card from a list without repeats leaves it without repeats. |
| SharedDecks.OperationsKeepConsistent | server/storage.ts:1139-1182 | Adding and removing keep every deck's count equal to its list length, and each card listed at most once. |
| SharedDecks.AddThenRemove | server/storage.ts:1139-1182 | Adding a card and then removing it restores the deck's list and count. |
| SharedDecks.RemoveAbsentIsNoOp | server/storage.ts:1169-1182 | Removing a card the deck does not list changes nothing. |
| ReviewPage.IsCorrect | client/src/pages/review.tsx:77 | An answer is correct exactly for "good" and "easy". |
| ReviewPage.QuestionModes | client/src/pages/review.tsx:45-50 | Word and definition are always offered. Image is offered exactly when the card has an image. |
| ReviewPage.PickQuestionMode | client/src/pages/review.tsx:43-56 | The random pick is always one of the card's modes, so the image mode is never picked for a card without images. |
| ReviewPage.EveryModeReachable | client/src/pages/review.tsx:52-54 | Every mode the card allows is picked for some random number. |
| ReviewPage.CurrentSession | client/src/pages/review.tsx:39 | There is a current session exactly when the position lies inside the due list. |
| ReviewPage.HandleMasteryResponse | client/src/pages/review.tsx:74-110 | Nothing happens without a current session or settings. A failed update changes nothing and reports the failure. A successful one scores the answer, then moves on, or on the last card ends with the score including this answer. |
| ReviewPage.ResponseKeepsPageSensible | client/src/pages/review.tsx:74-110 | The score stays 0 <= correct <= total, the position stays in the due list, and the total and position each grow by at most one. |
| PracticePage.StartPracticeSession | client/src/pages/practice.tsx:28-40 | With no cards nothing happens. Otherwise a round starts with min(count, cards) cards drawn from the deck, at position 0, with nothing attempted. |
| PracticePage.NextCard | client/src/pages/practice.tsx:62-80 | The card counts as attempted. The round moves on, or on the last card ends and reports the count including it. |
| PracticePage.SkipCard | client/src/pages/practice.tsx:82-95 | The round moves on or ends as with NextCard, but the card is not counted. |
| PracticePage.RestartSession | client/src/pages/practice.tsx:97-99 | A new round starts with as many cards as the last one, or all of them if fewer remain. |
| PracticePage.StepsKeepConsistent | client/src/pages/practice.tsx:28-95 | Starting, moving on and skipping keep the position inside the drawn cards and attempted no higher than the cards passed. The count reported at the end never exceeds the cards drawn. |
| TemplateEditor.InitialName | client/src/components/template-editor.tsx:22 | A non-empty template name is used as it is. The name is the default exactly when the template has no name, an empty name, or the default name. |
| TemplateEditor.InitialFields | client/src/components/template-editor.tsx:23-27 | The template's fields are used if present. Otherwise the list is the single default field: `definition`, labelled "Definition", a required text area with order 1. |
| TemplateEditor.AddField | client/src/components/template-editor.tsx:38-47 | Appends one optional text field named "New Field", with an id starting with `field_` and order equal to the new length. The other fields are unchanged. |
| TemplateEditor.ApplyUpdate | client/src/components/template-editor.tsx:49-53 | Each attribute the update supplies replaces the field's. Id and order stay. |
| TemplateEditor.ApplyUpdateIdempotent | client/src/components/template-editor.tsx:49-53 | Applying an update twice equals applying it once. |
| TemplateEditor.UpdateField | client/src/components/template-editor.tsx:49-53 | Only the field at the index changes. |
| TemplateEditor.RemoveField | client/src/components/template-editor.tsx:55-57 | Removes exactly the field at the index, keeping the order of the rest. An index out of range changes nothing. |
| TemplateEditor.Move | client/src/components/template-editor.tsx:62-64 | The moved element lands at the destination, and the result is a permutation. |
| TemplateEditor.MoveShifts | client/src/components/template-editor.tsx:62-64 | Elements outside the moved span stay put. Those inside shift by one towards the source. |
| TemplateEditor.MoveBack | client/src/components/template-editor.tsx:62-64 | Moving back from the destination to the source restores the list. |
| TemplateEditor.Renumber | client/src/components/template-editor.tsx:67-70 | Fields are numbered 1..n in list order, and nothing but `order` changes. |
| TemplateEditor.RenumberDistinctAndStable | client/src/components/template-editor.tsx:67-70 | The new orders are distinct, and renumbering twice equals renumbering once. |
| TemplateEditor.HandleDragEnd | client/src/components/template-editor.tsx:59-73 | A drop without a destination changes nothing. Otherwise the field moves and all fields are renumbered. |
| TemplateEditor.DragKeepsFields | client/src/components/template-editor.tsx:59-73 | After a drag, the field ids are the moved id list, a permutation of the old ids. |
| TemplateEditor.HandleSave | client/src/components/template-editor.tsx:75-80 | Saving is refused exactly while loading, with a blank name, or with no fields, as the save button's disabled condition says. A saved template carries the name and the renumbered fields. |
| ImageUpload.OpensFilePicker | client/src/components/image-upload.tsx:179-183 | The picker opens exactly when there is a free slot. |
| ImageUpload.FullListTakesNothing | client/src/components/image-upload.tsx:42-206 | With the list full, the picker stays shut, and a typed URL, a file selection and a paste all leave the list unchanged. |
| ImageUpload.WhiteSpaceUrlIgnored | client/src/components/image-upload.tsx:199-206 | A typed URL made only of white space is never added, and the input keeps it. |
| JsText.BlankIffAllWhiteSpace | client/src/components/image-upload.tsx:200 | `!s.trim()` holds exactly when every character of `s` is white space. |
| ImageUpload.HandleUrlAdd | client/src/components/image-upload.tsx:199-206 | A non-blank URL is appended, trimmed, when there is a free slot, and the input is cleared. Otherwise nothing changes. |
| ImageUpload.RemoveImage | client/src/components/image-upload.tsx:153-157 | Removes exactly the URL at the index. An index out of range changes nothing. |
| ImageUpload.UrlAddRemoveBounded | client/src/components/image-upload.tsx:199-206 | Adding or removing never exceeds `maxImages`. Removing a URL just added restores the list. |
| ImageUpload.FilesToProcess | client/src/components/image-upload.tsx:124-126 | The files taken are a prefix of the selection no longer than the free slots. |
| ImageUpload.HandleFileSelectAsWritten | client/src/components/image-upload.tsx:123-151 | The list is extended only when every file taken loads. Otherwise it is unchanged. |
| ImageUpload.MixedBatchDropsImages | client/src/components/image-upload.tsx:138-141 | An image plus a text file adds nothing as written, where the corrected version adds the image. |
| ImageUpload.HandleFileSelect | client/src/components/image-upload.tsx:123-151 | The old URLs are followed by the loaded images of the files taken, in order, without exceeding `maxImages`. |
| ImageUpload.FileSelectAgreesOnImageBatches | client/src/components/image-upload.tsx:123-151 | When every file taken loads, the as-written and corrected versions agree. |
| ImageUpload.HandlePaste | client/src/components/image-upload.tsx:42-118 | Nothing happens unless the area is focused, the clipboard has items and there is a free slot. At most one URL is appended, after the existing ones. It is either the non-empty data URL of the first image item, or, when there is no image item, the trimmed text of a plain-text item that looks like an image URL. |
| ImageUpload.PasteAppendsWhatItFinds | client/src/components/image-upload.tsx:42-118 | With the area focused and a free slot, the paste appends the first image item's data URL when it is non-empty. With no image item, it appends the trimmed text of the first plain-text item when that looks like an image URL. |
| ImageUpload.PasteKeepsBound | client/src/components/image-upload.tsx:48 | Pasting never exceeds `maxImages`. |
| ImageUpload.PastedTextExample | client/src/components/image-upload.tsx:91-99 | An upper-case extension followed by a query string is still recognised as an image URL. |
| Dictionary.MerriamWebsterUrl | client/src/lib/dictionary-api.ts:16-19 | The URL is empty exactly for a blank word. Otherwise it has the dictionary prefix and the kids' suffix. |
| Dictionary.UrlCarriesWord | client/src/lib/dictionary-api.ts:16-19 | Between prefix and suffix sits the encoding of the trimmed, lower-cased word. |
| Dictionary.NormalisedWordSameUrl | client/src/lib/dictionary-api.ts:16-19 | A word that is already trimmed and lower-cased gives the same URL as the original. |
| Dictionary.AudioFolderAsWritten | client/src/lib/dictionary-api.ts:51-53 | The folder is "bix", then "gg", else the first character. |
| Dictionary.AudioFolder | client/src/pages/card-creation.tsx:155-158 | The folder is "bix", then "gg", then "number" for a leading digit, else the first character. |
| Dictionary.AudioFoldersAgreeUnlessDigit | client/src/lib/dictionary-api.ts:51-53 | The two folder rules agree exactly when the file name does not start with a digit. |
| Dictionary.DigitNameFolders | client/src/lib/dictionary-api.ts:51-53 | For "3d000001" the rule as written gives "3", where "number" is intended. |
| Dictionary.AudioUrl | client/src/lib/dictionary-api.ts:51-54 | The URL is the audio base, then the folder of the rule as written, then `/<file>.mp3`. |
| Dictionary.CorrectedAudioUrl | client/src/pages/card-creation.tsx:155-158 | The same URL with the folder of the card form's rule. |
| Dictionary.AudioUrlsAgreeUnlessDigit | client/src/lib/dictionary-api.ts:51-54 | The link as written and the corrected link are equal exactly when the file name does not start with a digit. |
| Dictionary.DigitNameEntryLink | client/src/lib/dictionary-api.ts:51-65 | A headword whose audio file is "3d000001" gets a link into folder "3". |
| Dictionary.EntryOf | client/src/lib/dictionary-api.ts:46-70 | The word is the entry id when present. Phonetic and audio are present exactly when truthy, and the audio link is built by the rule as written. There is one meaning exactly when the part of speech is truthy, and its definitions are the short definitions with no examples. |
| Dictionary.ParseResponse | client/src/lib/dictionary-api.ts:34-73 | An entry is produced exactly for a non-empty array whose first element is a headword, not a suggestion string. The entry is that headword's, with its audio link in the folder the rule as written picks. |
| Dictionary.DefinitionExamples | client/src/lib/dictionary-api.ts:84-88 | Collects only non-empty examples that some definition carries, and the example of every definition whose example is truthy. |
| Dictionary.DefinitionExamplesAppend | client/src/lib/dictionary-api.ts:84-88 | The examples of two lists in a row are those of the first followed by those of the second. A single definition gives its example exactly when it is truthy. Together these fix the order. |
| Dictionary.NoExamplesNoSentences | client/src/lib/dictionary-api.ts:80-92 | Meanings without examples yield no sentences. |
| Dictionary.ParsedEntriesHaveNoExamples | client/src/lib/dictionary-api.ts:61-69 | Example extraction on a parsed entry always yields nothing. |
| Dictionary.ExtractExampleSentences | client/src/lib/dictionary-api.ts:80-92 | The loop returns the truthy examples of all definitions of all meanings, in order. |

## Left out

- **Database implementation.** Only the scheduling-relevant queries (due,
  active, mastery counts) are modelled beside the in-memory store.
  Connection handling, SQL and time zones are not.
- **Network round trips.** The client mutation reads and then writes through
  two HTTP calls. It is modelled as one atomic step. Races between two tabs,
  HTTP failures other than "not found", and the refetch after success are
  not modelled.
- **Due list refetch.** The review page walks the due list as it was fetched
  when the page opened. Refetching is not modelled.
- **Clock.** Every operation reads the clock once, as the parameter `now`.
  The source calls `new Date()` separately in the policy and in the payload,
  a few milliseconds apart.
- **Randomness.** `Math.random` becomes a parameter in [0, 1). The practice
  shuffle, a sort with a random comparator, becomes any permutation of the
  cards.
- **`getStudySettings` and `updateStudySettings`.** Settings are passed in
  directly. Lookup by user and persistence of settings are not part of this
  model.
- **Progress bar and toasts.** The review progress percentage is floating
  point display and is left out. So are navigation, toasts and rendering.
  Notices stand in for the toast texts.
- **Activity log ownership.** `getRecentActivity` ignores its `userId`, and
  the store writes activity entries without an owner. The model follows
  this: the feed is global, and clearing a user's data keeps the log.
- **Daily statistics.** The statistics cleared by `clearUserData` are not
  modelled. Shared decks beyond adding and removing cards (creation,
  import, listing) are not modelled either.
- **Asynchronous reads.** File and clipboard reads are taken to finish in
  selection order. Each read's result is an input, and drag-and-drop
  events are not modelled.
- **Image count above `maxImages`.** When the initial list already holds
  more than `maxImages` URLs, `slice(0, negative)` takes all but the last
  few files. This is modelled as written, through `JsText.SliceTo`.
- **Unicode.** `JsText.ToLower` folds only ASCII letters, which is exact for
  the case-insensitive image-URL pattern (no `u` flag). For the dictionary
  URL, other letters are left as they are. `encodeURIComponent` is an
  opaque function parameter.
- **Dictionary network.** The fetch, its HTTP status and its JSON decoding
  are not modelled. The decoded response is an input.
- **Analytics.DbMasteryLevelCounts: query order.** It counts the user's
  sessions in ascending id order. The database returns them in unspecified
  order, which the counts do not depend on.
- **Index preconditions in the template editor.** `TemplateEditor.UpdateField`,
  `TemplateEditor.Move` and `TemplateEditor.HandleDragEnd` require indices
  inside the field list. The editor only calls them with the index of a
  rendered field, and the drag library only reports such indices. The
  out-of-range behaviour of the JavaScript (a hole in the array) is not
  modelled.
- SpacedRepetition.CalculateNextReviewDate: returns an unbounded millisecond
  count. In the source, `new Date(now.getTime() + intervalDays * 86400000)`
  is an invalid `Date` outside ±8.64e15 ms, and its `toISOString` in the
  review mutation then throws. That range is checked where the throw
  happens, in `ReviewOutcome.ApplyOutcome`. The clock reading `now` is taken to be a
  valid `Date`, so `lastReviewed` never throws.
- **Practice page sizes.** `PracticePage.StartPracticeSession` relates the
  round size to `count` only for a non-negative `count`. Every call site
  passes a non-negative count: 5, 10, 20, the deck size, or the previous
  round's size.

## Findings

| source | as written | input that shows it | evidently intended | confidence | as-written member | corrected member |
|---|---|---|---|---|---|---|
| server/storage.ts:953 | The in-memory due filter compares `session.nextReview`, a field sessions do not have, with `now`. `undefined <= now` is false. | Any store with an active session of the caller whose next review date has passed: the due list is empty. | Compare `nextReviewDate`, as the database query does. | not executed | Storage.DueAsWrittenIsEmpty | Storage.DueReviewSessions |
| client/src/components/image-upload.tsx:138-141 | `processedCount` counts only loaded images but is compared with the number of files taken, non-images included. | Selecting an image and a text file with no URLs yet: nothing is added. | The loaded images are appended, and the other files are skipped. | not executed | ImageUpload.MixedBatchDropsImages | ImageUpload.HandleFileSelect |
| client/src/lib/dictionary-api.ts:51-53 | The audio folder falls back to the file name's first character, even for a digit. | Audio file "3d000001" gives folder "3". | The "number" folder, as the card-creation page's rule at client/src/pages/card-creation.tsx:155-158 does. | not executed | Dictionary.DigitNameEntryLink | Dictionary.CorrectedAudioUrl |
