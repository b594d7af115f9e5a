# Quiz-session engine of the MCQ backend, in Dafny

This project models the quiz-session engine of an Express/Mongoose quiz backend for school
students, together with the helpers around it.

Four controllers share one engine:
- the practice plan and random practice sessions;
- previous-year papers;
- the daily quiz;
- the personalised MCQ session.

The engine has two parts.
- **Session builders** take a pool of candidate question ids and split it into three sections, or
  one for the daily quiz. They number the entries and start the cursor `(section, index,
  questionId)` and the progress counters.
- **Submit handlers** take an answer. Each one:
  - normalises the answer and compares it with the stored one;
  - finds the matching entry, Section1 first, then Section2, then Section3;
  - marks that entry and counts the answer;
  - moves the cursor on, rolling into the next section and closing the session after the last
    entry.

The helpers around it:
- first-occurrence de-duplication;
- the Fisher–Yates shuffle;
- the weighted question-count distribution and ceil-based section split;
- option normalisation;
- the subject and enrollment merges;
- coupon validity and discount arithmetic;
- the subscription guards;
- the email and password validators of signup and login.

Modules follow the source files:

| module | file | models |
|---|---|---|
| `SessionModel` | session_model.dfy | the session schema: entries, cursor, progress, defaults; `findOne`/`updateMany` on a store |
| `LiveSession` | session.dfy | class `Session`: a session document updated in place by the submit handlers |
| `SectionCursor` | cursor.dfy | the three-section locate/mark/score/advance step and the one-section step of the daily quiz |
| `PracticePlan` | practice_plan.dfy | practice plan and random-session handlers |
| `PreviousYear` | previous_year.dfy | the previous-year session: sizing, pool, filters, split, answer check |
| `TodaysQuestion` | todays_question.dfy | the daily quiz: create-or-resume, answer check, topic statistics |
| `PersonalizedMcq` | personalized_mcq.dfy | the personalised session: validation, distribution, fetch helpers, split |
| `Options` | options.dfy | the three copies of `normalizeOptions` |
| `Subjects` | subject.dfy | subject merge and lookup |
| `Subscriptions` | subscription.dfy | order guard, payment verification, auto-enrollment |
| `Coupons` | coupon.dfy | coupon creation, application and usage count |
| `Students` | student.dfy | email and password checks, signup and login check order, practice mode |
| `Text`, `Collections`, `Shuffle`, `Wrappers` | text.dfy, collections.dfy, shuffle.dfy, wrappers.dfy | JavaScript string semantics, `new Set` de-duplication, `findIndex`, `slice`, `shuffleArray`, `Option` |

How the model stands in for the parts it does not run:
- **Database:** reads (`$sample`, `find`, `findOne`) are input sequences, and a collection is a
  `seq` of documents. `findOne` is the first document a filter accepts. `updateMany` maps over
  the sequence, and a saved new document is appended.
- **Time and randomness:** `new Date()` is a parameter `now`. `Math.random()` is a sequence of
  rolls in `[0, 1)`.
- **Handler shape:** a handler is a function returning its reply and the new store.
- **Submit handlers:** these are methods on a `LiveSession.Session` object. Each method's
  postcondition ties the new document and the reply to a specification function. The properties
  the source promises are lemmas about that function.
- **Loops:** each loop over a sequence is a method with a loop invariant, proved equal to a
  recursive function. These are the `forEach`/`push` pool builders, the `filter`-with-`Set`
  de-duplication, the swap loop of `shuffleArray`, the `topicStats` dictionary and the
  enrollment merge.

## Model

| member | source | states |
|---|---|---|
| SessionModel.InitialProgressAgrees | Models/RandomquestionsModel.js:59-71 | the default progress has every counter 0, both answer lists empty, the given status, and satisfies `completed == correct + wrong` |
| SessionModel.Numbered | Controller/PracticeplanController.js:72-86 | `ids.map((id, i) => ...)` gives one pending, unanswered, 0-attempt entry per id, in order, numbered `start + i`, with no paper index |
| SessionModel.FindFirst | Controller/PracticeplanController.js:475-478 | `findOne` returns nothing exactly when no document matches, otherwise a stored document the filter accepts |
| SessionModel.DeactivateWhere | Controller/PreviousyearQuestionController.js:116 | `updateMany(filter, {isActive: false})` turns off exactly the matching documents and keeps the rest |
| SessionModel.DeactivateClearsActive | Controller/PreviousyearQuestionController.js:116 | after deactivating (user, subject), none of its sessions is active, other sessions are unchanged, and changed sessions differ only in `isActive` |
| SessionModel.DeactivateThenAddKeepsOneActive | Controller/PreviousyearQuestionController.js:116-137 | deactivating, then saving one new session, keeps "at most one active session per (user, subject)" |
| SectionCursor.LocateIsFirstMatch | Controller/PracticeplanController.js:235-257 | searching Section1, then 2, then 3 finds the first matching entry of the whole session, and finds nothing exactly when no entry matches |
| SectionCursor.AdvanceIsNextEntry | Controller/PracticeplanController.js:271-287 | the rolled-over `(nextSection, nextIndex)` is the entry right after the answered one in section order, skipping empty sections; it is "done" (section 3) exactly when the answered entry was the last one |
| SectionCursor.MarkAnswered | Controller/PracticeplanController.js:239-242 | the entry becomes correct/incorrect with attempts + 1 and `answeredAt = now`; its other fields are kept |
| SectionCursor.Score | Controller/PracticeplanController.js:266-268 | completed goes up by 1 and exactly one of correct/wrong goes up by 1, so `completed == correct + wrong` is preserved; lists and status are kept |
| SectionCursor.ReplaceAtEntries | Controller/PracticeplanController.js:235-246 | writing one entry back changes exactly that position of the flattened session and nothing else |
| SectionCursor.StepFailsIffNoMatch | Controller/PracticeplanController.js:259-263 | the step replies "not found in session" and saves nothing exactly when no entry matches |
| SectionCursor.StepChangesOnlyFirstMatch | Controller/PracticeplanController.js:235-268 | only the first matching entry changes, by MarkAnswered; section sizes, identity fields and answer lists are kept; counters move as in Score |
| SectionCursor.StepAdvancesCursor | Controller/PracticeplanController.js:271-299 | the cursor points at the next entry and carries its id; the session is completed and inactive exactly when the answered entry was last, and otherwise in progress |
| SectionCursor.MarkKeepsLocate | Controller/PracticeplanController.js:235-257 | marking the located entry does not change what an id filter locates next |
| SectionCursor.StepKeepsLocate | Controller/PracticeplanController.js:235-257 | after a step the same filter finds the same position again |
| SectionCursor.ResubmissionCountsTwice | Controller/PracticeplanController.js:235-268 | there is no check for an already answered entry: answering it wrong, then right, counts two answers and two attempts on that entry |
| SectionCursor.FiltersSeeOnlyIds | Controller/PreviousyearQuestionController.js:225-234 | the practice filter (question id) and the previous-year filter (paper id and index) look only at fields that marking leaves alone |
| SectionCursor.SingleStepChangesOnlyFirstMatch | Controller/TodaysQuestionController.js:139-146 | the daily step finds nothing exactly when no Section1 entry has the id; otherwise only the first such entry is marked, and Sections 2 and 3 and the identity fields are kept |
| SectionCursor.SingleStepRecordsAnswer | Controller/TodaysQuestionController.js:149-166 | a right answer appends the id to `correctAnswerList`; a wrong one appends `{questionId, selectedOption, answeredAt}`; counters move with the lists, so counters equal to list lengths and valid wrong-answer records stay so |
| SectionCursor.SingleStepAdvancesCursor | Controller/TodaysQuestionController.js:169-180 | on the last entry the session is completed and inactive with the cursor left unchanged; otherwise it is in progress and the cursor is `(1, i + 1, id of entry i + 1)` |
| LiveSession.Session.constructor | Models/RandomquestionsModel.js:29-76 | the object holds exactly the given session document |
| LiveSession.Session.UpdateQuestionStatus | Controller/PracticeplanController.js:235-246 | returns the `findIndex` of the filter in one section and marks that entry in place; when nothing matches, the object is unchanged |
| LiveSession.Session.RecordAnswer | Controller/PracticeplanController.js:248-299 | reports a match exactly when the three-section step finds one; the new document is the step's result, and the document is unchanged otherwise |
| LiveSession.Session.MoveCursor | Controller/PracticeplanController.js:271-299 | writes the progress status, `isActive` and the rolled-over cursor; nothing else changes |
| LiveSession.Session.RecordSingleAnswer | Controller/TodaysQuestionController.js:139-180 | reports a match exactly when the daily step finds one; the new document is the step's result, and the document is unchanged otherwise |
| PracticePlan.QuestionCount | Controller/PracticeplanController.js:38 | `parseInt(x) \|\| 5` is never 0 |
| PracticePlan.QuestionCountOfDigits | Controller/PracticeplanController.js:38 | a decimal string gives its value (0 gives 5); a missing or non-numeric value gives 5 |
| PracticePlan.PlanRejections | Controller/PracticeplanController.js:24-36 | missing fields give 400; a negative count reaches `$sample`, which fails with 500 |
| PracticePlan.PlanSplitsSample | Controller/PracticeplanController.js:38-86 | fewer than 3n sampled ids give 404; otherwise the sections are the slices `[0,n)`, `[n,2n)`, `[2n,3n)`, each numbered 1..n with default entries |
| PracticePlan.RandomSessionShape | Controller/PracticeplanController.js:399-443 | the sections hold the whole sample in order: 10, 10, then the rest; each is numbered from 1; the cursor is the first question and counters start at 0 |
| PracticePlan.EntryPointsOnActiveSession | Controller/PracticeplanController.js:336-397 | with an active (user, subject) session, `getRandomQuestion` resumes it and `createRandomQuestions` rejects it, both saving nothing; without one, the first starts iff the sample is non-empty and the second creates iff it has at least 30 ids |
| PracticePlan.StartingKeepsOneActive | Controller/PracticeplanController.js:430-443 | both entry points keep at most one active session per (user, subject) |
| PracticePlan.AnswerByIdReplies | Controller/PracticeplanController.js:206-311 | missing fields give 400; correctness is equality of trimmed, lower-cased answers; the correct answer is returned only on a wrong answer; a document is saved exactly on success and is the three-section step's result |
| PracticePlan.CheckAnswerById | Controller/PracticeplanController.js:206-311 | the handler on a live session gives the reply and new document of AnswerById, and leaves the session untouched when it does not save |
| PracticePlan.MissedEntries | Controller/PracticeplanController.js:487-489 | keeps only incorrect entries with more than one attempt, drawn from the input |
| PracticePlan.MissedEntriesComplete | Controller/PracticeplanController.js:487-489 | every incorrect entry with more than one attempt is kept |
| PracticePlan.MissedQuestionsAreTheMissedEntries | Controller/PracticeplanController.js:481-513 | the reply lists the missed entries of the active session in section order, numbered 1..k, with their ids and attempts, and misses none |
| PreviousYear.PerSection | Controller/PreviousyearQuestionController.js:23 | `max(1, floor(total / 3))` is at least 1 |
| PreviousYear.TargetIsMultipleOfThree | Controller/PreviousyearQuestionController.js:23-24 | the target is a positive multiple of 3, the largest one not above the total (3 when the total is below 3) |
| PreviousYear.FrequentOnly | Controller/PreviousyearQuestionController.js:53-60 | keeps only frequently-asked questions of the paper |
| PreviousYear.BuildPool | Controller/PreviousyearQuestionController.js:49-61 | the `forEach`/`push` loop builds exactly the pool of (paper, index) items |
| PreviousYear.PoolMembers | Controller/PreviousyearQuestionController.js:49-61 | an item is in the pool iff its paper is one of the papers and its index is a position of that paper's considered list |
| PreviousYear.FrequentIndexIsFilteredPosition | Controller/PreviousyearQuestionController.js:53-60 | with the frequently-asked filter, an item's index is its position in the filtered list, so it can point at a question of the full paper that is not frequently asked |
| PreviousYear.KeepAttempted | Controller/PreviousyearQuestionController.js:66-79 | the attempted filter keeps only pool items whose (paper, index) key is in the user's history |
| PreviousYear.KeepAttemptedComplete | Controller/PreviousyearQuestionController.js:66-79 | no attempted item is dropped |
| PreviousYear.CandidatesWereAttempted | Controller/PreviousyearQuestionController.js:66-79 | with `includeAttempted`, every candidate's (paper, index) key occurs in one of the user's sessions on the subject, answered or not |
| PreviousYear.ChosenFromPool | Controller/PreviousyearQuestionController.js:86-91 | whatever the random rolls, the chosen items come from the pool |
| PreviousYear.PaperEntries | Controller/PreviousyearQuestionController.js:93-113 | each item becomes a default entry with its paper id and paper index, numbered from 1 |
| PreviousYear.Slice | Controller/PreviousyearQuestionController.js:88-91 | `slice(a, b)` has at most `b - a` items |
| PreviousYear.SlicesCover | Controller/PreviousyearQuestionController.js:88-91 | the three slices of at most 3·per items put back together give those items |
| PreviousYear.PaperSessionShape | Controller/PreviousyearQuestionController.js:88-137 | the sections hold the chosen items in order, at most per each, and exactly per when there are enough; each is numbered from 1; the cursor starts at `Section1[0]?.questionId` or null, and the counters at 0 |
| PreviousYear.GeneratedSessionShape | Controller/PreviousyearQuestionController.js:81-146 | a generated session holds the first `min(pool, 3·per)` shuffled candidates, all from the pool, all attempted when so asked; the reply reports per-section and target sizes |
| PreviousYear.GenerateReplacesActiveSession | Controller/PreviousyearQuestionController.js:81-137 | an empty pool gives 404 with nothing saved; otherwise earlier (user, subject) sessions are deactivated and the new one is active, keeping at most one active |
| PreviousYear.AnswerPreviousYearReplies | Controller/PreviousyearQuestionController.js:207-268 | missing fields give 400; correctness compares the paper question's trimmed, lower-cased answer; a document is saved exactly on success and is the three-section step's result |
| PreviousYear.AnswerPreviousYearNotInSession | Controller/PreviousyearQuestionController.js:236-239 | "not in session" means no entry has both the paper id and that paper index |
| PreviousYear.CheckPreviousYearAnswer | Controller/PreviousyearQuestionController.js:207-273 | the handler on a live session gives the reply and new document of AnswerPreviousYear, and leaves the session untouched when it does not save |
| TodaysQuestion.CreateTodaysResumesOrCreates | Controller/TodaysQuestionController.js:5-64 | an existing active quiz for (user, subject, syllabus, standard) is returned and nothing is created; otherwise the new quiz holds the first 10 drawn questions (all of them when fewer match) numbered 1..k in Section1, with the cursor on its first question; at most one active quiz is kept |
| TodaysQuestion.AnswerTodayReplies | Controller/TodaysQuestionController.js:117-195 | missing fields give 400; correctness is normalised equality; the correct answer is returned only when wrong; a document is saved exactly on success and is the daily step's result |
| TodaysQuestion.CheckTodaysAnswer | Controller/TodaysQuestionController.js:117-195 | the handler on a live session gives the reply and new document of AnswerToday, and leaves the session untouched when it does not save |
| TodaysQuestion.CountTopics | Controller/TodaysQuestionController.js:234-241 | the `forEach` over the fetched questions builds exactly the topic table |
| TodaysQuestion.TopicStatsCount | Controller/TodaysQuestionController.js:234-241 | the topics present are those of the questions; each one's total counts its questions, `correct` counts those in the correct list, and `correct <= total` |
| TodaysQuestion.CountTopicAbsent | Controller/TodaysQuestionController.js:234-241 | a topic no question has counts 0 total and 0 correct |
| PersonalizedMcq.PersonalValidation | Controller/PersonalizedMcqController.js:49-59 | a session is generated iff userId and subject are present and `1 <= totalQuestions <= 100`; otherwise 400 and nothing is saved |
| PersonalizedMcq.Distribute | Controller/PersonalizedMcqController.js:68-71 | the topic, previous-year, attempted and random counts always sum to `totalQuestions` |
| PersonalizedMcq.DistributionRoundsDown | Controller/PersonalizedMcqController.js:68-70 | each weighted count is at most its exact share |
| PersonalizedMcq.DistributionBounds | Controller/PersonalizedMcqController.js:68-71 | with non-negative weights summing to at most 1, every count is between 0 and the total |
| PersonalizedMcq.DefaultDistribution | Controller/PersonalizedMcqController.js:39-45 | with the default weights the random count is at least 1, and 30 questions split as 12, 9, 6, 3 |
| PersonalizedMcq.FetchSampled | Controller/PersonalizedMcqController.js:241-273 | `slice(0, count)` of the sample: at most `count` items, the sample's first ones, tagged with their source |
| PersonalizedMcq.PaperItems | Controller/PersonalizedMcqController.js:289-303 | a paper's items carry ids `${paper._id}_${index}` in index order |
| PersonalizedMcq.FetchPreviousYear | Controller/PersonalizedMcqController.js:278-313 | the nested push loop returns exactly the first `count` paper items, in paper order |
| PersonalizedMcq.CollectWithStatus | Controller/PersonalizedMcqController.js:322-350 | the loop collects the ids of entries with the given status, session by session, in section order |
| PersonalizedMcq.IdsWithStatusSound | Controller/PersonalizedMcqController.js:330-334 | every collected id belongs to an entry with that status |
| PersonalizedMcq.StatusIdsSound | Controller/PersonalizedMcqController.js:322-350 | every collected id comes from an entry with that status in one of the given sessions |
| PersonalizedMcq.InactiveSessions | Controller/PersonalizedMcqController.js:324-328 | the history query yields only the user's inactive sessions on the subject |
| PersonalizedMcq.AmongIds | Controller/PersonalizedMcqController.js:372-375 | the question lookup yields only bank questions among the ids asked for |
| PersonalizedMcq.FetchAttemptedSound | Controller/PersonalizedMcqController.js:318-385 | at most `count` items, each tagged "attempted", each a bank question flagged, or answered with a requested status, in the user's inactive sessions |
| PersonalizedMcq.RemoveDuplicates | Controller/PersonalizedMcqController.js:639-649 | the `filter`-with-`Set` loop keeps the first occurrence of each id, in order |
| PersonalizedMcq.GatheredAtMost | Controller/PersonalizedMcqController.js:67-147 | with sane weights, the questions gathered from the four sources number at most `totalQuestions` |
| PersonalizedMcq.PersonalQuestions | Controller/PersonalizedMcqController.js:149-151 | after de-duplication and shuffle, the ids are exactly the gathered ids, each once |
| PersonalizedMcq.PersonalQuestionCount | Controller/PersonalizedMcqController.js:149-151 | the shuffled list has at most `totalQuestions` questions |
| PersonalizedMcq.UniqueAfterShuffle | Controller/PersonalizedMcqController.js:150-151 | shuffling a list with distinct ids keeps the ids distinct |
| PersonalizedMcq.CutSizes | Controller/PersonalizedMcqController.js:452-466 | `ceil(L/3) <= ceil(2L/3) <= L`, and the three section sizes differ by at most one, in descending order |
| PersonalizedMcq.PersonalSessionEntries | Controller/PersonalizedMcqController.js:452-471 | the three sections together hold the questions in order, numbered exactly 1..L across sections, as default entries |
| PersonalizedMcq.PersonalSessionLayout | Controller/PersonalizedMcqController.js:452-483 | the sections split at `ceil(L/3)` and `ceil(2L/3)`; the cursor is `questions[0]?._id` or null; counters start at 0, not started, active |
| PersonalizedMcq.PersonalReplacesActive | Controller/PersonalizedMcqController.js:430-491 | every active session of the user, whatever the subject, is turned off and otherwise kept; the new active session is built from the shuffled unique questions |
| Options.TruthyTextIsNonEmpty | Controller/PersonalizedMcqController.js:183 | a truthy value's `String(...)` is non-empty |
| Options.NormalizeOptions | Controller/PersonalizedMcqController.js:176-209 | `options.map(...)` keeps the list length and normalises each option on its own |
| Options.NormalizedForms | Controller/PersonalizedMcqController.js:176-209 | each option becomes one of: trimmed non-empty text with `diagramUrl` or null; a diagram only; the string itself; numeric-key fragments joined; other string fields joined by spaces and trimmed; `{text: ""}` |
| Options.ObjectForms | Controller/PersonalizedMcqController.js:181-206 | the same forms for a plain object |
| Options.TextFieldWins | Controller/PersonalizedMcqController.js:183-185 | a non-blank `text` field wins, trimmed |
| Options.SortAscendingSorts | Controller/PersonalizedMcqController.js:191 | the numeric key sort is sorted and a permutation |
| Options.JoinIgnoresFieldOrder | Controller/PersonalizedMcqController.js:189-192 | the numeric-key join does not depend on the order in which the fields are stored |
| Options.NumericStringsAgree | Controller/PersonalizedMcqController.js:189-192 | two objects with the same numeric-key values give the same fragments |
| Options.NumericKeysInNumericOrder | Controller/PersonalizedMcqController.js:189-192 | keys are joined in numeric order ("2", "10", "1" join as 1, 2, 10) |
| Options.NormalizeViewOptions | Controller/PersonalizedMcqController.js:526-546 | the session-view copy keeps the list length and maps each option on its own |
| Options.ViewAgreesWithGeneration | Controller/PersonalizedMcqController.js:526-546 | the view copy agrees with the generation copy except where a diagram URL is set and there is no non-blank text |
| Options.BlankTextWithDiagram | Controller/PersonalizedMcqController.js:531-532 | on a blank text with a diagram the two copies disagree: the view keeps the diagram, generation drops it |
| Options.NormalizePracticeOptions | Controller/PracticeplanController.js:674-688 | the practice copy keeps the list length and maps each option on its own |
| Options.VersionsAgree | Controller/PracticeplanController.js:674-688 | the practice copy gives the generation copy's text for strings and numeric-key objects, and returns objects with text or a diagram as they are |
| Subjects.SaveValidation | Controller/SubjectController.js:7-11 | a missing courseId or a missing or empty subject list gives 400 and saves nothing |
| Subjects.SaveMergesIntoExisting | Controller/SubjectController.js:14-22 | the course's document, kept in place, holds exactly the trimmed forms of its old and the new subjects, all trimmed; when those names are trimmed already none repeats, and a repeat-free trimmed old list stays first; other documents are kept |
| Subjects.MergedNames | Controller/SubjectController.js:18-21 | the `Set` merge followed by the element trim setter holds exactly the trimmed old and new names |
| Subjects.MergedKeepsPrefix | Controller/SubjectController.js:18-21 | a trimmed old list without repeats is a prefix of the stored merge |
| Subjects.TrimAllMembers | Models/SubjectModel.js:9-14 | the element setter stores exactly the trimmed forms of the names, every one of them trimmed |
| Subjects.SaveCreatesNew | Controller/SubjectController.js:23-28 | a new document is appended holding exactly the trimmed forms of the given subjects, all trimmed; each once when the given names are trimmed already |
| Subjects.SaveKeepsStoreTrimmed | Models/SubjectModel.js:9-14 | every saved list is trimmed, so a store of trimmed lists stays trimmed |
| Subjects.PaddedNamesStoredTwice | Models/SubjectModel.js:9-14 | two distinct names with the same trim, such as " Maths" and "Maths ", pass the `Set` and are stored as a repeated trimmed name |
| Subjects.SaveTwiceIsSaveOnce | Controller/SubjectController.js:14-28 | with trimmed names and trimmed stored lists, saving the same list twice leaves the store as saving it once |
| Subjects.PaddedSaveTwiceRepeats | Controller/SubjectController.js:14-28 | a padded name saved twice for a new course is stored once, then twice, trimmed |
| Subjects.GetValidation | Controller/SubjectController.js:47-61 | an empty id or empty id list gives 400; 404 exactly when no document has an asked course id |
| Subjects.MatchingDocs | Controller/SubjectController.js:55-57 | `$in` selects exactly the documents of the asked course ids |
| Subjects.FlatSubjectsMembers | Controller/SubjectController.js:64 | `flatMap` contains exactly the subjects of the documents |
| Subjects.CourseIds | Controller/SubjectController.js:71-75 | one course entry per document, in order |
| Subjects.SubjectNamesContents | Controller/SubjectController.js:63-67 | the names are the trimmed subjects, each once, and all already trimmed |
| Subjects.GetSubjectsContents | Controller/SubjectController.js:47-77 | a found reply lists the trimmed subjects of exactly the asked courses, each once, and only asked courses |
| Subjects.TrimmedBeforeDedupe | Controller/SubjectController.js:67 | two subjects equal after trimming appear once, because trimming comes before the de-duplication |
| Subjects.TrimMaths | Controller/SubjectController.js:67 | " Maths" and "Maths " both trim to "Maths" |
| Subscriptions.OrderChecks | Controller/SubscriptionController.js:16-57 | 404 for a missing plan, then for a missing student; 400 when the plan is still held; otherwise the order amount is `amount * 100` and one "created" payment is appended |
| Subscriptions.UpdatePayment | Controller/SubscriptionController.js:91-94 | only the first payment with that order id is rewritten |
| Subscriptions.UpdateStudent | Controller/SubscriptionController.js:108-111 | the requested update gives only the first student with that id the plan name and expiry |
| Subscriptions.VerifyRefusals | Controller/SubscriptionController.js:70-85 | missing fields give 400 with no change; a signature mismatch marks the payment failed and nothing else; a missing plan gives 404 with no change |
| Subscriptions.VerifyActivates | Controller/SubscriptionController.js:84-111 | on success the subscription runs from now for `durationInDays` days, is appended once, the payment is updated, and the student's plan update is requested |
| Subscriptions.ActivationBlocksReorder | Controller/SubscriptionController.js:26-35 | in a store that keeps the student's plan fields, ordering the same plan again within its duration right after activation is refused |
| Subscriptions.Enrollment.constructor | Controller/SubscriptionController.js:117-122 | a new enrollment has the student's id and no courses |
| Subscriptions.Enrollment.Enroll | Controller/SubscriptionController.js:125-140 | the course list becomes the merge of the course into the old list; the student id is kept |
| Subscriptions.AutoEnroll | Controller/SubscriptionController.js:114-142 | nothing is touched unless the preferred subjects form a non-empty list; otherwise the existing or a fresh enrollment gets the merge |
| Subscriptions.EnrollExisting | Controller/SubscriptionController.js:129-133 | an enrolled course's subjects become the existing ones followed by the new ones, each once, existing first; other courses are unchanged |
| Subscriptions.EnrollNew | Controller/SubscriptionController.js:134-140 | a new course entry with the preferred subjects, each once, is appended at the end |
| Subscriptions.EnrollKeepsCoursesDistinct | Controller/SubscriptionController.js:125-140 | course ids stay distinct |
| Subscriptions.EnrollTwiceIsEnrollOnce | Controller/SubscriptionController.js:125-140 | enrolling the same subjects twice equals enrolling once |
| Coupons.CreateChecks | Controller/CouponController.js:9-19 | 400 exactly when code, type, a non-zero value or `validUntil` is missing; the stored code is upper-cased |
| Coupons.FindActive | Controller/CouponController.js:37-38 | the lookup finds an active coupon with the code, or none exists |
| Coupons.FindActiveUnique | Controller/CouponController.js:37 | the first active coupon with the code is the one found |
| Coupons.ApplyChecks | Controller/CouponController.js:33-52 | the refusals come in order: missing fields, unknown code, outside the validity window, usage limit, unknown plan |
| Coupons.WindowIsInclusive | Controller/CouponController.js:41-44 | both boundary instants are inside the window, and a coupon is valid exactly from `validFrom` to `validUntil` |
| Coupons.PriceBounds | Controller/CouponController.js:54-62 | the discount is `amount * value / 100` for a percentage and `value` otherwise; `finalAmount = max(amount - discount, 0)` is non-negative and at most the price for a non-negative discount |
| Coupons.CodeCaseIgnored | Controller/CouponController.js:37 | applying a code and its upper-cased form give the same reply |
| Coupons.MarkCouponUsed | Controller/CouponController.js:81-84 | the number of coupons is kept, exactly the first coupon with the upper-cased code gets `usedCount + 1`, and every other coupon is unchanged |
| Coupons.MarkUsedReachesLimit | Controller/CouponController.js:47-49 | marking the last allowed use makes the next application hit the usage limit |
| Students.EmailCheckIsRegex | Controller/StudentController.js:29 | the email check holds iff the string matches `^[^\s@]+@[^\s@]+\.[^\s@]+$`: no whitespace, one `@` with text before it, and a later dot that is neither first nor last |
| Students.EmailAccepted | Controller/StudentController.js:29 | "a@b.co" is accepted |
| Students.EmailWithSeveralDots | Controller/StudentController.js:29 | "a.b@c.d.e" is accepted |
| Students.EmailRefused | Controller/StudentController.js:29 | "a@bco", "a@.co" and "a b@c.d" are refused |
| Students.PasswordCheckIsRegex | Controller/StudentController.js:111-112 | the password check holds iff the password matches the lookahead regex: at least 8 allowed characters, with a lower-case letter, an upper-case letter, a digit and one of `@$!%*?&` |
| Students.PasswordExamples | Controller/StudentController.js:111-118 | "Passw0rd!" passes; "Passw0rd" and "Pa0rd!x" fail |
| Students.RegisterEmailAnswers | Controller/StudentController.js:20-45 | an email is available iff it matches and is not registered; it is refused as invalid iff given but not matching |
| Students.SignupOrder | Controller/StudentController.js:95-180 | the first failing check wins: required fields, email format, password strength, confirmation, duplicate email; after them a blank `FullName`, which the schema requires, fails the save with 500; registration iff all checks pass and the name is not blank |
| Students.WeakPasswordBeforeMismatch | Controller/StudentController.js:111-128 | a weak password is reported before a mismatch, a taken email or a missing name |
| Students.LoginChecks | Controller/StudentController.js:220-248 | missing fields or a bad email are refused before any lookup, whatever the lookup would give; login succeeds iff fields, format, student and password all hold |
| Students.PracticeModeWhitelist | Controller/StudentController.js:296-316 | a mode outside the four listed values is refused before any lookup; an existing student gets a 200 reply echoing a listed mode |
| Shuffle.Pick | Controller/PreviousyearQuestionController.js:278 | `Math.floor(r * (i + 1))` is a position in `0..i` |
| Shuffle.ShuffledIsPermutation | Controller/PreviousyearQuestionController.js:275-282 | whatever the rolls, the result has the input's length and multiset |
| Shuffle.ShuffleOfTwo | Controller/PreviousyearQuestionController.js:275-282 | on two elements a roll below one half swaps them and a roll of one half keeps them |
| Shuffle.ShuffleArray | Controller/PersonalizedMcqController.js:651-658 | the swap loop on a copy returns the specified shuffle, a permutation of the input |
| Text.TrimStart | Controller/PracticeplanController.js:224-226 | drops exactly the leading JavaScript whitespace |
| Text.TrimEnd | Controller/PracticeplanController.js:224-226 | drops exactly the trailing JavaScript whitespace |
| Text.Trim | Controller/PracticeplanController.js:224-226 | the result starts and ends with no whitespace, and is empty iff the input is blank |
| Text.TrimIgnoresPadding | Controller/PracticeplanController.js:224-226 | blank padding on either side does not change the trimmed text |
| Text.TrimIdempotent | Controller/SubjectController.js:67 | trimming twice is trimming once |
| Text.UpperIsCanonical | Controller/CouponController.js:14 | upper-casing keeps the length, leaves no lower-case ASCII letter, and is idempotent |
| Text.TrimOfUpper | Controller/PracticeplanController.js:224-226 | trimming and upper-casing commute |
| Text.LowerOfUpper | Controller/PracticeplanController.js:224-226 | lower-casing after upper-casing equals lower-casing |
| Text.AnswerIgnoresCaseAndPadding | Controller/PracticeplanController.js:224-226 | an answer in another case with blank padding is judged correct |
| Text.Decimal | Controller/PracticeplanController.js:38 | a number's decimal form is a non-empty run of digits that starts with 0 only for 0 itself |
| Text.ParseIntOfDecimal | Controller/PracticeplanController.js:38 | `parseInt` of a number's decimal form gives that number |
| Collections.DedupeKeys | Controller/PersonalizedMcqController.js:639-649 | the result has distinct keys, exactly the input's keys, and is no longer than the input |
| Collections.DedupeKeepsFirstOccurrences | Controller/PersonalizedMcqController.js:639-649 | each kept item is the first occurrence of its key, and the kept items are in input order |
| Collections.DedupeIdempotent | Controller/PersonalizedMcqController.js:639-649 | de-duplicating twice is de-duplicating once |
| Collections.DedupeMembers | Controller/SubjectController.js:18-20 | `[...new Set(s)]` has exactly the values of `s`, each once |
| Collections.MergeTwiceIsMergeOnce | Controller/SubjectController.js:18-20 | merging the same list into a merged list changes nothing |
| Collections.FindIndex | Controller/SubscriptionController.js:125-127 | `findIndex` gives the first matching position, and nothing exactly when no element matches |
| Collections.Take | Controller/PersonalizedMcqController.js:268 | `slice(0, n)` is the longest prefix of at most n items |

## Left out

- Database and HTTP: queries, `populate`, `lean`, `save`, status-code plumbing and JSON shaping are
  not modelled. Query results are inputs, and each handler's outcome is a datatype.
- Randomness: `$sample` and `Math.random()` are inputs: a sampled sequence and a sequence of rolls.
  Only properties that hold for every roll are stated.
- Concurrency: concurrent submissions on one session, and the interleaving of `updateMany` with
  `save`, are not modelled. Submissions are sequential.
- Libraries behind opaque calls: bcrypt hashing and comparison, JWT, cookies, the Razorpay client
  and the HMAC signature are inputs. Login takes "found" and "password matches" as booleans;
  verification takes the expected signature as a string.
- Floating point: coupon arithmetic and distribution weights use exact reals, not IEEE doubles.
  `toFixed` percentages in the daily analysis report are not modelled.
- Dates: a date is an integer of milliseconds, and `setDate(getDate() + days)` adds whole days.
  Daylight-saving shifts are not modelled.
- Text.UpperIsCanonical: case mapping is ASCII-only. JavaScript's full Unicode case mapping is not
  modelled.
- Model files CouponModel.js, PaymentModel.js, TodaysQuestionModel.js, PraticePlanModel.js,
  Previousyearquestion.js, PersonalizedPraticePlanModel.js, FlaggedquestionsModel.js and
  McqModel.js are not part of this model. Their documents have only the fields the controllers
  use. Coupon `validFrom` and `maxUsageCount` are optional, and a comparison with a missing value
  never rejects.
- Subscriptions.OrderChecks: the guard is modelled as written. The Student schema
  (Models/StudentModel.js) declares no `currentPlan` or `planExpiryDate`, so under strict schemas the guard may
  never fire. That is a persistence detail outside the model.
- Subscriptions.UpdateStudent: this models the update the controller requests. The strict
  Student schema declares no `currentPlan` or `planExpiryDate` path and drops both, so the
  source stores no plan on the student.
- Subscriptions.VerifyActivates: the student's plan update is the update the controller
  requests. The source's strict schema stores none of it. The subscription and the payment
  update are stored as stated.
- Subscriptions.ActivationBlocksReorder: this holds in a store that keeps `currentPlan` and
  `planExpiryDate`. In the source the schema drops them, so the reorder guard never fires after
  an activation.
- The email lowercase/trim setters of the Student schema are not modelled. "Registered" and
  "found" are inputs.
- `updateStudentStandard`, `studentLogout` and the rest of the student profile handlers are not
  modelled. They are plain CRUD.
- `createSubscriptionPlan` and `getSubscriptionPlans` are not modelled. They are plain CRUD.
  `enrollmentDate` defaults are not modelled.
- Handlers not modelled, because they only read and reshape documents:
  - `getPracticePlanQuestions`, `getQuestionBySectionAndIndex` and the document lookup of
    `GetRandomQuestions` (only its `normalizeOptions` is modelled);
  - `getPersonalizedSession` (only its `normalizeOptions` is modelled);
  - `getPreviousYearSession`, `getTodaysQuestions`, `getAvailableTopics` and
    `getAvailablePreviousYears`.
- `getTodaysAnalysisReport`: only the topic counting is modelled. The percentages and the review
  lists are left out.
- `getMissedQuestions`: the upsert into the missed-questions collection is not modelled. That
  model file contains unresolved merge-conflict markers. The reply list is modelled.
- `generatePersonalizedMcq`: the exam-simulation timing (`examConfig`) and the `questionSources`
  summary are not modelled. `fetchTopicQuestions` and `fetchRandomQuestions` are modelled as one
  `slice(0, count)` of their `$sample` input. The `$nin` exclusion is part of that input.
- Coupons.PriceBounds: `finalAmount <= originalPrice` is stated only for non-negative prices and
  discounts. The source does not validate that coupon values or plan amounts are non-negative.
- PreviousYear.FrequentIndexIsFilteredPosition: when frequently-asked filtering is on, a pool
  item's index is its position in the filtered list. The answer check reads that position in the
  full paper. This is modelled as written.
- PracticePlan.EntryPointsOnActiveSession: requires a non-empty `userId` as well as a subject,
  although `getRandomQuestion` checks only the subject. With an empty `userId` the handler
  matches sessions with no user, which the model does not distinguish.
- Mock battles and timed quizzes: their controller file is not part of this model.
- Subjects.SaveMergesIntoExisting: "no subject twice" and "old subjects first" are promised only
  when the names are trimmed already. The schema trims each element after the `Set` has
  de-duplicated the list, so padded names can be stored twice (`PaddedNamesStoredTwice`).
- Subjects.SaveCreatesNew: "each subject once" is promised only for trimmed names, for the same
  reason.
- Subjects.SaveTwiceIsSaveOnce: idempotence is promised only for trimmed names and trimmed
  stored lists. With a padded name the second save adds a repeat (`PaddedSaveTwiceRepeats`).
- PreviousYear.CandidatesWereAttempted: the source's "previously attempted" filter keys on every
  entry of every session of the user on the subject. Pending entries count too, including those
  of the still-active session, so a candidate need not have been answered.
- Students.PracticeModeWhitelist: the Student schema declares no `praticeMode` path. Under
  Mongoose's strict mode `save()` stores nothing of it, and only the reply carries the mode. The
  model states the reply, not a stored mode.
- Request field types: every request field is assumed to be a string or a number, as the model
  types it. The 500 replies that other JSON values cause are not modelled: a truthy non-string
  `userAnswer`, or a question without `correctAnswer`, makes `.trim()` throw. Also not modelled:
  `totalQuestions: null` bypasses the destructuring default of 10 and gives one question per
  section, and a non-numeric `totalQuestions` compares and slices as `NaN`. With an empty
  `userId`, `getRandomQuestion` and `createRandomQuestions` start a session in the model, while
  the source's save fails on the schema-required `userId` and replies 500.
- Entry ids: a builder's entries carry the empty string as `entryId`, standing for the
  sub-document `_id` the database assigns on save. The practice cursor steps to an entry's
  `entryId`, so stepping a session fresh from a builder yields that placeholder.
- Option keys: `Options.Key` splits object keys into indices and names. The source's
  `!isNaN(k)` also treats keys such as "", "-1", "1.5" or " 2" as numeric, while the model calls
  them names.
- Option values: an array value is modelled as an object, so its `String` is "[object Object]"
  and not its joined elements.
- Option objects: the model allows duplicate keys in an object, which a JavaScript object cannot
  have.
