/**
 * The quiz-session document (the RandomQuestions schema, also the shape of the previous-year
 * and daily-quiz sessions): three sections of entries, a cursor, a progress summary and an
 * `isActive` flag, with the schema's enums and defaults. A collection of such documents is a
 * sequence; `findOne` is the first match and `updateMany` a map over it.
 */
module SessionModel {
  import opened Wrappers
  import opened Collections

  /** Database ids, compared through `toString()`. */
  type Id = string

  datatype EntryStatus = Pending | Attempted | Correct | Incorrect

  /**
   * One question of a section. `entryId` is the sub-document's own `_id`, assigned by the
   * database; `paperQuestionIndex` is only present in previous-year sessions.
   */
  datatype Entry = Entry(
    entryId: Id,
    questionId: Id,
    paperQuestionIndex: Option<int>,
    number: int,
    status: EntryStatus,
    answeredAt: Option<int>,
    attempts: nat)

  /**
   * An entry as a builder writes it: only the schema's defaults besides the given fields.
   * The database has not assigned its `_id` yet, so `entryId` is the empty string.
   */
  function NewEntry(questionId: Id, paperQuestionIndex: Option<int>, number: int): Entry {
    Entry("", questionId, paperQuestionIndex, number, Pending, None, 0)
  }

  /** The schema's defaults for an entry. */
  predicate IsFreshEntry(e: Entry) {
    e.status == Pending && e.attempts == 0 && e.answeredAt == None
  }

  /** A wrong-answer record; `questionId` and `selectedOption` are required. */
  datatype WrongAnswer = WrongAnswer(questionId: Id, selectedOption: string, answeredAt: int)

  predicate ValidWrongAnswer(w: WrongAnswer) {
    w.questionId != "" && w.selectedOption != ""
  }

  datatype ProgressStatus = NotStarted | InProgress | Completed

  datatype Progress = Progress(
    completedQuestions: nat,
    correctAnswers: nat,
    wrongAnswers: nat,
    correctAnswerList: seq<Id>,
    wrongAnswerList: seq<WrongAnswer>,
    status: ProgressStatus)

  /** Progress with every counter and list at its default. */
  function InitialProgress(status: ProgressStatus): Progress {
    Progress(0, 0, 0, [], [], status)
  }

  /** Every answer counted is counted as right or as wrong. */
  predicate CountersAgree(p: Progress) {
    p.completedQuestions == p.correctAnswers + p.wrongAnswers
  }

  lemma InitialProgressAgrees(status: ProgressStatus)
    ensures CountersAgree(InitialProgress(status))
    ensures InitialProgress(status).status == status
    ensures InitialProgress(status).correctAnswerList == [] && InitialProgress(status).wrongAnswerList == []
  {
  }

  /** `currentQuestion.section` is restricted to 1, 2 and 3. */
  type SectionNo = x: int | 1 <= x <= 3 witness 1

  datatype Cursor = Cursor(section: SectionNo, questionIndex: nat, questionId: Option<Id>)

  /** `currentQuestion` when no value is given for it. */
  const DefaultCursor := Cursor(1, 0, None)

  datatype SessionDoc = SessionDoc(
    id: Id,
    userId: Id,
    subject: string,
    syllabus: string,
    standard: string,
    section1: seq<Entry>,
    section2: seq<Entry>,
    section3: seq<Entry>,
    cursor: Cursor,
    progress: Progress,
    isActive: bool)

  function Section(d: SessionDoc, n: SectionNo): seq<Entry> {
    if n == 1 then d.section1 else if n == 2 then d.section2 else d.section3
  }

  /** All entries in section order. */
  function AllEntries(d: SessionDoc): seq<Entry> {
    d.section1 + d.section2 + d.section3
  }

  /** `ids.map((id, i) => ({ questionId: id, number: start + i }))`. */
  function Numbered(ids: seq<Id>, start: int): (r: seq<Entry>)
    ensures |r| == |ids|
    ensures forall i :: 0 <= i < |r| ==>
      r[i].questionId == ids[i] && r[i].number == start + i && IsFreshEntry(r[i]) && r[i].paperQuestionIndex == None
  {
    seq(|ids|, i requires 0 <= i < |ids| => NewEntry(ids[i], None, start + i))
  }

  /** The question ids of a section, in order. */
  function QuestionIds(s: seq<Entry>): (r: seq<Id>)
    ensures |r| == |s| && forall i :: 0 <= i < |s| ==> r[i] == s[i].questionId
  {
    seq(|s|, i requires 0 <= i < |s| => s[i].questionId)
  }

  lemma QuestionIdsOfNumbered(ids: seq<Id>, start: int)
    ensures QuestionIds(Numbered(ids, start)) == ids
  {
  }

  /** Numbers 1..k in position order. */
  predicate NumberedFromOne(s: seq<Entry>) {
    forall i :: 0 <= i < |s| ==> s[i].number == i + 1
  }

  /** The reply of a submit handler. */
  datatype AnswerReply =
    | MissingFields            // 400
    | QuestionNotFound         // 404: no such question (or no such question in the paper)
    | PaperNotFound            // 404: no such previous-year paper
    | SessionNotFound          // 404: the user has no active session
    | NotInSession             // 404: the question is not one of the session's entries
    | Checked(isCorrect: bool, correctAnswer: Option<string>, progress: Progress, cursor: Cursor)

  function StatusCode(r: AnswerReply): int {
    match r
    case MissingFields => 400
    case Checked(_, _, _, _) => 200
    case _ => 404
  }

  // ----- the collection of session documents -----

  /** `findOne(filter)`: the first document the filter accepts. */
  function FindFirst(store: seq<SessionDoc>, filter: SessionDoc -> bool): (r: Option<SessionDoc>)
    ensures r.None? <==> forall k :: 0 <= k < |store| ==> !filter(store[k])
    ensures r.Some? ==> filter(r.value) && r.value in store
  {
    match FindIndex(store, filter)
    case None => None
    case Some(i) => Some(store[i])
  }

  /** `updateMany(filter, { isActive: false })`. */
  function DeactivateWhere(store: seq<SessionDoc>, filter: SessionDoc -> bool): (r: seq<SessionDoc>)
    ensures |r| == |store|
    ensures forall i :: 0 <= i < |store| ==>
      r[i] == (if filter(store[i]) then store[i].(isActive := false) else store[i])
  {
    seq(|store|, i requires 0 <= i < |store| => if filter(store[i]) then store[i].(isActive := false) else store[i])
  }

  /** Active sessions of `userId` on `subject` (filter of the builders). */
  predicate ActiveFor(d: SessionDoc, userId: Id, subject: string) {
    d.userId == userId && d.subject == subject && d.isActive
  }

  /** Active sessions of `userId`, whatever their subject (filter of the submit handlers). */
  predicate ActiveOfUser(d: SessionDoc, userId: Id) {
    d.userId == userId && d.isActive
  }

  /** `updateMany({ userId, subject, isActive: true }, { isActive: false })`. */
  function DeactivateFor(store: seq<SessionDoc>, userId: Id, subject: string): seq<SessionDoc> {
    DeactivateWhere(store, d => ActiveFor(d, userId, subject))
  }

  /**
   * After deactivating (user, subject) no session of it is active, the others are untouched
   * and the deactivated ones differ only in `isActive`.
   */
  lemma DeactivateClearsActive(store: seq<SessionDoc>, userId: Id, subject: string)
    ensures |DeactivateFor(store, userId, subject)| == |store|
    ensures forall i :: 0 <= i < |store| ==> !ActiveFor(DeactivateFor(store, userId, subject)[i], userId, subject)
    ensures forall i :: 0 <= i < |store| && !ActiveFor(store[i], userId, subject) ==>
      DeactivateFor(store, userId, subject)[i] == store[i]
    ensures forall i :: 0 <= i < |store| ==>
      DeactivateFor(store, userId, subject)[i].(isActive := store[i].isActive) == store[i]
  {
  }

  /** At most one active session per (user, subject). */
  predicate AtMostOneActive(store: seq<SessionDoc>) {
    forall i, j :: 0 <= i < j < |store| && store[i].isActive && store[j].isActive ==>
      store[i].userId != store[j].userId || store[i].subject != store[j].subject
  }

  /**
   * Deactivating a (user, subject) pair and then adding one active session for it keeps
   * the invariant: this is what the session builders do.
   */
  lemma DeactivateThenAddKeepsOneActive(store: seq<SessionDoc>, d: SessionDoc)
    requires AtMostOneActive(store)
    ensures AtMostOneActive(DeactivateFor(store, d.userId, d.subject) + [d])
  {
    var f := x => ActiveFor(x, d.userId, d.subject);
    var s := DeactivateFor(store, d.userId, d.subject) + [d];
    forall i, j | 0 <= i < j < |s| && s[i].isActive && s[j].isActive
      ensures s[i].userId != s[j].userId || s[i].subject != s[j].subject
    {
      if j < |store| {
        assert s[i] == DeactivateWhere(store, f)[i] && s[j] == DeactivateWhere(store, f)[j];
        assert s[i].isActive ==> store[i].isActive;
      } else {
        assert s[i] == DeactivateWhere(store, f)[i];
      }
    }
  }
}
