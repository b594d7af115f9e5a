/**
 * A session document loaded for update: the submit handlers change its fields in place
 * (entry status, counters, lists, cursor, `isActive`) and then save it. Each recording
 * method does the handler's steps in the handler's order (the progress sub-document is
 * updated as a value and stored back) and is proved to produce the document that the
 * corresponding step function describes.
 */
module LiveSession {
  import opened Wrappers
  import opened Collections
  import opened SessionModel
  import opened SectionCursor

  class Session {
    var id: Id
    var userId: Id
    var subject: string
    var syllabus: string
    var standard: string
    var section1: seq<Entry>
    var section2: seq<Entry>
    var section3: seq<Entry>
    var cursor: Cursor
    var progress: Progress
    var isActive: bool

    /** The document this object holds. */
    function Doc(): SessionDoc
      reads this
    {
      SessionDoc(id, userId, subject, syllabus, standard, section1, section2, section3, cursor, progress, isActive)
    }

    /** Loading a stored document. */
    constructor (d: SessionDoc)
      ensures Doc() == d
    {
      id, userId, subject, syllabus, standard := d.id, d.userId, d.subject, d.syllabus, d.standard;
      section1, section2, section3 := d.section1, d.section2, d.section3;
      cursor, progress, isActive := d.cursor, d.progress, d.isActive;
    }

    /**
     * `updateQuestionStatus(section)`: mark the first entry of section `n` that `m` accepts
     * and return its index, or change nothing.
     */
    method UpdateQuestionStatus(n: SectionNo, m: Entry -> bool, isCorrect: bool, now: int) returns (idx: Option<nat>)
      modifies this
      ensures idx == FindIndex(Section(old(Doc()), n), m)
      ensures idx.Some? ==> ValidPosition(old(Doc()), Position(n, idx.value))
      ensures idx.Some? ==> Doc() == ReplaceAt(old(Doc()), Position(n, idx.value),
        MarkAnswered(Section(old(Doc()), n)[idx.value], isCorrect, now))
      ensures idx.None? ==> Doc() == old(Doc())
    {
      if n == 1 {
        idx := FindIndex(section1, m);
        if idx.Some? {
          section1 := section1[idx.value := MarkAnswered(section1[idx.value], isCorrect, now)];
        }
      } else if n == 2 {
        idx := FindIndex(section2, m);
        if idx.Some? {
          section2 := section2[idx.value := MarkAnswered(section2[idx.value], isCorrect, now)];
        }
      } else {
        idx := FindIndex(section3, m);
        if idx.Some? {
          section3 := section3[idx.value := MarkAnswered(section3[idx.value], isCorrect, now)];
        }
      }
    }

    /**
     * The three-section update: search Section1, 2, 3 with `m`, mark the entry, count the
     * answer, roll the cursor forward and close the session past Section3. `found` is false
     * when no entry matches, and then nothing has changed.
     */
    method RecordAnswer(m: Entry -> bool, isCorrect: bool, now: int, idOf: Entry -> Id) returns (found: bool)
      modifies this
      ensures found == ThreeSectionStep(old(Doc()), m, isCorrect, now, idOf).Some?
      ensures found ==> Doc() == ThreeSectionStep(old(Doc()), m, isCorrect, now, idOf).value
      ensures !found ==> Doc() == old(Doc())
    {
      ghost var d := Doc();
      var sec: SectionNo := 1;
      var idx := UpdateQuestionStatus(1, m, isCorrect, now);
      if idx.None? {
        sec := 2;
        idx := UpdateQuestionStatus(2, m, isCorrect, now);
      }
      if idx.None? {
        sec := 3;
        idx := UpdateQuestionStatus(3, m, isCorrect, now);
      }
      if idx.None? {
        return false;
      }
      ghost var p := Position(sec, idx.value);
      assert Locate(d, m) == Some(p);
      assert Doc() == ReplaceAt(d, p, MarkAnswered(Section(d, sec)[idx.value], isCorrect, now));

      var pr := progress.(completedQuestions := progress.completedQuestions + 1);
      if isCorrect {
        pr := pr.(correctAnswers := pr.correctAnswers + 1);
      } else {
        pr := pr.(wrongAnswers := pr.wrongAnswers + 1);
      }
      assert pr == Score(d.progress, isCorrect);
      MoveCursor(sec, idx.value, pr, idOf);
      found := true;
    }

    /**
     * The pointer move after the entry at (`sec`, `idx`): roll into the next section past
     * the end of one, close the session past Section3, and store the progress `pr` with
     * its new status.
     */
    method MoveCursor(sec: SectionNo, idx: nat, pr: Progress, idOf: Entry -> Id)
      modifies this
      ensures var n := Advance(old(Doc()), Position(sec, idx));
        Doc() == old(Doc()).(
          progress := pr.(status := if n.done then Completed else InProgress),
          isActive := if n.done then false else old(isActive),
          cursor := Cursor(n.section, n.index, IdAt(old(Doc()), n.section, n.index, idOf)))
    {
      var nextSection: SectionNo, nextIndex: nat := sec, idx + 1;
      if nextSection == 1 && nextIndex >= |section1| {
        nextSection, nextIndex := 2, 0;
      }
      if nextSection == 2 && nextIndex >= |section2| {
        nextSection, nextIndex := 3, 0;
      }
      if nextSection == 3 && nextIndex >= |section3| {
        progress := pr.(status := Completed);
        isActive := false;
      } else {
        progress := pr.(status := InProgress);
      }
      cursor := Cursor(nextSection, nextIndex, IdAt(Doc(), nextSection, nextIndex, idOf));
    }

    /**
     * The daily-quiz update: mark the first Section1 entry with `qid`, count the answer,
     * record it in the right list, and move the cursor or close the session.
     */
    method RecordSingleAnswer(qid: Id, isCorrect: bool, userAnswer: string, now: int) returns (found: bool)
      modifies this
      ensures found == SingleSectionStep(old(Doc()), qid, isCorrect, userAnswer, now).Some?
      ensures found ==> Doc() == SingleSectionStep(old(Doc()), qid, isCorrect, userAnswer, now).value
      ensures !found ==> Doc() == old(Doc())
    {
      var idx := FindIndex(section1, HasQuestion(qid));
      if idx.None? {
        return false;
      }
      var i := idx.value;
      section1 := section1[i := MarkAnswered(section1[i], isCorrect, now)];

      var pr := progress.(completedQuestions := progress.completedQuestions + 1);
      if isCorrect {
        pr := pr.(correctAnswers := pr.correctAnswers + 1);
        pr := pr.(correctAnswerList := pr.correctAnswerList + [qid]);
      } else {
        pr := pr.(wrongAnswers := pr.wrongAnswers + 1);
        pr := pr.(wrongAnswerList := pr.wrongAnswerList + [WrongAnswer(qid, userAnswer, now)]);
      }

      var nextIndex := i + 1;
      if nextIndex >= |section1| {
        progress := pr.(status := Completed);
        isActive := false;
      } else {
        progress := pr.(status := InProgress);
        cursor := Cursor(1, nextIndex, Some(section1[nextIndex].questionId));
      }
      found := true;
    }
  }
}
