/**
 * The answer-recording step that the practice and previous-year submit handlers share:
 * find the first matching entry (Section1, then Section2, then Section3), mark it, count
 * the answer, and move the cursor to the next entry, rolling over into the next section
 * and closing the session past the end of Section3. The two handlers differ only in the
 * entry filter and in which id the cursor records; both are parameters here.
 */
module SectionCursor {
  import opened Wrappers
  import opened Collections
  import opened SessionModel

  datatype Position = Position(section: SectionNo, index: nat)

  /** Where section `n` starts in `AllEntries(d)`. */
  function Offset(d: SessionDoc, n: SectionNo): nat {
    if n == 1 then 0 else if n == 2 then |d.section1| else |d.section1| + |d.section2|
  }

  /** The position of `p` in `AllEntries(d)`. */
  function Flat(d: SessionDoc, p: Position): nat {
    Offset(d, p.section) + p.index
  }

  predicate ValidPosition(d: SessionDoc, p: Position) {
    p.index < |Section(d, p.section)|
  }

  lemma FlatIndexes(d: SessionDoc, p: Position)
    requires ValidPosition(d, p)
    ensures Flat(d, p) < |AllEntries(d)|
    ensures AllEntries(d)[Flat(d, p)] == Section(d, p.section)[p.index]
  {
  }

  /** The three searches of the handler, in order. */
  function Locate(d: SessionDoc, m: Entry -> bool): Option<Position> {
    match FindIndex(d.section1, m)
    case Some(i) => Some(Position(1, i))
    case None =>
      match FindIndex(d.section2, m)
      case Some(i) => Some(Position(2, i))
      case None =>
        match FindIndex(d.section3, m)
        case Some(i) => Some(Position(3, i))
        case None => None
  }

  /**
   * Searching section by section finds the first matching entry of the whole session,
   * and finds nothing exactly when no entry matches.
   */
  lemma LocateIsFirstMatch(d: SessionDoc, m: Entry -> bool)
    ensures Locate(d, m).None? <==> forall k :: 0 <= k < |AllEntries(d)| ==> !m(AllEntries(d)[k])
    ensures Locate(d, m).Some? ==>
      ValidPosition(d, Locate(d, m).value) &&
      Flat(d, Locate(d, m).value) < |AllEntries(d)| &&
      m(AllEntries(d)[Flat(d, Locate(d, m).value)]) &&
      forall k :: 0 <= k < Flat(d, Locate(d, m).value) ==> !m(AllEntries(d)[k])
  {
    var all := AllEntries(d);
    var l1, l2 := |d.section1|, |d.section2|;
    assert forall k :: 0 <= k < l1 ==> all[k] == d.section1[k];
    assert forall k :: l1 <= k < l1 + l2 ==> all[k] == d.section2[k - l1];
    assert forall k :: l1 + l2 <= k < |all| ==> all[k] == d.section3[k - l1 - l2];
    match Locate(d, m)
    case None =>
    case Some(p) => FlatIndexes(d, p);
  }

  /** Where the cursor goes after the entry at `p`; `done` when it runs off Section3. */
  datatype Next = Next(section: SectionNo, index: nat, done: bool)

  function Advance(d: SessionDoc, p: Position): Next {
    var a: (SectionNo, nat) := (p.section, p.index + 1);
    var b: (SectionNo, nat) := if a.0 == 1 && a.1 >= |d.section1| then (2, 0) else a;
    var c: (SectionNo, nat) := if b.0 == 2 && b.1 >= |d.section2| then (3, 0) else b;
    Next(c.0, c.1, c.0 == 3 && c.1 >= |d.section3|)
  }

  /**
   * The cursor moves to the entry right after `p` in section order, skipping empty
   * sections, and is `done` exactly when `p` was the last entry of the session.
   */
  lemma AdvanceIsNextEntry(d: SessionDoc, p: Position)
    requires ValidPosition(d, p)
    ensures Advance(d, p).done <==> Flat(d, p) + 1 == |AllEntries(d)|
    ensures !Advance(d, p).done ==>
      ValidPosition(d, Position(Advance(d, p).section, Advance(d, p).index)) &&
      Flat(d, Position(Advance(d, p).section, Advance(d, p).index)) == Flat(d, p) + 1
    ensures Advance(d, p).done ==> Advance(d, p).section == 3
    ensures Advance(d, p).section >= p.section
  {
  }

  /** `section[pos].questionId`-or-`_id` with `?.`: nothing past the end. */
  function IdAt(d: SessionDoc, n: SectionNo, i: nat, idOf: Entry -> Id): Option<Id> {
    if i < |Section(d, n)| then Some(idOf(Section(d, n)[i])) else None
  }

  /** Status, attempts and time of an answered entry. */
  function MarkAnswered(e: Entry, isCorrect: bool, now: int): (r: Entry)
    ensures r.status == (if isCorrect then Correct else Incorrect)
    ensures r.attempts == e.attempts + 1 && r.answeredAt == Some(now)
    ensures r.(status := e.status, attempts := e.attempts, answeredAt := e.answeredAt) == e
  {
    e.(status := if isCorrect then Correct else Incorrect, attempts := e.attempts + 1, answeredAt := Some(now))
  }

  /** Counting one answer. */
  function Score(p: Progress, isCorrect: bool): (r: Progress)
    ensures r.completedQuestions == p.completedQuestions + 1
    ensures r.correctAnswers + r.wrongAnswers == p.correctAnswers + p.wrongAnswers + 1
    ensures isCorrect ==> r.correctAnswers == p.correctAnswers + 1 && r.wrongAnswers == p.wrongAnswers
    ensures !isCorrect ==> r.wrongAnswers == p.wrongAnswers + 1 && r.correctAnswers == p.correctAnswers
    ensures CountersAgree(p) ==> CountersAgree(r)
    ensures r.correctAnswerList == p.correctAnswerList && r.wrongAnswerList == p.wrongAnswerList
    ensures r.status == p.status
  {
    var c := p.(completedQuestions := p.completedQuestions + 1);
    if isCorrect then c.(correctAnswers := c.correctAnswers + 1) else c.(wrongAnswers := c.wrongAnswers + 1)
  }

  /** The entry at `p` replaced by `e`. */
  function ReplaceAt(d: SessionDoc, p: Position, e: Entry): SessionDoc
    requires ValidPosition(d, p)
  {
    if p.section == 1 then d.(section1 := d.section1[p.index := e])
    else if p.section == 2 then d.(section2 := d.section2[p.index := e])
    else d.(section3 := d.section3[p.index := e])
  }

  /**
   * The whole step: `None` is the "not found in session" reply, where nothing is saved;
   * otherwise the document that is saved.
   */
  function ThreeSectionStep(d: SessionDoc, m: Entry -> bool, isCorrect: bool, now: int, idOf: Entry -> Id)
    : Option<SessionDoc>
  {
    match Locate(d, m)
    case None => None
    case Some(p) =>
      LocateIsFirstMatch(d, m);
      var marked := ReplaceAt(d, p, MarkAnswered(Section(d, p.section)[p.index], isCorrect, now));
      var n := Advance(marked, p);
      Some(marked.(
        progress := Score(d.progress, isCorrect).(status := if n.done then Completed else InProgress),
        isActive := if n.done then false else d.isActive,
        cursor := Cursor(n.section, n.index, IdAt(marked, n.section, n.index, idOf))))
  }

  lemma ReplaceAtEntries(d: SessionDoc, p: Position, e: Entry)
    requires ValidPosition(d, p)
    ensures |ReplaceAt(d, p, e).section1| == |d.section1|
    ensures |ReplaceAt(d, p, e).section2| == |d.section2|
    ensures |ReplaceAt(d, p, e).section3| == |d.section3|
    ensures AllEntries(ReplaceAt(d, p, e)) == AllEntries(d)[Flat(d, p) := e]
    ensures ReplaceAt(d, p, e).(section1 := d.section1, section2 := d.section2, section3 := d.section3) == d
  {
    var r := ReplaceAt(d, p, e);
    var a, b := AllEntries(r), AllEntries(d)[Flat(d, p) := e];
    assert |a| == |b|;
    forall k | 0 <= k < |a| ensures a[k] == b[k] {
      var l1, l2 := |d.section1|, |d.section2|;
      if k < l1 {
        assert a[k] == r.section1[k];
      } else if k < l1 + l2 {
        assert a[k] == r.section2[k - l1];
      } else {
        assert a[k] == r.section3[k - l1 - l2];
      }
    }
  }

  /** The step finds nothing, and saves nothing, exactly when no entry matches. */
  lemma StepFailsIffNoMatch(d: SessionDoc, m: Entry -> bool, isCorrect: bool, now: int, idOf: Entry -> Id)
    ensures ThreeSectionStep(d, m, isCorrect, now, idOf).None? <==>
      forall k :: 0 <= k < |AllEntries(d)| ==> !m(AllEntries(d)[k])
  {
    LocateIsFirstMatch(d, m);
  }

  /**
   * Only the first matching entry changes, and only in status, attempts and time; section
   * sizes, the session's identity fields and the answer lists stay; exactly one of the two
   * counters goes up with `completedQuestions`, so `completed == correct + wrong` is kept.
   */
  lemma StepChangesOnlyFirstMatch(d: SessionDoc, m: Entry -> bool, isCorrect: bool, now: int, idOf: Entry -> Id)
    requires ThreeSectionStep(d, m, isCorrect, now, idOf).Some?
    ensures var r := ThreeSectionStep(d, m, isCorrect, now, idOf).value;
      var all := AllEntries(d);
      exists k :: 0 <= k < |all| && m(all[k]) && (forall j :: 0 <= j < k ==> !m(all[j])) &&
        AllEntries(r) == all[k := MarkAnswered(all[k], isCorrect, now)]
    ensures var r := ThreeSectionStep(d, m, isCorrect, now, idOf).value;
      |r.section1| == |d.section1| && |r.section2| == |d.section2| && |r.section3| == |d.section3| &&
      r.id == d.id && r.userId == d.userId && r.subject == d.subject &&
      r.syllabus == d.syllabus && r.standard == d.standard
    ensures var r := ThreeSectionStep(d, m, isCorrect, now, idOf).value;
      r.progress.completedQuestions == d.progress.completedQuestions + 1 &&
      (if isCorrect then r.progress.correctAnswers == d.progress.correctAnswers + 1 &&
                         r.progress.wrongAnswers == d.progress.wrongAnswers
       else r.progress.wrongAnswers == d.progress.wrongAnswers + 1 &&
            r.progress.correctAnswers == d.progress.correctAnswers) &&
      r.progress.correctAnswerList == d.progress.correctAnswerList &&
      r.progress.wrongAnswerList == d.progress.wrongAnswerList &&
      (CountersAgree(d.progress) ==> CountersAgree(r.progress))
  {
    LocateIsFirstMatch(d, m);
    var p := Locate(d, m).value;
    FlatIndexes(d, p);
    ReplaceAtEntries(d, p, MarkAnswered(Section(d, p.section)[p.index], isCorrect, now));
  }

  /**
   * The cursor lands on the entry after the answered one, in section order; the session is
   * completed and closed exactly when the answered entry was the last one, and otherwise is
   * in progress with `isActive` as before. A closed session's cursor records no question.
   */
  lemma StepAdvancesCursor(d: SessionDoc, m: Entry -> bool, isCorrect: bool, now: int, idOf: Entry -> Id)
    requires ThreeSectionStep(d, m, isCorrect, now, idOf).Some?
    ensures var r := ThreeSectionStep(d, m, isCorrect, now, idOf).value;
      var p := Locate(d, m).value;
      ValidPosition(d, p) &&
      (r.progress.status == Completed <==> Flat(d, p) + 1 == |AllEntries(d)|) &&
      (r.progress.status == Completed ==> !r.isActive && r.cursor.section == 3 && r.cursor.questionId == None) &&
      (r.progress.status != Completed ==>
        r.progress.status == InProgress && r.isActive == d.isActive &&
        ValidPosition(r, Position(r.cursor.section, r.cursor.questionIndex)) &&
        Flat(r, Position(r.cursor.section, r.cursor.questionIndex)) == Flat(d, p) + 1 &&
        r.cursor.questionId == Some(idOf(Section(r, r.cursor.section)[r.cursor.questionIndex])))
  {
    LocateIsFirstMatch(d, m);
    var p := Locate(d, m).value;
    var marked := ReplaceAt(d, p, MarkAnswered(Section(d, p.section)[p.index], isCorrect, now));
    ReplaceAtEntries(d, p, MarkAnswered(Section(d, p.section)[p.index], isCorrect, now));
    assert ValidPosition(marked, p);
    AdvanceIsNextEntry(marked, p);
  }

  /** Marking the located entry does not move what a filter on ids locates. */
  lemma MarkKeepsLocate(d: SessionDoc, m: Entry -> bool, ok: bool, t: int)
    requires SeesOnlyIds(m) && Locate(d, m).Some?
    ensures ValidPosition(d, Locate(d, m).value)
    ensures var p := Locate(d, m).value;
      Locate(ReplaceAt(d, p, MarkAnswered(Section(d, p.section)[p.index], ok, t)), m) == Some(p)
  {
    LocateIsFirstMatch(d, m);
    var p := Locate(d, m).value;
    var e := Section(d, p.section)[p.index];
    var x := MarkAnswered(e, ok, t);
    assert m(x) == m(e);
    if p.section == 1 {
      UpdateAgrees(d.section1, p.index, x, m);
    } else if p.section == 2 {
      UpdateAgrees(d.section2, p.index, x, m);
    } else {
      UpdateAgrees(d.section3, p.index, x, m);
    }
  }

  /** Replacing an entry by one the filter judges alike gives the same `findIndex`. */
  lemma UpdateAgrees(a: seq<Entry>, i: int, x: Entry, m: Entry -> bool)
    requires 0 <= i < |a| && (m(x) <==> m(a[i]))
    ensures FindIndex(a[i := x], m) == FindIndex(a, m)
  {
    FindIndexAgrees(a, a[i := x], m);
  }

  /** The step keeps the sections' shape, so the same entry is found next time. */
  lemma StepKeepsLocate(d: SessionDoc, m: Entry -> bool, ok: bool, t: int, idOf: Entry -> Id)
    requires SeesOnlyIds(m) && ThreeSectionStep(d, m, ok, t, idOf).Some?
    ensures Locate(ThreeSectionStep(d, m, ok, t, idOf).value, m) == Locate(d, m)
  {
    MarkKeepsLocate(d, m, ok, t);
  }

  /**
   * No check for an already answered entry exists: answering the same entry again finds it
   * again, rescores it and counts it a second time.
   */
  lemma ResubmissionCountsTwice(d: SessionDoc, m: Entry -> bool, now1: int, now2: int, idOf: Entry -> Id)
    requires SeesOnlyIds(m)
    requires ThreeSectionStep(d, m, false, now1, idOf).Some?
    ensures var r1 := ThreeSectionStep(d, m, false, now1, idOf).value;
      ThreeSectionStep(r1, m, true, now2, idOf).Some? &&
      var r2 := ThreeSectionStep(r1, m, true, now2, idOf).value;
      r2.progress.completedQuestions == d.progress.completedQuestions + 2 &&
      r2.progress.correctAnswers == d.progress.correctAnswers + 1 &&
      r2.progress.wrongAnswers == d.progress.wrongAnswers + 1 &&
      var p := Locate(d, m).value;
      ValidPosition(d, p) && ValidPosition(r2, p) &&
      Section(r2, p.section)[p.index].attempts == Section(d, p.section)[p.index].attempts + 2 &&
      Section(r2, p.section)[p.index].status == Correct
  {
    var r1 := ThreeSectionStep(d, m, false, now1, idOf).value;
    StepKeepsLocate(d, m, false, now1, idOf);
    LocateIsFirstMatch(d, m);
    var p := Locate(d, m).value;
    assert Section(r1, p.section)[p.index] == MarkAnswered(Section(d, p.section)[p.index], false, now1);
  }

  /** The filter looks only at what marking an entry leaves alone (its ids). */
  ghost predicate SeesOnlyIds(m: Entry -> bool) {
    forall e: Entry, ok: bool, t: int :: m(MarkAnswered(e, ok, t)) == m(e)
  }

  /** Two sequences the filter cannot tell apart give the same `findIndex`. */
  lemma FindIndexAgrees(a: seq<Entry>, b: seq<Entry>, m: Entry -> bool)
    requires |a| == |b| && forall k :: 0 <= k < |a| ==> (m(b[k]) <==> m(a[k]))
    ensures FindIndex(a, m) == FindIndex(b, m)
  {
    var x, y := FindIndex(a, m), FindIndex(b, m);
    if x.Some? && y.Some? {
      assert !(x.value < y.value) && !(y.value < x.value);
    }
  }

  /** The practice filter: `q.questionId.toString() === questionId.toString()`. */
  function HasQuestion(qid: Id): Entry -> bool {
    (e: Entry) => e.questionId == qid
  }

  /** The previous-year filter: same paper and `paperQuestionIndex === Number(k)`. */
  function HasPaperQuestion(paperId: Id, k: int): Entry -> bool {
    (e: Entry) => e.questionId == paperId && e.paperQuestionIndex == Some(k)
  }

  lemma FiltersSeeOnlyIds(qid: Id, paperId: Id, k: int)
    ensures SeesOnlyIds(HasQuestion(qid))
    ensures SeesOnlyIds(HasPaperQuestion(paperId, k))
  {
  }

  // ----- the daily quiz: one section, and the answer lists -----

  /** The counts are the lengths of the answer lists. */
  predicate ListsTrackCounters(p: Progress) {
    |p.correctAnswerList| == p.correctAnswers && |p.wrongAnswerList| == p.wrongAnswers
  }

  predicate AllWrongAnswersValid(p: Progress) {
    forall i :: 0 <= i < |p.wrongAnswerList| ==> ValidWrongAnswer(p.wrongAnswerList[i])
  }

  /**
   * The daily-quiz step: the first entry of Section1 with this question id is marked, the
   * answer is counted and recorded in one of the two lists, and the cursor moves on, or
   * the session closes with the cursor left where it was.
   */
  function SingleSectionStep(d: SessionDoc, qid: Id, isCorrect: bool, userAnswer: string, now: int)
    : Option<SessionDoc>
  {
    match FindIndex(d.section1, HasQuestion(qid))
    case None => None
    case Some(i) =>
      var marked := d.(section1 := d.section1[i := MarkAnswered(d.section1[i], isCorrect, now)]);
      var scored := Score(d.progress, isCorrect);
      var listed :=
        if isCorrect then scored.(correctAnswerList := scored.correctAnswerList + [qid])
        else scored.(wrongAnswerList := scored.wrongAnswerList + [WrongAnswer(qid, userAnswer, now)]);
      if i + 1 >= |d.section1| then
        Some(marked.(progress := listed.(status := Completed), isActive := false))
      else
        Some(marked.(progress := listed.(status := InProgress),
                     cursor := Cursor(1, i + 1, Some(d.section1[i + 1].questionId))))
  }

  /**
   * Nothing is found, and nothing saved, exactly when no entry of Section1 has the id;
   * otherwise only that first entry changes, and Sections 2 and 3 and the identity fields
   * are kept.
   */
  lemma SingleStepChangesOnlyFirstMatch(d: SessionDoc, qid: Id, isCorrect: bool, userAnswer: string, now: int)
    ensures SingleSectionStep(d, qid, isCorrect, userAnswer, now).None? <==>
      forall k :: 0 <= k < |d.section1| ==> d.section1[k].questionId != qid
    ensures SingleSectionStep(d, qid, isCorrect, userAnswer, now).Some? ==>
      var r := SingleSectionStep(d, qid, isCorrect, userAnswer, now).value;
      exists i :: 0 <= i < |d.section1| && d.section1[i].questionId == qid &&
        (forall j :: 0 <= j < i ==> d.section1[j].questionId != qid) &&
        r.section1 == d.section1[i := MarkAnswered(d.section1[i], isCorrect, now)]
    ensures SingleSectionStep(d, qid, isCorrect, userAnswer, now).Some? ==>
      var r := SingleSectionStep(d, qid, isCorrect, userAnswer, now).value;
      r.section2 == d.section2 && r.section3 == d.section3 &&
      r.id == d.id && r.userId == d.userId && r.subject == d.subject &&
      r.syllabus == d.syllabus && r.standard == d.standard
  {
  }

  /**
   * A right answer appends the question id to `correctAnswerList`, a wrong one appends
   * `{questionId, selectedOption, answeredAt}` to `wrongAnswerList`; the counters move with
   * the lists, so counters equal to the list lengths stay so, and every recorded wrong
   * answer carries its required fields when the request's were present.
   */
  lemma SingleStepRecordsAnswer(d: SessionDoc, qid: Id, isCorrect: bool, userAnswer: string, now: int)
    requires SingleSectionStep(d, qid, isCorrect, userAnswer, now).Some?
    ensures var p := SingleSectionStep(d, qid, isCorrect, userAnswer, now).value.progress;
      p.completedQuestions == d.progress.completedQuestions + 1 &&
      (isCorrect ==> p.correctAnswerList == d.progress.correctAnswerList + [qid] &&
                     p.wrongAnswerList == d.progress.wrongAnswerList &&
                     p.correctAnswers == d.progress.correctAnswers + 1 &&
                     p.wrongAnswers == d.progress.wrongAnswers) &&
      (!isCorrect ==> p.wrongAnswerList == d.progress.wrongAnswerList + [WrongAnswer(qid, userAnswer, now)] &&
                      p.correctAnswerList == d.progress.correctAnswerList &&
                      p.wrongAnswers == d.progress.wrongAnswers + 1 &&
                      p.correctAnswers == d.progress.correctAnswers)
    ensures var p := SingleSectionStep(d, qid, isCorrect, userAnswer, now).value.progress;
      (CountersAgree(d.progress) ==> CountersAgree(p)) &&
      (ListsTrackCounters(d.progress) ==> ListsTrackCounters(p)) &&
      (AllWrongAnswersValid(d.progress) && qid != "" && userAnswer != "" ==> AllWrongAnswersValid(p))
  {
  }

  /**
   * On the last entry the session is completed and closed and the cursor stays where it
   * was; otherwise it is in progress and the cursor points at the next entry of Section1.
   */
  lemma SingleStepAdvancesCursor(d: SessionDoc, qid: Id, isCorrect: bool, userAnswer: string, now: int)
    requires SingleSectionStep(d, qid, isCorrect, userAnswer, now).Some?
    ensures var r := SingleSectionStep(d, qid, isCorrect, userAnswer, now).value;
      var i := FindIndex(d.section1, HasQuestion(qid)).value;
      (r.progress.status == Completed <==> i == |d.section1| - 1) &&
      (r.progress.status == Completed ==> !r.isActive && r.cursor == d.cursor) &&
      (r.progress.status != Completed ==>
        r.progress.status == InProgress && r.isActive == d.isActive &&
        r.cursor == Cursor(1, i + 1, Some(d.section1[i + 1].questionId)))
  {
  }
}
