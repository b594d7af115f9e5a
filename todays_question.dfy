/**
 * The daily quiz: one section of sampled questions per (user, subject, syllabus, standard),
 * answered one question at a time, and the per-topic counts of its analysis report.
 */
module TodaysQuestion {
  import opened Wrappers
  import opened Text
  import opened Collections
  import opened SessionModel
  import opened SectionCursor
  import opened LiveSession

  /** The quiz's key: an active session for it is resumed rather than duplicated. */
  predicate ActiveQuiz(d: SessionDoc, userId: Id, subject: string, syllabus: string, standard: string) {
    d.userId == userId && d.subject == subject && d.syllabus == syllabus && d.standard == standard && d.isActive
  }

  /** At most one active daily quiz per (user, subject, syllabus, standard). */
  predicate AtMostOneActiveQuiz(store: seq<SessionDoc>) {
    forall i, j :: 0 <= i < j < |store| && store[i].isActive && store[j].isActive ==>
      store[i].userId != store[j].userId || store[i].subject != store[j].subject ||
      store[i].syllabus != store[j].syllabus || store[i].standard != store[j].standard
  }

  datatype TodayOutcome =
    | TodayMissingFields                // 400
    | AlreadyCreated(quizId: Id)        // 200
    | TodayServerError                  // 500: no question was sampled
    | TodayCreated(quizId: Id)          // 201

  /** `totalNeeded`: the size of the `$sample` stage. */
  const DailySize := 10
  /** The new quiz over the sampled ids. */
  function DailySession(newId: Id, userId: Id, subject: string, syllabus: string, standard: string, sample: seq<Id>)
    : SessionDoc
    requires sample != []
  {
    SessionDoc(newId, userId, subject, syllabus, standard, Numbered(sample, 1), [], [],
      Cursor(1, 0, Some(sample[0])), InitialProgress(NotStarted), true)
  }

  /**
   * `createTodaysQuestions`: the outcome and the collection afterwards. `sample` is every
   * question of the subject, syllabus and standard in the random order `$sample` draws
   * them; the stage keeps the first `DailySize`, or all of them when there are fewer.
   */
  function CreateTodays(userId: Id, subject: string, syllabus: string, standard: string,
                        sample: seq<Id>, store: seq<SessionDoc>, newId: Id): (TodayOutcome, seq<SessionDoc>)
  {
    if userId == "" || subject == "" || syllabus == "" || standard == "" then (TodayMissingFields, store)
    else
      match FindFirst(store, d => ActiveQuiz(d, userId, subject, syllabus, standard))
      case Some(existing) => (AlreadyCreated(existing.id), store)
      case None =>
        if sample == [] then (TodayServerError, store)
        else
          var drawn := Take(sample, DailySize);
          (TodayCreated(newId), store + [DailySession(newId, userId, subject, syllabus, standard, drawn)])
  }

  /**
   * An active quiz for the key is returned and nothing is created; otherwise a non-empty
   * sample becomes one new active session whose Section1 holds the first `DailySize`
   * sampled ids (all of them when there are fewer) in order, numbered from 1, pending, with the cursor on the first and progress not started.
   * Either way there is never a second active quiz for a key.
   */
  lemma CreateTodaysResumesOrCreates(userId: Id, subject: string, syllabus: string, standard: string,
                                     sample: seq<Id>, store: seq<SessionDoc>, newId: Id)
    ensures var (out, after) := CreateTodays(userId, subject, syllabus, standard, sample, store, newId);
      (out.AlreadyCreated? <==>
        userId != "" && subject != "" && syllabus != "" && standard != "" &&
        exists k :: 0 <= k < |store| && ActiveQuiz(store[k], userId, subject, syllabus, standard)) &&
      (out.AlreadyCreated? ==>
        after == store &&
        exists k :: 0 <= k < |store| && store[k].id == out.quizId &&
          ActiveQuiz(store[k], userId, subject, syllabus, standard)) &&
      (!out.TodayCreated? ==> after == store)
    ensures var (out, after) := CreateTodays(userId, subject, syllabus, standard, sample, store, newId);
      out.TodayCreated? ==>
        out.quizId == newId && sample != [] && |after| == |store| + 1 && after[..|store|] == store &&
        var d := after[|store|];
        ActiveQuiz(d, userId, subject, syllabus, standard) &&
        QuestionIds(d.section1) == Take(sample, DailySize) &&
        |d.section1| == (if |sample| < DailySize then |sample| else DailySize) &&
        NumberedFromOne(d.section1) &&
        (forall e :: e in d.section1 ==> IsFreshEntry(e)) &&
        d.section2 == [] && d.section3 == [] &&
        d.cursor == Cursor(1, 0, Some(d.section1[0].questionId)) && d.progress == InitialProgress(NotStarted)
    ensures AtMostOneActiveQuiz(store) ==>
      AtMostOneActiveQuiz(CreateTodays(userId, subject, syllabus, standard, sample, store, newId).1)
  {
    var f := d => ActiveQuiz(d, userId, subject, syllabus, standard);
    var found := FindFirst(store, f);
    if found.Some? {
      var k :| 0 <= k < |store| && store[k] == found.value;
    }
    if sample != [] {
      QuestionIdsOfNumbered(Take(sample, DailySize), 1);
    }
  }

  // ----- checkTodaysAnswerById -----

  /**
   * `checkTodaysAnswerById`: the reply and the document saved. `question` is the stored
   * correct answer of the question found by id, `found` the user's active quiz.
   */
  function AnswerToday(questionId: Id, userAnswer: string, userId: Id, question: Option<string>,
                       found: Option<SessionDoc>, now: int): (AnswerReply, Option<SessionDoc>)
  {
    if questionId == "" || userAnswer == "" || userId == "" then (MissingFields, None)
    else if question.None? then (QuestionNotFound, None)
    else
      var isCorrect := AnswersMatch(question.value, userAnswer);
      if found.None? then (SessionNotFound, None)
      else
        match SingleSectionStep(found.value, questionId, isCorrect, userAnswer, now)
        case None => (NotInSession, None)
        case Some(d) =>
          (Checked(isCorrect, if isCorrect then None else Some(question.value), d.progress, d.cursor), Some(d))
  }

  /**
   * The answer is judged by trimmed, lower-cased equality; a question outside Section1 is a
   * 404 and nothing is saved; the saved quiz is the single-section step, so the answer is
   * recorded in the list it belongs to; the correct answer is disclosed exactly when the
   * answer is wrong.
   */
  lemma AnswerTodayReplies(questionId: Id, userAnswer: string, userId: Id, question: Option<string>,
                           found: Option<SessionDoc>, now: int)
    ensures var (reply, saved) := AnswerToday(questionId, userAnswer, userId, question, found, now);
      (reply == MissingFields <==> questionId == "" || userAnswer == "" || userId == "") &&
      (saved.Some? <==> reply.Checked?) &&
      (reply == NotInSession <==>
        questionId != "" && userAnswer != "" && userId != "" && question.Some? && found.Some? &&
        forall k :: 0 <= k < |found.value.section1| ==> found.value.section1[k].questionId != questionId) &&
      (reply.Checked? ==>
        question.Some? && found.Some? &&
        reply.isCorrect == (NormalizeAnswer(question.value) == NormalizeAnswer(userAnswer)) &&
        (reply.correctAnswer.None? <==> reply.isCorrect) &&
        (!reply.isCorrect ==> reply.correctAnswer == Some(question.value)) &&
        saved == SingleSectionStep(found.value, questionId, reply.isCorrect, userAnswer, now) &&
        reply.progress == saved.value.progress && reply.cursor == saved.value.cursor)
  {
    if found.Some? && question.Some? {
      SingleStepChangesOnlyFirstMatch(found.value, questionId, AnswersMatch(question.value, userAnswer), userAnswer, now);
    }
  }

  /** The handler on the loaded quiz object (`null` when none was found). */
  method CheckTodaysAnswer(questionId: Id, userAnswer: string, userId: Id, question: Option<string>,
                           session: Session?, now: int) returns (reply: AnswerReply)
    modifies session
    ensures session != null ==>
      AnswerToday(questionId, userAnswer, userId, question, Some(old(session.Doc())), now) ==
        (reply, if reply.Checked? then Some(session.Doc()) else None)
    ensures session != null && !reply.Checked? ==> session.Doc() == old(session.Doc())
    ensures session == null ==> AnswerToday(questionId, userAnswer, userId, question, None, now) == (reply, None)
  {
    if questionId == "" || userAnswer == "" || userId == "" {
      return MissingFields;
    }
    if question.None? {
      return QuestionNotFound;
    }
    var isCorrect := NormalizeAnswer(question.value) == NormalizeAnswer(userAnswer);
    if session == null {
      return SessionNotFound;
    }
    var ok := session.RecordSingleAnswer(questionId, isCorrect, userAnswer, now);
    if !ok {
      return NotInSession;
    }
    reply := Checked(isCorrect, if isCorrect then None else Some(question.value), session.progress, session.cursor);
  }

  // ----- topic accuracy of getTodaysAnalysisReport -----

  /** A fetched question: its id and topic. */
  datatype TopicQuestion = TopicQuestion(id: Id, topic: string)

  datatype TopicStat = TopicStat(total: nat, correct: nat)

  /** How many of the questions have topic `t`. */
  function CountTopic(qs: seq<TopicQuestion>, t: string): nat {
    if qs == [] then 0
    else CountTopic(qs[..|qs| - 1], t) + (if qs[|qs| - 1].topic == t then 1 else 0)
  }

  /** How many of the questions have topic `t` and an id answered correctly. */
  function CountCorrect(qs: seq<TopicQuestion>, t: string, correctIds: seq<Id>): nat {
    if qs == [] then 0
    else
      var q := qs[|qs| - 1];
      CountCorrect(qs[..|qs| - 1], t, correctIds) + (if q.topic == t && q.id in correctIds then 1 else 0)
  }

  /** One question counted into the table. */
  function Tally(stats: map<string, TopicStat>, q: TopicQuestion, correctIds: seq<Id>): map<string, TopicStat> {
    var s := if q.topic in stats then stats[q.topic] else TopicStat(0, 0);
    stats[q.topic := TopicStat(s.total + 1, if q.id in correctIds then s.correct + 1 else s.correct)]
  }

  /** The table after counting the questions in order. */
  function TopicStats(qs: seq<TopicQuestion>, correctIds: seq<Id>): map<string, TopicStat> {
    if qs == [] then map[] else Tally(TopicStats(qs[..|qs| - 1], correctIds), qs[|qs| - 1], correctIds)
  }

  /** The `forEach` that fills `topicStats`. */
  method CountTopics(qs: seq<TopicQuestion>, correctIds: seq<Id>) returns (stats: map<string, TopicStat>)
    ensures stats == TopicStats(qs, correctIds)
  {
    stats := map[];
    for i := 0 to |qs|
      invariant stats == TopicStats(qs[..i], correctIds)
    {
      var q := qs[i];
      var s := if q.topic in stats then stats[q.topic] else TopicStat(0, 0);
      if q.id in correctIds {
        s := TopicStat(s.total + 1, s.correct + 1);
      } else {
        s := TopicStat(s.total + 1, s.correct);
      }
      stats := stats[q.topic := s];
      assert qs[..i + 1][..i] == qs[..i];
    }
    assert qs[..|qs|] == qs;
  }

  /**
   * The table has one row per topic that occurs; a row's `total` counts the questions of
   * its topic and `correct` those of them answered correctly, so `correct <= total`.
   */
  lemma {:induction false} TopicStatsCount(qs: seq<TopicQuestion>, correctIds: seq<Id>)
    ensures forall t :: t in TopicStats(qs, correctIds) <==> exists i :: 0 <= i < |qs| && qs[i].topic == t
    ensures forall t :: t in TopicStats(qs, correctIds) ==>
      TopicStats(qs, correctIds)[t] == TopicStat(CountTopic(qs, t), CountCorrect(qs, t, correctIds)) &&
      TopicStats(qs, correctIds)[t].correct <= TopicStats(qs, correctIds)[t].total
  {
    if qs != [] {
      var init := qs[..|qs| - 1];
      TopicStatsCount(init, correctIds);
      CountTopicAbsent(init, correctIds);
      assert forall i :: 0 <= i < |init| ==> init[i] == qs[i];
      forall t ensures t in TopicStats(qs, correctIds) <==> exists i :: 0 <= i < |qs| && qs[i].topic == t {
        if t == qs[|qs| - 1].topic {
          assert qs[|qs| - 1].topic == t;
        }
      }
    }
  }

  /** A topic without a row has no questions. */
  lemma {:induction false} CountTopicAbsent(qs: seq<TopicQuestion>, correctIds: seq<Id>)
    ensures forall t :: (forall i :: 0 <= i < |qs| ==> qs[i].topic != t) ==>
      CountTopic(qs, t) == 0 && CountCorrect(qs, t, correctIds) == 0
  {
    if qs != [] {
      var init := qs[..|qs| - 1];
      CountTopicAbsent(init, correctIds);
      forall t | forall i :: 0 <= i < |qs| ==> qs[i].topic != t
        ensures CountTopic(qs, t) == 0 && CountCorrect(qs, t, correctIds) == 0
      {
        assert forall i :: 0 <= i < |init| ==> init[i].topic != t by {
          forall i | 0 <= i < |init| ensures init[i].topic != t {
            assert init[i] == qs[i];
          }
        }
        assert qs[|qs| - 1].topic != t;
      }
    }
  }
}
