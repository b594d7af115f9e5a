/**
 * The practice controller: the fixed-size three-section plan, the random-question session
 * (started fresh, or resumed), the answer check on it, and the missed-question list.
 * Database reads are inputs: `sample` is what `$sample` returned, `store` the sessions
 * collection, `question` the answer key found by id; `now` is `new Date()` and `newId`
 * the id the database gives a new document.
 */
module PracticePlan {
  import opened Wrappers
  import opened Text
  import opened Collections
  import opened SessionModel
  import opened SectionCursor
  import opened LiveSession

  // ----- createPraticePlan -----

  /** A request value that may be absent, a number, or a string. */
  datatype Field = Missing | Num(n: int) | Str(s: string)

  /** JavaScript truthiness of a request value. */
  predicate Truthy(f: Field) {
    match f
    case Missing => false
    case Num(n) => n != 0
    case Str(s) => s != ""
  }

  /** `parseInt(totalQuestions) || 5`: `NaN` and 0 both fall back to 5. */
  function QuestionCount(f: Field): (n: int)
    ensures n != 0
  {
    var parsed := match f
      case Missing => None
      case Num(k) => Some(k)
      case Str(s) => ParseInt(s);
    match parsed
    case Some(k) => if k == 0 then 5 else k
    case None => 5
  }

  /** A count typed as digits is read as that number; no number at all means 5. */
  lemma QuestionCountOfDigits(k: nat)
    ensures QuestionCount(Str(Decimal(k))) == (if k == 0 then 5 else k)
    ensures QuestionCount(Missing) == 5
    ensures QuestionCount(Str("ten")) == 5
  {
    ParseIntOfDecimal(k);
    assert ParseInt("ten") == None by {
      assert TrimStart("ten") == "ten";
      assert DigitRun("ten", 10) == 0;
    }
  }

  datatype PlanRequest = PlanRequest(
    standard: string, syllabus: string, subject: string, totalQuestions: Field,
    preferredTime: string, startDate: string, endDate: string, difficulty: string, skipdays: string)

  predicate PlanFieldsPresent(r: PlanRequest) {
    r.standard != "" && r.syllabus != "" && r.subject != "" && Truthy(r.totalQuestions) &&
    r.preferredTime != "" && r.startDate != "" && r.endDate != "" && r.difficulty != "" && r.skipdays != ""
  }

  datatype PlanOutcome =
    | PlanMissingFields                       // 400
    | PlanServerError                         // 500: `$sample` refuses a negative size
    | NotEnough(required: int, found: nat)    // 404
    | PlanCreated(section1: seq<Entry>, section2: seq<Entry>, section3: seq<Entry>, totalQuestions: int)

  function CreatePracticePlan(req: PlanRequest, sample: seq<Id>): PlanOutcome {
    if !PlanFieldsPresent(req) then PlanMissingFields
    else
      var n := QuestionCount(req.totalQuestions);
      var needed := n * 3;
      if n < 0 then PlanServerError
      else if |sample| < needed then NotEnough(needed, |sample|)
      else PlanCreated(
        Numbered(sample[..n], 1), Numbered(sample[n..2 * n], 1), Numbered(sample[2 * n..3 * n], 1), needed)
  }

  /**
   * With n questions per section, fewer than 3n sampled questions is a 404; otherwise the
   * sections are the consecutive slices [0,n), [n,2n), [2n,3n) of the sample, each numbered
   * 1..n and pending.
   */
  lemma PlanSplitsSample(req: PlanRequest, sample: seq<Id>)
    requires PlanFieldsPresent(req) && QuestionCount(req.totalQuestions) > 0
    ensures var n := QuestionCount(req.totalQuestions);
      CreatePracticePlan(req, sample).NotEnough? <==> |sample| < 3 * n
    ensures var n := QuestionCount(req.totalQuestions);
      CreatePracticePlan(req, sample).PlanCreated? ==>
      var p := CreatePracticePlan(req, sample);
      |p.section1| == n && |p.section2| == n && |p.section3| == n && p.totalQuestions == 3 * n &&
      QuestionIds(p.section1) + QuestionIds(p.section2) + QuestionIds(p.section3) == sample[..3 * n] &&
      NumberedFromOne(p.section1) && NumberedFromOne(p.section2) && NumberedFromOne(p.section3) &&
      (forall i :: 0 <= i < n ==>
        IsFreshEntry(p.section1[i]) && IsFreshEntry(p.section2[i]) && IsFreshEntry(p.section3[i]))
  {
    var n := QuestionCount(req.totalQuestions);
    if |sample| >= 3 * n {
      QuestionIdsOfNumbered(sample[..n], 1);
      QuestionIdsOfNumbered(sample[n..2 * n], 1);
      QuestionIdsOfNumbered(sample[2 * n..3 * n], 1);
      assert sample[..n] + sample[n..2 * n] + sample[2 * n..3 * n] == sample[..3 * n];
    }
  }

  /** Missing fields are reported before anything else; a negative count is a server error. */
  lemma PlanRejections(req: PlanRequest, sample: seq<Id>)
    ensures CreatePracticePlan(req, sample).PlanMissingFields? <==> !PlanFieldsPresent(req)
    ensures CreatePracticePlan(req, sample).PlanServerError? <==>
      PlanFieldsPresent(req) && QuestionCount(req.totalQuestions) < 0
  {
  }

  // ----- getRandomQuestion and createRandomQuestions -----

  /** Questions per section of a random session. */
  const SectionSize := 10

  /** A new random session over the sampled ids: 10, 10 and the rest. */
  function RandomSession(newId: Id, userId: Id, subject: string, sample: seq<Id>, status: ProgressStatus)
    : SessionDoc
    requires sample != []
  {
    SessionDoc(newId, userId, subject, "", "",
      Numbered(Take(sample, SectionSize), 1),
      Numbered(Take(sample[|Take(sample, SectionSize)|..], SectionSize), 1),
      Numbered(sample[|Take(sample, 2 * SectionSize)|..], 1),
      Cursor(1, 0, Some(sample[0])),
      InitialProgress(status),
      true)
  }

  /**
   * The sections of a new random session hold the whole sample in order, 10, 10 and the
   * rest, each numbered from 1 and pending; the cursor is on the first question.
   */
  lemma RandomSessionShape(newId: Id, userId: Id, subject: string, sample: seq<Id>, status: ProgressStatus)
    requires sample != []
    ensures var d := RandomSession(newId, userId, subject, sample, status);
      QuestionIds(d.section1) + QuestionIds(d.section2) + QuestionIds(d.section3) == sample &&
      |d.section1| == (if |sample| < SectionSize then |sample| else SectionSize) &&
      (|sample| >= 2 * SectionSize ==> |d.section2| == SectionSize) &&
      NumberedFromOne(d.section1) && NumberedFromOne(d.section2) && NumberedFromOne(d.section3) &&
      (forall e :: e in AllEntries(d) ==> IsFreshEntry(e)) &&
      d.cursor == Cursor(1, 0, Some(d.section1[0].questionId)) &&
      d.progress == InitialProgress(status) && CountersAgree(d.progress) && d.isActive
  {
    var d := RandomSession(newId, userId, subject, sample, status);
    var a := Take(sample, SectionSize);
    var b := Take(sample[|a|..], SectionSize);
    QuestionIdsOfNumbered(a, 1);
    QuestionIdsOfNumbered(b, 1);
    QuestionIdsOfNumbered(sample[|Take(sample, 2 * SectionSize)|..], 1);
    assert |Take(sample, 2 * SectionSize)| == |a| + |b|;
    assert a + b + sample[|a| + |b|..] == sample;
  }

  datatype StartOutcome =
    | SubjectRequired                 // 400
    | Resumed(session: SessionDoc)    // 200: the active session, unchanged
    | NoQuestions                     // 404
    | Started(session: SessionDoc)    // 201

  /** `getRandomQuestion`: the outcome and the collection afterwards. */
  function GetRandomQuestion(userId: Id, subject: string, store: seq<SessionDoc>, sample: seq<Id>, newId: Id)
    : (StartOutcome, seq<SessionDoc>)
  {
    if subject == "" then (SubjectRequired, store)
    else
      match FindFirst(store, d => ActiveFor(d, userId, subject))
      case Some(existing) => (Resumed(existing), store)
      case None =>
        if sample == [] then (NoQuestions, store)
        else
          var d := RandomSession(newId, userId, subject, sample, NotStarted);
          (Started(d), store + [d])
  }

  datatype CreateOutcome =
    | CreateMissingFields                     // 400
    | AlreadyActive(existing: SessionDoc)     // 400
    | TooFew(required: int, found: nat)       // 404
    | Created(session: SessionDoc)            // 201

  /** `createRandomQuestions`: the outcome and the collection afterwards. */
  function CreateRandomQuestions(userId: Id, subject: string, store: seq<SessionDoc>, sample: seq<Id>, newId: Id)
    : (CreateOutcome, seq<SessionDoc>)
  {
    if userId == "" || subject == "" then (CreateMissingFields, store)
    else
      match FindFirst(store, d => ActiveFor(d, userId, subject))
      case Some(existing) => (AlreadyActive(existing), store)
      case None =>
        if |sample| < 3 * SectionSize then (TooFew(3 * SectionSize, |sample|), store)
        else
          var d := RandomSession(newId, userId, subject, sample, InProgress);
          (Created(d), store + [d])
  }

  /**
   * With an active session for the same user and subject, `getRandomQuestion` resumes it
   * and changes nothing, while `createRandomQuestions` refuses with that session; with
   * none, each adds exactly one new active session, or nothing when the sample is too small
   * (none at all for the first, fewer than 30 for the second).
   */
  lemma EntryPointsOnActiveSession(userId: Id, subject: string, store: seq<SessionDoc>, sample: seq<Id>, newId: Id)
    requires userId != "" && subject != ""
    ensures var active := FindFirst(store, d => ActiveFor(d, userId, subject));
      active.Some? ==>
        GetRandomQuestion(userId, subject, store, sample, newId) == (Resumed(active.value), store) &&
        CreateRandomQuestions(userId, subject, store, sample, newId) == (AlreadyActive(active.value), store)
    ensures var active := FindFirst(store, d => ActiveFor(d, userId, subject));
      active.None? ==>
        (GetRandomQuestion(userId, subject, store, sample, newId).0.Started? <==> sample != []) &&
        (CreateRandomQuestions(userId, subject, store, sample, newId).0.Created? <==> |sample| >= 30)
  {
  }

  /** Neither entry point ever gives a user two active sessions on one subject. */
  lemma StartingKeepsOneActive(userId: Id, subject: string, store: seq<SessionDoc>, sample: seq<Id>, newId: Id)
    requires AtMostOneActive(store)
    ensures AtMostOneActive(GetRandomQuestion(userId, subject, store, sample, newId).1)
    ensures AtMostOneActive(CreateRandomQuestions(userId, subject, store, sample, newId).1)
  {
    var f := d => ActiveFor(d, userId, subject);
    if FindFirst(store, f).None? && sample != [] {
      var d := RandomSession(newId, userId, subject, sample, NotStarted);
      var d2 := RandomSession(newId, userId, subject, sample, InProgress);
      AppendingFreshKeepsOneActive(store, d, userId, subject);
      AppendingFreshKeepsOneActive(store, d2, userId, subject);
    }
  }

  lemma AppendingFreshKeepsOneActive(store: seq<SessionDoc>, d: SessionDoc, userId: Id, subject: string)
    requires AtMostOneActive(store)
    requires d.userId == userId && d.subject == subject
    requires FindFirst(store, x => ActiveFor(x, userId, subject)).None?
    ensures AtMostOneActive(store + [d])
  {
    var s := store + [d];
    forall i, j | 0 <= i < j < |s| && s[i].isActive && s[j].isActive
      ensures s[i].userId != s[j].userId || s[i].subject != s[j].subject
    {
      assert s[i] == store[i];
      if j < |store| { assert s[j] == store[j]; }
      else { assert !ActiveFor(store[i], userId, subject); }
    }
  }

  // ----- checkAnswerById -----

  /**
   * `checkAnswerById`: the reply and the document saved (`None`: nothing saved). `question`
   * is the stored correct answer of the question found by id; `found` is what
   * `findOne({ userId, isActive: true })` returned. The cursor records the entry's own `_id`.
   */
  function AnswerById(questionId: Id, userAnswer: string, userId: Id, question: Option<string>,
                      found: Option<SessionDoc>, now: int): (AnswerReply, Option<SessionDoc>)
  {
    if questionId == "" || userAnswer == "" || userId == "" then (MissingFields, None)
    else if question.None? then (QuestionNotFound, None)
    else
      var isCorrect := AnswersMatch(question.value, userAnswer);
      if found.None? then (SessionNotFound, None)
      else
        match ThreeSectionStep(found.value, HasQuestion(questionId), isCorrect, now, EntryOwnId)
        case None => (NotInSession, None)
        case Some(d) =>
          (Checked(isCorrect, if isCorrect then None else Some(question.value), d.progress, d.cursor), Some(d))
  }

  /** The cursor of a practice session names the entry's `_id`. */
  function EntryOwnId(e: Entry): Id {
    e.entryId
  }

  /**
   * The checks run in order (fields, question, session, entry) and nothing is saved unless
   * the entry is found; a checked answer is right exactly when the trimmed, lower-cased
   * strings agree, and the correct answer is disclosed exactly when it is wrong.
   */
  lemma AnswerByIdReplies(questionId: Id, userAnswer: string, userId: Id, question: Option<string>,
                          found: Option<SessionDoc>, now: int)
    ensures var (reply, saved) := AnswerById(questionId, userAnswer, userId, question, found, now);
      (reply == MissingFields <==> questionId == "" || userAnswer == "" || userId == "") &&
      (saved.Some? <==> reply.Checked?) &&
      (reply.Checked? ==>
        question.Some? && found.Some? &&
        reply.isCorrect == (NormalizeAnswer(question.value) == NormalizeAnswer(userAnswer)) &&
        (reply.correctAnswer.None? <==> reply.isCorrect) &&
        (!reply.isCorrect ==> reply.correctAnswer == Some(question.value)) &&
        saved == ThreeSectionStep(found.value, HasQuestion(questionId), reply.isCorrect, now, EntryOwnId) &&
        reply.progress == saved.value.progress && reply.cursor == saved.value.cursor)
    ensures var (reply, saved) := AnswerById(questionId, userAnswer, userId, question, found, now);
      reply == NotInSession <==>
        questionId != "" && userAnswer != "" && userId != "" && question.Some? && found.Some? &&
        forall k :: 0 <= k < |AllEntries(found.value)| ==> AllEntries(found.value)[k].questionId != questionId
  {
    if found.Some? && question.Some? {
      StepFailsIffNoMatch(found.value, HasQuestion(questionId), AnswersMatch(question.value, userAnswer), now, EntryOwnId);
    }
  }

  /** The handler on the loaded session object (`null` when none was found). */
  method CheckAnswerById(questionId: Id, userAnswer: string, userId: Id, question: Option<string>,
                         session: Session?, now: int) returns (reply: AnswerReply)
    modifies session
    ensures session != null ==>
      AnswerById(questionId, userAnswer, userId, question, Some(old(session.Doc())), now) ==
        (reply, if reply.Checked? then Some(session.Doc()) else None)
    ensures session != null && !reply.Checked? ==> session.Doc() == old(session.Doc())
    ensures session == null ==> AnswerById(questionId, userAnswer, userId, question, None, now) == (reply, None)
  {
    if questionId == "" || userAnswer == "" || userId == "" {
      return MissingFields;
    }
    if question.None? {
      return QuestionNotFound;
    }
    var isCorrect := NormalizeAnswer(question.value) == NormalizeAnswer(userAnswer);
    if session == null {
      return SessionNotFound;
    }
    var ok := session.RecordAnswer(HasQuestion(questionId), isCorrect, now, EntryOwnId);
    if !ok {
      return NotInSession;
    }
    reply := Checked(isCorrect, if isCorrect then None else Some(question.value), session.progress, session.cursor);
  }

  // ----- getMissedQuestions -----

  /** An entry answered wrong at the last try after more than one attempt. */
  predicate IsMissed(e: Entry) {
    e.status == Incorrect && e.attempts > 1
  }

  /** `entries.filter(IsMissed)`. */
  function MissedEntries(s: seq<Entry>): (r: seq<Entry>)
    ensures |r| <= |s|
    ensures forall i :: 0 <= i < |r| ==> IsMissed(r[i]) && r[i] in s
  {
    if s == [] then []
    else if IsMissed(s[0]) then [s[0]] + MissedEntries(s[1..])
    else MissedEntries(s[1..])
  }

  lemma {:induction false} MissedEntriesAppend(a: seq<Entry>, b: seq<Entry>)
    ensures MissedEntries(a + b) == MissedEntries(a) + MissedEntries(b)
  {
    if a != [] {
      assert (a + b)[1..] == a[1..] + b;
      MissedEntriesAppend(a[1..], b);
    } else {
      assert a + b == b;
    }
  }

  /** Every missed entry of the input is kept. */
  lemma {:induction false} MissedEntriesComplete(s: seq<Entry>)
    ensures forall e :: e in s && IsMissed(e) ==> e in MissedEntries(s)
  {
    if s != [] {
      MissedEntriesComplete(s[1..]);
      forall e | e in s && IsMissed(e) ensures e in MissedEntries(s) {
        if e != s[0] { assert e in s[1..]; }
      }
    }
  }

  datatype MissedItem = MissedItem(questionId: Id, index: int, attempts: nat, answeredAt: Option<int>)

  datatype MissedOutcome =
    | MissedMissingFields            // 400
    | NoActiveSession                // 404
    | Missed(items: seq<MissedItem>) // 200, possibly empty

  function MissedItems(s: seq<Entry>): (r: seq<MissedItem>)
    ensures |r| == |s|
  {
    seq(|s|, i requires 0 <= i < |s| => MissedItem(s[i].questionId, i + 1, s[i].attempts, s[i].answeredAt))
  }

  /** `getMissedQuestions` up to the upsert of the result. */
  function GetMissedQuestions(userId: Id, subject: string, store: seq<SessionDoc>): MissedOutcome {
    if userId == "" || subject == "" then MissedMissingFields
    else
      match FindFirst(store, d => ActiveFor(d, userId, subject))
      case None => NoActiveSession
      case Some(d) => Missed(MissedItems(MissedEntries(AllEntries(d))))
  }

  /**
   * The list holds, in section order, exactly the entries marked incorrect after more than
   * one attempt, numbered 1..k; sections contribute in order Section1, 2, 3.
   */
  lemma MissedQuestionsAreTheMissedEntries(userId: Id, subject: string, store: seq<SessionDoc>)
    ensures GetMissedQuestions(userId, subject, store).Missed? ==>
      var d := FindFirst(store, x => ActiveFor(x, userId, subject)).value;
      var items := GetMissedQuestions(userId, subject, store).items;
      var missed := MissedEntries(d.section1) + MissedEntries(d.section2) + MissedEntries(d.section3);
      |items| == |missed| &&
      (forall i :: 0 <= i < |items| ==>
        items[i].index == i + 1 && items[i].questionId == missed[i].questionId &&
        items[i].attempts == missed[i].attempts && missed[i].attempts > 1 &&
        missed[i].status == Incorrect) &&
      (forall e :: e in AllEntries(d) && IsMissed(e) ==> e in missed)
  {
    if GetMissedQuestions(userId, subject, store).Missed? {
      var d := FindFirst(store, x => ActiveFor(x, userId, subject)).value;
      MissedEntriesAppend(d.section1 + d.section2, d.section3);
      MissedEntriesAppend(d.section1, d.section2);
      MissedEntriesComplete(AllEntries(d));
    }
  }
}
