/**
 * The previous-year controller: a session of three equal sections drawn from the questions
 * of the matching papers, and the answer check that points back into a paper by index.
 * The matching papers (subject, syllabus, standard, years and units are applied by the
 * query), the `Math.random()` values and the session collection are inputs.
 */
module PreviousYear {
  import opened Wrappers
  import opened Text
  import opened Collections
  import opened Shuffle
  import opened SessionModel
  import opened SectionCursor
  import opened LiveSession

  datatype PaperQuestion = PaperQuestion(correctAnswer: string, frequentlyAsked: bool)

  datatype Paper = Paper(id: Id, questions: seq<PaperQuestion>)

  // ----- sizing -----

  /** `Math.max(1, Math.floor(totalQuestions / 3))`. */
  function PerSection(total: int): (n: int)
    ensures n >= 1
  {
    var third := total / 3;   // floor division: the divisor is positive
    if third < 1 then 1 else third
  }

  /** `perSection * 3`. */
  function TargetTotal(total: int): int {
    PerSection(total) * 3
  }

  /**
   * The target is the largest multiple of 3 not above the requested total, and 3 when the
   * request is below 3: never more than two questions fewer than asked.
   */
  lemma TargetIsMultipleOfThree(total: int)
    ensures TargetTotal(total) % 3 == 0 && TargetTotal(total) >= 3
    ensures total >= 3 ==> total - 3 < TargetTotal(total) <= total
    ensures total < 3 ==> TargetTotal(total) == 3
    ensures TargetTotal(10) == 9 && PerSection(10) == 3
  {
  }

  // ----- the pool -----

  /** One candidate: a paper and a position. */
  datatype PoolItem = PoolItem(paperId: Id, idx: int)

  /** `questions.filter(q => q.FrequentlyAsked === true)`. */
  function FrequentOnly(qs: seq<PaperQuestion>): (r: seq<PaperQuestion>)
    ensures |r| <= |qs|
    ensures forall i :: 0 <= i < |r| ==> r[i].frequentlyAsked && r[i] in qs
  {
    if qs == [] then []
    else if qs[0].frequentlyAsked then [qs[0]] + FrequentOnly(qs[1..])
    else FrequentOnly(qs[1..])
  }

  /** The questions of a paper that enter the pool. */
  function Considered(p: Paper, onlyFrequent: bool): seq<PaperQuestion> {
    if onlyFrequent then FrequentOnly(p.questions) else p.questions
  }

  /** `qs.forEach((q, idx) => pool.push({ paperId, idx }))` for `k` questions. */
  function ItemsOf(paperId: Id, k: nat): (r: seq<PoolItem>)
    ensures |r| == k && forall i :: 0 <= i < k ==> r[i] == PoolItem(paperId, i)
  {
    seq(k, i requires 0 <= i < k => PoolItem(paperId, i))
  }

  /** The pool of all given papers, paper after paper. */
  function PoolOf(papers: seq<Paper>, onlyFrequent: bool): seq<PoolItem>
    decreases |papers|
  {
    if papers == [] then []
    else
      var last := papers[|papers| - 1];
      PoolOf(papers[..|papers| - 1], onlyFrequent) + ItemsOf(last.id, |Considered(last, onlyFrequent)|)
  }

  /** The pool as the handler builds it: a `forEach` over papers and one over their questions. */
  method BuildPool(papers: seq<Paper>, onlyFrequent: bool) returns (pool: seq<PoolItem>)
    ensures pool == PoolOf(papers, onlyFrequent)
  {
    pool := [];
    var p := 0;
    while p < |papers|
      invariant 0 <= p <= |papers|
      invariant pool == PoolOf(papers[..p], onlyFrequent)
    {
      var questions := papers[p].questions;
      if onlyFrequent {
        questions := FrequentOnly(questions);
      }
      var idx := 0;
      while idx < |questions|
        invariant 0 <= idx <= |questions|
        invariant pool == PoolOf(papers[..p], onlyFrequent) + ItemsOf(papers[p].id, idx)
      {
        pool := pool + [PoolItem(papers[p].id, idx)];
        idx := idx + 1;
      }
      assert papers[..p + 1][..p] == papers[..p];
      p := p + 1;
    }
    assert papers[..p] == papers;
  }

  /**
   * An item is in the pool exactly when it names a given paper and a position below the
   * number of that paper's considered questions.
   */
  lemma {:induction false} PoolMembers(papers: seq<Paper>, onlyFrequent: bool, it: PoolItem)
    ensures it in PoolOf(papers, onlyFrequent) <==>
      exists i :: 0 <= i < |papers| && it.paperId == papers[i].id &&
        0 <= it.idx < |Considered(papers[i], onlyFrequent)|
    decreases |papers|
  {
    if papers != [] {
      var init, last := papers[..|papers| - 1], papers[|papers| - 1];
      PoolMembers(init, onlyFrequent, it);
      var items := ItemsOf(last.id, |Considered(last, onlyFrequent)|);
      assert it in items <==> it.paperId == last.id && 0 <= it.idx < |Considered(last, onlyFrequent)| by {
        if it.paperId == last.id && 0 <= it.idx < |Considered(last, onlyFrequent)| {
          assert items[it.idx] == it;
        }
      }
      assert forall i :: 0 <= i < |init| ==> init[i] == papers[i];
    }
  }

  /**
   * With the frequently-asked filter an item's `idx` counts only the kept questions, while
   * the answer check reads `paper.questions[idx]` of the whole paper: in a paper whose first
   * question is not frequently asked and whose second is, the only item is (paper, 0), and
   * position 0 of the paper is the question the filter dropped.
   */
  lemma FrequentIndexIsFilteredPosition(paperId: Id, plain: PaperQuestion, frequent: PaperQuestion)
    requires !plain.frequentlyAsked && frequent.frequentlyAsked
    ensures var p := Paper(paperId, [plain, frequent]);
      PoolOf([p], true) == [PoolItem(paperId, 0)] &&
      !p.questions[PoolOf([p], true)[0].idx].frequentlyAsked
  {
    var p := Paper(paperId, [plain, frequent]);
    assert [plain, frequent][1..] == [frequent];
    assert [frequent][1..] == [];
    assert FrequentOnly(p.questions) == [frequent];
    assert [p][..0] == [];
  }

  /**
   * The keys `${questionId}_${paperQuestionIndex}` of every entry of the user's sessions on
   * the subject, active or not.
   */
  function AttemptedKeys(store: seq<SessionDoc>, userId: Id, subject: string): set<(Id, Option<int>)> {
    set d, e | d in store && d.userId == userId && d.subject == subject && e in AllEntries(d) ::
      (e.questionId, e.paperQuestionIndex)
  }

  /** `pool.filter(p => attemptedSet.has(key(p)))`. */
  function KeepAttempted(pool: seq<PoolItem>, keys: set<(Id, Option<int>)>): (r: seq<PoolItem>)
    ensures |r| <= |pool|
    ensures forall i :: 0 <= i < |r| ==> r[i] in pool && (r[i].paperId, Some(r[i].idx)) in keys
  {
    if pool == [] then []
    else if (pool[0].paperId, Some(pool[0].idx)) in keys then [pool[0]] + KeepAttempted(pool[1..], keys)
    else KeepAttempted(pool[1..], keys)
  }

  lemma {:induction false} KeepAttemptedComplete(pool: seq<PoolItem>, keys: set<(Id, Option<int>)>)
    ensures forall it :: it in pool && (it.paperId, Some(it.idx)) in keys ==> it in KeepAttempted(pool, keys)
  {
    if pool != [] {
      KeepAttemptedComplete(pool[1..], keys);
      forall it | it in pool && (it.paperId, Some(it.idx)) in keys ensures it in KeepAttempted(pool, keys) {
        if it != pool[0] { assert it in pool[1..]; }
      }
    }
  }

  /** The pool after the optional history filter. */
  function Candidates(papers: seq<Paper>, req: GenerateRequest, store: seq<SessionDoc>): seq<PoolItem> {
    var pool := PoolOf(papers, req.includeFrequentlyAsked);
    if req.includeAttempted then KeepAttempted(pool, AttemptedKeys(store, req.userId, req.subject)) else pool
  }

  // ----- generatePreviousYearSession -----

  datatype GenerateRequest = GenerateRequest(
    userId: Id, subject: string, totalQuestions: Option<int>,
    includeFrequentlyAsked: bool, includeAttempted: bool)

  datatype GenerateOutcome =
    | GenerateMissingFields                                        // 400
    | NoMatch                                                      // 404
    | Generated(sessionId: Id, perSection: int, totalQuestions: int) // 201

  /** `items.map((item, i) => ({ questionId: item.paperId, paperQuestionIndex: item.idx, number: i + 1 }))`. */
  function PaperEntries(items: seq<PoolItem>): (r: seq<Entry>)
    ensures |r| == |items|
    ensures forall i :: 0 <= i < |r| ==>
      r[i] == NewEntry(items[i].paperId, Some(items[i].idx), i + 1)
  {
    seq(|items|, i requires 0 <= i < |items| => NewEntry(items[i].paperId, Some(items[i].idx), i + 1))
  }

  /** `arr.slice(a, b)` for `0 <= a <= b`. */
  function Slice<T>(s: seq<T>, a: nat, b: nat): (r: seq<T>)
    requires a <= b
    ensures |r| <= b - a
  {
    if a >= |s| then [] else if b >= |s| then s[a..] else s[a..b]
  }

  /** The new session over the chosen items. */
  function PaperSession(newId: Id, userId: Id, subject: string, chosen: seq<PoolItem>, per: nat): SessionDoc {
    var s1 := PaperEntries(Slice(chosen, 0, per));
    SessionDoc(newId, userId, subject, "", "",
      s1, PaperEntries(Slice(chosen, per, 2 * per)), PaperEntries(Slice(chosen, 2 * per, 3 * per)),
      Cursor(1, 0, if |s1| > 0 then Some(s1[0].questionId) else None),
      InitialProgress(NotStarted),
      true)
  }

  /** `generatePreviousYearSession`: the outcome and the session collection afterwards. */
  function GeneratePreviousYear(req: GenerateRequest, papers: seq<Paper>,
                                rolls: seq<real>, store: seq<SessionDoc>, newId: Id)
    : (GenerateOutcome, seq<SessionDoc>)
    requires EnoughRolls(rolls, |Candidates(papers, req, store)|)
  {
    if req.userId == "" || req.subject == "" then (GenerateMissingFields, store)
    else
      var per := PerSection(req.totalQuestions.GetOr(10));
      var pool := Candidates(papers, req, store);
      if pool == [] then (NoMatch, store)
      else
        var chosen := Take(Shuffled(pool, rolls), 3 * per);
        var d := PaperSession(newId, req.userId, req.subject, chosen, per);
        (Generated(newId, per, 3 * per), DeactivateFor(store, req.userId, req.subject) + [d])
  }

  lemma SlicesCover<T>(s: seq<T>, per: nat)
    requires |s| <= 3 * per
    ensures Slice(s, 0, per) + Slice(s, per, 2 * per) + Slice(s, 2 * per, 3 * per) == s
  {
  }

  /**
   * The session over `chosen` holds exactly `chosen`, in section order: entry `k` names the
   * paper and index of item `k`. Each section has at most `per` entries and exactly `per`
   * when `3 * per` were chosen; every entry is pending and unanswered and numbered from 1
   * within its section; the cursor is on the first chosen paper and progress is zero.
   */
  lemma PaperSessionShape(newId: Id, userId: Id, subject: string, chosen: seq<PoolItem>, per: nat)
    requires 1 <= per && |chosen| <= 3 * per
    ensures var d := PaperSession(newId, userId, subject, chosen, per);
      var all := AllEntries(d);
      |all| == |chosen| &&
      (forall k :: 0 <= k < |all| ==>
        all[k].questionId == chosen[k].paperId && all[k].paperQuestionIndex == Some(chosen[k].idx) &&
        IsFreshEntry(all[k])) &&
      |d.section1| <= per && |d.section2| <= per && |d.section3| <= per &&
      (|chosen| == 3 * per ==> |d.section1| == per && |d.section2| == per && |d.section3| == per) &&
      NumberedFromOne(d.section1) && NumberedFromOne(d.section2) && NumberedFromOne(d.section3) &&
      d.cursor == Cursor(1, 0, if chosen == [] then None else Some(chosen[0].paperId)) &&
      d.progress == InitialProgress(NotStarted) && d.isActive && d.userId == userId && d.subject == subject
  {
    var d := PaperSession(newId, userId, subject, chosen, per);
    var a, b, c := Slice(chosen, 0, per), Slice(chosen, per, 2 * per), Slice(chosen, 2 * per, 3 * per);
    SlicesCover(chosen, per);
    var all := AllEntries(d);
    forall k | 0 <= k < |all|
      ensures all[k].questionId == chosen[k].paperId && all[k].paperQuestionIndex == Some(chosen[k].idx)
    {
      if k < |a| {
        assert all[k] == PaperEntries(a)[k] && chosen[k] == a[k];
      } else if k < |a| + |b| {
        assert all[k] == PaperEntries(b)[k - |a|] && chosen[k] == b[k - |a|];
      } else {
        assert all[k] == PaperEntries(c)[k - |a| - |b|] && chosen[k] == c[k - |a| - |b|];
      }
    }
  }

  /** Every chosen item comes from the pool. */
  lemma ChosenFromPool(pool: seq<PoolItem>, rolls: seq<real>, target: nat)
    requires EnoughRolls(rolls, |pool|)
    ensures forall it :: it in Take(Shuffled(pool, rolls), target) ==> it in pool
  {
    ShuffledIsPermutation(pool, rolls);
    var shuffled := Shuffled(pool, rolls);
    forall it | it in Take(shuffled, target) ensures it in pool {
      assert it in multiset(shuffled);
    }
  }

  /** With `includeAttempted` only items the user's history holds are candidates. */
  lemma CandidatesWereAttempted(papers: seq<Paper>, req: GenerateRequest, store: seq<SessionDoc>)
    requires req.includeAttempted
    ensures forall it :: it in Candidates(papers, req, store) ==>
      (it.paperId, Some(it.idx)) in AttemptedKeys(store, req.userId, req.subject)
  {
  }

  /**
   * A generated session is the session over the first `3 * perSection` items of the
   * shuffled pool (all of it when the pool is smaller), appended to the collection; its
   * entries name items of the pool, and with `includeAttempted` items of the history.
   */
  lemma GeneratedSessionShape(req: GenerateRequest, papers: seq<Paper>,
                              rolls: seq<real>, store: seq<SessionDoc>, newId: Id)
    requires EnoughRolls(rolls, |Candidates(papers, req, store)|)
    requires GeneratePreviousYear(req, papers, rolls, store, newId).0.Generated?
    ensures var out := GeneratePreviousYear(req, papers, rolls, store, newId);
      var pool := Candidates(papers, req, store);
      var per := PerSection(req.totalQuestions.GetOr(10));
      var chosen := Take(Shuffled(pool, rolls), 3 * per);
      |out.1| == |store| + 1 &&
      out.1[|store|] == PaperSession(newId, req.userId, req.subject, chosen, per) &&
      |chosen| == (if |pool| < 3 * per then |pool| else 3 * per) &&
      (forall it :: it in chosen ==> it in pool) &&
      (req.includeAttempted ==> forall it :: it in chosen ==> (it.paperId, Some(it.idx)) in AttemptedKeys(store, req.userId, req.subject)) &&
      out.0 == Generated(newId, per, 3 * per)
  {
    var pool := Candidates(papers, req, store);
    var per := PerSection(req.totalQuestions.GetOr(10));
    ShuffledIsPermutation(pool, rolls);
    ChosenFromPool(pool, rolls, 3 * per);
    if req.includeAttempted {
      CandidatesWereAttempted(papers, req, store);
    }
  }

  /**
   * Generating deactivates every active session of the user on that subject, leaves every
   * other session as it was and adds the new session, active, at the end; so there is never
   * more than one active session per user and subject. An empty pool changes nothing.
   */
  lemma GenerateReplacesActiveSession(req: GenerateRequest, papers: seq<Paper>,
                                      rolls: seq<real>, store: seq<SessionDoc>, newId: Id)
    requires EnoughRolls(rolls, |Candidates(papers, req, store)|)
    ensures var out := GeneratePreviousYear(req, papers, rolls, store, newId);
      out.0.Generated? ==>
        out.1[..|store|] == DeactivateFor(store, req.userId, req.subject) &&
        (forall i :: 0 <= i < |store| ==> !ActiveFor(out.1[i], req.userId, req.subject)) &&
        (forall i :: 0 <= i < |store| && !ActiveFor(store[i], req.userId, req.subject) ==> out.1[i] == store[i]) &&
        ActiveFor(out.1[|store|], req.userId, req.subject)
    ensures var out := GeneratePreviousYear(req, papers, rolls, store, newId);
      !out.0.Generated? ==> out.1 == store
    ensures var out := GeneratePreviousYear(req, papers, rolls, store, newId);
      out.0 == NoMatch <==>
        req.userId != "" && req.subject != "" &&
        Candidates(papers, req, store) == []
    ensures AtMostOneActive(store) ==>
      AtMostOneActive(GeneratePreviousYear(req, papers, rolls, store, newId).1)
  {
    DeactivateClearsActive(store, req.userId, req.subject);
    var out := GeneratePreviousYear(req, papers, rolls, store, newId);
    if out.0.Generated? {
      var d := out.1[|store|];
      assert out.1 == DeactivateFor(store, d.userId, d.subject) + [d];
      if AtMostOneActive(store) {
        DeactivateThenAddKeepsOneActive(store, d);
      }
    }
  }

  // ----- checkPreviousYearAnswer -----

  /**
   * `checkPreviousYearAnswer`: the reply and the document saved. `paper` is the paper found
   * by id, `found` the user's active session; the entry must name the paper and the index,
   * and the cursor records the entry's `questionId` (the paper id).
   */
  function AnswerPreviousYear(userId: Id, paperId: Id, paperQuestionIndex: Option<int>, userAnswer: string,
                              paper: Option<Paper>, found: Option<SessionDoc>, now: int)
    : (AnswerReply, Option<SessionDoc>)
  {
    if userId == "" || paperId == "" || paperQuestionIndex.None? || userAnswer == "" then (MissingFields, None)
    else if paper.None? then (PaperNotFound, None)
    else
      var k := paperQuestionIndex.value;
      if !(0 <= k < |paper.value.questions|) then (QuestionNotFound, None)
      else
        var pq := paper.value.questions[k];
        var isCorrect := AnswersMatch(pq.correctAnswer, userAnswer);
        if found.None? then (SessionNotFound, None)
        else
          match ThreeSectionStep(found.value, HasPaperQuestion(paperId, k), isCorrect, now, EntryQuestionId)
          case None => (NotInSession, None)
          case Some(d) =>
            (Checked(isCorrect, if isCorrect then None else Some(pq.correctAnswer), d.progress, d.cursor), Some(d))
  }

  /** The cursor of a previous-year session names the entry's `questionId`. */
  function EntryQuestionId(e: Entry): Id {
    e.questionId
  }

  /**
   * The answer is judged against question `k` of the whole paper; an index outside the
   * paper is a 404 before any session is read; the entry must match both paper and index;
   * and the correct answer is disclosed exactly when the answer is wrong.
   */
  lemma AnswerPreviousYearReplies(userId: Id, paperId: Id, paperQuestionIndex: Option<int>, userAnswer: string,
                                  paper: Option<Paper>, found: Option<SessionDoc>, now: int)
    ensures var (reply, saved) := AnswerPreviousYear(userId, paperId, paperQuestionIndex, userAnswer, paper, found, now);
      (reply == MissingFields <==>
        userId == "" || paperId == "" || paperQuestionIndex.None? || userAnswer == "") &&
      (saved.Some? <==> reply.Checked?) &&
      (reply.Checked? ==>
        paper.Some? && found.Some? && paperQuestionIndex.Some? &&
        0 <= paperQuestionIndex.value < |paper.value.questions| &&
        var pq := paper.value.questions[paperQuestionIndex.value];
        reply.isCorrect == AnswersMatch(pq.correctAnswer, userAnswer) &&
        (reply.correctAnswer.None? <==> reply.isCorrect) &&
        (!reply.isCorrect ==> reply.correctAnswer == Some(pq.correctAnswer)) &&
        saved == ThreeSectionStep(found.value, HasPaperQuestion(paperId, paperQuestionIndex.value),
                                  reply.isCorrect, now, EntryQuestionId))
  {
  }

  /** "Not in session" means that no entry of the session names that paper and that index. */
  lemma AnswerPreviousYearNotInSession(userId: Id, paperId: Id, k: int, userAnswer: string,
                                       paper: Paper, found: SessionDoc, now: int)
    requires AnswerPreviousYear(userId, paperId, Some(k), userAnswer, Some(paper), Some(found), now).0 == NotInSession
    ensures forall j :: 0 <= j < |AllEntries(found)| ==>
      !(AllEntries(found)[j].questionId == paperId && AllEntries(found)[j].paperQuestionIndex == Some(k))
  {
    var m := HasPaperQuestion(paperId, k);
    StepFailsIffNoMatch(found, m, AnswersMatch(paper.questions[k].correctAnswer, userAnswer), now, EntryQuestionId);
    forall j | 0 <= j < |AllEntries(found)|
      ensures !(AllEntries(found)[j].questionId == paperId && AllEntries(found)[j].paperQuestionIndex == Some(k))
    {
      assert !m(AllEntries(found)[j]);
    }
  }

  /** The handler on the loaded session object (`null` when none was found). */
  method CheckPreviousYearAnswer(userId: Id, paperId: Id, paperQuestionIndex: Option<int>, userAnswer: string,
                                 paper: Option<Paper>, session: Session?, now: int) returns (reply: AnswerReply)
    modifies session
    ensures session != null ==>
      AnswerPreviousYear(userId, paperId, paperQuestionIndex, userAnswer, paper, Some(old(session.Doc())), now) ==
        (reply, if reply.Checked? then Some(session.Doc()) else None)
    ensures session != null && !reply.Checked? ==> session.Doc() == old(session.Doc())
    ensures session == null ==>
      AnswerPreviousYear(userId, paperId, paperQuestionIndex, userAnswer, paper, None, now) == (reply, None)
  {
    if userId == "" || paperId == "" || paperQuestionIndex.None? || userAnswer == "" {
      return MissingFields;
    }
    if paper.None? {
      return PaperNotFound;
    }
    var k := paperQuestionIndex.value;
    if !(0 <= k < |paper.value.questions|) {
      return QuestionNotFound;
    }
    var pq := paper.value.questions[k];
    var isCorrect := NormalizeAnswer(pq.correctAnswer) == NormalizeAnswer(userAnswer);
    if session == null {
      return SessionNotFound;
    }
    var ok := session.RecordAnswer(HasPaperQuestion(paperId, k), isCorrect, now, EntryQuestionId);
    if !ok {
      return NotInSession;
    }
    reply := Checked(isCorrect, if isCorrect then None else Some(pq.correctAnswer), session.progress, session.cursor);
  }
}
