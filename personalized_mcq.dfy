/**
 * The personalised practice session: the requested count is split by weights between
 * topic, previous-year, attempted and random questions, each source is fetched and
 * truncated, the result is de-duplicated by id and shuffled, and a three-section session
 * replaces every active personalised session of the user.
 *
 * What the database returns is an input: the `$sample` of topic and random questions
 * (already filtered by subject, difficulty and excluded ids), the matching previous-year
 * papers with their question counts, the user's random-question sessions, the question
 * lists of the user's active flag sessions, and the question bank in its natural order.
 */
module PersonalizedMcq {
  import opened Wrappers
  import opened Collections
  import opened Text
  import opened Shuffle
  import opened SessionModel

  // ----- validation and distribution -----

  /** The share of each source; the `random` weight of the request is never read. */
  datatype Weights = Weights(topics: real, previousYear: real, attempted: real)

  const DefaultWeights := Weights(0.4, 0.3, 0.2)

  datatype Distribution = Distribution(topics: int, previousYear: int, attempted: int, random: int)

  /** `Math.floor(total * weight)`. */
  function Share(total: int, weight: real): int {
    (total as real * weight).Floor
  }

  /** Three floors of weighted shares; the random count is what is left. */
  function Distribute(total: int, w: Weights): (d: Distribution)
    ensures d.topics + d.previousYear + d.attempted + d.random == total
  {
    var t := Share(total, w.topics);
    var p := Share(total, w.previousYear);
    var a := Share(total, w.attempted);
    Distribution(t, p, a, total - t - p - a)
  }

  /** Every count lies between 0 and the total. */
  predicate WithinTotal(d: Distribution, total: int) {
    0 <= d.topics <= total && 0 <= d.previousYear <= total && 0 <= d.attempted <= total &&
    0 <= d.random <= total
  }

  /** With weights between 0 and 1 that sum to at most 1, every count lies between 0 and the total. */
  lemma DistributionBounds(total: int, w: Weights)
    requires total >= 0
    requires 0.0 <= w.topics && 0.0 <= w.previousYear && 0.0 <= w.attempted
    requires w.topics + w.previousYear + w.attempted <= 1.0
    ensures WithinTotal(Distribute(total, w), total)
  {
    ShareBounds(total, w.topics, w.previousYear, w.attempted);
  }

  /** Shares by non-negative weights summing to at most 1 are non-negative and sum to at most the total. */
  lemma ShareBounds(total: int, x: real, y: real, z: real)
    requires total >= 0 && 0.0 <= x && 0.0 <= y && 0.0 <= z && x + y + z <= 1.0
    ensures 0 <= Share(total, x) && 0 <= Share(total, y) && 0 <= Share(total, z)
    ensures Share(total, x) + Share(total, y) + Share(total, z) <= total
  {
    var T := total as real;
    assert 0.0 <= T * x && 0.0 <= T * y && 0.0 <= T * z;
    assert T * x + T * y + T * z <= T by {
      assert T * x + T * y + T * z == T * (x + y + z);
      assert T * (1.0 - (x + y + z)) >= 0.0;
    }
  }

  /** Each weighted count is at most its weight times the total: shares are rounded down. */
  lemma DistributionRoundsDown(total: int, w: Weights)
    ensures var d := Distribute(total, w);
      d.topics as real <= total as real * w.topics &&
      d.previousYear as real <= total as real * w.previousYear &&
      d.attempted as real <= total as real * w.attempted
  {
  }

  /** With the default weights at least one random question is asked for; 30 splits 12/9/6/3. */
  lemma DefaultDistribution(total: int)
    requires 1 <= total
    ensures Distribute(total, DefaultWeights).random >= 1
    ensures Distribute(30, DefaultWeights) == Distribution(12, 9, 6, 3)
  {
    var T := total as real;
    var d := Distribute(total, DefaultWeights);
    DistributionRoundsDown(total, DefaultWeights);
    assert (d.topics + d.previousYear + d.attempted) as real <= T * 0.9;
    assert Share(30, 0.4) == 12 && Share(30, 0.3) == 9 && Share(30, 0.2) == 6;
  }

  // ----- the fetched questions -----

  datatype Source = FromTopics | FromPreviousYear | FromAttempted | FromRandom

  datatype Candidate = Candidate(id: Id, source: Source)

  function CandidateId(c: Candidate): Id {
    c.id
  }

  function Tagged(ids: seq<Id>, source: Source): (r: seq<Candidate>)
    ensures |r| == |ids| && forall i :: 0 <= i < |ids| ==> r[i] == Candidate(ids[i], source)
  {
    seq(|ids|, i requires 0 <= i < |ids| => Candidate(ids[i], source))
  }

  /** `fetchTopicQuestions` / `fetchRandomQuestions`: the sample cut to `count`. */
  function FetchSampled(sample: seq<Id>, source: Source, count: nat): (r: seq<Candidate>)
    ensures |r| <= count && |r| <= |sample|
    ensures forall i :: 0 <= i < |r| ==> r[i] == Candidate(sample[i], source)
  {
    Tagged(Take(sample, count), source)
  }

  datatype PaperRef = PaperRef(id: Id, questionCount: nat)

  /** `${paper._id}_${index}`. */
  function PaperQuestionId(paperId: Id, index: nat): Id {
    paperId + "_" + Decimal(index)
  }

  function PaperItems(p: PaperRef): (r: seq<Candidate>)
    ensures |r| == p.questionCount
    ensures forall k :: 0 <= k < |r| ==> r[k] == Candidate(PaperQuestionId(p.id, k), FromPreviousYear)
  {
    seq(p.questionCount, k requires 0 <= k < p.questionCount => Candidate(PaperQuestionId(p.id, k), FromPreviousYear))
  }

  /** Every question of every paper, paper after paper. */
  function PaperCandidates(papers: seq<PaperRef>): seq<Candidate>
    decreases |papers|
  {
    if papers == [] then []
    else PaperCandidates(papers[..|papers| - 1]) + PaperItems(papers[|papers| - 1])
  }

  lemma TakeAppendOne<T>(s: seq<T>, x: T, n: nat)
    ensures Take(s + [x], n) == if |Take(s, n)| < n then Take(s, n) + [x] else Take(s, n)
  {
    if n <= |s| {
      assert (s + [x])[..n] == s[..n];
    }
  }

  lemma TakeTwice<T>(s: seq<T>, n: nat)
    ensures Take(Take(s, n), n) == Take(s, n)
  {
  }

  /**
   * `fetchPreviousYearQuestions`: questions are pushed paper by paper while fewer than
   * `count` are held, then cut to `count`: the first `count` questions of the papers, with
   * ids `${paper._id}_${index}`.
   */
  method FetchPreviousYear(papers: seq<PaperRef>, count: nat) returns (qs: seq<Candidate>)
    ensures qs == Take(PaperCandidates(papers), count)
  {
    qs := [];
    for p := 0 to |papers|
      invariant qs == Take(PaperCandidates(papers[..p]), count)
    {
      qs := PushPaper(qs, PaperCandidates(papers[..p]), papers[p], count);
      assert papers[..p + 1][..p] == papers[..p];
    }
    assert papers[..|papers|] == papers;
    TakeTwice(PaperCandidates(papers), count);
    qs := Take(qs, count);
  }

  /** The inner `forEach` over one paper's questions. */
  method PushPaper(qs0: seq<Candidate>, ghost before: seq<Candidate>, paper: PaperRef, count: nat)
    returns (qs: seq<Candidate>)
    requires qs0 == Take(before, count)
    ensures qs == Take(before + PaperItems(paper), count)
  {
    qs := qs0;
    ghost var items := PaperItems(paper);
    for index := 0 to paper.questionCount
      invariant qs == Take(before + items[..index], count)
    {
      var c := Candidate(PaperQuestionId(paper.id, index), FromPreviousYear);
      ghost var prefix := before + items[..index];
      assert items[index] == c;
      assert before + items[..index + 1] == prefix + [c];
      TakeAppendOne(prefix, c, count);
      if |qs| < count {
        qs := qs + [c];
      }
    }
    assert items[..paper.questionCount] == items;
  }

  datatype AttemptedFilter = AttemptedFilter(correct: bool, incorrect: bool, flagged: bool)

  /** The question ids of the entries in `s` with status `st`, in order. */
  function IdsWithStatus(s: seq<Entry>, st: EntryStatus): seq<Id>
    decreases |s|
  {
    if s == [] then []
    else IdsWithStatus(s[..|s| - 1], st) + (if s[|s| - 1].status == st then [s[|s| - 1].questionId] else [])
  }

  /** The same over all sections of all given sessions. */
  function StatusIds(sessions: seq<SessionDoc>, st: EntryStatus): seq<Id>
    decreases |sessions|
  {
    if sessions == [] then []
    else StatusIds(sessions[..|sessions| - 1], st) + IdsWithStatus(AllEntries(sessions[|sessions| - 1]), st)
  }

  /** The nested `forEach` that pushes the ids of the entries with a given status. */
  method CollectWithStatus(sessions: seq<SessionDoc>, st: EntryStatus) returns (ids: seq<Id>)
    ensures ids == StatusIds(sessions, st)
  {
    ids := [];
    for s := 0 to |sessions|
      invariant ids == StatusIds(sessions[..s], st)
    {
      ids := PushWithStatus(ids, AllEntries(sessions[s]), st);
      assert sessions[..s + 1][..s] == sessions[..s];
    }
    assert sessions[..|sessions|] == sessions;
  }

  /** The inner `forEach` over one session's entries. */
  method PushWithStatus(ids0: seq<Id>, entries: seq<Entry>, st: EntryStatus) returns (ids: seq<Id>)
    ensures ids == ids0 + IdsWithStatus(entries, st)
  {
    ids := ids0;
    for k := 0 to |entries|
      invariant ids == ids0 + IdsWithStatus(entries[..k], st)
    {
      if entries[k].status == st {
        ids := ids + [entries[k].questionId];
      }
      assert entries[..k + 1][..k] == entries[..k];
    }
    assert entries[..|entries|] == entries;
  }

  lemma {:induction false} IdsWithStatusSound(s: seq<Entry>, st: EntryStatus)
    ensures forall x :: x in IdsWithStatus(s, st) ==> exists k :: 0 <= k < |s| && s[k].status == st && s[k].questionId == x
    decreases |s|
  {
    if s != [] {
      var init := s[..|s| - 1];
      IdsWithStatusSound(init, st);
      assert forall k :: 0 <= k < |init| ==> init[k] == s[k];
    }
  }

  lemma {:induction false} StatusIdsSound(sessions: seq<SessionDoc>, st: EntryStatus)
    ensures forall x :: x in StatusIds(sessions, st) ==>
      exists i, k :: 0 <= i < |sessions| && 0 <= k < |AllEntries(sessions[i])| &&
        AllEntries(sessions[i])[k].status == st && AllEntries(sessions[i])[k].questionId == x
    decreases |sessions|
  {
    if sessions != [] {
      var init := sessions[..|sessions| - 1];
      StatusIdsSound(init, st);
      IdsWithStatusSound(AllEntries(sessions[|sessions| - 1]), st);
      assert forall i :: 0 <= i < |init| ==> init[i] == sessions[i];
    }
  }

  /** The user's finished random-question sessions on the subject. */
  function InactiveSessions(history: seq<SessionDoc>, userId: Id, subject: string): (r: seq<SessionDoc>)
    ensures forall d :: d in r ==> d in history && d.userId == userId && d.subject == subject && !d.isActive
  {
    if history == [] then []
    else
      var d := history[0];
      (if d.userId == userId && d.subject == subject && !d.isActive then [d] else []) +
        InactiveSessions(history[1..], userId, subject)
  }

  function Flatten(lists: seq<seq<Id>>): seq<Id> {
    if lists == [] then [] else lists[0] + Flatten(lists[1..])
  }

  /** The ids `fetchAttemptedQuestions` collects before de-duplication. */
  function AttemptedIds(history: seq<SessionDoc>, flagged: seq<seq<Id>>, userId: Id, subject: string,
                        filter: AttemptedFilter): seq<Id>
  {
    var done := InactiveSessions(history, userId, subject);
    (if filter.correct then StatusIds(done, Correct) else []) +
    (if filter.incorrect then StatusIds(done, Incorrect) else []) +
    (if filter.flagged then Flatten(flagged) else [])
  }

  /** `find({ _id: { $in: ids } })`: the bank's questions among `ids`, in the bank's order. */
  function AmongIds(bank: seq<Id>, ids: seq<Id>): (r: seq<Id>)
    ensures |r| <= |bank| && forall x :: x in r ==> x in bank && x in ids
  {
    if bank == [] then []
    else (if bank[0] in ids then [bank[0]] else []) + AmongIds(bank[1..], ids)
  }

  /** `fetchAttemptedQuestions`, with `.limit(count)`. */
  function FetchAttempted(history: seq<SessionDoc>, flagged: seq<seq<Id>>, bank: seq<Id>, userId: Id,
                          subject: string, filter: AttemptedFilter, count: nat): seq<Candidate>
  {
    var ids := Dedupe(AttemptedIds(history, flagged, userId, subject, filter));
    if ids == [] then [] else Tagged(Take(AmongIds(bank, ids), count), FromAttempted)
  }

  /** Some finished session of the user on the subject has an entry for `x` with status `st`. */
  ghost predicate AnsweredWith(history: seq<SessionDoc>, userId: Id, subject: string, st: EntryStatus, x: Id) {
    exists d, k :: d in history && d.userId == userId && d.subject == subject && !d.isActive &&
      0 <= k < |AllEntries(d)| && AllEntries(d)[k].status == st && AllEntries(d)[k].questionId == x
  }

  /**
   * At most `count` questions come back, each a bank question that the user answered
   * correctly (or incorrectly) in a finished session on the subject, or flagged, as the
   * filter asks.
   */
  lemma FetchAttemptedSound(history: seq<SessionDoc>, flagged: seq<seq<Id>>, bank: seq<Id>, userId: Id,
                            subject: string, filter: AttemptedFilter, count: nat)
    ensures var r := FetchAttempted(history, flagged, bank, userId, subject, filter, count);
      |r| <= count &&
      forall c :: c in r ==>
        c.source == FromAttempted && c.id in bank && c.id in AttemptedIds(history, flagged, userId, subject, filter)
    ensures forall x :: x in AttemptedIds(history, flagged, userId, subject, filter) ==>
      (filter.flagged && x in Flatten(flagged)) ||
      (filter.correct && AnsweredWith(history, userId, subject, Correct, x)) ||
      (filter.incorrect && AnsweredWith(history, userId, subject, Incorrect, x))
  {
    var all := AttemptedIds(history, flagged, userId, subject, filter);
    DedupeMembers(all);
    var ids := Dedupe(all);
    if ids != [] {
      var r := FetchAttempted(history, flagged, bank, userId, subject, filter, count);
      forall c | c in r
        ensures c.source == FromAttempted && c.id in bank && c.id in all
      {
        var i :| 0 <= i < |r| && r[i] == c;
        assert c.id in AmongIds(bank, ids);
      }
    }
    var done := InactiveSessions(history, userId, subject);
    StatusIdsSound(done, Correct);
    StatusIdsSound(done, Incorrect);
  }

  // ----- generatePersonalizedMcq -----

  datatype PersonalRequest = PersonalRequest(
    userId: Id, subject: string,
    selectedTopics: seq<string>,
    includePreviousYear: bool, previousYearYears: seq<int>,
    includeAttempted: bool, filter: AttemptedFilter,
    totalQuestions: int, weights: Weights)

  datatype Sources = Sources(
    topicSample: seq<Id>, papers: seq<PaperRef>, history: seq<SessionDoc>,
    flagged: seq<seq<Id>>, bank: seq<Id>, randomSample: seq<Id>)

  /** The questions gathered from the four sources, in source order. */
  function Gathered(req: PersonalRequest, src: Sources): seq<Candidate> {
    var d := Distribute(req.totalQuestions, req.weights);
    (if |req.selectedTopics| > 0 && d.topics > 0 then FetchSampled(src.topicSample, FromTopics, d.topics) else []) +
    (if req.includePreviousYear && |req.previousYearYears| > 0 && d.previousYear > 0
     then Take(PaperCandidates(src.papers), d.previousYear) else []) +
    (if req.includeAttempted && d.attempted > 0
     then FetchAttempted(src.history, src.flagged, src.bank, req.userId, req.subject, req.filter, d.attempted)
     else []) +
    (if d.random > 0 then FetchSampled(src.randomSample, FromRandom, d.random) else [])
  }

  /** `removeDuplicates`: the first question of every id, in order. */
  function Unique(req: PersonalRequest, src: Sources): seq<Candidate> {
    DedupeBy(Gathered(req, src), CandidateId)
  }

  /** The filter with a `seen` set. */
  method RemoveDuplicates(qs: seq<Candidate>) returns (r: seq<Candidate>)
    ensures r == DedupeBy(qs, CandidateId)
  {
    var seen: set<Id> := {};
    r := [];
    for i := 0 to |qs|
      invariant r == DedupeBy(qs[..i], CandidateId)
      invariant seen == KeySet(qs[..i], CandidateId)
    {
      assert qs[..i + 1][..i] == qs[..i];
      KeySetAppend(qs[..i], [qs[i]], CandidateId);
      assert qs[..i + 1] == qs[..i] + [qs[i]];
      var id := qs[i].id;
      if id !in seen {
        seen := seen + {id};
        r := r + [qs[i]];
      }
      assert KeySet([qs[i]], CandidateId) == {id};
    }
    assert qs[..|qs|] == qs;
  }

  function Ids(qs: seq<Candidate>): (r: seq<Id>)
    ensures |r| == |qs| && forall i :: 0 <= i < |qs| ==> r[i] == qs[i].id
  {
    seq(|qs|, i requires 0 <= i < |qs| => qs[i].id)
  }

  /** `Math.ceil(n / 3)` and `Math.ceil(n * 2 / 3)`. */
  function FirstCut(n: nat): nat { (n + 2) / 3 }
  function SecondCut(n: nat): nat { (2 * n + 2) / 3 }

  /** The three sections split at the two cuts, numbered across the whole session. */
  function PersonalSession(newId: Id, userId: Id, subject: string, ids: seq<Id>): SessionDoc {
    var n := |ids|;
    var a, b := FirstCut(n), SecondCut(n);
    assert a <= b <= n;
    SessionDoc(newId, userId, subject, "", "",
      Numbered(ids[..a], 1), Numbered(ids[a..b], a + 1), Numbered(ids[b..], b + 1),
      Cursor(1, 0, if n > 0 then Some(ids[0]) else None),
      InitialProgress(NotStarted), true)
  }

  datatype PersonalOutcome =
    | PersonalMissingFields                                    // 400
    | CountOutOfRange                                          // 400
    | PersonalGenerated(sessionId: Id, questions: seq<Candidate>) // 200

  /**
   * `generatePersonalizedMcq` with `createPersonalizedSession`: the outcome and the
   * personalised-session collection afterwards.
   */
  function GeneratePersonalized(req: PersonalRequest, src: Sources, rolls: seq<real>,
                                store: seq<SessionDoc>, newId: Id): (PersonalOutcome, seq<SessionDoc>)
    requires EnoughRolls(rolls, |Unique(req, src)|)
  {
    if req.userId == "" || req.subject == "" then (PersonalMissingFields, store)
    else if req.totalQuestions < 1 || req.totalQuestions > 100 then (CountOutOfRange, store)
    else
      var shuffled := Shuffled(Unique(req, src), rolls);
      var d := PersonalSession(newId, req.userId, req.subject, Ids(shuffled));
      (PersonalGenerated(newId, shuffled),
       DeactivateWhere(store, x => ActiveOfUser(x, req.userId)) + [d])
  }

  /**
   * The request is refused unless both ids are present and `1 <= totalQuestions <= 100`,
   * and a refused request changes nothing.
   */
  lemma PersonalValidation(req: PersonalRequest, src: Sources, rolls: seq<real>, store: seq<SessionDoc>, newId: Id)
    requires EnoughRolls(rolls, |Unique(req, src)|)
    ensures var (out, after) := GeneratePersonalized(req, src, rolls, store, newId);
      (out.PersonalGenerated? <==> req.userId != "" && req.subject != "" && 1 <= req.totalQuestions <= 100) &&
      (out == PersonalMissingFields <==> req.userId == "" || req.subject == "") &&
      (!out.PersonalGenerated? ==> after == store)
  {
  }

  /**
   * Together the three sections are the question list in order, numbered 1..n across the
   * session, and every entry is pending.
   */
  lemma PersonalSessionEntries(newId: Id, userId: Id, subject: string, ids: seq<Id>)
    ensures QuestionIds(AllEntries(PersonalSession(newId, userId, subject, ids))) == ids
    ensures var all := AllEntries(PersonalSession(newId, userId, subject, ids));
      forall k :: 0 <= k < |all| ==> all[k].number == k + 1 && IsFreshEntry(all[k])
  {
    PersonalSessionNumbered(newId, userId, subject, ids);
    QuestionIdsOfNumbered(ids, 1);
  }

  lemma PersonalSessionNumbered(newId: Id, userId: Id, subject: string, ids: seq<Id>)
    ensures AllEntries(PersonalSession(newId, userId, subject, ids)) == Numbered(ids, 1)
  {
    var n := |ids|;
    var a, b := FirstCut(n), SecondCut(n);
    CutSizes(n);
    var d := PersonalSession(newId, userId, subject, ids);
    assert d.section1 == Numbered(ids[..a], 1);
    assert d.section2 == Numbered(ids[a..b], a + 1);
    assert d.section3 == Numbered(ids[b..], b + 1);
    SplitNumbering(ids, a, b);
  }

  /**
   * The sections split the list at `ceil(n/3)` and `ceil(2n/3)`, so their sizes never
   * differ by more than one; the cursor is on the first question of the first section.
   */
  lemma PersonalSessionLayout(newId: Id, userId: Id, subject: string, ids: seq<Id>)
    ensures var d := PersonalSession(newId, userId, subject, ids);
      |d.section1| == FirstCut(|ids|) && |d.section1| + |d.section2| == SecondCut(|ids|) &&
      |d.section3| <= |d.section2| <= |d.section1| <= |d.section3| + 1
    ensures var d := PersonalSession(newId, userId, subject, ids);
      d.cursor == Cursor(1, 0, if ids == [] then None else Some(ids[0])) &&
      d.progress == InitialProgress(NotStarted) && d.isActive
  {
    CutSizes(|ids|);
  }

  /** The cuts are ordered, and the three parts they make differ in size by at most one. */
  lemma CutSizes(n: nat)
    ensures FirstCut(n) <= SecondCut(n) <= n
    ensures n - SecondCut(n) <= SecondCut(n) - FirstCut(n) <= FirstCut(n) <= n - SecondCut(n) + 1
  {
    var q, r := n / 3, n % 3;
    assert n == 3 * q + r;
    if r == 0 {
      assert FirstCut(n) == q && SecondCut(n) == 2 * q;
    } else if r == 1 {
      assert FirstCut(n) == q + 1 && SecondCut(n) == 2 * q + 1;
    } else {
      assert FirstCut(n) == q + 1 && SecondCut(n) == 2 * q + 2;
    }
  }

  /** Numbering three consecutive parts from where the previous part ended numbers the whole list. */
  lemma SplitNumbering(ids: seq<Id>, a: nat, b: nat)
    requires a <= b <= |ids|
    ensures Numbered(ids[..a], 1) + Numbered(ids[a..b], a + 1) + Numbered(ids[b..], b + 1) == Numbered(ids, 1)
  {
    var all := Numbered(ids[..a], 1) + Numbered(ids[a..b], a + 1) + Numbered(ids[b..], b + 1);
    forall k | 0 <= k < |ids| ensures all[k] == Numbered(ids, 1)[k] {
      if k < a {
        assert all[k] == Numbered(ids[..a], 1)[k];
      } else if k < b {
        assert all[k] == Numbered(ids[a..b], a + 1)[k - a];
      } else {
        assert all[k] == Numbered(ids[b..], b + 1)[k - b];
      }
    }
  }

  /** The weights of a request are between 0 and 1 and sum to at most 1. */
  predicate SaneWeights(w: Weights) {
    0.0 <= w.topics && 0.0 <= w.previousYear && 0.0 <= w.attempted &&
    w.topics + w.previousYear + w.attempted <= 1.0
  }

  /** Each source contributes at most its share, so no more than the total is gathered. */
  lemma GatheredAtMost(req: PersonalRequest, src: Sources)
    requires 0 <= req.totalQuestions && SaneWeights(req.weights)
    ensures |Gathered(req, src)| <= req.totalQuestions
  {
    var d := Distribute(req.totalQuestions, req.weights);
    DistributionBounds(req.totalQuestions, req.weights);
    if req.includeAttempted && d.attempted > 0 {
      FetchAttemptedSound(src.history, src.flagged, src.bank, req.userId, req.subject, req.filter, d.attempted);
    }
  }

  /** The session holds every gathered id exactly once, in shuffled order. */
  lemma PersonalQuestions(req: PersonalRequest, src: Sources, rolls: seq<real>)
    requires EnoughRolls(rolls, |Unique(req, src)|)
    ensures var shuffled := Shuffled(Unique(req, src), rolls);
      (forall x :: x in Ids(shuffled) <==> x in Ids(Gathered(req, src))) &&
      (forall i, j :: 0 <= i < j < |shuffled| ==> shuffled[i].id != shuffled[j].id)
  {
    ShuffledDedupe(Gathered(req, src), rolls);
  }

  /** Shuffling the de-duplicated list keeps every id of the list, each once. */
  lemma ShuffledDedupe(g: seq<Candidate>, rolls: seq<real>)
    requires EnoughRolls(rolls, |DedupeBy(g, CandidateId)|)
    ensures var shuffled := Shuffled(DedupeBy(g, CandidateId), rolls);
      (forall x :: x in Ids(shuffled) <==> x in Ids(g)) &&
      (forall i, j :: 0 <= i < j < |shuffled| ==> shuffled[i].id != shuffled[j].id)
  {
    var u := DedupeBy(g, CandidateId);
    var shuffled := Shuffled(u, rolls);
    DedupeKeys(g, CandidateId);
    ShuffledIsPermutation(u, rolls);
    forall x | x in Ids(shuffled) ensures x in Ids(g) {
      var i :| 0 <= i < |shuffled| && shuffled[i].id == x;
      assert shuffled[i] in multiset(u);
      var j :| 0 <= j < |u| && u[j] == shuffled[i];
      assert x in KeySet(u, CandidateId);
      var k :| 0 <= k < |g| && CandidateId(g[k]) == x;
      assert Ids(g)[k] == x;
    }
    forall x | x in Ids(g) ensures x in Ids(shuffled) {
      var k :| 0 <= k < |g| && g[k].id == x;
      assert CandidateId(g[k]) == x;
      assert x in KeySet(u, CandidateId);
      var j :| 0 <= j < |u| && CandidateId(u[j]) == x;
      assert u[j] in multiset(shuffled);
      var i :| 0 <= i < |shuffled| && shuffled[i] == u[j];
      assert Ids(shuffled)[i] == x;
    }
    UniqueAfterShuffle(u, rolls);
  }

  /** With sane weights the session never holds more questions than were asked for. */
  lemma PersonalQuestionCount(req: PersonalRequest, src: Sources, rolls: seq<real>)
    requires EnoughRolls(rolls, |Unique(req, src)|)
    requires 1 <= req.totalQuestions && SaneWeights(req.weights)
    ensures |Shuffled(Unique(req, src), rolls)| <= req.totalQuestions
  {
    ShuffledIsPermutation(Unique(req, src), rolls);
    DedupeKeys(Gathered(req, src), CandidateId);
    GatheredAtMost(req, src);
  }

  /** A shuffle of a list without repeated ids has no repeated ids. */
  lemma UniqueAfterShuffle(u: seq<Candidate>, rolls: seq<real>)
    requires EnoughRolls(rolls, |u|) && UniqueKeys(u, CandidateId)
    ensures var s := Shuffled(u, rolls); forall i, j :: 0 <= i < j < |s| ==> s[i].id != s[j].id
  {
    var s := Shuffled(u, rolls);
    ShuffledIsPermutation(u, rolls);
    forall i, j | 0 <= i < j < |s| ensures s[i].id != s[j].id {
      if s[i].id == s[j].id {
        SameIdSameCandidate(u, s[i], s[j]);
        assert s[i] == s[j];
        assert multiset(s)[s[i]] >= 2 by {
          assert s == s[..i] + [s[i]] + s[i + 1..j] + [s[j]] + s[j + 1..];
        }
        CountOfUnique(u, s[i]);
      }
    }
  }

  /** In a list without repeated ids, two members with one id are one member. */
  lemma SameIdSameCandidate(u: seq<Candidate>, x: Candidate, y: Candidate)
    requires UniqueKeys(u, CandidateId) && x in multiset(u) && y in multiset(u) && x.id == y.id
    ensures x == y
  {
    var i :| 0 <= i < |u| && u[i] == x;
    var j :| 0 <= j < |u| && u[j] == y;
    assert CandidateId(u[i]) == CandidateId(u[j]);
    assert i == j;
  }

  /** No member occurs twice in a list without repeated ids. */
  lemma {:induction false} CountOfUnique(u: seq<Candidate>, x: Candidate)
    requires UniqueKeys(u, CandidateId)
    ensures multiset(u)[x] <= 1
  {
    if u != [] {
      var t := u[1..];
      assert u == [u[0]] + t;
      assert UniqueKeys(t, CandidateId) by {
        forall i, j | 0 <= i < j < |t| ensures CandidateId(t[i]) != CandidateId(t[j]) {
          assert t[i] == u[i + 1] && t[j] == u[j + 1];
        }
      }
      CountOfUnique(t, x);
      if u[0] == x {
        assert x !in multiset(t) by {
          forall k | 0 <= k < |t| ensures t[k] != x {
            assert CandidateId(u[0]) != CandidateId(u[k + 1]);
          }
        }
      }
    }
  }

  /**
   * Every active personalised session of the user, on any subject, is closed, the other
   * sessions are untouched, and the new session is the user's only active one.
   */
  lemma PersonalReplacesActive(req: PersonalRequest, src: Sources, rolls: seq<real>,
                               store: seq<SessionDoc>, newId: Id)
    requires EnoughRolls(rolls, |Unique(req, src)|)
    requires GeneratePersonalized(req, src, rolls, store, newId).0.PersonalGenerated?
    ensures var after := GeneratePersonalized(req, src, rolls, store, newId).1;
      |after| == |store| + 1 &&
      (forall i :: 0 <= i < |store| ==> !ActiveOfUser(after[i], req.userId)) &&
      (forall i :: 0 <= i < |store| && !ActiveOfUser(store[i], req.userId) ==> after[i] == store[i]) &&
      (forall i :: 0 <= i < |store| ==> after[i].(isActive := store[i].isActive) == store[i]) &&
      ActiveOfUser(after[|store|], req.userId) &&
      after[|store|] == PersonalSession(newId, req.userId, req.subject, Ids(Shuffled(Unique(req, src), rolls)))
  {
  }
}
