/**
 * The subject lists of courses: `createOrUpdateSubjects` merges new subject names into a
 * course's document without repeats, and `getSubjectsByCourseId` gathers the trimmed,
 * de-duplicated subject names of one or several courses.
 *
 * The subject collection is a sequence of documents in natural order; `findOne` is the
 * first document of the course.
 */
module Subjects {
  import opened Wrappers
  import opened Collections
  import opened Text

  datatype SubjectDoc = SubjectDoc(courseId: string, subjects: seq<string>)

  // ----- createOrUpdateSubjects -----

  datatype SaveOutcome =
    | SubjectsRequired              // 400
    | SubjectsSaved(doc: SubjectDoc) // 200

  /** `Array.from(new Set([...existing, ...added]))`, before the schema sees the list. */
  function MergeSubjects(existing: seq<string>, added: seq<string>): seq<string> {
    Dedupe(existing + added)
  }

  /**
   * The `Subjects` schema declares its elements `{ type: String, trim: true }`, so every
   * element is trimmed when a list is assigned or created: after the `Set` has de-duplicated it.
   */
  function TrimAll(names: seq<string>): (r: seq<string>)
    ensures |r| == |names| && forall i :: 0 <= i < |names| ==> r[i] == Trim(names[i])
  {
    seq(|names|, i requires 0 <= i < |names| => Trim(names[i]))
  }

  /** Every name is already free of surrounding white space. */
  predicate AllTrimmed(names: seq<string>) {
    forall x :: x in names ==> Trim(x) == x
  }

  /** Every stored list is trimmed, as every list written through the schema is. */
  predicate StoreTrimmed(store: seq<SubjectDoc>) {
    forall k :: 0 <= k < |store| ==> AllTrimmed(store[k].subjects)
  }

  function OfCourse(courseId: string): SubjectDoc -> bool {
    (d: SubjectDoc) => d.courseId == courseId
  }

  /**
   * The outcome and the collection afterwards. `subjects` is `None` when the request's
   * field is not an array; a missing course id is the empty string.
   */
  function SaveSubjects(courseId: string, subjects: Option<seq<string>>, store: seq<SubjectDoc>)
    : (SaveOutcome, seq<SubjectDoc>)
  {
    if courseId == "" || subjects.None? || subjects.value == [] then (SubjectsRequired, store)
    else
      match FindIndex(store, OfCourse(courseId))
      case Some(i) =>
        var doc := store[i].(subjects := TrimAll(MergeSubjects(store[i].subjects, subjects.value)));
        (SubjectsSaved(doc), store[i := doc])
      case None =>
        var doc := SubjectDoc(courseId, TrimAll(Dedupe(subjects.value)));
        (SubjectsSaved(doc), store + [doc])
  }

  /** The request is refused exactly when the course id or a non-empty subject array is missing. */
  lemma SaveValidation(courseId: string, subjects: Option<seq<string>>, store: seq<SubjectDoc>)
    ensures var (out, after) := SaveSubjects(courseId, subjects, store);
      (out.SubjectsRequired? <==> courseId == "" || subjects.None? || subjects.value == []) &&
      (out.SubjectsRequired? ==> after == store)
  {
  }

  lemma TrimAllMembers(names: seq<string>)
    ensures forall x :: x in TrimAll(names) <==> exists s :: s in names && x == Trim(s)
    ensures AllTrimmed(TrimAll(names))
  {
    var r := TrimAll(names);
    forall x | x in r ensures (exists s :: s in names && x == Trim(s)) && Trim(x) == x {
      var i :| 0 <= i < |r| && r[i] == x;
      assert names[i] in names;
      TrimIdempotent(names[i]);
    }
    forall s | s in names ensures Trim(s) in r {
      var i :| 0 <= i < |names| && names[i] == s;
      assert r[i] == Trim(s);
    }
  }

  lemma TrimAllOfTrimmed(names: seq<string>)
    requires AllTrimmed(names)
    ensures TrimAll(names) == names
  {
    forall i | 0 <= i < |names| ensures TrimAll(names)[i] == names[i] {
      assert names[i] in names;
    }
  }

  /** De-duplicating a trimmed list keeps it trimmed, and the setter then leaves it alone. */
  lemma TrimmedDedupe(names: seq<string>)
    requires AllTrimmed(names)
    ensures AllTrimmed(Dedupe(names)) && TrimAll(Dedupe(names)) == Dedupe(names)
  {
    DedupeMembers(names);
    TrimAllOfTrimmed(Dedupe(names));
  }

  /** The merged, trimmed list holds the trimmed form of every old and new name, and is trimmed. */
  lemma MergedNames(e: seq<string>, n: seq<string>)
    ensures var list := TrimAll(MergeSubjects(e, n));
      (forall x :: x in list <==> exists s :: (s in e || s in n) && x == Trim(s)) && AllTrimmed(list)
  {
    var merged := Dedupe(e + n);
    var list := TrimAll(merged);
    DedupeMembers(e + n);
    TrimAllMembers(merged);
    forall x | x in list ensures exists s :: (s in e || s in n) && x == Trim(s) {
      var s :| s in merged && x == Trim(s);
      assert s in e + n;
    }
    forall s | s in e || s in n ensures Trim(s) in list {
      assert s in e + n;
    }
  }

  /** A trimmed list without repeats is a prefix of its merge with further names. */
  lemma MergedKeepsPrefix(e: seq<string>, n: seq<string>)
    requires AllTrimmed(e) && Dedupe(e) == e
    ensures var list := TrimAll(MergeSubjects(e, n));
      |e| <= |list| && list[..|e|] == e
  {
    var merged := Dedupe(e + n);
    DedupePrefixStable(e, n, Self);
    assert merged[..|e|] == e;
    forall k | 0 <= k < |e| ensures TrimAll(merged)[k] == e[k] {
      assert merged[k] == e[k] && e[k] in e;
    }
  }

  /**
   * A course that already has a document keeps it, in place: its list holds the trimmed
   * form of every old and every new subject and nothing else, and is trimmed. When all
   * those names are trimmed already, none is repeated, and a trimmed list without repeats
   * stays a prefix of the new one, so no subject is lost or moved. Every other document
   * is unchanged.
   */
  lemma SaveMergesIntoExisting(courseId: string, subjects: seq<string>, store: seq<SubjectDoc>, i: nat)
    requires courseId != "" && subjects != []
    requires i < |store| && store[i].courseId == courseId
    requires forall k :: 0 <= k < i ==> store[k].courseId != courseId
    ensures var (out, after) := SaveSubjects(courseId, Some(subjects), store);
      var list := after[i].subjects;
      out == SubjectsSaved(after[i]) && after[i].courseId == courseId &&
      |after| == |store| && (forall k :: 0 <= k < |store| && k != i ==> after[k] == store[k]) &&
      (forall x :: x in list <==> exists s :: (s in store[i].subjects || s in subjects) && x == Trim(s)) &&
      AllTrimmed(list)
    ensures var list := SaveSubjects(courseId, Some(subjects), store).1[i].subjects;
      AllTrimmed(store[i].subjects + subjects) ==> forall a, b :: 0 <= a < b < |list| ==> list[a] != list[b]
    ensures var list := SaveSubjects(courseId, Some(subjects), store).1[i].subjects;
      AllTrimmed(store[i].subjects) && Dedupe(store[i].subjects) == store[i].subjects ==>
        |store[i].subjects| <= |list| && list[..|store[i].subjects|] == store[i].subjects
  {
    var e := store[i].subjects;
    assert FindIndex(store, OfCourse(courseId)) == Some(i);
    var list := TrimAll(MergeSubjects(e, subjects));
    assert SaveSubjects(courseId, Some(subjects), store).1[i].subjects == list;
    MergedNames(e, subjects);
    if AllTrimmed(e + subjects) {
      TrimmedDedupe(e + subjects);
      DedupeMembers(e + subjects);
    }
    if AllTrimmed(e) && Dedupe(e) == e {
      MergedKeepsPrefix(e, subjects);
    }
  }

  /**
   * A course without a document gets one, at the end, holding the trimmed form of each of
   * its subjects and nothing else; when the subjects are trimmed already, none is repeated.
   */
  lemma SaveCreatesNew(courseId: string, subjects: seq<string>, store: seq<SubjectDoc>)
    requires courseId != "" && subjects != []
    requires forall k :: 0 <= k < |store| ==> store[k].courseId != courseId
    ensures var (out, after) := SaveSubjects(courseId, Some(subjects), store);
      var list := after[|store|].subjects;
      |after| == |store| + 1 && after[..|store|] == store &&
      out == SubjectsSaved(after[|store|]) && after[|store|].courseId == courseId &&
      (forall x :: x in list <==> exists s :: s in subjects && x == Trim(s)) &&
      AllTrimmed(list)
    ensures var list := SaveSubjects(courseId, Some(subjects), store).1[|store|].subjects;
      AllTrimmed(subjects) ==> forall a, b :: 0 <= a < b < |list| ==> list[a] != list[b]
  {
    assert FindIndex(store, OfCourse(courseId)) == None;
    var list := TrimAll(Dedupe(subjects));
    assert SaveSubjects(courseId, Some(subjects), store).1 == store + [SubjectDoc(courseId, list)];
    DedupedNames(subjects);
    if AllTrimmed(subjects) {
      TrimmedDedupe(subjects);
      DedupeMembers(subjects);
    }
  }

  /** The de-duplicated, trimmed list holds the trimmed form of every name, and is trimmed. */
  lemma DedupedNames(n: seq<string>)
    ensures var list := TrimAll(Dedupe(n));
      (forall x :: x in list <==> exists s :: s in n && x == Trim(s)) && AllTrimmed(list)
  {
    DedupeMembers(n);
    TrimAllMembers(Dedupe(n));
  }

  /** Whatever was stored, the saved document's list is trimmed, so a trimmed store stays trimmed. */
  lemma SaveKeepsStoreTrimmed(courseId: string, subjects: Option<seq<string>>, store: seq<SubjectDoc>)
    requires StoreTrimmed(store)
    ensures StoreTrimmed(SaveSubjects(courseId, subjects, store).1)
  {
    if courseId != "" && subjects.Some? && subjects.value != [] {
      match FindIndex(store, OfCourse(courseId))
      case Some(i) =>
        TrimAllMembers(MergeSubjects(store[i].subjects, subjects.value));
      case None =>
        TrimAllMembers(Dedupe(subjects.value));
    }
  }

  /**
   * Names that differ only in padding are kept apart by the `Set` and then trimmed into a
   * repeat: by `TrimMaths`, `[" Maths", "Maths "]` is stored as `["Maths", "Maths"]`.
   */
  lemma PaddedNamesStoredTwice(courseId: string, a: string, b: string)
    requires courseId != "" && a != b && Trim(a) == Trim(b)
    ensures SaveSubjects(courseId, Some([a, b]), []).1 == [SubjectDoc(courseId, [Trim(a), Trim(a)])]
  {
    DedupeOfDistinctPair(a, b);
    assert TrimAll(Dedupe([a, b])) == [Trim(a), Trim(a)];
  }

  lemma DedupeOfDistinctPair<T>(x: T, y: T)
    requires x != y
    ensures Dedupe([x, y]) == [x, y]
  {
    DedupeOfUnique([x, y], Self);
  }

  /**
   * Sending the same subjects for a course twice leaves the collection as sending them
   * once, when they and the stored lists are trimmed already.
   */
  lemma SaveTwiceIsSaveOnce(courseId: string, subjects: Option<seq<string>>, store: seq<SubjectDoc>)
    ensures var once := SaveSubjects(courseId, subjects, store).1;
      (subjects.None? || AllTrimmed(subjects.value)) && StoreTrimmed(store) ==>
        SaveSubjects(courseId, subjects, once).1 == once
  {
    if courseId != "" && subjects.Some? && subjects.value != [] && AllTrimmed(subjects.value) && StoreTrimmed(store) {
      var n := subjects.value;
      var once := SaveSubjects(courseId, subjects, store).1;
      match FindIndex(store, OfCourse(courseId))
      case Some(i) =>
        var e := store[i].subjects;
        assert AllTrimmed(e + n);
        TrimmedDedupe(e + n);
        MergeTwiceIsMergeOnce(e, n);
        assert once[i].subjects == Dedupe(e + n);
        assert FindIndex(once, OfCourse(courseId)) == Some(i) by {
          assert OfCourse(courseId)(once[i]);
          assert forall k :: 0 <= k < i ==> once[k] == store[k] && !OfCourse(courseId)(once[k]);
        }
      case None =>
        TrimmedDedupe(n);
        MergeTwiceIsMergeOnce([], n);
        assert [] + n == n;
        assert once[|store|].subjects == Dedupe(n);
        assert FindIndex(once, OfCourse(courseId)) == Some(|store|) by {
          assert OfCourse(courseId)(once[|store|]);
          assert forall k :: 0 <= k < |store| ==> once[k] == store[k] && !OfCourse(courseId)(once[k]);
        }
    }
  }

  /**
   * With a padded name, the second save stores a repeat: by `TrimMaths`, `[" Maths"]` sent
   * twice gives `["Maths"]` and then `["Maths", "Maths"]`.
   */
  lemma PaddedSaveTwiceRepeats(courseId: string, a: string)
    requires courseId != "" && Trim(a) != a
    ensures var once := SaveSubjects(courseId, Some([a]), []).1;
      once == [SubjectDoc(courseId, [Trim(a)])] &&
      SaveSubjects(courseId, Some([a]), once).1 == [SubjectDoc(courseId, [Trim(a), Trim(a)])]
  {
    SaveIntoEmpty(courseId, [a]);
    TrimAllOfSingle(a);
    SaveIntoSole(courseId, [Trim(a)], [a]);
    MergeTrimmedWithPadded(a);
  }

  lemma TrimAllOfSingle(a: string)
    ensures TrimAll(Dedupe([a])) == [Trim(a)]
  {
    DedupeSingle(a);
    var r := TrimAll([a]);
    assert |r| == 1 && r[0] == Trim(a);
  }

  lemma DedupeSingle<T>(x: T)
    ensures Dedupe([x]) == [x]
  {
    DedupeOfUnique([x], Self);
  }

  lemma MergeTrimmedWithPadded(a: string)
    requires Trim(a) != a
    ensures TrimAll(MergeSubjects([Trim(a)], [a])) == [Trim(a), Trim(a)]
  {
    assert [Trim(a)] + [a] == [Trim(a), a];
    DedupeOfDistinctPair(Trim(a), a);
    TrimIdempotent(a);
  }

  lemma SaveIntoEmpty(courseId: string, n: seq<string>)
    requires courseId != "" && n != []
    ensures SaveSubjects(courseId, Some(n), []).1 == [SubjectDoc(courseId, TrimAll(Dedupe(n)))]
  {
    assert FindIndex([], OfCourse(courseId)) == None;
  }

  lemma SaveIntoSole(courseId: string, e: seq<string>, n: seq<string>)
    requires courseId != "" && n != []
    ensures SaveSubjects(courseId, Some(n), [SubjectDoc(courseId, e)]).1 ==
      [SubjectDoc(courseId, TrimAll(MergeSubjects(e, n)))]
  {
    var store := [SubjectDoc(courseId, e)];
    assert OfCourse(courseId)(store[0]);
    assert FindIndex(store, OfCourse(courseId)) == Some(0);
  }

  // ----- getSubjectsByCourseId -----

  /** The request's `courseId`: one id (the empty string when missing) or an array. */
  datatype CourseArg = Single(id: string) | Many(ids: seq<string>)

  datatype FetchOutcome =
    | CourseIdRequired                                          // 400
    | NoSubjectsFound                                           // 404
    | SubjectsFound(courses: seq<string>, subjects: seq<string>) // 200

  /** `find({ courseId: { $in: ids } })`, in natural order. */
  function MatchingDocs(store: seq<SubjectDoc>, ids: seq<string>): (r: seq<SubjectDoc>)
    ensures forall d :: d in r <==> d in store && d.courseId in ids
  {
    if store == [] then []
    else (if store[0].courseId in ids then [store[0]] else []) + MatchingDocs(store[1..], ids)
  }

  /** `flatMap(doc => doc.Subjects)`. */
  function FlatSubjects(docs: seq<SubjectDoc>): (r: seq<string>)
  {
    if docs == [] then [] else docs[0].subjects + FlatSubjects(docs[1..])
  }

  function CourseIds(docs: seq<SubjectDoc>): (r: seq<string>)
    ensures |r| == |docs| && forall i :: 0 <= i < |docs| ==> r[i] == docs[i].courseId
  {
    seq(|docs|, i requires 0 <= i < |docs| => docs[i].courseId)
  }

  function GetSubjects(arg: CourseArg, store: seq<SubjectDoc>): FetchOutcome {
    if (arg.Single? && arg.id == "") || (arg.Many? && arg.ids == []) then CourseIdRequired
    else
      var ids := if arg.Single? then [arg.id] else arg.ids;
      var docs := MatchingDocs(store, ids);
      if docs == [] then NoSubjectsFound
      else SubjectsFound(CourseIds(docs), SubjectNames(docs))
  }

  /** `[...new Set(allSubjects.map(s => s.trim()))]`. */
  function SubjectNames(docs: seq<SubjectDoc>): seq<string> {
    Dedupe(TrimAll(FlatSubjects(docs)))
  }

  /** The ids a request asks for: a single id stands for a one-element list. */
  function AskedIds(arg: CourseArg): seq<string> {
    if arg.Single? then [arg.id] else arg.ids
  }

  lemma {:induction false} FlatSubjectsMembers(docs: seq<SubjectDoc>)
    ensures forall x :: x in FlatSubjects(docs) <==> exists d :: d in docs && x in d.subjects
  {
    if docs != [] {
      FlatSubjectsMembers(docs[1..]);
      forall x | exists d :: d in docs && x in d.subjects
        ensures x in FlatSubjects(docs)
      {
        var d :| d in docs && x in d.subjects;
        if d != docs[0] {
          assert d in docs[1..];
        }
      }
    }
  }

  /**
   * An empty id or an empty array is refused; otherwise the reply is 404 exactly when no
   * document belongs to an asked course.
   */
  lemma GetValidation(arg: CourseArg, store: seq<SubjectDoc>)
    ensures GetSubjects(arg, store) == CourseIdRequired <==>
      (arg.Single? && arg.id == "") || (arg.Many? && arg.ids == [])
    ensures GetSubjects(arg, store) == NoSubjectsFound <==>
      GetSubjects(arg, store) != CourseIdRequired &&
      forall k :: 0 <= k < |store| ==> store[k].courseId !in AskedIds(arg)
  {
    var docs := MatchingDocs(store, AskedIds(arg));
    if docs != [] {
      assert docs[0] in store;
    }
  }

  /**
   * The names are exactly the trimmed names stored in the documents, each once,
   * de-duplicated after trimming, and none with surrounding white space.
   */
  lemma SubjectNamesContents(docs: seq<SubjectDoc>)
    ensures var r := SubjectNames(docs);
      (forall x :: x in r <==> exists d, s :: d in docs && s in d.subjects && x == Trim(s)) &&
      (forall a, b :: 0 <= a < b < |r| ==> r[a] != r[b])
    ensures forall x :: x in SubjectNames(docs) ==> Trim(x) == x
  {
    var flat := FlatSubjects(docs);
    var trimmed := TrimAll(flat);
    DedupeMembers(trimmed);
    SubjectNamesMembers(docs);
    forall x | x in SubjectNames(docs) ensures Trim(x) == x {
      var i :| 0 <= i < |trimmed| && trimmed[i] == x;
      TrimIdempotent(flat[i]);
    }
  }

  lemma SubjectNamesMembers(docs: seq<SubjectDoc>)
    ensures forall x :: x in SubjectNames(docs) <==> exists d, s :: d in docs && s in d.subjects && x == Trim(s)
  {
    DedupeMembers(TrimAll(FlatSubjects(docs)));
    TrimmedNamesSound(docs);
    TrimmedNamesComplete(docs);
  }

  lemma TrimmedNamesSound(docs: seq<SubjectDoc>)
    ensures forall x :: x in TrimAll(FlatSubjects(docs)) ==> exists d, s :: d in docs && s in d.subjects && x == Trim(s)
  {
    var flat := FlatSubjects(docs);
    var trimmed := TrimAll(flat);
    FlatSubjectsMembers(docs);
    forall x | x in trimmed ensures exists d, s :: d in docs && s in d.subjects && x == Trim(s) {
      var i :| 0 <= i < |trimmed| && trimmed[i] == x;
      assert flat[i] in flat;
      var d :| d in docs && flat[i] in d.subjects;
    }
  }

  lemma TrimmedNamesComplete(docs: seq<SubjectDoc>)
    ensures forall d, s :: d in docs && s in d.subjects ==> Trim(s) in TrimAll(FlatSubjects(docs))
  {
    var flat := FlatSubjects(docs);
    var trimmed := TrimAll(flat);
    FlatSubjectsMembers(docs);
    forall d, s | d in docs && s in d.subjects ensures Trim(s) in trimmed {
      assert s in flat;
      var i :| 0 <= i < |flat| && flat[i] == s;
      assert trimmed[i] == Trim(s);
    }
  }

  /**
   * Found subjects are exactly the trimmed names stored for the asked courses, each once
   * and trimmed, and only asked courses are listed.
   */
  lemma GetSubjectsContents(arg: CourseArg, store: seq<SubjectDoc>)
    requires GetSubjects(arg, store).SubjectsFound?
    ensures var r := GetSubjects(arg, store).subjects;
      (forall x :: x in r <==> exists d, s :: d in store && d.courseId in AskedIds(arg) && s in d.subjects && x == Trim(s)) &&
      (forall a, b :: 0 <= a < b < |r| ==> r[a] != r[b]) &&
      (forall x :: x in r ==> Trim(x) == x)
    ensures forall c :: c in GetSubjects(arg, store).courses ==> c in AskedIds(arg)
  {
    var docs := MatchingDocs(store, AskedIds(arg));
    assert GetSubjects(arg, store) == SubjectsFound(CourseIds(docs), SubjectNames(docs));
    SubjectNamesContents(docs);
    forall c | c in CourseIds(docs) ensures c in AskedIds(arg) {
      var i :| 0 <= i < |docs| && CourseIds(docs)[i] == c;
      assert docs[i] in docs;
    }
  }

  /**
   * Names that differ only in surrounding white space are returned once, trimmed; by
   * `TrimMaths`, `" Maths"` and `"Maths "` are such a pair.
   */
  lemma TrimmedBeforeDedupe(courseId: string, a: string, b: string)
    requires Trim(a) == Trim(b)
    ensures SubjectNames([SubjectDoc(courseId, [a, b])]) == [Trim(a)]
  {
    var docs := [SubjectDoc(courseId, [a, b])];
    assert FlatSubjects(docs) == [a, b] by {
      assert docs[1..] == [];
    }
    var t := TrimAll([a, b]);
    assert t == [Trim(a), Trim(a)];
    DedupePair(Trim(a));
  }

  lemma DedupePair<T>(x: T)
    ensures Dedupe([x, x]) == [x]
  {
    var s := [x, x];
    assert s[..1] == [x] && [x][..0] == [];
    assert KeySet([x], Self) == {x} by {
      assert Self([x][0]) == x;
    }
    assert DedupeBy([x], Self) == [x];
  }

  lemma TrimMaths()
    ensures Trim(" Maths") == "Maths" && Trim("Maths ") == "Maths"
  {
    assert !IsSpace('M') && !IsSpace('s');
    assert " Maths"[1..] == "Maths";
    assert TrimStart("Maths") == "Maths";
    assert TrimEnd("Maths") == "Maths";
    assert "Maths "[..5] == "Maths";
    assert TrimStart("Maths ") == "Maths ";
  }
}
