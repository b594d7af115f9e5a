/**
 * Option normalisation before questions are sent to the client. A stored option is a
 * string, an object, or something else (null, a number, a flag). An object may hold its
 * text as a `text` field or, when it was saved from a split string, as numeric-keyed
 * character fragments `{ "0": "P", "1": "a", ... }`.
 *
 * An object is modelled as its fields in insertion order; keys are numeric or named. The
 * handlers read numeric keys through an explicit ascending numeric sort.
 */
module Options {
  import opened Text

  datatype Key = Index(n: nat) | Name(s: string)

  /** A stored value; nested objects and arrays are one case. */
  datatype Value =
    | Nullish
    | Str(s: string)
    | Num(n: int)
    | Flag(b: bool)
    | Obj(fields: seq<(Key, Value)>)

  /** JavaScript truthiness. */
  predicate Truthy(v: Value) {
    match v
    case Nullish => false
    case Str(s) => s != ""
    case Num(n) => n != 0
    case Flag(b) => b
    case Obj(_) => true
  }

  /** `String(v ?? "")`, which is also how `Array.join` spells an element. */
  function ToText(v: Value): string {
    match v
    case Nullish => ""
    case Str(s) => s
    case Num(n) => if n < 0 then "-" + Decimal(-n) else Decimal(n)
    case Flag(b) => if b then "true" else "false"
    case Obj(_) => "[object Object]"
  }

  lemma TruthyTextIsNonEmpty(v: Value)
    requires Truthy(v)
    ensures ToText(v) != ""
  {
  }

  /** `plain[name]`: the named field, or nothing. */
  function Get(fields: seq<(Key, Value)>, name: string): Value {
    if fields == [] then Nullish
    else if fields[0].0 == Name(name) then fields[0].1
    else Get(fields[1..], name)
  }

  /** `plain[k]` for a numeric key. */
  function GetIndex(fields: seq<(Key, Value)>, k: nat): Value {
    if fields == [] then Nullish
    else if fields[0].0 == Index(k) then fields[0].1
    else GetIndex(fields[1..], k)
  }

  /** `Object.keys(plain).filter(k => !isNaN(k))`, before sorting. */
  function Indices(fields: seq<(Key, Value)>): seq<nat> {
    if fields == [] then []
    else if fields[0].0.Index? then [fields[0].0.n] + Indices(fields[1..])
    else Indices(fields[1..])
  }

  // ----- `.sort((a, b) => a - b)` -----

  predicate Sorted(s: seq<nat>) {
    forall i, j :: 0 <= i < j < |s| ==> s[i] <= s[j]
  }

  function Insert(x: nat, s: seq<nat>): seq<nat> {
    if s == [] then [x]
    else if x <= s[0] then [x] + s
    else [s[0]] + Insert(x, s[1..])
  }

  function SortAscending(s: seq<nat>): seq<nat> {
    if s == [] then [] else Insert(s[0], SortAscending(s[1..]))
  }

  lemma {:induction false} InsertPermutes(x: nat, s: seq<nat>)
    ensures multiset(Insert(x, s)) == multiset{x} + multiset(s)
  {
    if s != [] && x > s[0] {
      InsertPermutes(x, s[1..]);
      assert s == [s[0]] + s[1..];
    }
  }

  lemma {:induction false} InsertSorted(x: nat, s: seq<nat>)
    requires Sorted(s)
    ensures Sorted(Insert(x, s))
    ensures forall k :: 0 <= k < |Insert(x, s)| ==> Insert(x, s)[k] == x || Insert(x, s)[k] in s
  {
    if s == [] {
    } else if x <= s[0] {
      assert forall k :: 0 <= k < |s| ==> x <= s[k];
    } else {
      InsertSorted(x, s[1..]);
      var r := Insert(x, s[1..]);
      assert Insert(x, s) == [s[0]] + r;
      assert forall k :: 0 <= k < |r| ==> s[0] <= r[k] by {
        forall k | 0 <= k < |r| ensures s[0] <= r[k] {
          if r[k] != x {
            var j :| 0 <= j < |s[1..]| && s[1..][j] == r[k];
            assert s[j + 1] == r[k];
          }
        }
      }
    }
  }

  lemma {:induction false} SortAscendingSorts(s: seq<nat>)
    ensures Sorted(SortAscending(s)) && multiset(SortAscending(s)) == multiset(s)
  {
    if s != [] {
      SortAscendingSorts(s[1..]);
      InsertSorted(s[0], SortAscending(s[1..]));
      InsertPermutes(s[0], SortAscending(s[1..]));
      assert s == [s[0]] + s[1..];
    }
  }

  /** The head of a sorted sequence is its least element, and its tail is sorted. */
  lemma SortedHead(a: seq<nat>)
    requires Sorted(a) && a != []
    ensures Sorted(a[1..])
    ensures forall x :: x in a ==> a[0] <= x
  {
    forall x | x in a ensures a[0] <= x {
      var j :| 0 <= j < |a| && a[j] == x;
    }
  }

  /** Two sorted sequences with the same elements are the same sequence. */
  lemma {:induction false} SortedUnique(a: seq<nat>, b: seq<nat>)
    requires Sorted(a) && Sorted(b) && multiset(a) == multiset(b)
    ensures a == b
    decreases |a|
  {
    if a != [] {
      assert a[0] in multiset(b);
      assert b != [];
      assert b[0] in multiset(a);
      SortedHead(a);
      SortedHead(b);
      assert a[0] == b[0];
      assert a == [a[0]] + a[1..] && b == [b[0]] + b[1..];
      MultisetOfTail(a);
      MultisetOfTail(b);
      SortedUnique(a[1..], b[1..]);
    }
  }

  lemma MultisetOfTail(a: seq<nat>)
    requires a != []
    ensures multiset(a[1..]) == multiset(a) - multiset{a[0]}
  {
    assert a == [a[0]] + a[1..];
  }

  // ----- the parts of an object -----

  function Fragments(fields: seq<(Key, Value)>, keys: seq<nat>): (r: seq<string>)
    ensures |r| == |keys| && forall i :: 0 <= i < |keys| ==> r[i] == ToText(GetIndex(fields, keys[i]))
  {
    seq(|keys|, i requires 0 <= i < |keys| => ToText(GetIndex(fields, keys[i])))
  }

  /** The numeric-keyed fragments joined in ascending key order. */
  function JoinedNumeric(fields: seq<(Key, Value)>): string {
    Join(Fragments(fields, SortAscending(Indices(fields))), "")
  }

  /** The keys the string-field fallback skips. */
  predicate IsMetaKey(name: string) {
    name == "_id" || name == "id" || name == "__v" || name == "diagramUrl"
  }

  function NumericStrings(fields: seq<(Key, Value)>, keys: seq<nat>): seq<string> {
    if keys == [] then []
    else
      var v := GetIndex(fields, keys[0]);
      (if v.Str? then [v.s] else []) + NumericStrings(fields, keys[1..])
  }

  function NamedStrings(fields: seq<(Key, Value)>): seq<string> {
    if fields == [] then []
    else
      var (k, v) := fields[0];
      (if k.Name? && !IsMetaKey(k.s) && v.Str? then [v.s] else []) + NamedStrings(fields[1..])
  }

  /**
   * The string values of `Object.entries(plain)` outside the meta keys: integer keys come
   * first in ascending order, then named keys in insertion order.
   */
  function StringValues(fields: seq<(Key, Value)>): seq<string> {
    NumericStrings(fields, SortAscending(Indices(fields))) + NamedStrings(fields)
  }

  // ----- the personalised-session version -----

  /** What becomes of `diagramUrl`: left out, `null`, or a value. */
  datatype Diagram = Omitted | NullUrl | Url(v: Value)

  datatype NormalOption = NormalOption(text: string, diagram: Diagram)

  /** `normalizeOptions` of the personalised session, for one option. */
  function NormalizeOption(opt: Value): NormalOption {
    if !Truthy(opt) then NormalOption("", Omitted)
    else match opt
      case Str(s) => NormalOption(s, Omitted)
      case Obj(fields) =>
        var text, url := Get(fields, "text"), Get(fields, "diagramUrl");
        if Truthy(text) && Trim(ToText(text)) != "" then
          NormalOption(Trim(ToText(text)), if Truthy(url) then Url(url) else NullUrl)
        else if Truthy(url) && !Truthy(text) then
          NormalOption("", Url(Str(ToText(url))))
        else
          var joined := JoinedNumeric(fields);
          if Trim(joined) != "" then NormalOption(joined, Omitted)
          else
            var others := Trim(Join(StringValues(fields), " "));
            if others != "" then NormalOption(others, Omitted) else NormalOption("", Omitted)
      case _ => NormalOption("", Omitted)
  }

  function NormalizeOptions(opts: seq<Value>): (r: seq<NormalOption>)
    ensures |r| == |opts|
    ensures forall i :: 0 <= i < |opts| ==> r[i] == NormalizeOption(opts[i])
  {
    seq(|opts|, i requires 0 <= i < |opts| => NormalizeOption(opts[i]))
  }

  /**
   * Every option becomes one of: a trimmed non-empty text with a `diagramUrl` (truthy) or
   * `null`; an empty text with a non-empty diagram URL string; a non-empty string option
   * as it is; an object's numeric fragments in key order, when they are not blank; an
   * object's other string fields, trimmed and not blank; or `{ text: "" }`.
   */
  lemma NormalizedForms(opt: Value)
    ensures var r := NormalizeOption(opt);
      (r.text != "" && r.text == Trim(r.text) && (r.diagram.NullUrl? || (r.diagram.Url? && Truthy(r.diagram.v)))) ||
      (r.text == "" && r.diagram.Url? && r.diagram.v.Str? && r.diagram.v.s != "") ||
      (r.diagram.Omitted? && opt.Str? && r.text == opt.s && r.text != "") ||
      (r.diagram.Omitted? && opt.Obj? && r.text == JoinedNumeric(opt.fields) && Trim(r.text) != "") ||
      (r.diagram.Omitted? && opt.Obj? && r.text == Trim(Join(StringValues(opt.fields), " ")) && r.text != "") ||
      r == NormalOption("", Omitted)
  {
    if opt.Obj? {
      ObjectForms(opt.fields);
    }
  }

  lemma ObjectForms(fields: seq<(Key, Value)>)
    ensures var r := NormalizeOption(Obj(fields));
      (r.text != "" && r.text == Trim(r.text) && (r.diagram.NullUrl? || (r.diagram.Url? && Truthy(r.diagram.v)))) ||
      (r.text == "" && r.diagram.Url? && r.diagram.v.Str? && r.diagram.v.s != "") ||
      (r.diagram.Omitted? && r.text == JoinedNumeric(fields) && Trim(r.text) != "") ||
      (r.diagram.Omitted? && r.text == Trim(Join(StringValues(fields), " ")) && r.text != "") ||
      r == NormalOption("", Omitted)
  {
    var text, url := Get(fields, "text"), Get(fields, "diagramUrl");
    if Truthy(text) && Trim(ToText(text)) != "" {
      TrimIdempotent(ToText(text));
    } else if Truthy(url) && !Truthy(text) {
      TruthyTextIsNonEmpty(url);
    }
  }

  /** A non-blank `text` field wins over any fragments and string fields. */
  lemma TextFieldWins(fields: seq<(Key, Value)>)
    requires Truthy(Get(fields, "text")) && Trim(ToText(Get(fields, "text"))) != ""
    ensures NormalizeOption(Obj(fields)).text == Trim(ToText(Get(fields, "text")))
  {
  }

  /**
   * The fragments are read in numeric key order, whatever order the fields were stored
   * in: the same keys with the same values give the same text.
   */
  lemma JoinIgnoresFieldOrder(f: seq<(Key, Value)>, g: seq<(Key, Value)>)
    requires multiset(Indices(f)) == multiset(Indices(g))
    requires forall k: nat :: GetIndex(f, k) == GetIndex(g, k)
    ensures JoinedNumeric(f) == JoinedNumeric(g)
    ensures NamedStrings(f) == NamedStrings(g) ==> StringValues(f) == StringValues(g)
  {
    SortAscendingSorts(Indices(f));
    SortAscendingSorts(Indices(g));
    SortedUnique(SortAscending(Indices(f)), SortAscending(Indices(g)));
    var ks := SortAscending(Indices(f));
    assert Fragments(f, ks) == Fragments(g, ks);
    NumericStringsAgree(f, g, ks);
  }

  lemma {:induction false} NumericStringsAgree(f: seq<(Key, Value)>, g: seq<(Key, Value)>, ks: seq<nat>)
    requires forall k: nat :: GetIndex(f, k) == GetIndex(g, k)
    ensures NumericStrings(f, ks) == NumericStrings(g, ks)
  {
    if ks != [] {
      assert GetIndex(f, ks[0]) == GetIndex(g, ks[0]);
      NumericStringsAgree(f, g, ks[1..]);
    }
  }

  /**
   * Keys are sorted as numbers: fragments stored under 2, 10 and 1 read "b", "c", "d"
   * in the order 1, 2, 10, where a string sort would put 10 before 2.
   */
  lemma NumericKeysInNumericOrder()
    ensures JoinedNumeric([(Index(2), Str("c")), (Index(10), Str("d")), (Index(1), Str("b"))]) == "bcd"
  {
    var f := [(Index(2), Str("c")), (Index(10), Str("d")), (Index(1), Str("b"))];
    assert Indices(f) == [2, 10, 1] by {
      assert f[1..] == [(Index(10), Str("d")), (Index(1), Str("b"))];
      assert f[1..][1..] == [(Index(1), Str("b"))];
    }
    assert SortAscending([1]) == [1];
    assert SortAscending([10, 1]) == Insert(10, [1]) == [1, 10];
    assert Insert(2, [1, 10]) == [1] + Insert(2, [10]) == [1, 2, 10];
    assert SortAscending([2, 10, 1]) == [1, 2, 10];
    assert GetIndex(f, 1) == Str("b") && GetIndex(f, 2) == Str("c") && GetIndex(f, 10) == Str("d");
    assert Fragments(f, [1, 2, 10]) == ["b", "c", "d"];
    assert Join(["b", "c", "d"], "") == "bcd" by {
      assert ["b", "c", "d"][1..] == ["c", "d"];
      assert ["c", "d"][1..] == ["d"];
    }
  }

  // ----- the session-view version -----

  /** `normalizeOptions` of `getPersonalizedSession`, for one option. */
  function NormalizeViewOption(opt: Value): NormalOption {
    match opt
    case Str(s) => NormalOption(s, Omitted)
    case Obj(fields) =>
      var text, url := Get(fields, "text"), Get(fields, "diagramUrl");
      if Truthy(text) && Trim(ToText(text)) != "" then
        NormalOption(Trim(ToText(text)), if Truthy(url) then Url(url) else NullUrl)
      else if Truthy(url) then
        NormalOption("", Url(url))
      else
        var joined := JoinedNumeric(fields);
        if Trim(joined) != "" then NormalOption(joined, Omitted)
        else NormalOption(Trim(Join(StringValues(fields), " ")), Omitted)
    case _ => NormalOption("", Omitted)
  }

  function NormalizeViewOptions(opts: seq<Value>): (r: seq<NormalOption>)
    ensures |r| == |opts|
    ensures forall i :: 0 <= i < |opts| ==> r[i] == NormalizeViewOption(opts[i])
  {
    seq(|opts|, i requires 0 <= i < |opts| => NormalizeViewOption(opts[i]))
  }

  /**
   * Viewing a session normalises options as generating it does, except for an object
   * without a usable `text` but with a truthy `diagramUrl`: the view keeps the URL as
   * stored even when a blank `text` is present, where generation stringifies it and,
   * when `text` is truthy but blank, falls through to the fragments.
   */
  lemma ViewAgreesWithGeneration(opt: Value)
    ensures !(opt.Obj? && Truthy(Get(opt.fields, "diagramUrl"))) ==>
      NormalizeViewOption(opt) == NormalizeOption(opt)
    ensures opt.Obj? && Truthy(Get(opt.fields, "text")) && Trim(ToText(Get(opt.fields, "text"))) != "" ==>
      NormalizeViewOption(opt) == NormalizeOption(opt)
    ensures (opt.Obj? && Truthy(Get(opt.fields, "diagramUrl")) &&
             !(Truthy(Get(opt.fields, "text")) && Trim(ToText(Get(opt.fields, "text"))) != "")) ==>
      NormalizeViewOption(opt) == NormalOption("", Url(Get(opt.fields, "diagramUrl"))) &&
      (!Truthy(Get(opt.fields, "text")) && Get(opt.fields, "diagramUrl").Str? ==>
         NormalizeOption(opt) == NormalizeViewOption(opt))
  {
  }

  /** A blank but truthy `text` next to a diagram: the view shows the diagram, generation does not. */
  lemma BlankTextWithDiagram()
    ensures var opt := Obj([(Name("text"), Str(" ")), (Name("diagramUrl"), Str("d.png"))]);
      NormalizeViewOption(opt) == NormalOption("", Url(Str("d.png"))) &&
      NormalizeOption(opt).diagram.Omitted?
  {
    var fields := [(Name("text"), Str(" ")), (Name("diagramUrl"), Str("d.png"))];
    BlankTextFields();
    assert IsBlank(" ");
    assert Indices(fields) == [] && SortAscending([]) == [];
    assert JoinedNumeric(fields) == "";
  }

  lemma BlankTextFields()
    ensures var fields := [(Name("text"), Str(" ")), (Name("diagramUrl"), Str("d.png"))];
      Get(fields, "text") == Str(" ") && Get(fields, "diagramUrl") == Str("d.png") &&
      Join(StringValues(fields), " ") == " "
  {
    var fields := [(Name("text"), Str(" ")), (Name("diagramUrl"), Str("d.png"))];
    assert fields[1..] == [(Name("diagramUrl"), Str("d.png"))];
    assert NamedStrings(fields) == [" "] by {
      assert fields[1..][1..] == [];
    }
  }

  // ----- the practice-session version -----

  /** An option either goes out as stored or is replaced by `{ text }`. */
  datatype PracticeOption = AsGiven(v: Value) | TextOnly(text: string)

  /** `normalizeOptions` of the random-question session, for one option. */
  function NormalizePracticeOption(opt: Value): PracticeOption {
    match opt
    case Str(s) => TextOnly(s)
    case Obj(fields) =>
      if Truthy(Get(fields, "text")) || Truthy(Get(fields, "diagramUrl")) then AsGiven(opt)
      else TextOnly(JoinedNumeric(fields))
    case _ => TextOnly("")
  }

  function NormalizePracticeOptions(opts: seq<Value>): (r: seq<PracticeOption>)
    ensures |r| == |opts|
    ensures forall i :: 0 <= i < |opts| ==> r[i] == NormalizePracticeOption(opts[i])
  {
    seq(|opts|, i requires 0 <= i < |opts| => NormalizePracticeOption(opts[i]))
  }

  /**
   * The two versions agree on strings, on non-objects and on objects whose text comes
   * from non-blank fragments; the practice version keeps an object with a truthy `text`
   * or `diagramUrl` as stored, where the personalised one rebuilds it (and trims `text`).
   */
  lemma VersionsAgree(opt: Value)
    ensures !opt.Obj? ==>
      NormalizePracticeOption(opt) == TextOnly(NormalizeOption(opt).text) && NormalizeOption(opt).diagram.Omitted?
    ensures (opt.Obj? && !Truthy(Get(opt.fields, "text")) && !Truthy(Get(opt.fields, "diagramUrl")) &&
             Trim(JoinedNumeric(opt.fields)) != "") ==>
      NormalizePracticeOption(opt) == TextOnly(NormalizeOption(opt).text)
    ensures opt.Obj? && (Truthy(Get(opt.fields, "text")) || Truthy(Get(opt.fields, "diagramUrl"))) ==>
      NormalizePracticeOption(opt) == AsGiven(opt)
  {
    match opt
    case Obj(fields) =>
      var text, url := Get(fields, "text"), Get(fields, "diagramUrl");
      if !Truthy(text) && !Truthy(url) {
        assert NormalizePracticeOption(opt) == TextOnly(JoinedNumeric(fields));
        if Trim(JoinedNumeric(fields)) != "" {
          assert NormalizeOption(opt) == NormalOption(JoinedNumeric(fields), Omitted);
        }
      }
    case _ =>
  }
}
