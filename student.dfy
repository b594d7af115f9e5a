/**
 * Student accounts: the email and password validators, and the order of the checks in
 * `emailRegister`, `studentSignup`, `studentLogin` and `updatePraticeMode`.
 *
 * Whether an email is registered, whether a student exists and whether the password
 * matches the stored hash are inputs (the lookups and the bcrypt comparison). Missing
 * request fields are empty strings.
 */
module Students {
  import opened Text

  // ----- /^[^\s@]+@[^\s@]+\.[^\s@]+$/ -----

  /** A run of `[^\s@]+`. */
  predicate EmailPart(t: string) {
    |t| > 0 && forall k :: 0 <= k < |t| ==> !IsSpace(t[k]) && t[k] != '@'
  }

  /** The email regex as written: three such runs, the first two and the last two joined by `@` and `.`. */
  ghost predicate EmailPattern(s: string) {
    exists a, b, c :: EmailPart(a) && EmailPart(b) && EmailPart(c) && s == a + "@" + b + "." + c
  }

  /**
   * The same condition read character by character: no white space, exactly one `@` with
   * something before it, and a `.` after it that is neither the first nor the last
   * character of the domain.
   */
  predicate ValidEmail(s: string) {
    (forall k :: 0 <= k < |s| ==> !IsSpace(s[k])) &&
    exists i :: 0 < i < |s| && s[i] == '@' && (forall k :: 0 <= k < |s| && k != i ==> s[k] != '@') &&
      exists j :: i + 1 < j < |s| - 1 && s[j] == '.'
  }

  /** The character-level check accepts exactly what the regex accepts. */
  lemma EmailCheckIsRegex(s: string)
    ensures ValidEmail(s) <==> EmailPattern(s)
  {
    if ValidEmail(s) {
      var i :| 0 < i < |s| && s[i] == '@' && (forall k :: 0 <= k < |s| && k != i ==> s[k] != '@') &&
        exists j :: i + 1 < j < |s| - 1 && s[j] == '.';
      var j :| i + 1 < j < |s| - 1 && s[j] == '.';
      var a, b, c := s[..i], s[i + 1..j], s[j + 1..];
      forall k | 0 <= k < |a| ensures !IsSpace(a[k]) && a[k] != '@' { assert a[k] == s[k]; }
      forall k | 0 <= k < |b| ensures !IsSpace(b[k]) && b[k] != '@' { assert b[k] == s[i + 1 + k]; }
      forall k | 0 <= k < |c| ensures !IsSpace(c[k]) && c[k] != '@' { assert c[k] == s[j + 1 + k]; }
      assert s == a + "@" + b + "." + c;
      assert EmailPart(a) && EmailPart(b) && EmailPart(c);
      assert EmailPattern(s);
    }
    if EmailPattern(s) {
      var a, b, c :| EmailPart(a) && EmailPart(b) && EmailPart(c) && s == a + "@" + b + "." + c;
      var i, j := |a|, |a| + 1 + |b|;
      assert s[i] == '@' && s[j] == '.';
      forall k | 0 <= k < |s| ensures !IsSpace(s[k]) && (k != i && k != j ==> s[k] != '@') {
        if k < i {
          assert s[k] == a[k];
        } else if i < k < j {
          assert s[k] == b[k - i - 1];
        } else if j < k {
          assert s[k] == c[k - j - 1];
        }
      }
      assert i + 1 < j < |s| - 1;
      assert forall k :: 0 <= k < |s| && k != i ==> s[k] != '@';
    }
  }

  /** `a@b.co` passes. */
  lemma EmailAccepted()
    ensures ValidEmail("a@b.co")
  {
    var e := "a@b.co";
    assert e[1] == '@' && e[3] == '.';
    assert forall k :: 0 <= k < |e| ==> !IsSpace(e[k]);
    assert forall k :: 0 <= k < |e| && k != 1 ==> e[k] != '@';
  }

  /** Dots may also appear before the `@` and before the last dot: `a.b@c.d.e` passes. */
  lemma EmailWithSeveralDots()
    ensures ValidEmail("a.b@c.d.e")
  {
    var e := "a.b@c.d.e";
    assert e[3] == '@' && e[5] == '.';
    assert forall k :: 0 <= k < |e| ==> !IsSpace(e[k]);
    assert forall k :: 0 <= k < |e| && k != 3 ==> e[k] != '@';
  }

  /** A domain without a dot, with a leading dot, or an address with a space is refused. */
  lemma EmailRefused()
    ensures !ValidEmail("a@bco") && !ValidEmail("a@.co") && !ValidEmail("a b@c.d")
  {
    assert !ValidEmail("a@bco") by {
      forall i | 0 < i < 5 && "a@bco"[i] == '@' ensures i == 1 { }
    }
    assert !ValidEmail("a@.co") by {
      forall i | 0 < i < 5 && "a@.co"[i] == '@' ensures i == 1 { }
    }
    assert IsSpace("a b@c.d"[1]);
  }

  // ----- /^(?=.*[a-z])(?=.*[A-Z])(?=.*\d)(?=.*[@$!%*?&])[A-Za-z\d@$!%*?&]{8,}$/ -----

  datatype CharClass = Lower | Upper | Digit | Special

  predicate InClass(c: char, cls: CharClass) {
    match cls
    case Lower => 'a' <= c <= 'z'
    case Upper => 'A' <= c <= 'Z'
    case Digit => '0' <= c <= '9'
    case Special => c == '@' || c == '$' || c == '!' || c == '%' || c == '*' || c == '?' || c == '&'
  }

  /** `[A-Za-z\d@$!%*?&]`. */
  predicate Allowed(c: char) {
    InClass(c, Lower) || InClass(c, Upper) || InClass(c, Digit) || InClass(c, Special)
  }

  /** The characters `.` does not match. */
  predicate IsLineTerminator(c: char) {
    c == '\n' || c == '\r' || c == '\U{2028}' || c == '\U{2029}'
  }

  /** `(?=.*[x])` at the start: a character of the class after a stretch without line terminators. */
  ghost predicate Lookahead(p: string, cls: CharClass) {
    exists k :: 0 <= k < |p| && InClass(p[k], cls) && forall m :: 0 <= m < k ==> !IsLineTerminator(p[m])
  }

  /** The password regex as written. */
  ghost predicate PasswordPattern(p: string) {
    Lookahead(p, Lower) && Lookahead(p, Upper) && Lookahead(p, Digit) && Lookahead(p, Special) &&
    |p| >= 8 && forall k :: 0 <= k < |p| ==> Allowed(p[k])
  }

  predicate Contains(p: string, cls: CharClass) {
    exists k :: 0 <= k < |p| && InClass(p[k], cls)
  }

  /**
   * At least eight characters, every one a letter, a digit or one of `@$!%*?&`, with a
   * lower-case letter, an upper-case letter, a digit and one of those symbols among them.
   */
  predicate StrongPassword(p: string) {
    |p| >= 8 && (forall k :: 0 <= k < |p| ==> Allowed(p[k])) &&
    Contains(p, Lower) && Contains(p, Upper) && Contains(p, Digit) && Contains(p, Special)
  }

  /** Since every allowed character matches `.`, the lookaheads only ask for one of each class. */
  lemma PasswordCheckIsRegex(p: string)
    ensures StrongPassword(p) <==> PasswordPattern(p)
  {
    if StrongPassword(p) {
      forall cls | true ensures Lookahead(p, cls) {
        var k :| 0 <= k < |p| && InClass(p[k], cls);
        assert forall m :: 0 <= m < k ==> Allowed(p[m]) && !IsLineTerminator(p[m]);
      }
    }
  }

  /** `Passw0rd!` passes; without its symbol, or a character shorter, it does not. */
  lemma PasswordExamples()
    ensures StrongPassword("Passw0rd!")
    ensures !StrongPassword("Passw0rd") && !StrongPassword("Pa0rd!x")
  {
    var p := "Passw0rd!";
    assert InClass(p[1], Lower) && InClass(p[0], Upper) && InClass(p[5], Digit) && InClass(p[8], Special);
    assert !Contains("Passw0rd", Special) by {
      forall k | 0 <= k < 8 ensures !InClass("Passw0rd"[k], Special) { }
    }
  }

  // ----- emailRegister -----

  datatype EmailOutcome = EmailRequired | BadEmail | EmailTaken | EmailAvailable

  function RegisterEmail(email: string, registered: bool): EmailOutcome {
    if email == "" then EmailRequired
    else if !ValidEmail(email) then BadEmail
    else if registered then EmailTaken
    else EmailAvailable
  }

  /** An email is available exactly when it is well formed and not yet registered. */
  lemma RegisterEmailAnswers(email: string, registered: bool)
    ensures RegisterEmail(email, registered) == EmailAvailable <==> EmailPattern(email) && !registered
    ensures RegisterEmail(email, registered) == BadEmail <==> email != "" && !EmailPattern(email)
  {
    EmailCheckIsRegex(email);
  }

  // ----- studentSignup -----

  datatype SignupOutcome =
    | SignupFieldsRequired // 400
    | SignupBadEmail       // 400
    | WeakPassword         // 400
    | PasswordMismatch     // 400
    | SignupEmailTaken     // 409
    | SignupNameMissing    // 500: the schema's required `FullName` fails validation on save
    | Registered           // 201

  /**
   * `fullName` is the request's `FullName` (the empty string when missing). The handler
   * never checks it, but the schema declares it required and trimmed, so a name that trims
   * to nothing makes `save()` throw after every check has passed.
   */
  function Signup(fullName: string, email: string, password: string, confirmPassword: string, registered: bool)
    : SignupOutcome
  {
    if email == "" || password == "" || confirmPassword == "" then SignupFieldsRequired
    else if !ValidEmail(email) then SignupBadEmail
    else if !StrongPassword(password) then WeakPassword
    else if password != confirmPassword then PasswordMismatch
    else if registered then SignupEmailTaken
    else if Trim(fullName) == "" then SignupNameMissing
    else Registered
  }

  /**
   * The checks run in the order fields, email, password strength, confirmation, duplicate
   * email, and the first that fails decides; once they all pass, a blank full name fails
   * the save with a server error, and a student is registered exactly when every check
   * passes and the full name is not blank.
   */
  lemma SignupOrder(fullName: string, email: string, password: string, confirmPassword: string, registered: bool)
    ensures var out := Signup(fullName, email, password, confirmPassword, registered);
      var filled := email != "" && password != "" && confirmPassword != "";
      (out == SignupFieldsRequired <==> !filled) &&
      (out == SignupBadEmail <==> filled && !EmailPattern(email)) &&
      (out == WeakPassword <==> filled && EmailPattern(email) && !PasswordPattern(password)) &&
      (out == PasswordMismatch <==>
         filled && EmailPattern(email) && PasswordPattern(password) && password != confirmPassword) &&
      (out == SignupEmailTaken <==>
         filled && EmailPattern(email) && PasswordPattern(password) && password == confirmPassword && registered) &&
      (out == SignupNameMissing <==>
         filled && EmailPattern(email) && PasswordPattern(password) && password == confirmPassword && !registered &&
         Trim(fullName) == "") &&
      (out == Registered <==>
         EmailPattern(email) && PasswordPattern(password) && password == confirmPassword && !registered &&
         Trim(fullName) != "")
  {
    EmailCheckIsRegex(email);
    PasswordCheckIsRegex(password);
  }

  /**
   * A weak password is reported even when the confirmation differs, the email is taken and
   * the full name is missing.
   */
  lemma WeakPasswordBeforeMismatch()
    ensures Signup("", "a@b.co", "short", "other", true) == WeakPassword
  {
    EmailAccepted();
  }

  // ----- studentLogin -----

  datatype LoginOutcome = LoginFieldsRequired | LoginBadEmail | StudentNotFound | WrongPassword | LoggedIn

  /** `found` is the lookup by email; `matches` is the hash comparison. */
  function Login(email: string, password: string, found: bool, matches: bool): LoginOutcome {
    if email == "" || password == "" then LoginFieldsRequired
    else if !ValidEmail(email) then LoginBadEmail
    else if !found then StudentNotFound
    else if !matches then WrongPassword
    else LoggedIn
  }

  /**
   * Both fields and a well-formed email are required before the lookup: those refusals do
   * not depend on the lookup or the hash; a login succeeds exactly when the student exists
   * and the password matches.
   */
  lemma LoginChecks(email: string, password: string, found: bool, matches: bool)
    ensures (email == "" || password == "" || !EmailPattern(email)) ==>
      forall f: bool, m: bool :: Login(email, password, f, m) == Login(email, password, false, false) &&
        Login(email, password, f, m) != LoggedIn
    ensures Login(email, password, found, matches) == LoggedIn <==>
      email != "" && password != "" && EmailPattern(email) && found && matches
  {
    EmailCheckIsRegex(email);
  }

  // ----- updatePraticeMode -----

  const PracticeModes: seq<string> := ["Getting Started", "On My Way", "Confident", "Pro Level"]

  /** `ModeUpdated` is the 200 reply, which carries the requested mode back. */
  datatype ModeOutcome = InvalidMode | ModeStudentNotFound | ModeUpdated(mode: string)

  function UpdatePracticeMode(mode: string, studentExists: bool): ModeOutcome {
    if mode !in PracticeModes then InvalidMode
    else if !studentExists then ModeStudentNotFound
    else ModeUpdated(mode)
  }

  /**
   * Only the four listed modes are accepted, and the mode is checked before the student
   * lookup; the reply echoes the accepted mode. The Student schema declares no
   * `praticeMode` path, so under Mongoose's strict mode the save stores nothing of it.
   */
  lemma PracticeModeWhitelist(mode: string, studentExists: bool)
    ensures var out := UpdatePracticeMode(mode, studentExists);
      (out == InvalidMode <==>
         mode != "Getting Started" && mode != "On My Way" && mode != "Confident" && mode != "Pro Level") &&
      (out.ModeUpdated? ==> out.mode == mode && mode in PracticeModes && studentExists)
  {
  }
}
