/**
 * Subscriptions: `createSubscriptionOrder` refuses a second order for a plan the student
 * still holds, and `verifySubscriptionPayment` checks the request, records the payment,
 * creates the subscription, sets the student's plan and merges the course into the
 * student's enrollment.
 *
 * Times are milliseconds since the epoch. The payment provider's order id and the HMAC
 * signature it expects are inputs; the payment, subscription and student collections are
 * sequences in natural order.
 */
module Subscriptions {
  import opened Wrappers
  import opened Collections

  const MsPerDay: int := 86400000

  datatype Plan = Plan(id: string, name: string, amount: real, durationInDays: int)

  /** The plan fields of a student record. */
  datatype StudentPlan = StudentPlan(id: string, currentPlan: Option<string>, planExpiryDate: Option<int>)

  datatype PaymentStatus = Created | Paid | Failed

  datatype Payment = Payment(orderId: string, paymentId: string, signature: string,
                             amount: real, userId: string, status: PaymentStatus)

  // ----- createSubscriptionOrder -----

  /** The student's current plan is this plan and its expiry date lies strictly after `now`. */
  predicate HoldsPlan(student: StudentPlan, plan: Plan, now: int) {
    student.currentPlan == Some(plan.name) && student.planExpiryDate.Some? && student.planExpiryDate.value > now
  }

  datatype OrderOutcome =
    | InvalidPlan                                                     // 404
    | InvalidStudent                                                  // 404
    | PlanStillActive                                                 // 400
    | OrderCreated(orderId: string, orderAmount: real, payment: Payment) // 201

  /** The outcome and the payment collection afterwards. */
  function CreateOrder(studentId: string, plan: Option<Plan>, student: Option<StudentPlan>,
                       orderId: string, now: int, payments: seq<Payment>): (OrderOutcome, seq<Payment>)
  {
    if plan.None? then (InvalidPlan, payments)
    else if student.None? then (InvalidStudent, payments)
    else if HoldsPlan(student.value, plan.value, now) then (PlanStillActive, payments)
    else
      var payment := Payment(orderId, "", "", plan.value.amount, studentId, Created);
      (OrderCreated(orderId, plan.value.amount * 100.0, payment), payments + [payment])
  }

  /**
   * The plan is looked up before the student; an order is refused exactly when the student
   * holds the same plan with an expiry strictly in the future (an expiry at `now` no longer
   * counts); otherwise the order asks for the amount in paise and a `created` payment of the
   * plan amount is recorded. A refused order records nothing.
   */
  lemma OrderChecks(studentId: string, plan: Option<Plan>, student: Option<StudentPlan>,
                    orderId: string, now: int, payments: seq<Payment>)
    ensures var (out, after) := CreateOrder(studentId, plan, student, orderId, now, payments);
      (out == InvalidPlan <==> plan.None?) &&
      (out == InvalidStudent <==> plan.Some? && student.None?) &&
      (out == PlanStillActive <==> plan.Some? && student.Some? && HoldsPlan(student.value, plan.value, now)) &&
      (!out.OrderCreated? ==> after == payments)
    ensures var (out, after) := CreateOrder(studentId, plan, student, orderId, now, payments);
      out.OrderCreated? ==>
        plan.Some? && out.orderAmount == plan.value.amount * 100.0 &&
        out.payment.amount == plan.value.amount && out.payment.status == Created &&
        out.payment.userId == studentId && out.payment.orderId == orderId &&
        after == payments + [out.payment]
  {
  }

  // ----- verifySubscriptionPayment -----

  datatype SubscriptionRecord = SubscriptionRecord(studentId: string, planId: string, startDate: int,
                                                   endDate: int, paymentId: string, orderId: string)

  /** What the verification handler reads and writes. */
  datatype Billing = Billing(payments: seq<Payment>, subscriptions: seq<SubscriptionRecord>,
                             students: seq<StudentPlan>)

  /** Missing fields are empty strings; `preferredSubjects` is `None` unless it is an array. */
  datatype VerifyRequest = VerifyRequest(orderId: string, paymentId: string, signature: string,
                                         planId: string, studentId: string, courseId: string,
                                         preferredSubjects: Option<seq<string>>)

  datatype VerifyOutcome =
    | VerifyMissingFields                                                  // 400
    | VerificationFailed                                                   // 400
    | VerifyInvalidPlan                                                    // 404
    | Activated(planName: string, amount: real, startDate: int, endDate: int) // 200

  predicate HasRequiredFields(req: VerifyRequest) {
    req.orderId != "" && req.paymentId != "" && req.signature != "" &&
    req.planId != "" && req.studentId != "" && req.courseId != ""
  }

  /** `setDate(getDate() + days)`, as a whole number of days. */
  function AddDays(t: int, days: int): int {
    t + days * MsPerDay
  }

  /** `findOneAndUpdate({ orderId }, ...)`: the first payment of the order is rewritten. */
  function UpdatePayment(payments: seq<Payment>, orderId: string, f: Payment -> Payment): (r: seq<Payment>)
    ensures |r| == |payments|
    ensures forall k :: 0 <= k < |payments| ==>
      r[k] == (if payments[k].orderId == orderId && (forall j :: 0 <= j < k ==> payments[j].orderId != orderId)
               then f(payments[k]) else payments[k])
  {
    match FindIndex(payments, (p: Payment) => p.orderId == orderId)
    case Some(i) => payments[i := f(payments[i])]
    case None => payments
  }

  /** `Student.findByIdAndUpdate(studentId, ...)`. */
  function UpdateStudent(students: seq<StudentPlan>, studentId: string, name: string, expiry: int)
    : (r: seq<StudentPlan>)
    ensures |r| == |students|
    ensures forall k :: 0 <= k < |students| ==>
      r[k] == (if students[k].id == studentId && (forall j :: 0 <= j < k ==> students[j].id != studentId)
               then students[k].(currentPlan := Some(name), planExpiryDate := Some(expiry)) else students[k])
  {
    match FindIndex(students, (s: StudentPlan) => s.id == studentId)
    case Some(i) => students[i := students[i].(currentPlan := Some(name), planExpiryDate := Some(expiry))]
    case None => students
  }

  function VerifyPayment(req: VerifyRequest, expectedSignature: string, plan: Option<Plan>, now: int,
                         b: Billing): (VerifyOutcome, Billing)
  {
    if !HasRequiredFields(req) then (VerifyMissingFields, b)
    else if expectedSignature != req.signature then
      (VerificationFailed, b.(payments := UpdatePayment(b.payments, req.orderId, (p: Payment) => p.(status := Failed))))
    else if plan.None? then (VerifyInvalidPlan, b)
    else
      var endDate := AddDays(now, plan.value.durationInDays);
      var sub := SubscriptionRecord(req.studentId, req.planId, now, endDate, req.paymentId, req.orderId);
      (Activated(plan.value.name, plan.value.amount, now, endDate),
       Billing(UpdatePayment(b.payments, req.orderId,
                             (p: Payment) => p.(paymentId := req.paymentId, signature := req.signature, status := Paid)),
               b.subscriptions + [sub],
               UpdateStudent(b.students, req.studentId, plan.value.name, endDate)))
  }

  /**
   * The six ids are checked first and a missing one changes nothing; a wrong signature
   * only marks the order's payment failed; a valid payment for an unknown plan changes
   * nothing (the payment stays `created`).
   */
  lemma VerifyRefusals(req: VerifyRequest, expectedSignature: string, plan: Option<Plan>, now: int, b: Billing)
    ensures var (out, after) := VerifyPayment(req, expectedSignature, plan, now, b);
      (out == VerifyMissingFields <==> !HasRequiredFields(req)) &&
      (out == VerifyMissingFields ==> after == b) &&
      (out == VerificationFailed <==> HasRequiredFields(req) && expectedSignature != req.signature) &&
      (out == VerificationFailed ==>
         after.subscriptions == b.subscriptions && after.students == b.students &&
         after.payments == UpdatePayment(b.payments, req.orderId, (p: Payment) => p.(status := Failed))) &&
      (out == VerifyInvalidPlan <==> HasRequiredFields(req) && expectedSignature == req.signature && plan.None?) &&
      (out == VerifyInvalidPlan ==> after == b)
  {
  }

  /**
   * A verified payment for a known plan runs `durationInDays` days from now, adds exactly
   * one subscription at the end, marks the order's payment paid, and gives the student the
   * plan with that expiry.
   */
  lemma VerifyActivates(req: VerifyRequest, expectedSignature: string, plan: Option<Plan>, now: int, b: Billing)
    requires VerifyPayment(req, expectedSignature, plan, now, b).0.Activated?
    ensures var (out, after) := VerifyPayment(req, expectedSignature, plan, now, b);
      HasRequiredFields(req) && expectedSignature == req.signature && plan.Some? &&
      out.endDate - out.startDate == plan.value.durationInDays * MsPerDay && out.startDate == now &&
      after.subscriptions == b.subscriptions +
        [SubscriptionRecord(req.studentId, req.planId, now, out.endDate, req.paymentId, req.orderId)]
    ensures var (out, after) := VerifyPayment(req, expectedSignature, plan, now, b);
      forall i :: 0 <= i < |b.students| && b.students[i].id == req.studentId &&
                  (forall k :: 0 <= k < i ==> b.students[k].id != req.studentId) ==>
        after.students[i] == b.students[i].(currentPlan := Some(plan.value.name), planExpiryDate := Some(out.endDate))
    ensures var (out, after) := VerifyPayment(req, expectedSignature, plan, now, b);
      forall i :: 0 <= i < |b.payments| && b.payments[i].orderId == req.orderId &&
                  (forall k :: 0 <= k < i ==> b.payments[k].orderId != req.orderId) ==>
        after.payments[i] == b.payments[i].(paymentId := req.paymentId, signature := req.signature, status := Paid)
  {
    var m := (s: StudentPlan) => s.id == req.studentId;
    forall i | 0 <= i < |b.students| && b.students[i].id == req.studentId &&
               (forall k :: 0 <= k < i ==> b.students[k].id != req.studentId)
      ensures FindIndex(b.students, m) == Some(i)
    {
      assert m(b.students[i]);
      assert forall k :: 0 <= k < i ==> !m(b.students[k]);
    }
    var q := (p: Payment) => p.orderId == req.orderId;
    forall i | 0 <= i < |b.payments| && b.payments[i].orderId == req.orderId &&
               (forall k :: 0 <= k < i ==> b.payments[k].orderId != req.orderId)
      ensures FindIndex(b.payments, q) == Some(i)
    {
      assert q(b.payments[i]);
      assert forall k :: 0 <= k < i ==> !q(b.payments[k]);
    }
  }

  /**
   * Once a plan of positive duration is activated, the student holds it: another order for
   * the same plan is refused at any time before the new expiry date.
   */
  lemma ActivationBlocksReorder(req: VerifyRequest, expectedSignature: string, plan: Plan, now: int,
                                b: Billing, i: nat, later: int, orderId: string)
    requires VerifyPayment(req, expectedSignature, Some(plan), now, b).0.Activated?
    requires i < |b.students| && b.students[i].id == req.studentId
    requires forall k :: 0 <= k < i ==> b.students[k].id != req.studentId
    requires plan.durationInDays > 0 && now <= later < AddDays(now, plan.durationInDays)
    ensures var after := VerifyPayment(req, expectedSignature, Some(plan), now, b).1;
      CreateOrder(req.studentId, Some(plan), Some(after.students[i]), orderId, later, after.payments).0 == PlanStillActive
  {
    VerifyActivates(req, expectedSignature, Some(plan), now, b);
  }

  // ----- the enrollment merge -----

  datatype CourseEnrollment = CourseEnrollment(courseId: string, selectedSubjects: seq<string>)

  function OfCourse(courseId: string): CourseEnrollment -> bool {
    (c: CourseEnrollment) => c.courseId == courseId
  }

  /**
   * The course list after enrolling in `courseId` with `preferred`: an enrolled course's
   * subjects become the first-occurrence merge of old and preferred, a new course is
   * appended with its preferred subjects without repeats.
   */
  function Enrolled(courses: seq<CourseEnrollment>, courseId: string, preferred: seq<string>)
    : seq<CourseEnrollment>
  {
    match FindIndex(courses, OfCourse(courseId))
    case Some(i) => courses[i := courses[i].(selectedSubjects := Dedupe(courses[i].selectedSubjects + preferred))]
    case None => courses + [CourseEnrollment(courseId, Dedupe(preferred))]
  }

  /** Enrollment happens only for a non-empty array of preferred subjects. */
  predicate ShouldEnroll(preferred: Option<seq<string>>) {
    preferred.Some? && preferred.value != []
  }

  /** A student's enrollment document. */
  class Enrollment {
    var studentId: string
    var enrolledCourses: seq<CourseEnrollment>

    /** `new Enrollment({ studentId, enrolledCourses: [] })`. */
    constructor (studentId: string)
      ensures this.studentId == studentId && enrolledCourses == []
    {
      this.studentId := studentId;
      enrolledCourses := [];
    }

    /** The `findIndex` and then either the assignment at the index or the `push`. */
    method Enroll(courseId: string, preferred: seq<string>)
      modifies this
      ensures enrolledCourses == Enrolled(old(enrolledCourses), courseId, preferred)
      ensures studentId == old(studentId)
    {
      var existing := FindIndex(enrolledCourses, OfCourse(courseId));
      if existing.Some? {
        var i := existing.value;
        var merged := Dedupe(enrolledCourses[i].selectedSubjects + preferred);
        enrolledCourses := enrolledCourses[i := enrolledCourses[i].(selectedSubjects := merged)];
      } else {
        enrolledCourses := enrolledCourses + [CourseEnrollment(courseId, Dedupe(preferred))];
      }
    }
  }

  /**
   * Lines 114-141: with no preferred subjects nothing is touched; otherwise the student's
   * enrollment, or a new one when there is none, is enrolled in the course.
   */
  method AutoEnroll(enrollment: Enrollment?, studentId: string, courseId: string,
                    preferred: Option<seq<string>>) returns (e: Enrollment?)
    modifies enrollment
    ensures !ShouldEnroll(preferred) ==> e == enrollment && (enrollment != null ==> unchanged(enrollment))
    ensures ShouldEnroll(preferred) ==>
      e != null &&
      (enrollment != null ==> e == enrollment && e.studentId == old(enrollment.studentId)) &&
      (enrollment == null ==> fresh(e) && e.studentId == studentId) &&
      e.enrolledCourses == Enrolled(if enrollment == null then [] else old(enrollment.enrolledCourses),
                                    courseId, preferred.value)
  {
    e := enrollment;
    if ShouldEnroll(preferred) {
      if e == null {
        e := new Enrollment(studentId);
      }
      e.Enroll(courseId, preferred.value);
    }
  }

  /**
   * Enrolling in a course the student already has keeps the list's length and every other
   * course, and leaves that course with every old and preferred subject, once each, the old
   * ones (when they had no repeats) first and in order.
   */
  lemma EnrollExisting(courses: seq<CourseEnrollment>, courseId: string, preferred: seq<string>, i: nat)
    requires i < |courses| && courses[i].courseId == courseId
    requires forall k :: 0 <= k < i ==> courses[k].courseId != courseId
    ensures var r := Enrolled(courses, courseId, preferred);
      var list := r[i].selectedSubjects;
      |r| == |courses| && r[i].courseId == courseId &&
      (forall k :: 0 <= k < |courses| && k != i ==> r[k] == courses[k]) &&
      (forall x :: x in list <==> x in courses[i].selectedSubjects || x in preferred) &&
      (forall a, b :: 0 <= a < b < |list| ==> list[a] != list[b])
    ensures var list := Enrolled(courses, courseId, preferred)[i].selectedSubjects;
      var old_ := courses[i].selectedSubjects;
      Dedupe(old_) == old_ ==> |old_| <= |list| && list[..|old_|] == old_
  {
    assert FindIndex(courses, OfCourse(courseId)) == Some(i) by {
      assert OfCourse(courseId)(courses[i]);
      assert forall k :: 0 <= k < i ==> !OfCourse(courseId)(courses[k]);
    }
    DedupeMembers(courses[i].selectedSubjects + preferred);
    DedupePrefixStable(courses[i].selectedSubjects, preferred, Self);
  }

  /** A new course is appended after all the others with its preferred subjects, once each. */
  lemma EnrollNew(courses: seq<CourseEnrollment>, courseId: string, preferred: seq<string>)
    requires forall k :: 0 <= k < |courses| ==> courses[k].courseId != courseId
    ensures var r := Enrolled(courses, courseId, preferred);
      var list := r[|courses|].selectedSubjects;
      |r| == |courses| + 1 && r[..|courses|] == courses && r[|courses|].courseId == courseId &&
      (forall x :: x in list <==> x in preferred) &&
      (forall a, b :: 0 <= a < b < |list| ==> list[a] != list[b])
  {
    DedupeMembers(preferred);
  }

  /** No course is ever listed twice: enrolling keeps the course ids of the list distinct. */
  lemma EnrollKeepsCoursesDistinct(courses: seq<CourseEnrollment>, courseId: string, preferred: seq<string>)
    requires forall a, b :: 0 <= a < b < |courses| ==> courses[a].courseId != courses[b].courseId
    ensures var r := Enrolled(courses, courseId, preferred);
      forall a, b :: 0 <= a < b < |r| ==> r[a].courseId != r[b].courseId
  {
  }

  /** Enrolling twice in the same course with the same subjects is the same as enrolling once. */
  lemma EnrollTwiceIsEnrollOnce(courses: seq<CourseEnrollment>, courseId: string, preferred: seq<string>)
    ensures Enrolled(Enrolled(courses, courseId, preferred), courseId, preferred) ==
            Enrolled(courses, courseId, preferred)
  {
    var once := Enrolled(courses, courseId, preferred);
    match FindIndex(courses, OfCourse(courseId))
    case Some(i) =>
      MergeTwiceIsMergeOnce(courses[i].selectedSubjects, preferred);
      assert FindIndex(once, OfCourse(courseId)) == Some(i) by {
        assert OfCourse(courseId)(once[i]);
        assert forall k :: 0 <= k < i ==> once[k] == courses[k] && !OfCourse(courseId)(once[k]);
      }
    case None =>
      MergeTwiceIsMergeOnce([], preferred);
      assert [] + preferred == preferred;
      assert FindIndex(once, OfCourse(courseId)) == Some(|courses|) by {
        assert OfCourse(courseId)(once[|courses|]);
        assert forall k :: 0 <= k < |courses| ==> once[k] == courses[k] && !OfCourse(courseId)(once[k]);
      }
  }
}
