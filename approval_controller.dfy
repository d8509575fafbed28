/**
 * Student approval (src/controllers/approvalController.ts): approving or
 * rejecting a stored student writes the decision fields of that student and
 * nothing else. The student table is a map from id to record; the acting user
 * and the clock's instant are parameters.
 */
module ApprovalController {
  import opened Text

  /** A stored student: the decision fields and the rest of the record. */
  datatype Student = Student(
    approvalStatus: string,
    approvedAt: Option<int>,
    approvedBy: Option<string>,
    isActive: bool,
    rejectionNote: Option<string>,
    rollNumber: string,
    firstName: string,
    lastName: string,
    schoolId: int)

  /** The authenticated user, as far as these handlers read it. */
  datatype User = User(schoolId: Option<int>, id: Option<int>)

  /** The HTTP response: the updated student, or an error status and message. */
  datatype Response = Ok(message: string, student: Student) | Error(status: nat, message: string)

  /** `approvedBy`: the school when the user has a (truthy) school id, else the admin's id or `unknown`. */
  function ApprovedBy(user: Option<User>): string {
    if HasSchool(user) then
      "school-" + NumberToString(user.value.schoolId.value)
    else if user.Some? && user.value.id.Some? then
      "admin-" + NumberToString(user.value.id.value)
    else
      "admin-unknown"
  }

  /** `reason || "No reason provided"` */
  function RejectionNote(reason: Option<string>): string {
    if reason.Some? && reason.value != "" then reason.value else "No reason provided"
  }

  /** The record after approval. */
  function Approved(s: Student, user: Option<User>, now: int): Student {
    s.(approvalStatus := "approved", approvedAt := Some(now), approvedBy := Some(ApprovedBy(user)),
       isActive := true)
  }

  /** The record after rejection. */
  function Rejected(s: Student, user: Option<User>, now: int, reason: Option<string>): Student {
    s.(approvalStatus := "rejected", approvedAt := Some(now), approvedBy := Some(ApprovedBy(user)),
       rejectionNote := Some(RejectionNote(reason)), isActive := false)
  }

  /** The rest of the record, which neither decision touches. */
  predicate SameProfile(a: Student, b: Student) {
    a.rollNumber == b.rollNumber && a.firstName == b.firstName && a.lastName == b.lastName
    && a.schoolId == b.schoolId
  }

  /** The student table. */
  class StudentTable {
    var students: map<int, Student>

    constructor (initial: map<int, Student>)
      ensures students == initial
    {
      students := initial;
    }

    /**
     * `approveStudent`: `id` is `Number(req.params.id)`, `None` when it is not
     * a number (a query error, reported as 500); a missing student is Prisma's
     * P2025, reported as 404.
     */
    method ApproveStudent(id: Option<int>, user: Option<User>, now: int) returns (r: Response)
      modifies this
      ensures id.None? ==> r == Error(500, "Server error") && students == old(students)
      ensures id.Some? && id.value !in old(students) ==>
        r == Error(404, "Student not found") && students == old(students)
      ensures id.Some? && id.value in old(students) ==>
        var updated := Approved(old(students)[id.value], user, now);
        r == Ok("✅ Student approved", updated) && students == old(students)[id.value := updated]
    {
      if id.None? {
        return Error(500, "Server error");
      }
      if id.value !in students {
        return Error(404, "Student not found");
      }
      var updated := Approved(students[id.value], user, now);
      students := students[id.value := updated];
      r := Ok("✅ Student approved", updated);
    }

    /** `rejectStudent`: as approval, with the rejection note and `isActive` false. */
    method RejectStudent(id: Option<int>, reason: Option<string>, user: Option<User>, now: int)
      returns (r: Response)
      modifies this
      ensures id.None? ==> r == Error(500, "Server error") && students == old(students)
      ensures id.Some? && id.value !in old(students) ==>
        r == Error(404, "Student not found") && students == old(students)
      ensures id.Some? && id.value in old(students) ==>
        var updated := Rejected(old(students)[id.value], user, now, reason);
        r == Ok("🚫 Student rejected", updated) && students == old(students)[id.value := updated]
    {
      if id.None? {
        return Error(500, "Server error");
      }
      if id.value !in students {
        return Error(404, "Student not found");
      }
      var updated := Rejected(students[id.value], user, now, reason);
      students := students[id.value := updated];
      r := Ok("🚫 Student rejected", updated);
    }
  }

  // ------------------------------------------------------------ properties

  /** Approval: status "approved", active, decided now by the acting user; the profile and any earlier rejection note are kept. */
  lemma ApproveWrites(s: Student, user: Option<User>, now: int)
    ensures var a := Approved(s, user, now);
      a.approvalStatus == "approved" && a.isActive && a.approvedAt == Some(now)
      && a.approvedBy == Some(ApprovedBy(user))
      && a.rejectionNote == s.rejectionNote && SameProfile(a, s)
  {
  }

  /** Rejection: status "rejected", inactive, with a note; the profile is kept. */
  lemma RejectWrites(s: Student, user: Option<User>, now: int, reason: Option<string>)
    ensures var j := Rejected(s, user, now, reason);
      j.approvalStatus == "rejected" && !j.isActive && j.approvedAt == Some(now)
      && j.approvedBy == Some(ApprovedBy(user))
      && j.rejectionNote.Some? && j.rejectionNote.value != "" && SameProfile(j, s)
  {
  }

  /** The note is the reason when one is given, else "No reason provided". */
  lemma RejectionNoteDefault(reason: Option<string>)
    ensures reason.Some? && reason.value != "" ==> RejectionNote(reason) == reason.value
    ensures reason.None? || reason.value == "" ==> RejectionNote(reason) == "No reason provided"
  {
  }

  /** Whether `admin?.schoolId` is truthy. */
  predicate HasSchool(user: Option<User>) {
    user.Some? && user.value.schoolId.Some? && user.value.schoolId.value != 0
  }

  /** The three forms of `approvedBy`, told apart by their prefix. */
  lemma ApprovedByForms(user: Option<User>)
    ensures HasSchool(user) ==>
      ApprovedBy(user) == "school-" + NumberToString(user.value.schoolId.value)
      && ApprovedBy(user)[..7] == "school-"
    ensures (!HasSchool(user) && user.Some? && user.value.id.Some?) ==>
      ApprovedBy(user) == "admin-" + NumberToString(user.value.id.value)
      && ApprovedBy(user)[..6] == "admin-"
    ensures (!HasSchool(user) && (user.None? || user.value.id.None?)) ==>
      ApprovedBy(user) == "admin-unknown"
  {
  }

  /** A school id of 0 is falsy: the admin form is used. */
  lemma ZeroSchoolIdFallsBack(id: int)
    ensures ApprovedBy(Some(User(Some(0), Some(id)))) == "admin-" + NumberToString(id)
  {
  }

  /** A later decision overrides an earlier one on the decision fields only. */
  lemma LaterDecisionWins(s: Student, u1: Option<User>, u2: Option<User>, t1: int, t2: int, reason: Option<string>)
    ensures Approved(Rejected(s, u1, t1, reason), u2, t2)
      == Approved(s, u2, t2).(rejectionNote := Some(RejectionNote(reason)))
    ensures Rejected(Approved(s, u1, t1), u2, t2, reason) == Rejected(s, u2, t2, reason)
  {
  }
}
