/**
 * The student endpoints: submitting a clearance request (which seeds the
 * phase-1 approval records), viewing the status of one's requests, and the
 * overall-approved gate in front of the certificate placeholder.
 */
module Students {
  import opened Schema

  // ---------------------------------------------------------------------------
  // Submission
  // ---------------------------------------------------------------------------

  datatype SubmitError =
    | NotAStudent              // 403 'User is not a student'
    | InvalidType              // 400 'Invalid clearance type'
    | ScheduleClosed           // 400 'Clearance system is closed for this type'
    | DuplicateRequest         // 400 'You have already submitted a clearance request for this schedule.'
    | NoApprover(role: string) // 500 'No <role> found ...', after ROLLBACK

  /** An active schedule for the type whose window contains `now`, both ends included (SQL BETWEEN). */
  predicate ScheduleOpen(schedules: seq<Schedule>, typeId: nat, now: int)
  {
    exists sc :: sc in schedules && sc.typeId == typeId && sc.isActive && sc.startTime <= now <= sc.endTime
  }

  /** The student already has a request of this type, whatever its status. */
  predicate HasRequest(requests: seq<Request>, studentId: nat, typeId: nat)
  {
    exists q :: q in requests && q.studentId == studentId && q.typeId == typeId
  }

  /** The checks made before anything is written; on success, the submitting student. */
  function Precheck(dir: Directory, requests: seq<Request>, userId: nat, typeId: nat, now: int): (r: Result<Student, SubmitError>)
    ensures StudentOfUser(dir.students, userId).None? ==> r == Err(NotAStudent)
    ensures StudentOfUser(dir.students, userId).Some? && typeId !in dir.clearanceTypes ==> r == Err(InvalidType)
    ensures (StudentOfUser(dir.students, userId).Some? && typeId in dir.clearanceTypes &&
             !ScheduleOpen(dir.schedules, typeId, now)) ==> r == Err(ScheduleClosed)
    ensures (StudentOfUser(dir.students, userId).Some? && typeId in dir.clearanceTypes &&
             ScheduleOpen(dir.schedules, typeId, now) &&
             HasRequest(requests, StudentOfUser(dir.students, userId).value.studentId, typeId)) ==> r == Err(DuplicateRequest)
    ensures r.Ok? <==> StudentOfUser(dir.students, userId).Some? && typeId in dir.clearanceTypes &&
                       ScheduleOpen(dir.schedules, typeId, now) &&
                       !HasRequest(requests, StudentOfUser(dir.students, userId).value.studentId, typeId)
    ensures r.Ok? ==> r.value == StudentOfUser(dir.students, userId).value
  {
    match StudentOfUser(dir.students, userId)
    case None => Err(NotAStudent)
    case Some(s) =>
      if typeId !in dir.clearanceTypes then Err(InvalidType)
      else if !ScheduleOpen(dir.schedules, typeId, now) then Err(ScheduleClosed)
      else if HasRequest(requests, s.studentId, typeId) then Err(DuplicateRequest)
      else Ok(s)
  }

  /**
   * The phase-1 approvers of a student, in insertion order: the head of the
   * student's department, the librarian, the cafeteria and, unless the
   * student is a PhD student, the proctor of the student's block. The first
   * one missing is the error.
   */
  function PhaseOneApprovers(dir: Directory, s: Student): (r: Result<seq<nat>, SubmitError>)
    ensures r.Ok? ==> |r.value| == RequiredPhaseOneCount(s.studyLevel)
    ensures r.Ok? ==> s.departmentId in dir.departments &&
                      RoleRow(r.value[0], DepartmentHead, Some(dir.departments[s.departmentId])) in dir.roles
    ensures r.Ok? ==> RoleRow(r.value[1], Librarian, None) in dir.roles && RoleRow(r.value[2], Cafeteria, None) in dir.roles
    ensures r.Ok? && !IsPhd(s.studyLevel) ==>
              s.blockId.Some? && s.blockId.value in dir.blocks &&
              RoleRow(r.value[3], Dormitory, Some(dir.blocks[s.blockId.value])) in dir.roles
    ensures r.Err? <==> DepartmentHeadFor(dir, s.departmentId).None? || UnscopedStaff(dir.roles, Librarian).None? ||
                        UnscopedStaff(dir.roles, Cafeteria).None? ||
                        (!IsPhd(s.studyLevel) && DormitoryFor(dir, s.blockId).None?)
    ensures DepartmentHeadFor(dir, s.departmentId).None? ==> r == Err(NoApprover(DepartmentHead))
    ensures DepartmentHeadFor(dir, s.departmentId).Some? && UnscopedStaff(dir.roles, Librarian).None? ==>
              r == Err(NoApprover(Librarian))
    ensures (DepartmentHeadFor(dir, s.departmentId).Some? && UnscopedStaff(dir.roles, Librarian).Some? &&
             UnscopedStaff(dir.roles, Cafeteria).None?) ==> r == Err(NoApprover(Cafeteria))
    ensures (DepartmentHeadFor(dir, s.departmentId).Some? && UnscopedStaff(dir.roles, Librarian).Some? &&
             UnscopedStaff(dir.roles, Cafeteria).Some? && !IsPhd(s.studyLevel) && DormitoryFor(dir, s.blockId).None?) ==>
              r == Err(NoApprover(Dormitory))
  {
    match DepartmentHeadFor(dir, s.departmentId)
    case None => Err(NoApprover(DepartmentHead))
    case Some(head) =>
      match UnscopedStaff(dir.roles, Librarian)
      case None => Err(NoApprover(Librarian))
      case Some(librarian) =>
        match UnscopedStaff(dir.roles, Cafeteria)
        case None => Err(NoApprover(Cafeteria))
        case Some(cafeteria) =>
          if IsPhd(s.studyLevel) then Ok([head, librarian, cafeteria])
          else
            match DormitoryFor(dir, s.blockId)
            case None => Err(NoApprover(Dormitory))
            case Some(proctor) => Ok([head, librarian, cafeteria, proctor])
  }

  /** The pending records seeded for a new request, one per approver, without comment. */
  function SeedRecords(requestId: nat, approvers: seq<nat>): (r: seq<Approval>)
    ensures |r| == |approvers|
    ensures forall i :: 0 <= i < |r| ==> r[i] == Approval(requestId, approvers[i], Pending, None)
  {
    seq(|approvers|, i requires 0 <= i < |approvers| => Approval(requestId, approvers[i], Pending, None))
  }

  lemma SeedRecordsSnoc(requestId: nat, approvers: seq<nat>, x: nat)
    ensures SeedRecords(requestId, approvers + [x]) == SeedRecords(requestId, approvers) + [Approval(requestId, x, Pending, None)]
  {
    var longer, shorter := SeedRecords(requestId, approvers + [x]), SeedRecords(requestId, approvers);
    assert forall i :: 0 <= i < |approvers| ==> longer[i] == shorter[i];
  }

  /** One phase-1 insert: the table gains the pending record of `who`. */
  method SeedOne(approvals: ApprovalTable, ghost base: seq<Approval>, requestId: nat, ghost seeded: seq<nat>, who: nat)
    requires approvals.rows == base + SeedRecords(requestId, seeded)
    modifies approvals
    ensures approvals.rows == base + SeedRecords(requestId, seeded + [who])
  {
    approvals.Insert(Approval(requestId, who, Pending, None));
    SeedRecordsSnoc(requestId, seeded, who);
  }

  /**
   * The phase-1 inserts of a submission, one approver at a time. On success
   * the table has gained one pending record per approver; on failure the
   * records inserted so far are still there, for the caller to roll back.
   */
  method InsertPhaseOne(approvals: ApprovalTable, dir: Directory, s: Student, requestId: nat)
    returns (r: Result<seq<nat>, SubmitError>)
    modifies approvals
    ensures r == PhaseOneApprovers(dir, s)
    ensures r.Ok? ==> approvals.rows == old(approvals.rows) + SeedRecords(requestId, r.value)
  {
    ghost var base := approvals.rows;
    assert SeedRecords(requestId, []) == [] && base + [] == base;
    var head := DepartmentHeadFor(dir, s.departmentId);
    if head.None? {
      return Err(NoApprover(DepartmentHead));
    }
    SeedOne(approvals, base, requestId, [], head.value);
    var seeded := [head.value];

    var librarian := UnscopedStaff(dir.roles, Librarian);
    if librarian.None? {
      return Err(NoApprover(Librarian));
    }
    SeedOne(approvals, base, requestId, seeded, librarian.value);
    seeded := seeded + [librarian.value];

    var cafeteria := UnscopedStaff(dir.roles, Cafeteria);
    if cafeteria.None? {
      return Err(NoApprover(Cafeteria));
    }
    SeedOne(approvals, base, requestId, seeded, cafeteria.value);
    seeded := seeded + [cafeteria.value];

    if !IsPhd(s.studyLevel) {
      var proctor := DormitoryFor(dir, s.blockId);
      if proctor.None? {
        return Err(NoApprover(Dormitory));
      }
      SeedOne(approvals, base, requestId, seeded, proctor.value);
      seeded := seeded + [proctor.value];
      assert seeded == [head.value, librarian.value, cafeteria.value, proctor.value];
    } else {
      assert seeded == [head.value, librarian.value, cafeteria.value];
    }
    r := Ok(seeded);
  }

  /**
   * `submitClearanceRequest`. The checks come first and leave every table as
   * it was. Then the request row is inserted and the phase-1 records one by
   * one; if an approver is missing, ROLLBACK removes the request and the
   * records already inserted, but the AUTO_INCREMENT counter stays advanced.
   */
  method SubmitClearanceRequest(requests: RequestTable, approvals: ApprovalTable, dir: Directory,
                                userId: nat, typeId: nat, now: int)
    returns (r: Result<nat, SubmitError>)
    requires requests.Valid()
    modifies requests, approvals
    ensures requests.Valid()
    ensures Precheck(dir, old(requests.rows), userId, typeId, now).Err? ==>
              r == Err(Precheck(dir, old(requests.rows), userId, typeId, now).error) &&
              requests.rows == old(requests.rows) && requests.nextId == old(requests.nextId) &&
              approvals.rows == old(approvals.rows)
    ensures Precheck(dir, old(requests.rows), userId, typeId, now).Ok? ==>
              var s := Precheck(dir, old(requests.rows), userId, typeId, now).value;
              requests.nextId == old(requests.nextId) + 1 &&
              match PhaseOneApprovers(dir, s)
              case Err(e) =>
                r == Err(e) && requests.rows == old(requests.rows) && approvals.rows == old(approvals.rows)
              case Ok(approvers) =>
                r == Ok(old(requests.nextId)) &&
                requests.rows == old(requests.rows) + [Request(old(requests.nextId), s.studentId, typeId, now)] &&
                approvals.rows == old(approvals.rows) + SeedRecords(old(requests.nextId), approvers)
  {
    var pre := Precheck(dir, requests.rows, userId, typeId, now);
    if pre.Err? {
      return Err(pre.error);
    }
    var s := pre.value;
    var savedRequests, savedApprovals := requests.rows, approvals.rows;

    var id := requests.Insert(s.studentId, typeId, now);
    var seeded := InsertPhaseOne(approvals, dir, s, id);
    if seeded.Err? {
      requests.Restore(savedRequests);
      approvals.Restore(savedApprovals);
      return Err(seeded.error);
    }
    r := Ok(id);
  }

  /**
   * A successful submission adds exactly the request's pending phase-1 records:
   * three for a PhD student, four otherwise, none of them decided.
   */
  lemma SeededPhaseOne(dir: Directory, s: Student, requestId: nat)
    requires PhaseOneApprovers(dir, s).Ok?
    ensures var seeded := SeedRecords(requestId, PhaseOneApprovers(dir, s).value);
            |seeded| == (if IsPhd(s.studyLevel) then 3 else 4) &&
            (forall a :: a in seeded ==> a.requestId == requestId && a.status == Pending && a.comment.None?)
  {
  }

  // ---------------------------------------------------------------------------
  // Status view
  // ---------------------------------------------------------------------------

  /**
   * A row of the `clearance_request_status` view, which is not part of this
   * model: its per-role status columns and overall status are inputs.
   */
  datatype StatusRow = StatusRow(
    requestId: nat, studentId: nat, overallStatus: string,
    departmentHead: Option<string>, librarian: Option<string>, cafeteria: Option<string>,
    dormitory: Option<string>, sport: Option<string>, studentAffair: Option<string>, registrar: Option<string>)

  /** JavaScript `x || fallback` on a nullable string: NULL and "" both fall back. */
  function OrElse(x: Option<string>, fallback: string): (r: string)
    ensures x.Some? && x.value != "" ==> r == x.value
    ensures x.None? || x.value == "" ==> r == fallback
  {
    if x.None? || x.value == "" then fallback else x.value
  }

  datatype DepartmentStatus = DepartmentStatus(name: string, status: string)

  /** The `departments` list of one status row, in the fixed display order; the dormitory is left out for PhD students. */
  function Departments(row: StatusRow, studyLevel: string): (r: seq<DepartmentStatus>)
    ensures |r| == if IsPhd(studyLevel) then 6 else 7
    ensures r[0] == DepartmentStatus("Department Head", OrElse(row.departmentHead, "pending"))
    ensures r[1] == DepartmentStatus("Librarian", OrElse(row.librarian, "pending"))
    ensures r[2] == DepartmentStatus("Cafeteria", OrElse(row.cafeteria, "pending"))
    ensures !IsPhd(studyLevel) ==> r[3] == DepartmentStatus("Dormitory", OrElse(row.dormitory, "skipped"))
    ensures r[|r| - 3] == DepartmentStatus("Sport", OrElse(row.sport, "pending"))
    ensures r[|r| - 2] == DepartmentStatus("Student Affair", OrElse(row.studentAffair, "pending"))
    ensures r[|r| - 1] == DepartmentStatus("Registrar", OrElse(row.registrar, "pending"))
    ensures forall i :: 0 <= i < |r| ==> r[i].name != "Dormitory" || !IsPhd(studyLevel)
  {
    [DepartmentStatus("Department Head", OrElse(row.departmentHead, "pending")),
     DepartmentStatus("Librarian", OrElse(row.librarian, "pending")),
     DepartmentStatus("Cafeteria", OrElse(row.cafeteria, "pending"))]
    + (if IsPhd(studyLevel) then [] else [DepartmentStatus("Dormitory", OrElse(row.dormitory, "skipped"))])
    + [DepartmentStatus("Sport", OrElse(row.sport, "pending")),
       DepartmentStatus("Student Affair", OrElse(row.studentAffair, "pending")),
       DepartmentStatus("Registrar", OrElse(row.registrar, "pending"))]
  }

  /** The `dormitory_status` field: a PhD student's empty or NULL value shows as "skipped"; anything else is kept. */
  function DormitoryStatusField(row: StatusRow, studyLevel: string): (r: Option<string>)
    ensures IsPhd(studyLevel) && (row.dormitory.None? || row.dormitory.value == "") ==> r == Some("skipped")
    ensures !(IsPhd(studyLevel) && (row.dormitory.None? || row.dormitory.value == "")) ==> r == row.dormitory
  {
    if IsPhd(studyLevel) && (row.dormitory.None? || row.dormitory.value == "") then Some("skipped") else row.dormitory
  }

  datatype StatusView = StatusView(row: StatusRow, dormitoryStatus: Option<string>, departments: seq<DepartmentStatus>)

  /**
   * `getClearanceStatus`: every view row of the calling student, with the
   * dormitory field and the departments list worked out from the caller's
   * study level.
   */
  function ClearanceStatus(dir: Directory, view: seq<StatusRow>, userId: nat): (r: Result<seq<StatusView>, SubmitError>)
    ensures r.Err? <==> StudentOfUser(dir.students, userId).None?
    ensures r.Err? ==> r.error == NotAStudent
    ensures r.Ok? ==> var s := StudentOfUser(dir.students, userId).value;
                      forall v :: v in r.value ==> v.row in view && v.row.studentId == s.studentId &&
                                                   v.departments == Departments(v.row, s.studyLevel) &&
                                                   v.dormitoryStatus == DormitoryStatusField(v.row, s.studyLevel)
    ensures r.Ok? ==> forall row :: row in view && row.studentId == StudentOfUser(dir.students, userId).value.studentId ==>
                        exists v :: v in r.value && v.row == row
  {
    match StudentOfUser(dir.students, userId)
    case None => Err(NotAStudent)
    case Some(s) => Ok(ViewsOf(view, s))
  }

  function ViewsOf(view: seq<StatusRow>, s: Student): (r: seq<StatusView>)
    ensures forall v :: v in r ==> v.row in view && v.row.studentId == s.studentId &&
                                   v.departments == Departments(v.row, s.studyLevel) &&
                                   v.dormitoryStatus == DormitoryStatusField(v.row, s.studyLevel)
    ensures forall row :: row in view && row.studentId == s.studentId ==>
                          StatusView(row, DormitoryStatusField(row, s.studyLevel), Departments(row, s.studyLevel)) in r
  {
    if view == [] then []
    else
      (if view[0].studentId == s.studentId
       then [StatusView(view[0], DormitoryStatusField(view[0], s.studyLevel), Departments(view[0], s.studyLevel))]
       else [])
      + ViewsOf(view[1..], s)
  }

  // ---------------------------------------------------------------------------
  // Certificate placeholder
  // ---------------------------------------------------------------------------

  datatype GateError =
    | GateNotAStudent  // 403 'User is not a student'
    | NotApproved      // 400 'Clearance request not approved or not found'

  /**
   * `getClearanceCertificate`: the caller must be a student and the first
   * view row for (request, that student) must have overall status "approved".
   */
  function CertificateGate(dir: Directory, view: seq<StatusRow>, userId: nat, requestId: nat): (r: Result<nat, GateError>)
    ensures StudentOfUser(dir.students, userId).None? ==> r == Err(GateNotAStudent)
    ensures r.Ok? ==> exists row :: row in view && row.requestId == requestId &&
                                    row.studentId == StudentOfUser(dir.students, userId).value.studentId &&
                                    row.overallStatus == "approved"
    ensures StudentOfUser(dir.students, userId).Some? &&
            (forall row :: row in view && row.requestId == requestId &&
                           row.studentId == StudentOfUser(dir.students, userId).value.studentId ==>
                             row.overallStatus == "approved") &&
            (exists row :: row in view && row.requestId == requestId &&
                           row.studentId == StudentOfUser(dir.students, userId).value.studentId) ==>
              r == Ok(requestId)
    ensures StudentOfUser(dir.students, userId).Some? && r.Err? ==> r.error == NotApproved
  {
    match StudentOfUser(dir.students, userId)
    case None => Err(GateNotAStudent)
    case Some(s) =>
      match FirstIndex(view, (row: StatusRow) => row.requestId == requestId && row.studentId == s.studentId)
      case None => Err(NotApproved)
      case Some(i) => if view[i].overallStatus == "approved" then Ok(requestId) else Err(NotApproved)
  }

  /**
   * The certificate gate agrees with the status endpoint: when the gate opens,
   * the caller's own status list shows the request with overall status
   * "approved".
   */
  lemma {:induction false} GateMatchesStatus(dir: Directory, view: seq<StatusRow>, userId: nat, requestId: nat)
    requires CertificateGate(dir, view, userId, requestId).Ok?
    ensures ClearanceStatus(dir, view, userId).Ok?
    ensures exists v :: v in ClearanceStatus(dir, view, userId).value &&
                        v.row.requestId == requestId && v.row.overallStatus == "approved"
  {
    var row :| row in view && row.requestId == requestId &&
               row.studentId == StudentOfUser(dir.students, userId).value.studentId &&
               row.overallStatus == "approved";
    var s := StudentOfUser(dir.students, userId).value;
    assert ClearanceStatus(dir, view, userId).value == ViewsOf(view, s);
    assert StatusView(row, DormitoryStatusField(row, s.studyLevel), Departments(row, s.studyLevel)) in ViewsOf(view, s);
  }
}
