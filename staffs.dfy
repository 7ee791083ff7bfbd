/**
 * The staff endpoints: recording a decision on an approval record (with the
 * prerequisite gates of the later phases and the seeding of the next phase's
 * record) and the role-filtered worklist.
 */
module Staffs {
  import opened Schema

  datatype StaffError =
    | InvalidStatus            // 400 'Invalid status. Must be "approved" or "rejected"'
    | CommentRequired          // 400 'Comment is required for rejection'
    | NoRole                   // 403 'User has no role'
    | NoApproval               // 403 'No pending/approved/rejected approval for this user'
    | PhaseOneIncomplete       // 403 'Phase 1 approvals not complete'
    | SportIncomplete          // 403 'Sport approval not complete'
    | StudentAffairIncomplete  // 403 'Student affair approval not complete'
    | MissingStudent           // 500: `student[0].study_level` on an empty result throws
    | NoStaff(role: string)    // 500 'No <role> staff found'

  // ---------------------------------------------------------------------------
  // The comment check: `!comments || comments.trim() === ''`
  // ---------------------------------------------------------------------------

  /** The characters `String.prototype.trim` removes: ECMAScript WhiteSpace and LineTerminator. */
  predicate IsJsSpace(c: char)
  {
    c == ' ' || c == '\t' || c == '\n' || c == '\r' || c == '\U{B}' || c == '\U{C}' ||
    c == '\U{A0}' || c == '\U{FEFF}' || c == '\U{1680}' || ('\U{2000}' <= c <= '\U{200A}') ||
    c == '\U{2028}' || c == '\U{2029}' || c == '\U{202F}' || c == '\U{205F}' || c == '\U{3000}'
  }

  /** Drops leading white space: the result is the longest suffix not starting with white space. */
  function TrimStart(s: string): (r: string)
    ensures |r| <= |s| && r == s[|s| - |r|..]
    ensures forall i :: 0 <= i < |s| - |r| ==> IsJsSpace(s[i])
    ensures r == [] || !IsJsSpace(r[0])
  {
    if s == [] || !IsJsSpace(s[0]) then s
    else
      var r := TrimStart(s[1..]);
      assert forall i :: 1 <= i < |s| - |r| ==> s[i] == s[1..][i - 1];
      r
  }

  /** Drops trailing white space: the result is the longest prefix not ending with white space. */
  function TrimEnd(s: string): (r: string)
    ensures |r| <= |s| && r == s[..|r|]
    ensures forall i :: |r| <= i < |s| ==> IsJsSpace(s[i])
    ensures r == [] || !IsJsSpace(r[|r| - 1])
  {
    if s == [] || !IsJsSpace(s[|s| - 1]) then s
    else
      var r := TrimEnd(s[..|s| - 1]);
      assert forall i :: |r| <= i < |s| - 1 ==> s[i] == s[..|s| - 1][i];
      r
  }

  /** `s.trim()`: a slice of `s` without white space at either end. */
  function Trim(s: string): (r: string)
    ensures r != [] ==> !IsJsSpace(r[0]) && !IsJsSpace(r[|r| - 1])
    ensures |r| <= |s|
  {
    TrimEnd(TrimStart(s))
  }

  /** Trimming leaves nothing exactly when every character is white space. */
  lemma TrimBlank(s: string)
    ensures Trim(s) == [] <==> forall i :: 0 <= i < |s| ==> IsJsSpace(s[i])
  {
    if Trim(s) == [] {
      assert TrimStart(s) == [];
    }
    if forall i :: 0 <= i < |s| ==> IsJsSpace(s[i]) {
      SpacesTrimAway(s);
    }
  }

  /** A string of white space alone loses every character to TrimStart. */
  lemma {:induction false} SpacesTrimAway(s: string)
    requires forall i :: 0 <= i < |s| ==> IsJsSpace(s[i])
    ensures TrimStart(s) == []
  {
    if s != [] {
      assert forall i :: 0 <= i < |s[1..]| ==> s[1..][i] == s[i + 1];
      SpacesTrimAway(s[1..]);
    }
  }

  /** A rejection without a usable comment: missing, or nothing but white space. */
  predicate Blank(comments: Option<string>)
  {
    comments.None? || Trim(comments.value) == ""
  }

  /** A comment with a visible character is never blank, whatever surrounds it. */
  lemma VisibleCommentNotBlank(pre: string, c: char, post: string)
    requires !IsJsSpace(c)
    ensures !Blank(Some(pre + [c] + post))
  {
    var s := pre + [c] + post;
    assert s[|pre|] == c;
  }

  // ---------------------------------------------------------------------------
  // Admission: validation, role, record, prerequisite gate
  // ---------------------------------------------------------------------------

  /** `['approved', 'rejected'].includes(status)`; a missing status is invalid. */
  function ParseDecision(status: Option<string>): (r: Option<Status>)
    ensures r == Some(Approved) <==> status == Some("approved")
    ensures r == Some(Rejected) <==> status == Some("rejected")
    ensures r != Some(Pending)
  {
    if status == Some("approved") then Some(Approved)
    else if status == Some("rejected") then Some(Rejected)
    else None
  }

  /** The stored comment: `comments || null` for an approval, the comment as sent for a rejection. */
  function StoredComment(decision: Status, comments: Option<string>): (c: Option<string>)
    ensures decision == Approved ==> (c.None? <==> comments.None? || comments.value == "")
    ensures c.Some? ==> c == comments
    ensures decision != Approved ==> c == comments
  {
    if decision == Approved && comments.Some? && comments.value == "" then None else comments
  }

  /**
   * The prerequisite of the acting role, read before the decision is written:
   * sport needs the full phase-1 count (three approved phase-1 records for a
   * PhD student, four otherwise), student_affair an approved sport record and
   * the registrar an approved student_affair record. Counts are over the join
   * with `roles`. None means the gate is open.
   */
  function PrerequisiteGate(rows: seq<Approval>, dir: Directory, requests: seq<Request>, requestId: nat, role: string)
    : (r: Option<StaffError>)
    ensures role == Sport && StudyLevelOf(dir, requests, requestId).None? ==> r == Some(MissingStudent)
    ensures role == Sport && StudyLevelOf(dir, requests, requestId).Some? ==>
              (r.None? <==> ApprovedCount(rows, dir.roles, requestId, PhaseOneRoles) >=
                            RequiredPhaseOneCount(StudyLevelOf(dir, requests, requestId).value))
    ensures role == StudentAffair ==> (r.None? <==> ApprovedCount(rows, dir.roles, requestId, {Sport}) > 0)
    ensures role == Registrar ==> (r.None? <==> ApprovedCount(rows, dir.roles, requestId, {StudentAffair}) > 0)
    ensures role != Sport && role != StudentAffair && role != Registrar ==> r.None?
    ensures role == Sport && StudyLevelOf(dir, requests, requestId).Some? && r.Some? ==> r == Some(PhaseOneIncomplete)
    ensures role == StudentAffair && r.Some? ==> r == Some(SportIncomplete)
    ensures role == Registrar && r.Some? ==> r == Some(StudentAffairIncomplete)
  {
    if role == Sport then
      var count := ApprovedCount(rows, dir.roles, requestId, PhaseOneRoles);
      match StudyLevelOf(dir, requests, requestId)
      case None => Some(MissingStudent)
      case Some(level) => if count < RequiredPhaseOneCount(level) then Some(PhaseOneIncomplete) else None
    else if role == StudentAffair then
      if ApprovedCount(rows, dir.roles, requestId, {Sport}) == 0 then Some(SportIncomplete) else None
    else if role == Registrar then
      if ApprovedCount(rows, dir.roles, requestId, {StudentAffair}) == 0 then Some(StudentAffairIncomplete) else None
    else None
  }

  /** What an admitted request writes: the decision and stored comment, at the user's record, acting as `role`. */
  datatype Admission = Admission(decision: Status, comment: Option<string>, index: nat, role: string)

  /**
   * Everything `approveRequest` checks before it writes. The acting role is
   * the general role of the user's first role row; the record is the user's
   * first record for the request, whatever its status.
   */
  function Admit(rows: seq<Approval>, dir: Directory, requests: seq<Request>, requestId: nat, userId: nat,
                 status: Option<string>, comments: Option<string>): (r: Result<Admission, StaffError>)
    ensures ParseDecision(status).None? ==> r == Err(InvalidStatus)
    ensures status == Some("rejected") && Blank(comments) ==> r == Err(CommentRequired)
    ensures (ParseDecision(status).Some? && !(status == Some("rejected") && Blank(comments)) &&
             RoleOf(dir.roles, userId).None?) ==> r == Err(NoRole)
    ensures (ParseDecision(status).Some? && !(status == Some("rejected") && Blank(comments)) &&
             RoleOf(dir.roles, userId).Some? && !HasRecord(rows, requestId, userId)) ==> r == Err(NoApproval)
    ensures (ParseDecision(status).Some? && !(status == Some("rejected") && Blank(comments)) &&
             RoleOf(dir.roles, userId).Some? && HasRecord(rows, requestId, userId) && r.Err?) ==>
              Some(r.error) == PrerequisiteGate(rows, dir, requests, requestId, RoleOf(dir.roles, userId).value.general)
    ensures r.Ok? <==> ParseDecision(status).Some? && !(status == Some("rejected") && Blank(comments)) &&
                       RoleOf(dir.roles, userId).Some? && HasRecord(rows, requestId, userId) &&
                       PrerequisiteGate(rows, dir, requests, requestId, RoleOf(dir.roles, userId).value.general).None?
    ensures r.Ok? ==> r.value.decision == ParseDecision(status).value &&
                      r.value.comment == StoredComment(r.value.decision, comments) &&
                      r.value.role == RoleOf(dir.roles, userId).value.general &&
                      Some(r.value.index) == RecordIndex(rows, requestId, userId) &&
                      r.value.index < |rows| && rows[r.value.index].requestId == requestId &&
                      rows[r.value.index].userId == userId
    ensures r.Ok? && r.value.decision == Rejected ==> r.value.comment.Some? && Trim(r.value.comment.value) != ""
  {
    match ParseDecision(status)
    case None => Err(InvalidStatus)
    case Some(decision) =>
      if decision == Rejected && Blank(comments) then Err(CommentRequired)
      else
        match RoleOf(dir.roles, userId)
        case None => Err(NoRole)
        case Some(roleRow) =>
          match RecordIndex(rows, requestId, userId)
          case None => Err(NoApproval)
          case Some(i) =>
            match PrerequisiteGate(rows, dir, requests, requestId, roleRow.general)
            case Some(e) => Err(e)
            case None => Ok(Admission(decision, StoredComment(decision, comments), i, roleRow.general))
  }

  // ---------------------------------------------------------------------------
  // Seeding the next phase
  // ---------------------------------------------------------------------------

  /** The role whose record an approval by `role` may seed. */
  function NextRole(role: string): (r: Option<string>)
    ensures role in PhaseOneRoles ==> r == Some(Sport)
    ensures role == Sport ==> r == Some(StudentAffair)
    ensures role == StudentAffair ==> r == Some(Registrar)
    ensures role !in PhaseOneRoles && role != Sport && role != StudentAffair ==> r.None?
  {
    if role in PhaseOneRoles then Some(Sport)
    else if role == Sport then Some(StudentAffair)
    else if role == StudentAffair then Some(Registrar)
    else None
  }

  /**
   * The record an approval seeds, computed on the table after the decision was
   * written. A phase-1 approval seeds sport only when the phase-1 count is
   * exactly the required one; sport seeds student_affair and student_affair
   * the registrar. The holder is the first unscoped staff member of the next
   * role, and nothing is seeded when that user already has a record.
   */
  function NextPhase(rows: seq<Approval>, dir: Directory, requests: seq<Request>, requestId: nat, role: string)
    : (r: Result<Option<Approval>, StaffError>)
    ensures NextRole(role).None? ==> r == Ok(None)
    ensures r.Ok? && r.value.Some? ==>
              NextRole(role).Some? &&
              r.value.value == Approval(requestId, r.value.value.userId, Pending, None) &&
              RoleRow(r.value.value.userId, NextRole(role).value, None) in dir.roles &&
              r.value.value.userId == UnscopedStaff(dir.roles, NextRole(role).value).value &&
              !HasRecord(rows, requestId, r.value.value.userId)
    ensures role in PhaseOneRoles ==>
              (r.Err? <==> StudyLevelOf(dir, requests, requestId).None? ||
                           (ApprovedCount(rows, dir.roles, requestId, PhaseOneRoles) ==
                              RequiredPhaseOneCount(StudyLevelOf(dir, requests, requestId).value) &&
                            UnscopedStaff(dir.roles, Sport).None?))
    ensures role in PhaseOneRoles && StudyLevelOf(dir, requests, requestId).None? ==> r == Err(MissingStudent)
    ensures role in PhaseOneRoles && r.Ok? && r.value.Some? ==>
              ApprovedCount(rows, dir.roles, requestId, PhaseOneRoles) ==
                RequiredPhaseOneCount(StudyLevelOf(dir, requests, requestId).value)
    ensures NextRole(role).Some? && role !in PhaseOneRoles ==>
              (r.Err? <==> UnscopedStaff(dir.roles, NextRole(role).value).None?)
    ensures r.Err? ==> r.error == MissingStudent || (NextRole(role).Some? && r.error == NoStaff(NextRole(role).value))
    ensures r.Ok? && r.value.None? && NextRole(role).Some? && role !in PhaseOneRoles ==>
              HasRecord(rows, requestId, UnscopedStaff(dir.roles, NextRole(role).value).value)
  {
    match NextRole(role)
    case None => Ok(None)
    case Some(next) =>
      if role in PhaseOneRoles then
        var count := ApprovedCount(rows, dir.roles, requestId, PhaseOneRoles);
        match StudyLevelOf(dir, requests, requestId)
        case None => Err(MissingStudent)
        case Some(level) =>
          if count == RequiredPhaseOneCount(level) then SeedFor(rows, dir, requestId, next) else Ok(None)
      else SeedFor(rows, dir, requestId, next)
  }

  /** Look up the first unscoped holder of `next` and seed its record unless it has one. */
  function SeedFor(rows: seq<Approval>, dir: Directory, requestId: nat, next: string): (r: Result<Option<Approval>, StaffError>)
    ensures r.Err? <==> UnscopedStaff(dir.roles, next).None?
    ensures r.Err? ==> r.error == NoStaff(next)
    ensures r.Ok? ==> (r.value.Some? <==> !HasRecord(rows, requestId, UnscopedStaff(dir.roles, next).value))
    ensures r.Ok? && r.value.Some? ==> r.value.value == Approval(requestId, UnscopedStaff(dir.roles, next).value, Pending, None)
  {
    match UnscopedStaff(dir.roles, next)
    case None => Err(NoStaff(next))
    case Some(holder) =>
      if HasRecord(rows, requestId, holder) then Ok(None) else Ok(Some(Approval(requestId, holder, Pending, None)))
  }

  // ---------------------------------------------------------------------------
  // approveRequest
  // ---------------------------------------------------------------------------

  /** The table after the decision UPDATE: only the acting user's record changes. */
  function Written(rows: seq<Approval>, ad: Admission): seq<Approval>
    requires ad.index < |rows|
  {
    rows[ad.index := rows[ad.index].(status := ad.decision, comment := ad.comment)]
  }

  /**
   * `approveRequest` as a function of the table before the call: the
   * response and the table after it. A refusal changes nothing. The decision
   * UPDATE is issued outside the transaction, so it stays when seeding the
   * next phase fails (500) even though nothing is inserted then.
   */
  function Decide(rows: seq<Approval>, dir: Directory, requests: seq<Request>, requestId: nat, userId: nat,
                  status: Option<string>, comments: Option<string>): (Result<Status, StaffError>, seq<Approval>)
  {
    match Admit(rows, dir, requests, requestId, userId, status, comments)
    case Err(e) => (Err(e), rows)
    case Ok(ad) =>
      var written := Written(rows, ad);
      if ad.decision == Rejected then (Ok(Rejected), written)
      else
        match NextPhase(written, dir, requests, requestId, ad.role)
        case Err(e) => (Err(e), written)
        case Ok(None) => (Ok(Approved), written)
        case Ok(Some(a)) => (Ok(Approved), written + [a])
  }

  /** `approveRequest` on the approval table. */
  method ApproveRequest(t: ApprovalTable, dir: Directory, requests: seq<Request>, requestId: nat, userId: nat,
                        status: Option<string>, comments: Option<string>)
    returns (r: Result<Status, StaffError>)
    modifies t
    ensures (r, t.rows) == Decide(old(t.rows), dir, requests, requestId, userId, status, comments)
  {
    var admitted := Admit(t.rows, dir, requests, requestId, userId, status, comments);
    if admitted.Err? {
      return Err(admitted.error);
    }
    var ad := admitted.value;
    t.SetDecision(ad.index, ad.decision, ad.comment);
    if ad.decision == Rejected {
      return Ok(Rejected);
    }
    var seed := NextPhase(t.rows, dir, requests, requestId, ad.role);
    if seed.Err? {
      return Err(seed.error);
    }
    if seed.value.Some? {
      t.Insert(seed.value.value);
    }
    r := Ok(Approved);
  }

  /**
   * What a call does to the table: a refusal changes nothing; otherwise the
   * acting user's record carries the decision, every other record is kept,
   * and at most one record is appended.
   */
  lemma DecisionFrame(rows: seq<Approval>, dir: Directory, requests: seq<Request>, requestId: nat, userId: nat,
                      status: Option<string>, comments: Option<string>)
    ensures var (r, after) := Decide(rows, dir, requests, requestId, userId, status, comments);
            var ad := Admit(rows, dir, requests, requestId, userId, status, comments);
            (ad.Err? ==> r == Err(ad.error) && after == rows) &&
            (ad.Ok? ==>
              |rows| <= |after| <= |rows| + 1 &&
              after[ad.value.index] == Approval(requestId, userId, ad.value.decision, ad.value.comment) &&
              (forall i :: 0 <= i < |rows| && i != ad.value.index ==> after[i] == rows[i]) &&
              (r.Ok? ==> r.value == ad.value.decision))
  {
    var ad := Admit(rows, dir, requests, requestId, userId, status, comments);
    if ad.Ok? {
      var written := Written(rows, ad.value);
      var idx := ad.value.index;
      assert written[idx] == Approval(requestId, userId, ad.value.decision, ad.value.comment);
      assert forall i :: 0 <= i < |rows| && i != idx ==> written[i] == rows[i];
      if ad.value.decision == Approved {
        match NextPhase(written, dir, requests, requestId, ad.value.role)
        case Ok(Some(a)) =>
          assert (written + [a])[..|rows|] == written;
        case _ =>
      }
    }
  }

  /** A rejection never creates a record. */
  lemma RejectionSeedsNothing(rows: seq<Approval>, dir: Directory, requests: seq<Request>, requestId: nat, userId: nat,
                              comments: Option<string>)
    ensures |Decide(rows, dir, requests, requestId, userId, Some("rejected"), comments).1| == |rows|
  {
  }

  /**
   * A record appended by an approval is a pending, comment-less record of this
   * request for the first unscoped holder of the role that follows the actor's,
   * who had no record for the request.
   */
  lemma SeededRecord(rows: seq<Approval>, dir: Directory, requests: seq<Request>, requestId: nat, userId: nat,
                     status: Option<string>, comments: Option<string>)
    requires |Decide(rows, dir, requests, requestId, userId, status, comments).1| > |rows|
    ensures var after := Decide(rows, dir, requests, requestId, userId, status, comments).1;
            var role := RoleOf(dir.roles, userId);
            var a := after[|rows|];
            status == Some("approved") && role.Some? && NextRole(role.value.general).Some? &&
            a == Approval(requestId, a.userId, Pending, None) &&
            RoleRow(a.userId, NextRole(role.value.general).value, None) in dir.roles &&
            !HasRecord(rows, requestId, a.userId)
  {
    var ad := Admit(rows, dir, requests, requestId, userId, status, comments).value;
    var written := Written(rows, ad);
    assert forall i :: 0 <= i < |rows| ==> written[i].requestId == rows[i].requestId && written[i].userId == rows[i].userId;
  }

  /** The table never gains a second record for the same (request, user) pair. */
  lemma DecisionKeepsPairsUnique(rows: seq<Approval>, dir: Directory, requests: seq<Request>, requestId: nat, userId: nat,
                                 status: Option<string>, comments: Option<string>)
    requires UniquePairs(rows)
    ensures UniquePairs(Decide(rows, dir, requests, requestId, userId, status, comments).1)
  {
    var ad := Admit(rows, dir, requests, requestId, userId, status, comments);
    if ad.Ok? {
      var written := Written(rows, ad.value);
      assert forall i :: 0 <= i < |rows| ==> written[i].requestId == rows[i].requestId && written[i].userId == rows[i].userId;
      assert UniquePairs(written);
      var after := Decide(rows, dir, requests, requestId, userId, status, comments).1;
      if |after| > |written| {
        var a := after[|written|];
        assert !HasRecord(written, a.requestId, a.userId);
        forall i, j | 0 <= i < j < |after|
          ensures after[i].requestId != after[j].requestId || after[i].userId != after[j].userId
        {
          if j == |written| {
            assert after[i] == written[i];
          }
        }
      }
    }
  }

  /**
   * The gates hold for every decision that is written: sport decides only
   * once the phase-1 count is reached, student_affair only after an approved
   * sport record and the registrar only after an approved student_affair
   * record, counted on the table before the call.
   */
  lemma GatesHold(rows: seq<Approval>, dir: Directory, requests: seq<Request>, requestId: nat, userId: nat,
                  status: Option<string>, comments: Option<string>)
    requires Decide(rows, dir, requests, requestId, userId, status, comments).1 != rows
    ensures RoleOf(dir.roles, userId).Some?
    ensures RoleOf(dir.roles, userId).value.general == Sport ==>
              StudyLevelOf(dir, requests, requestId).Some? &&
              ApprovedCount(rows, dir.roles, requestId, PhaseOneRoles) >=
                RequiredPhaseOneCount(StudyLevelOf(dir, requests, requestId).value)
    ensures RoleOf(dir.roles, userId).value.general == StudentAffair ==>
              ApprovedCount(rows, dir.roles, requestId, {Sport}) > 0
    ensures RoleOf(dir.roles, userId).value.general == Registrar ==>
              ApprovedCount(rows, dir.roles, requestId, {StudentAffair}) > 0
  {
  }

  // ---------------------------------------------------------------------------
  // getPendingRequests
  // ---------------------------------------------------------------------------

  /** One worklist row, without the display-only columns. */
  datatype WorkItem = WorkItem(requestId: nat, studentId: nat, studyLevel: string, status: Status,
                               comment: Option<string>, createdAt: int)

  /**
   * The joins every worklist query shares: request, its type, one of its
   * approval records, a role row of that record's holder, and the student
   * with its department.
   */
  predicate Joins(dir: Directory, q: Request, a: Approval, r: RoleRow, s: Student)
  {
    q.typeId in dir.clearanceTypes && a.requestId == q.requestId && r.userId == a.userId &&
    s.studentId == q.studentId && s.departmentId in dir.departments
  }

  /**
   * The filter of the caller's role. sport, student_affair and the registrar
   * see every record held by someone of their own role once the previous
   * phase is through; a department head sees its own records through a role
   * row whose sub-role equals the sub-role of its first role row; a dormitory
   * proctor its own records through a role row naming the student's block;
   * anyone else all of its own records.
   */
  predicate Shown(dir: Directory, rows: seq<Approval>, caller: RoleRow, userId: nat,
                  q: Request, a: Approval, r: RoleRow, s: Student)
  {
    if caller.general == Sport then
      r.general == Sport &&
      ApprovedCount(rows, dir.roles, q.requestId, PhaseOneRoles) == RequiredPhaseOneCount(s.studyLevel)
    else if caller.general == StudentAffair then
      r.general == StudentAffair && ApprovedCount(rows, dir.roles, q.requestId, {Sport}) > 0
    else if caller.general == Registrar then
      r.general == Registrar && ApprovedCount(rows, dir.roles, q.requestId, {StudentAffair}) > 0
    else if caller.general == DepartmentHead then
      a.userId == userId && caller.specific.Some? && r.specific == caller.specific
    else if caller.general == Dormitory then
      a.userId == userId && s.blockId.Some? && s.blockId.value in dir.blocks &&
      r.specific == Some(dir.blocks[s.blockId.value])
    else
      a.userId == userId
  }

  /** `getPendingRequests`: the rows of the caller's worklist, as a set. */
  function PendingRequests(dir: Directory, requests: seq<Request>, rows: seq<Approval>, userId: nat)
    : (r: Result<set<WorkItem>, StaffError>)
    ensures r.Err? <==> RoleOf(dir.roles, userId).None?
    ensures r.Err? ==> r.error == NoRole
    ensures r.Ok? ==> forall w :: w in r.value <==>
              exists q, a, ro, s :: q in requests && a in rows && ro in dir.roles && s in dir.students &&
                                    Joins(dir, q, a, ro, s) && Shown(dir, rows, RoleOf(dir.roles, userId).value, userId, q, a, ro, s) &&
                                    w == WorkItem(q.requestId, s.studentId, s.studyLevel, a.status, a.comment, q.createdAt)
  {
    match RoleOf(dir.roles, userId)
    case None => Err(NoRole)
    case Some(caller) =>
      Ok(set q, a, ro, s | q in requests && a in rows && ro in dir.roles && s in dir.students &&
                           Joins(dir, q, a, ro, s) && Shown(dir, rows, caller, userId, q, a, ro, s)
                         :: WorkItem(q.requestId, s.studentId, s.studyLevel, a.status, a.comment, q.createdAt))
  }

  /**
   * The later-phase worklists only list requests whose gate is open: a
   * sport, student_affair or registrar user who picks a request from its
   * worklist is not refused for an incomplete earlier phase.
   */
  lemma WorklistPassesGate(dir: Directory, requests: seq<Request>, rows: seq<Approval>, userId: nat, w: WorkItem)
    requires UniqueRequestIds(requests) && UniqueStudentIds(dir.students)
    requires PendingRequests(dir, requests, rows, userId).Ok? && w in PendingRequests(dir, requests, rows, userId).value
    requires RoleOf(dir.roles, userId).value.general in {Sport, StudentAffair, Registrar}
    ensures PrerequisiteGate(rows, dir, requests, w.requestId, RoleOf(dir.roles, userId).value.general).None?
  {
    var caller := RoleOf(dir.roles, userId).value;
    var q, a, ro, s :| q in requests && a in rows && ro in dir.roles && s in dir.students &&
                       Joins(dir, q, a, ro, s) && Shown(dir, rows, caller, userId, q, a, ro, s) &&
                       w == WorkItem(q.requestId, s.studentId, s.studyLevel, a.status, a.comment, q.createdAt);
    if caller.general == Sport {
      StudyLevelOfFiler(dir, requests, q, s);
    }
  }

  /**
   * Every other role sees only its own records: each row of its worklist
   * comes from a record the caller holds, with that record's status and comment.
   */
  lemma WorklistOwnRecords(dir: Directory, requests: seq<Request>, rows: seq<Approval>, userId: nat, w: WorkItem)
    requires PendingRequests(dir, requests, rows, userId).Ok? && w in PendingRequests(dir, requests, rows, userId).value
    requires RoleOf(dir.roles, userId).value.general !in {Sport, StudentAffair, Registrar}
    ensures exists i :: 0 <= i < |rows| && rows[i] == Approval(w.requestId, userId, w.status, w.comment)
  {
    var caller := RoleOf(dir.roles, userId).value;
    var q, a, ro, s :| q in requests && a in rows && ro in dir.roles && s in dir.students &&
                       Joins(dir, q, a, ro, s) && Shown(dir, rows, caller, userId, q, a, ro, s) &&
                       w == WorkItem(q.requestId, s.studentId, s.studyLevel, a.status, a.comment, q.createdAt);
    var i :| 0 <= i < |rows| && rows[i] == a;
  }

  /**
   * A role without a sub-role filter (librarian, cafeteria, ...) sees every
   * record it holds whose request, type, student and department exist.
   */
  lemma WorklistComplete(dir: Directory, requests: seq<Request>, rows: seq<Approval>, userId: nat,
                         q: Request, a: Approval, s: Student)
    requires RoleOf(dir.roles, userId).Some?
    requires RoleOf(dir.roles, userId).value.general !in {Sport, StudentAffair, Registrar, DepartmentHead, Dormitory}
    requires q in requests && a in rows && s in dir.students
    requires a.userId == userId && a.requestId == q.requestId && q.typeId in dir.clearanceTypes
    requires s.studentId == q.studentId && s.departmentId in dir.departments
    ensures PendingRequests(dir, requests, rows, userId).Ok?
    ensures WorkItem(q.requestId, s.studentId, s.studyLevel, a.status, a.comment, q.createdAt)
              in PendingRequests(dir, requests, rows, userId).value
  {
    var caller := RoleOf(dir.roles, userId).value;
    assert Joins(dir, q, a, caller, s) && Shown(dir, rows, caller, userId, q, a, caller, s);
  }

  /**
   * The sport worklist lists a request exactly when its approved phase-1
   * count equals the required count, and then shows the record of every sport
   * holder, not only the caller's.
   */
  lemma SportWorklistListed(dir: Directory, requests: seq<Request>, rows: seq<Approval>, userId: nat, w: WorkItem)
    requires PendingRequests(dir, requests, rows, userId).Ok? && w in PendingRequests(dir, requests, rows, userId).value
    requires RoleOf(dir.roles, userId).value.general == Sport
    ensures ApprovedCount(rows, dir.roles, w.requestId, PhaseOneRoles) == RequiredPhaseOneCount(w.studyLevel)
    ensures exists a, ro :: a in rows && ro in dir.roles && ro.userId == a.userId && ro.general == Sport &&
                            a == Approval(w.requestId, a.userId, w.status, w.comment)
  {
    var caller := RoleOf(dir.roles, userId).value;
    var q, a, ro, s :| q in requests && a in rows && ro in dir.roles && s in dir.students &&
                       Joins(dir, q, a, ro, s) && Shown(dir, rows, caller, userId, q, a, ro, s) &&
                       w == WorkItem(q.requestId, s.studentId, s.studyLevel, a.status, a.comment, q.createdAt);
    assert ro.userId == a.userId && ro.general == Sport;
  }

  /** Conversely, every sport holder's record of a request at the required phase-1 count is listed for sport. */
  lemma SportWorklistComplete(dir: Directory, requests: seq<Request>, rows: seq<Approval>, userId: nat,
                              q: Request, a: Approval, ro: RoleRow, s: Student)
    requires RoleOf(dir.roles, userId).Some? && RoleOf(dir.roles, userId).value.general == Sport
    requires q in requests && a in rows && ro in dir.roles && s in dir.students
    requires a.requestId == q.requestId && ro.userId == a.userId && ro.general == Sport
    requires q.typeId in dir.clearanceTypes && s.studentId == q.studentId && s.departmentId in dir.departments
    requires ApprovedCount(rows, dir.roles, q.requestId, PhaseOneRoles) == RequiredPhaseOneCount(s.studyLevel)
    ensures PendingRequests(dir, requests, rows, userId).Ok?
    ensures WorkItem(q.requestId, s.studentId, s.studyLevel, a.status, a.comment, q.createdAt)
              in PendingRequests(dir, requests, rows, userId).value
  {
    var caller := RoleOf(dir.roles, userId).value;
    assert Joins(dir, q, a, ro, s) && Shown(dir, rows, caller, userId, q, a, ro, s);
  }

  /**
   * The sport gate and the sport worklist disagree above the required count:
   * the gate asks for at least the required count and the worklist for
   * exactly it, so such a request is open to a sport decision but missing
   * from the sport worklist.
   */
  lemma SportGateOpenButUnlisted(dir: Directory, requests: seq<Request>, rows: seq<Approval>, userId: nat,
                                 q: Request, s: Student)
    requires UniqueRequestIds(requests) && UniqueStudentIds(dir.students)
    requires RoleOf(dir.roles, userId).Some? && RoleOf(dir.roles, userId).value.general == Sport
    requires q in requests && s in dir.students && s.studentId == q.studentId
    requires ApprovedCount(rows, dir.roles, q.requestId, PhaseOneRoles) > RequiredPhaseOneCount(s.studyLevel)
    ensures PrerequisiteGate(rows, dir, requests, q.requestId, Sport).None?
    ensures PendingRequests(dir, requests, rows, userId).Ok?
    ensures forall w :: w in PendingRequests(dir, requests, rows, userId).value ==>
              w.requestId != q.requestId || w.studyLevel != s.studyLevel
  {
    StudyLevelOfFiler(dir, requests, q, s);
    forall w | w in PendingRequests(dir, requests, rows, userId).value
      ensures w.requestId != q.requestId || w.studyLevel != s.studyLevel
    {
      SportWorklistListed(dir, requests, rows, userId, w);
    }
  }

  /**
   * A department head with a single role row sees exactly its own records:
   * the sub-role filter compares the caller's role row with itself, and the
   * student's department is never compared with the head's.
   */
  lemma DepartmentHeadWorklist(dir: Directory, requests: seq<Request>, rows: seq<Approval>, userId: nat, w: WorkItem)
    requires OneRolePerUser(dir.roles)
    requires RoleOf(dir.roles, userId).Some? && RoleOf(dir.roles, userId).value.general == DepartmentHead
    requires RoleOf(dir.roles, userId).value.specific.Some?
    ensures PendingRequests(dir, requests, rows, userId).Ok?
    ensures w in PendingRequests(dir, requests, rows, userId).value <==>
              exists q, a, s :: q in requests && a in rows && s in dir.students &&
                                a.userId == userId && a.requestId == q.requestId && q.typeId in dir.clearanceTypes &&
                                s.studentId == q.studentId && s.departmentId in dir.departments &&
                                w == WorkItem(q.requestId, s.studentId, s.studyLevel, a.status, a.comment, q.createdAt)
  {
    var caller := RoleOf(dir.roles, userId).value;
    if w in PendingRequests(dir, requests, rows, userId).value {
      var q, a, ro, s :| q in requests && a in rows && ro in dir.roles && s in dir.students &&
                         Joins(dir, q, a, ro, s) && Shown(dir, rows, caller, userId, q, a, ro, s) &&
                         w == WorkItem(q.requestId, s.studentId, s.studyLevel, a.status, a.comment, q.createdAt);
      assert a.userId == userId;
    }
    if exists q, a, s :: q in requests && a in rows && s in dir.students &&
                         a.userId == userId && a.requestId == q.requestId && q.typeId in dir.clearanceTypes &&
                         s.studentId == q.studentId && s.departmentId in dir.departments &&
                         w == WorkItem(q.requestId, s.studentId, s.studyLevel, a.status, a.comment, q.createdAt) {
      var q, a, s :| q in requests && a in rows && s in dir.students &&
                     a.userId == userId && a.requestId == q.requestId && q.typeId in dir.clearanceTypes &&
                     s.studentId == q.studentId && s.departmentId in dir.departments &&
                     w == WorkItem(q.requestId, s.studentId, s.studyLevel, a.status, a.comment, q.createdAt);
      assert Joins(dir, q, a, caller, s) && Shown(dir, rows, caller, userId, q, a, caller, s);
    }
  }

  /**
   * A dormitory proctor sees its own records of students whose block number
   * is the sub-role of the caller's role row the record joined.
   */
  lemma DormitoryWorklist(dir: Directory, requests: seq<Request>, rows: seq<Approval>, userId: nat, w: WorkItem)
    requires PendingRequests(dir, requests, rows, userId).Ok? && w in PendingRequests(dir, requests, rows, userId).value
    requires RoleOf(dir.roles, userId).value.general == Dormitory
    ensures Approval(w.requestId, userId, w.status, w.comment) in rows
    ensures exists ro, s :: ro in dir.roles && s in dir.students && ro.userId == userId && s.studentId == w.studentId &&
                            s.blockId.Some? && s.blockId.value in dir.blocks &&
                            ro.specific == Some(dir.blocks[s.blockId.value])
  {
    var caller := RoleOf(dir.roles, userId).value;
    var q, a, ro, s :| q in requests && a in rows && ro in dir.roles && s in dir.students &&
                       Joins(dir, q, a, ro, s) && Shown(dir, rows, caller, userId, q, a, ro, s) &&
                       w == WorkItem(q.requestId, s.studentId, s.studyLevel, a.status, a.comment, q.createdAt);
    assert a == Approval(w.requestId, userId, w.status, w.comment);
  }
}
