/**
 * The clearance database, held in memory: the tables the workflow reads and
 * writes, the role-directory lookups (each `... LIMIT 1` query becomes a
 * first-match function returning an Option) and the
 * `clearance_approval JOIN roles` product that every phase count is taken over.
 *
 * Rows of a table are kept in a sequence; a query without ORDER BY is taken to
 * return them in that order.
 */
module Schema {

  datatype Option<+T> = None | Some(value: T)

  datatype Result<+T, +E> = Ok(value: T) | Err(error: E)

  /** `clearance_approval.status` */
  datatype Status = Pending | Approved | Rejected

  /** A row of `roles`: a user's general role and optional sub-role (a department name or a block number). */
  datatype RoleRow = RoleRow(userId: nat, general: string, specific: Option<string>)

  /**
   * A row of `clearance_approval`. The row's position in its table stands for
   * its `approval_id`: ids are unique and rows are never deleted.
   */
  datatype Approval = Approval(requestId: nat, userId: nat, status: Status, comment: Option<string>)

  /** A row of `clearance_requests`. */
  datatype Request = Request(requestId: nat, studentId: nat, typeId: nat, createdAt: int)

  /** A row of `students`; `block_id` is nullable. */
  datatype Student = Student(studentId: nat, userId: nat, departmentId: nat, blockId: Option<nat>, studyLevel: string)

  /** A row of `clearance_schedules`. */
  datatype Schedule = Schedule(typeId: nat, isActive: bool, startTime: int, endTime: int)

  /** The tables the workflow only reads. */
  datatype Directory = Directory(
    roles: seq<RoleRow>,
    students: seq<Student>,
    departments: map<nat, string>,  // department_id -> department_name
    blocks: map<nat, string>,       // block_id -> block_no
    clearanceTypes: set<nat>,       // clearance_type_id of every clearance_types row
    schedules: seq<Schedule>)

  const DepartmentHead := "department_head"
  const Librarian := "librarian"
  const Cafeteria := "cafeteria"
  const Dormitory := "dormitory"
  const Sport := "sport"
  const StudentAffair := "student_affair"
  const Registrar := "registrar"
  const StudentRole := "student"

  /** The general roles whose approvals make up phase 1. */
  const PhaseOneRoles: set<string> := {DepartmentHead, Librarian, Cafeteria, Dormitory}

  predicate IsPhd(studyLevel: string) { studyLevel == "phd" }

  /** Approved phase-1 records a request needs before sport may act: the dormitory is skipped for PhD students. */
  function RequiredPhaseOneCount(studyLevel: string): (n: nat)
    ensures n == 3 <==> IsPhd(studyLevel)
    ensures n == 3 || n == 4
  {
    if IsPhd(studyLevel) then 3 else 4
  }

  // ---------------------------------------------------------------------------
  // First-match lookups
  // ---------------------------------------------------------------------------

  /** Index of the first element satisfying `p`: the row a `... LIMIT 1` query (or `rows[0]`) picks. */
  function FirstIndex<T>(s: seq<T>, p: T -> bool): (r: Option<nat>)
    ensures r.Some? ==> r.value < |s| && p(s[r.value])
    ensures r.Some? ==> forall j :: 0 <= j < r.value ==> !p(s[j])
    ensures r.None? <==> forall j :: 0 <= j < |s| ==> !p(s[j])
  {
    if s == [] then None
    else if p(s[0]) then Some(0)
    else match FirstIndex(s[1..], p)
      case None => None
      case Some(k) => Some(k + 1)
  }

  /** The user's role: `SELECT general_role, specific_role FROM roles WHERE user_id = ?`, first row. */
  function RoleOf(roles: seq<RoleRow>, userId: nat): (r: Option<RoleRow>)
    ensures r.Some? ==> r.value in roles && r.value.userId == userId
    ensures r.None? <==> forall x :: x in roles ==> x.userId != userId
  {
    match FirstIndex(roles, (x: RoleRow) => x.userId == userId)
    case None => None
    case Some(i) => Some(roles[i])
  }

  /**
   * A staff member holding `general` with no sub-role:
   * `SELECT user_id FROM roles WHERE general_role = ? AND specific_role IS NULL LIMIT 1`.
   * None means "no staff found".
   */
  function UnscopedStaff(roles: seq<RoleRow>, general: string): (r: Option<nat>)
    ensures r.Some? ==> RoleRow(r.value, general, None) in roles
    ensures r.None? <==> forall x :: x in roles ==> x.general != general || x.specific.Some?
  {
    match FirstIndex(roles, (x: RoleRow) => x.general == general && x.specific.None?)
    case None => None
    case Some(i) => Some(roles[i].userId)
  }

  /**
   * The department head of a department: a `department_head` role whose
   * sub-role equals the department's name.
   */
  function DepartmentHeadFor(dir: Directory, departmentId: nat): (r: Option<nat>)
    ensures r.Some? ==> departmentId in dir.departments &&
                        RoleRow(r.value, DepartmentHead, Some(dir.departments[departmentId])) in dir.roles
    ensures r.None? <==> departmentId !in dir.departments ||
                         forall x :: x in dir.roles ==> x.general != DepartmentHead || x.specific != Some(dir.departments[departmentId])
  {
    if departmentId !in dir.departments then None
    else
      var name := dir.departments[departmentId];
      match FirstIndex(dir.roles, (x: RoleRow) => x.general == DepartmentHead && x.specific == Some(name))
      case None => None
      case Some(i) => Some(dir.roles[i].userId)
  }

  /**
   * The dormitory proctor of a block: a `dormitory` role whose sub-role equals
   * the block number. A NULL block id matches no block.
   */
  function DormitoryFor(dir: Directory, blockId: Option<nat>): (r: Option<nat>)
    ensures r.Some? ==> blockId.Some? && blockId.value in dir.blocks &&
                        RoleRow(r.value, Dormitory, Some(dir.blocks[blockId.value])) in dir.roles
    ensures r.None? <==> blockId.None? || blockId.value !in dir.blocks ||
                         forall x :: x in dir.roles ==> x.general != Dormitory || x.specific != Some(dir.blocks[blockId.value])
  {
    if blockId.None? || blockId.value !in dir.blocks then None
    else
      var blockNo := dir.blocks[blockId.value];
      match FirstIndex(dir.roles, (x: RoleRow) => x.general == Dormitory && x.specific == Some(blockNo))
      case None => None
      case Some(i) => Some(dir.roles[i].userId)
  }

  /** `SELECT ... FROM students WHERE user_id = ?`, first row. */
  function StudentOfUser(students: seq<Student>, userId: nat): (r: Option<Student>)
    ensures r.Some? ==> r.value in students && r.value.userId == userId
    ensures r.None? <==> forall s :: s in students ==> s.userId != userId
  {
    match FirstIndex(students, (s: Student) => s.userId == userId)
    case None => None
    case Some(i) => Some(students[i])
  }

  /** The student row with a given student_id. */
  function StudentById(students: seq<Student>, studentId: nat): (r: Option<Student>)
    ensures r.Some? ==> r.value in students && r.value.studentId == studentId
    ensures r.None? <==> forall s :: s in students ==> s.studentId != studentId
  {
    match FirstIndex(students, (s: Student) => s.studentId == studentId)
    case None => None
    case Some(i) => Some(students[i])
  }

  /** The request row with a given request_id. */
  function RequestById(requests: seq<Request>, requestId: nat): (r: Option<Request>)
    ensures r.Some? ==> r.value in requests && r.value.requestId == requestId
    ensures r.None? <==> forall q :: q in requests ==> q.requestId != requestId
  {
    match FirstIndex(requests, (q: Request) => q.requestId == requestId)
    case None => None
    case Some(i) => Some(requests[i])
  }

  /**
   * The study level of the student who filed a request:
   * `students s JOIN clearance_requests cr ON s.student_id = cr.student_id WHERE cr.request_id = ?`.
   */
  function StudyLevelOf(dir: Directory, requests: seq<Request>, requestId: nat): (r: Option<string>)
    ensures r.Some? ==> exists q, s :: q in requests && s in dir.students && q.requestId == requestId &&
                                       s.studentId == q.studentId && s.studyLevel == r.value
  {
    match RequestById(requests, requestId)
    case None => None
    case Some(q) =>
      match StudentById(dir.students, q.studentId)
      case None => None
      case Some(s) => Some(s.studyLevel)
  }

  /** The first approval record of a user for a request (the one the decision UPDATE targets). */
  function RecordIndex(rows: seq<Approval>, requestId: nat, userId: nat): (r: Option<nat>)
    ensures r.Some? ==> r.value < |rows| && rows[r.value].requestId == requestId && rows[r.value].userId == userId
    ensures r.None? <==> !HasRecord(rows, requestId, userId)
  {
    FirstIndex(rows, (a: Approval) => a.requestId == requestId && a.userId == userId)
  }

  /** A user's only record for a request is the one the decision targets. */
  lemma OnlyRecord(rows: seq<Approval>, requestId: nat, userId: nat, k: nat)
    requires k < |rows| && rows[k].requestId == requestId && rows[k].userId == userId
    requires forall j :: 0 <= j < |rows| && j != k ==> rows[j].requestId != requestId || rows[j].userId != userId
    ensures RecordIndex(rows, requestId, userId) == Some(k)
  {
  }

  /** Some approval record exists for (request, user). */
  predicate HasRecord(rows: seq<Approval>, requestId: nat, userId: nat)
  {
    exists i :: 0 <= i < |rows| && rows[i].requestId == requestId && rows[i].userId == userId
  }

  /** At most one approval record per (request, user) pair. */
  ghost predicate UniquePairs(rows: seq<Approval>)
  {
    forall i, j :: 0 <= i < j < |rows| ==> rows[i].requestId != rows[j].requestId || rows[i].userId != rows[j].userId
  }

  /** `request_id` is the key of `clearance_requests`. */
  ghost predicate UniqueRequestIds(requests: seq<Request>)
  {
    forall i, j :: 0 <= i < j < |requests| ==> requests[i].requestId != requests[j].requestId
  }

  /** `student_id` is the key of `students`. */
  ghost predicate UniqueStudentIds(students: seq<Student>)
  {
    forall i, j :: 0 <= i < j < |students| ==> students[i].studentId != students[j].studentId
  }

  /** With keyed tables, the study-level lookup finds the student who filed the request. */
  lemma StudyLevelOfFiler(dir: Directory, requests: seq<Request>, q: Request, s: Student)
    requires UniqueRequestIds(requests) && UniqueStudentIds(dir.students)
    requires q in requests && s in dir.students && s.studentId == q.studentId
    ensures StudyLevelOf(dir, requests, q.requestId) == Some(s.studyLevel)
  {
    var found := RequestById(requests, q.requestId).value;
    var i :| 0 <= i < |requests| && requests[i] == found;
    var k :| 0 <= k < |requests| && requests[k] == q;
    assert i == k;
    var student := StudentById(dir.students, q.studentId).value;
    var m :| 0 <= m < |dir.students| && dir.students[m] == student;
    var n :| 0 <= n < |dir.students| && dir.students[n] == s;
    assert m == n;
  }

  // ---------------------------------------------------------------------------
  // clearance_approval ca JOIN roles r ON ca.user_id = r.user_id
  // ---------------------------------------------------------------------------

  /** The join rows contributed by one approval record, in role-table order. */
  function RolesFor(a: Approval, roles: seq<RoleRow>): (j: seq<(Approval, RoleRow)>)
    ensures forall p :: p in j <==> p.0 == a && p.1 in roles && p.1.userId == a.userId
  {
    if roles == [] then []
    else (if roles[0].userId == a.userId then [(a, roles[0])] else []) + RolesFor(a, roles[1..])
  }

  /** The join of the approval table with the roles table, record by record. */
  function Joined(rows: seq<Approval>, roles: seq<RoleRow>): (j: seq<(Approval, RoleRow)>)
    ensures forall p :: p in j <==> p.0 in rows && p.1 in roles && p.0.userId == p.1.userId
  {
    if rows == [] then [] else RolesFor(rows[0], roles) + Joined(rows[1..], roles)
  }

  /** One join row counts toward `COUNT(*) ... WHERE request_id = ? AND general_role IN generals AND status = "approved"`. */
  predicate CountsToward(p: (Approval, RoleRow), requestId: nat, generals: set<string>)
  {
    p.0.requestId == requestId && p.0.status == Approved && p.1.general in generals
  }

  function CountPairs(pairs: seq<(Approval, RoleRow)>, requestId: nat, generals: set<string>): (n: nat)
    ensures n <= |pairs|
    ensures n == 0 <==> forall p :: p in pairs ==> !CountsToward(p, requestId, generals)
  {
    if pairs == [] then 0
    else (if CountsToward(pairs[0], requestId, generals) then 1 else 0) + CountPairs(pairs[1..], requestId, generals)
  }

  /** The approved records of a request whose holders have one of `generals`, counted over the join. */
  function ApprovedCount(rows: seq<Approval>, roles: seq<RoleRow>, requestId: nat, generals: set<string>): (n: nat)
    ensures n == 0 <==> forall a, r :: (a in rows && r in roles && a.userId == r.userId &&
                                        a.requestId == requestId && a.status == Approved) ==> r.general !in generals
  {
    var j := Joined(rows, roles);
    assert forall a, r :: a in rows && r in roles && a.userId == r.userId ==> (a, r) in j;
    CountPairs(j, requestId, generals)
  }

  /** Every user holds at most one role row. */
  ghost predicate OneRolePerUser(roles: seq<RoleRow>)
  {
    forall i, j :: 0 <= i < j < |roles| ==> roles[i].userId != roles[j].userId
  }

  /** With one role row per user, a user's role is that row. */
  lemma RoleOfOnlyRow(roles: seq<RoleRow>, row: RoleRow)
    requires OneRolePerUser(roles) && row in roles
    ensures RoleOf(roles, row.userId) == Some(row)
  {
    var found := RoleOf(roles, row.userId).value;
    var i :| 0 <= i < |roles| && roles[i] == found;
    var j :| 0 <= j < |roles| && roles[j] == row;
    assert i == j;
  }

  /** With one role row per user, holders of different general roles are different users. */
  lemma DifferentRolesDifferentUsers(roles: seq<RoleRow>, x: RoleRow, y: RoleRow)
    requires OneRolePerUser(roles) && x in roles && y in roles && x.general != y.general
    ensures x.userId != y.userId
  {
    var i :| 0 <= i < |roles| && roles[i] == x;
    var j :| 0 <= j < |roles| && roles[j] == y;
  }

  /** The user holds a role row whose general role is one of `generals`. */
  predicate HoldsOneOf(roles: seq<RoleRow>, userId: nat, generals: set<string>)
  {
    exists r :: r in roles && r.userId == userId && r.general in generals
  }

  /** With one role row per user, holding one of `generals` is a property of the user's role. */
  lemma HoldsByRole(roles: seq<RoleRow>, userId: nat, generals: set<string>)
    requires OneRolePerUser(roles) && RoleOf(roles, userId).Some?
    ensures HoldsOneOf(roles, userId, generals) <==> RoleOf(roles, userId).value.general in generals
  {
    if HoldsOneOf(roles, userId, generals) {
      var r :| r in roles && r.userId == userId && r.general in generals;
      RoleOfOnlyRow(roles, r);
    }
  }

  /** The reference count adds up over concatenated tables. */
  lemma {:induction false} ApprovedRecordsAppend(p: seq<Approval>, q: seq<Approval>, roles: seq<RoleRow>, requestId: nat, generals: set<string>)
    ensures ApprovedRecords(p + q, roles, requestId, generals) ==
              ApprovedRecords(p, roles, requestId, generals) + ApprovedRecords(q, roles, requestId, generals)
  {
    if p == [] {
      assert p + q == q;
    } else {
      assert (p + q)[0] == p[0] && (p + q)[1..] == p[1..] + q;
      ApprovedRecordsAppend(p[1..], q, roles, requestId, generals);
    }
  }

  /** Records of other requests never count. */
  lemma {:induction false} ApprovedRecordsOtherRequests(rows: seq<Approval>, roles: seq<RoleRow>, requestId: nat, generals: set<string>)
    requires forall a :: a in rows ==> a.requestId != requestId
    ensures ApprovedRecords(rows, roles, requestId, generals) == 0
  {
    if rows != [] {
      assert forall a :: a in rows[1..] ==> a in rows;
      ApprovedRecordsOtherRequests(rows[1..], roles, requestId, generals);
    }
  }

  /** Reference count, record by record: the approved records of the request whose holder has one of `generals`. */
  function ApprovedRecords(rows: seq<Approval>, roles: seq<RoleRow>, requestId: nat, generals: set<string>): (n: nat)
    ensures n <= |rows|
  {
    if rows == [] then 0
    else
      var a := rows[0];
      (if a.requestId == requestId && a.status == Approved && HoldsOneOf(roles, a.userId, generals) then 1 else 0)
      + ApprovedRecords(rows[1..], roles, requestId, generals)
  }

  lemma {:induction false} CountPairsAppend(p: seq<(Approval, RoleRow)>, q: seq<(Approval, RoleRow)>, requestId: nat, generals: set<string>)
    ensures CountPairs(p + q, requestId, generals) == CountPairs(p, requestId, generals) + CountPairs(q, requestId, generals)
  {
    if p != [] {
      assert (p + q)[0] == p[0] && (p + q)[1..] == p[1..] + q;
      CountPairsAppend(p[1..], q, requestId, generals);
    } else {
      assert p + q == q;
    }
  }

  /** With one role row per user, a record contributes one join row to the count exactly when it is counted. */
  lemma {:induction false} RecordContribution(a: Approval, roles: seq<RoleRow>, requestId: nat, generals: set<string>)
    requires OneRolePerUser(roles)
    ensures CountPairs(RolesFor(a, roles), requestId, generals) ==
              if a.requestId == requestId && a.status == Approved && HoldsOneOf(roles, a.userId, generals) then 1 else 0
  {
    if roles != [] {
      var head := if roles[0].userId == a.userId then [(a, roles[0])] else [];
      var tail := RolesFor(a, roles[1..]);
      assert OneRolePerUser(roles[1..]) by {
        forall i, j | 0 <= i < j < |roles[1..]| ensures roles[1..][i].userId != roles[1..][j].userId {
          assert roles[1..][i] == roles[i + 1] && roles[1..][j] == roles[j + 1];
        }
      }
      RecordContribution(a, roles[1..], requestId, generals);
      CountPairsAppend(head, tail, requestId, generals);
      if roles[0].userId == a.userId {
        assert forall k :: 0 <= k < |roles[1..]| ==> roles[1..][k].userId != a.userId by {
          forall k | 0 <= k < |roles[1..]| ensures roles[1..][k].userId != a.userId {
            assert roles[1..][k] == roles[k + 1];
          }
        }
        assert !HoldsOneOf(roles[1..], a.userId, generals);
        assert HoldsOneOf(roles, a.userId, generals) <==> roles[0].general in generals;
      } else {
        assert HoldsOneOf(roles, a.userId, generals) <==> HoldsOneOf(roles[1..], a.userId, generals) by {
          assert roles == [roles[0]] + roles[1..];
        }
      }
    }
  }

  /**
   * When every user holds one role row, the join count is the number of
   * approved records whose holder has one of `generals`.
   */
  lemma {:induction false} ApprovedCountByRecord(rows: seq<Approval>, roles: seq<RoleRow>, requestId: nat, generals: set<string>)
    requires OneRolePerUser(roles)
    ensures ApprovedCount(rows, roles, requestId, generals) == ApprovedRecords(rows, roles, requestId, generals)
  {
    if rows != [] {
      ApprovedCountByRecord(rows[1..], roles, requestId, generals);
      RecordContribution(rows[0], roles, requestId, generals);
      CountPairsAppend(RolesFor(rows[0], roles), Joined(rows[1..], roles), requestId, generals);
    }
  }

  // ---------------------------------------------------------------------------
  // Tables updated in place
  // ---------------------------------------------------------------------------

  /** The `clearance_approval` table. */
  class ApprovalTable {
    var rows: seq<Approval>

    constructor (initial: seq<Approval>)
      ensures rows == initial
    {
      rows := initial;
    }

    /** `INSERT INTO clearance_approval ...`: the new row goes last. */
    method Insert(a: Approval)
      modifies this
      ensures rows == old(rows) + [a]
    {
      rows := rows + [a];
    }

    /** `UPDATE clearance_approval SET status = ?, comments = ? WHERE approval_id = ?` */
    method SetDecision(i: nat, status: Status, comment: Option<string>)
      requires i < |rows|
      modifies this
      ensures rows == old(rows)[i := old(rows)[i].(status := status, comment := comment)]
    {
      rows := rows[i := rows[i].(status := status, comment := comment)];
    }

    /** Undo every insert made since the table held `saved` (ROLLBACK). */
    method Restore(saved: seq<Approval>)
      modifies this
      ensures rows == saved
    {
      rows := saved;
    }
  }

  /** The `clearance_requests` table and its AUTO_INCREMENT counter. */
  class RequestTable {
    var rows: seq<Request>
    var nextId: nat

    /** Every stored request id was handed out by the counter. */
    ghost predicate Valid()
      reads this
    {
      forall q :: q in rows ==> q.requestId < nextId
    }

    constructor (initial: seq<Request>, counter: nat)
      requires forall q :: q in initial ==> q.requestId < counter
      ensures rows == initial && nextId == counter && Valid()
    {
      rows, nextId := initial, counter;
    }

    /** `INSERT INTO clearance_requests ...`; returns `insertId`, an id no stored request has. */
    method Insert(studentId: nat, typeId: nat, createdAt: int) returns (id: nat)
      requires Valid()
      modifies this
      ensures Valid()
      ensures id == old(nextId) && nextId == id + 1
      ensures rows == old(rows) + [Request(id, studentId, typeId, createdAt)]
      ensures forall q :: q in old(rows) ==> q.requestId != id
    {
      id := nextId;
      rows := rows + [Request(id, studentId, typeId, createdAt)];
      nextId := nextId + 1;
    }

    /** ROLLBACK of the inserted row; the AUTO_INCREMENT counter is not rolled back. */
    method Restore(saved: seq<Request>)
      requires forall q :: q in saved ==> q.requestId < nextId
      modifies this
      ensures Valid() && rows == saved && nextId == old(nextId)
    {
      rows := saved;
    }
  }
}
