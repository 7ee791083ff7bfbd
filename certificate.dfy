/**
 * The certificate endpoint: a student may download a clearance certificate
 * for a request of their own once every required role has approved it; a
 * certificate is generated once per (request, student) and reused afterwards.
 * The PDF itself is not modelled, only the "Approved By" lines it lists.
 */
module Certificate {
  import opened Schema

  /** `requiredRoles`: every role whose approval a certificate needs, in the order the certificate lists them. */
  function RequiredRoles(studyLevel: string): (r: seq<string>)
    ensures |r| == if IsPhd(studyLevel) then 6 else 7
    ensures |r| == RequiredPhaseOneCount(studyLevel) + 3
    ensures r[..3] == [DepartmentHead, Librarian, Cafeteria]
    ensures r[|r| - 3..] == [Sport, StudentAffair, Registrar]
    ensures Dormitory in r <==> !IsPhd(studyLevel)
    ensures !IsPhd(studyLevel) ==> r[3] == Dormitory
    ensures forall i, j :: 0 <= i < j < |r| ==> r[i] != r[j]
  {
    [DepartmentHead, Librarian, Cafeteria] + (if IsPhd(studyLevel) then [] else [Dormitory])
    + [Sport, StudentAffair, Registrar]
  }

  /**
   * `SELECT r.general_role, ca.status FROM clearance_approval ca JOIN roles r
   * ON ca.user_id = r.user_id WHERE ca.request_id = ?`, taken from the join.
   */
  function RoleStatusesOf(pairs: seq<(Approval, RoleRow)>, requestId: nat): (r: seq<(string, Status)>)
    ensures forall p :: p in pairs && p.0.requestId == requestId ==> (p.1.general, p.0.status) in r
    ensures forall x :: x in r ==> exists p :: p in pairs && p.0.requestId == requestId && x == (p.1.general, p.0.status)
  {
    if pairs == [] then []
    else
      (if pairs[0].0.requestId == requestId then [(pairs[0].1.general, pairs[0].0.status)] else [])
      + RoleStatusesOf(pairs[1..], requestId)
  }

  function RoleStatuses(rows: seq<Approval>, roles: seq<RoleRow>, requestId: nat): seq<(string, Status)>
  {
    RoleStatusesOf(Joined(rows, roles), requestId)
  }

  /** `approvals.reduce((acc, {general_role, status}) => { acc[general_role] = status; ... }, {})`: a left fold. */
  function StatusMap(approvals: seq<(string, Status)>): (m: map<string, Status>)
    ensures forall role :: role in m <==> exists i :: 0 <= i < |approvals| && approvals[i].0 == role
    ensures forall role :: role in m ==> exists i :: 0 <= i < |approvals| && approvals[i] == (role, m[role])
  {
    if approvals == [] then map[]
    else
      var init := approvals[..|approvals| - 1];
      var last := approvals[|approvals| - 1];
      var prev := StatusMap(init);
      var m := prev[last.0 := last.1];
      assert forall i :: 0 <= i < |init| ==> init[i] == approvals[i];
      assert forall role :: role in m ==> exists i :: 0 <= i < |approvals| && approvals[i] == (role, m[role]) by {
        forall role | role in m ensures exists i :: 0 <= i < |approvals| && approvals[i] == (role, m[role]) {
          if role == last.0 {
            assert approvals[|approvals| - 1] == (role, m[role]);
          } else {
            var i :| 0 <= i < |init| && init[i] == (role, prev[role]);
            assert approvals[i] == (role, m[role]);
          }
        }
      }
      assert forall role :: (exists i :: 0 <= i < |approvals| && approvals[i].0 == role) ==> role in m by {
        forall role | exists i :: 0 <= i < |approvals| && approvals[i].0 == role ensures role in m {
          var i :| 0 <= i < |approvals| && approvals[i].0 == role;
          if i < |init| {
            assert init[i].0 == role;
          }
        }
      }
      m
  }

  /** When several rows carry the same role, the last one listed decides its status. */
  lemma {:induction false} LastWins(approvals: seq<(string, Status)>, i: nat)
    requires i < |approvals|
    requires forall j :: i < j < |approvals| ==> approvals[j].0 != approvals[i].0
    ensures approvals[i].0 in StatusMap(approvals)
    ensures StatusMap(approvals)[approvals[i].0] == approvals[i].1
  {
    if i < |approvals| - 1 {
      var init := approvals[..|approvals| - 1];
      LastWins(init, i);
    }
  }

  /** The status rows of concatenated joins are the concatenated status rows, in order. */
  lemma {:induction false} RoleStatusesAppend(p: seq<(Approval, RoleRow)>, q: seq<(Approval, RoleRow)>, requestId: nat)
    ensures RoleStatusesOf(p + q, requestId) == RoleStatusesOf(p, requestId) + RoleStatusesOf(q, requestId)
  {
    if p == [] {
      assert p + q == q;
    } else {
      assert (p + q)[0] == p[0] && (p + q)[1..] == p[1..] + q;
      RoleStatusesAppend(p[1..], q, requestId);
    }
  }

  /** A role no pair of the request carries has no status row. */
  lemma {:induction false} RoleAbsentFromStatuses(pairs: seq<(Approval, RoleRow)>, requestId: nat, role: string)
    requires forall j :: 0 <= j < |pairs| && pairs[j].0.requestId == requestId ==> pairs[j].1.general != role
    ensures forall j :: 0 <= j < |RoleStatusesOf(pairs, requestId)| ==> RoleStatusesOf(pairs, requestId)[j].0 != role
  {
    if pairs != [] {
      RoleAbsentFromStatuses(pairs[1..], requestId, role);
    }
  }

  /** In the status rows of a join, the last pair of the request with a given role decides its status. */
  lemma {:induction false} LastPairWins(pairs: seq<(Approval, RoleRow)>, requestId: nat, k: nat)
    requires k < |pairs| && pairs[k].0.requestId == requestId
    requires forall j :: k < j < |pairs| && pairs[j].0.requestId == requestId ==> pairs[j].1.general != pairs[k].1.general
    ensures pairs[k].1.general in StatusMap(RoleStatusesOf(pairs, requestId))
    ensures StatusMap(RoleStatusesOf(pairs, requestId))[pairs[k].1.general] == pairs[k].0.status
  {
    var p := pairs[k];
    var rest := pairs[k + 1..];
    var before, after := RoleStatusesOf(pairs[..k], requestId), RoleStatusesOf(rest, requestId);
    assert pairs == pairs[..k] + ([p] + rest);
    RoleStatusesAppend(pairs[..k], [p] + rest, requestId);
    assert ([p] + rest)[1..] == rest;
    var statuses := RoleStatusesOf(pairs, requestId);
    assert statuses == before + [(p.1.general, p.0.status)] + after;
    assert forall j :: 0 <= j < |rest| && rest[j].0.requestId == requestId ==> rest[j].1.general != p.1.general by {
      forall j | 0 <= j < |rest| && rest[j].0.requestId == requestId ensures rest[j].1.general != p.1.general {
        assert rest[j] == pairs[k + 1 + j];
      }
    }
    RoleAbsentFromStatuses(rest, requestId, p.1.general);
    forall j | |before| < j < |statuses| ensures statuses[j].0 != p.1.general {
      assert statuses[j] == after[j - |before| - 1];
    }
    LastWins(statuses, |before|);
  }

  /**
   * The fold over the joined records: a role's status is that of the last
   * joined record of the request whose holder has the role.
   */
  lemma {:induction false} LastJoinedRecordWins(rows: seq<Approval>, roles: seq<RoleRow>, requestId: nat, k: nat)
    requires k < |Joined(rows, roles)| && Joined(rows, roles)[k].0.requestId == requestId
    requires forall j :: k < j < |Joined(rows, roles)| && Joined(rows, roles)[j].0.requestId == requestId ==>
               Joined(rows, roles)[j].1.general != Joined(rows, roles)[k].1.general
    ensures Joined(rows, roles)[k].1.general in StatusMap(RoleStatuses(rows, roles, requestId))
    ensures StatusMap(RoleStatuses(rows, roles, requestId))[Joined(rows, roles)[k].1.general] == Joined(rows, roles)[k].0.status
  {
    LastPairWins(Joined(rows, roles), requestId, k);
  }

  /** A role no row carries is absent from the map (and so not approved). */
  lemma {:induction false} AbsentRole(approvals: seq<(string, Status)>, role: string)
    requires forall j :: 0 <= j < |approvals| ==> approvals[j].0 != role
    ensures role !in StatusMap(approvals)
  {
    if approvals != [] {
      AbsentRole(approvals[..|approvals| - 1], role);
    }
  }

  /**
   * `requiredRoles.every(role => approvalStatus[role] === 'approved')`: roles
   * outside `required` are ignored and a missing role fails.
   */
  function AllApproved(required: seq<string>, m: map<string, Status>): (b: bool)
    ensures b <==> forall role :: role in required ==> role in m && m[role] == Approved
  {
    if required == [] then true
    else
      assert forall role :: role in required ==> role == required[0] || role in required[1..];
      required[0] in m && m[required[0]] == Approved && AllApproved(required[1..], m)
  }

  /** The certificate gate over the approval table. */
  function FullyApproved(rows: seq<Approval>, roles: seq<RoleRow>, requestId: nat, studyLevel: string): bool
  {
    AllApproved(RequiredRoles(studyLevel), StatusMap(RoleStatuses(rows, roles, requestId)))
  }

  /**
   * With at most one status row per role, the gate holds exactly when each
   * required role's row is approved: a single pending or rejected required
   * role, or a missing one, closes it.
   */
  lemma GateByRole(approvals: seq<(string, Status)>, required: seq<string>)
    requires forall i, j :: 0 <= i < j < |approvals| ==> approvals[i].0 != approvals[j].0
    ensures AllApproved(required, StatusMap(approvals)) <==>
              forall role :: role in required ==> exists i :: 0 <= i < |approvals| && approvals[i] == (role, Approved)
  {
    var m := StatusMap(approvals);
    forall role | role in required
      ensures (role in m && m[role] == Approved) <==> exists i :: 0 <= i < |approvals| && approvals[i] == (role, Approved)
    {
      if i :| 0 <= i < |approvals| && approvals[i].0 == role {
        LastWins(approvals, i);
      } else {
        AbsentRole(approvals, role);
      }
    }
  }

  /**
   * The gate opens once every record of the request is approved and each
   * required role holds one of them.
   */
  lemma FullyApprovedWhenAllApproved(rows: seq<Approval>, roles: seq<RoleRow>, requestId: nat, studyLevel: string)
    requires forall a :: a in rows && a.requestId == requestId ==> a.status == Approved
    requires forall role :: role in RequiredRoles(studyLevel) ==>
               exists a, r :: a in rows && r in roles && a.userId == r.userId && a.requestId == requestId && r.general == role
    ensures FullyApproved(rows, roles, requestId, studyLevel)
  {
    var statuses := RoleStatuses(rows, roles, requestId);
    var m := StatusMap(statuses);
    assert forall x :: x in statuses ==> x.1 == Approved;
    forall role | role in RequiredRoles(studyLevel) ensures role in m && m[role] == Approved {
      var a, r :| a in rows && r in roles && a.userId == r.userId && a.requestId == requestId && r.general == role;
      assert (a, r) in Joined(rows, roles);
      assert (role, Approved) in statuses;
      var i :| 0 <= i < |statuses| && statuses[i] == (role, Approved);
      assert statuses[i].0 == role;
      var j :| 0 <= j < |statuses| && statuses[j] == (role, m[role]);
      assert statuses[j] in statuses;
    }
  }

  // ---------------------------------------------------------------------------
  // Role display names
  // ---------------------------------------------------------------------------

  /** `\w` in a JavaScript regular expression without the `u` flag. */
  predicate IsWordChar(c: char)
  {
    'a' <= c <= 'z' || 'A' <= c <= 'Z' || '0' <= c <= '9' || c == '_'
  }

  /** `toUpperCase` on the characters `\w` matches. */
  function ToUpper(c: char): (u: char)
    ensures 'a' <= c <= 'z' ==> 'A' <= u <= 'Z' && u as int == c as int - 32
    ensures !('a' <= c <= 'z') ==> u == c
  {
    if 'a' <= c <= 'z' then (c as int - 32) as char else c
  }

  /** `s.replace(from, to)` with a one-character string pattern: only the first occurrence is replaced. */
  function ReplaceFirst(s: string, from: char, to: char): (r: string)
    ensures |r| == |s|
  {
    seq(|s|, i requires 0 <= i < |s| => if s[i] == from && from !in s[..i] then to else s[i])
  }

  /** Position `i` starts a word: `\b\w`. */
  predicate WordStart(s: string, i: nat)
    requires i < |s|
  {
    IsWordChar(s[i]) && (i == 0 || !IsWordChar(s[i - 1]))
  }

  /** `s.replace(/\b\w/g, c => c.toUpperCase())` */
  function CapitalizeWords(s: string): (r: string)
    ensures |r| == |s|
  {
    seq(|s|, i requires 0 <= i < |s| => if WordStart(s, i) then ToUpper(s[i]) else s[i])
  }

  /** The "Approved By" line for a role. */
  function DisplayName(role: string): string
  {
    CapitalizeWords(ReplaceFirst(role, '_', ' '))
  }

  predicate IsLowerWord(w: string)
  {
    w != [] && forall c :: c in w ==> 'a' <= c <= 'z'
  }

  /** A lower-case word is shown with its initial upper-cased. */
  lemma DisplayOneWord(w: string)
    requires IsLowerWord(w)
    ensures DisplayName(w) == [ToUpper(w[0])] + w[1..]
  {
    assert w[0] in w;
    var r := DisplayName(w);
    forall i | 0 <= i < |w| ensures r[i] == ([ToUpper(w[0])] + w[1..])[i] {
      assert w[i] in w;
      if i > 0 {
        assert w[i - 1] in w;
      }
    }
  }

  /** `a_b` is shown as `A B`: the underscore becomes a space and both initials are upper-cased. */
  lemma DisplayTwoWords(a: string, b: string)
    requires IsLowerWord(a) && IsLowerWord(b)
    ensures DisplayName(a + "_" + b) == [ToUpper(a[0])] + a[1..] + " " + [ToUpper(b[0])] + b[1..]
  {
    var s := a + "_" + b;
    var t := a + " " + b;
    var rep := ReplaceFirst(s, '_', ' ');
    forall i | 0 <= i < |s| ensures rep[i] == t[i] {
      if i < |a| {
        assert s[i] == a[i] && a[i] in a;
      } else if i == |a| {
        assert s[..i] == a;
        assert forall c :: c in a ==> c != '_';
      } else {
        assert s[i] == b[i - |a| - 1] && b[i - |a| - 1] in b;
        assert s[|a|] == '_' && s[|a|] in s[..i];
      }
    }
    assert rep == t;
    var expected := [ToUpper(a[0])] + a[1..] + " " + [ToUpper(b[0])] + b[1..];
    var r := DisplayName(s);
    assert a[0] in a && b[0] in b;
    forall i | 0 <= i < |t| ensures r[i] == expected[i] {
      if i < |a| {
        assert t[i] == a[i] && a[i] in a;
        if i > 0 { assert t[i - 1] == a[i - 1] && a[i - 1] in a; }
      } else if i > |a| {
        assert t[i] == b[i - |a| - 1] && b[i - |a| - 1] in b;
        if i > |a| + 1 { assert t[i - 1] == b[i - |a| - 2] && b[i - |a| - 2] in b; }
      }
    }
  }

  /** The "Approved By" list of a certificate. */
  function ApprovedBy(studyLevel: string): (names: seq<string>)
    ensures |names| == |RequiredRoles(studyLevel)|
    ensures forall i :: 0 <= i < |names| ==> names[i] == DisplayName(RequiredRoles(studyLevel)[i])
  {
    var roles := RequiredRoles(studyLevel);
    seq(|roles|, i requires 0 <= i < |roles| => DisplayName(roles[i]))
  }

  /** The names the certificate shows for the seven workflow roles. */
  lemma RoleDisplayNames()
    ensures DisplayName(DepartmentHead) == "Department Head"
    ensures DisplayName(Librarian) == "Librarian"
    ensures DisplayName(Cafeteria) == "Cafeteria"
    ensures DisplayName(Dormitory) == "Dormitory"
    ensures DisplayName(Sport) == "Sport"
    ensures DisplayName(StudentAffair) == "Student Affair"
    ensures DisplayName(Registrar) == "Registrar"
  {
    DepartmentHeadName();
    StudentAffairName();
    OneWordNames();
    LaterOneWordNames();
  }

  /** department_head, whose name holds an underscore. */
  lemma DepartmentHeadName()
    ensures DisplayName(DepartmentHead) == "Department Head"
  {
    DisplayTwoWords("department", "head");
    assert "department" + "_" + "head" == DepartmentHead;
  }

  /** student_affair, whose name holds an underscore. */
  lemma StudentAffairName()
    ensures DisplayName(StudentAffair) == "Student Affair"
  {
    DisplayTwoWords("student", "affair");
    assert "student" + "_" + "affair" == StudentAffair;
  }

  /** The phase-1 roles named by one word. */
  lemma OneWordNames()
    ensures DisplayName(Librarian) == "Librarian"
    ensures DisplayName(Cafeteria) == "Cafeteria"
    ensures DisplayName(Dormitory) == "Dormitory"
  {
    DisplayOneWord(Librarian);
    DisplayOneWord(Cafeteria);
    DisplayOneWord(Dormitory);
  }

  /** The later-phase roles named by one word. */
  lemma LaterOneWordNames()
    ensures DisplayName(Sport) == "Sport"
    ensures DisplayName(Registrar) == "Registrar"
  {
    DisplayOneWord(Sport);
    DisplayOneWord(Registrar);
  }

  /** The list a non-PhD certificate shows. */
  lemma ApprovedByNames(studyLevel: string)
    requires !IsPhd(studyLevel)
    ensures ApprovedBy(studyLevel) ==
      ["Department Head", "Librarian", "Cafeteria", "Dormitory", "Sport", "Student Affair", "Registrar"]
  {
    RoleDisplayNames();
  }

  /** The list a PhD certificate shows: the dormitory is left out. */
  lemma PhdApprovedByNames(studyLevel: string)
    requires IsPhd(studyLevel)
    ensures ApprovedBy(studyLevel) == ["Department Head", "Librarian", "Cafeteria", "Sport", "Student Affair", "Registrar"]
  {
    RoleDisplayNames();
  }

  // ---------------------------------------------------------------------------
  // The certificates table and the endpoint
  // ---------------------------------------------------------------------------

  /** A row of `certificates` (the PDF bytes are not modelled). */
  datatype IssuedCertificate = IssuedCertificate(requestId: nat, studentId: nat)

  predicate HasCertificate(issued: seq<IssuedCertificate>, requestId: nat, studentId: nat)
  {
    IssuedCertificate(requestId, studentId) in issued
  }

  ghost predicate AtMostOnePerPair(issued: seq<IssuedCertificate>)
  {
    forall i, j :: 0 <= i < j < |issued| ==> issued[i] != issued[j]
  }

  class CertificateStore {
    var issued: seq<IssuedCertificate>

    ghost predicate Valid()
      reads this
    {
      AtMostOnePerPair(issued)
    }

    constructor ()
      ensures Valid() && issued == []
    {
      issued := [];
    }

    /** `INSERT INTO certificates ...` */
    method Insert(c: IssuedCertificate)
      requires Valid() && c !in issued
      modifies this
      ensures Valid() && issued == old(issued) + [c]
    {
      issued := issued + [c];
    }
  }

  datatype CertificateError =
    | NotAStudent      // 403 'User is not a student'
    | RequestNotFound  // 404 'Request not found or not authorized'
    | NotAllApproved   // 403 'Not all required departments have approved the request'

  datatype CertificateOutcome =
    | Existing                          // the stored PDF is sent again
    | Generated(approvedBy: seq<string>) // a new PDF listing these approvers, then stored

  /**
   * The request belongs to the student: `clearance_requests cr JOIN
   * clearance_types ct ... WHERE cr.request_id = ? AND cr.student_id = ?`.
   */
  predicate OwnsRequest(dir: Directory, requests: seq<Request>, requestId: nat, studentId: nat)
  {
    exists q :: q in requests && q.requestId == requestId && q.studentId == studentId && q.typeId in dir.clearanceTypes
  }

  /** The checks before any certificate is looked up or made; on success, the calling student. */
  function CertificateCheck(dir: Directory, requests: seq<Request>, rows: seq<Approval>, userId: nat, requestId: nat)
    : (r: Result<Student, CertificateError>)
    ensures StudentOfUser(dir.students, userId).None? ==> r == Err(NotAStudent)
    ensures StudentOfUser(dir.students, userId).Some? &&
            !OwnsRequest(dir, requests, requestId, StudentOfUser(dir.students, userId).value.studentId) ==>
              r == Err(RequestNotFound)
    ensures StudentOfUser(dir.students, userId).Some? &&
            OwnsRequest(dir, requests, requestId, StudentOfUser(dir.students, userId).value.studentId) &&
            !FullyApproved(rows, dir.roles, requestId, StudentOfUser(dir.students, userId).value.studyLevel) ==>
              r == Err(NotAllApproved)
    ensures r.Ok? <==> StudentOfUser(dir.students, userId).Some? &&
                       OwnsRequest(dir, requests, requestId, StudentOfUser(dir.students, userId).value.studentId) &&
                       FullyApproved(rows, dir.roles, requestId, StudentOfUser(dir.students, userId).value.studyLevel)
    ensures r.Ok? ==> r.value == StudentOfUser(dir.students, userId).value
  {
    match StudentOfUser(dir.students, userId)
    case None => Err(NotAStudent)
    case Some(s) =>
      if !OwnsRequest(dir, requests, requestId, s.studentId) then Err(RequestNotFound)
      else if !FullyApproved(rows, dir.roles, requestId, s.studyLevel) then Err(NotAllApproved)
      else Ok(s)
  }

  /**
   * `generateCertificate`: after the checks, an existing certificate for
   * (request, student) is returned and nothing is inserted; otherwise one is
   * generated and stored, so the store never holds two for the same pair.
   */
  method GenerateCertificate(store: CertificateStore, dir: Directory, requests: seq<Request>, rows: seq<Approval>,
                             userId: nat, requestId: nat)
    returns (r: Result<CertificateOutcome, CertificateError>)
    requires store.Valid()
    modifies store
    ensures store.Valid()
    ensures CertificateCheck(dir, requests, rows, userId, requestId).Err? ==>
              r == Err(CertificateCheck(dir, requests, rows, userId, requestId).error) && store.issued == old(store.issued)
    ensures CertificateCheck(dir, requests, rows, userId, requestId).Ok? ==>
              var s := CertificateCheck(dir, requests, rows, userId, requestId).value;
              if HasCertificate(old(store.issued), requestId, s.studentId) then
                r == Ok(Existing) && store.issued == old(store.issued)
              else
                r == Ok(Generated(ApprovedBy(s.studyLevel))) &&
                store.issued == old(store.issued) + [IssuedCertificate(requestId, s.studentId)]
  {
    var check := CertificateCheck(dir, requests, rows, userId, requestId);
    if check.Err? {
      return Err(check.error);
    }
    var s := check.value;
    if HasCertificate(store.issued, requestId, s.studentId) {
      return Ok(Existing);
    }
    var approvedBy := ApprovedBy(s.studyLevel);
    store.Insert(IssuedCertificate(requestId, s.studentId));
    r := Ok(Generated(approvedBy));
  }
}
