/**
 * Properties that span the endpoints: the records a submission seeds are the
 * certificate's phase-1 roles, the status page lists the certificate's
 * approvers, and the whole workflow, from submission to certificate, runs
 * through when every approver approves in turn.
 */
module Workflow {
  import opened Schema
  import Students
  import Staffs
  import Certificate

  // ---------------------------------------------------------------------------
  // Submission against the certificate's required roles
  // ---------------------------------------------------------------------------

  /** The i-th phase-1 approver holds the certificate's i-th required role. */
  lemma {:induction false} ApproverHoldsRequiredRole(dir: Directory, s: Student, i: nat)
    requires OneRolePerUser(dir.roles)
    requires Students.PhaseOneApprovers(dir, s).Ok? && i < |Students.PhaseOneApprovers(dir, s).value|
    ensures var ap := Students.PhaseOneApprovers(dir, s).value;
            var required := Certificate.RequiredRoles(s.studyLevel);
            i < |required| && RoleOf(dir.roles, ap[i]).Some? &&
            RoleOf(dir.roles, ap[i]).value.general == required[i] && required[i] in PhaseOneRoles
  {
    var ap := Students.PhaseOneApprovers(dir, s).value;
    var required := Certificate.RequiredRoles(s.studyLevel);
    assert required[..3] == [DepartmentHead, Librarian, Cafeteria];
    if i == 0 {
      assert required[0] == DepartmentHead;
      RoleOfOnlyRow(dir.roles, RoleRow(ap[0], DepartmentHead, Some(dir.departments[s.departmentId])));
    } else if i == 1 {
      assert required[1] == Librarian;
      RoleOfOnlyRow(dir.roles, RoleRow(ap[1], Librarian, None));
    } else if i == 2 {
      assert required[2] == Cafeteria;
      RoleOfOnlyRow(dir.roles, RoleRow(ap[2], Cafeteria, None));
    } else {
      RoleOfOnlyRow(dir.roles, RoleRow(ap[3], Dormitory, Some(dir.blocks[s.blockId.value])));
    }
  }

  /**
   * The seeded records belong to holders of the certificate's phase-1 roles,
   * in order, and the later phases are the last three required roles. With
   * one role row per user, the approvers are distinct users.
   */
  lemma {:induction false} SeededRolesAreRequired(dir: Directory, s: Student)
    requires OneRolePerUser(dir.roles)
    requires Students.PhaseOneApprovers(dir, s).Ok?
    ensures var ap := Students.PhaseOneApprovers(dir, s).value;
            var required := Certificate.RequiredRoles(s.studyLevel);
            |ap| + 3 == |required| &&
            (forall i :: 0 <= i < |ap| ==>
               RoleOf(dir.roles, ap[i]).Some? && RoleOf(dir.roles, ap[i]).value.general == required[i] &&
               required[i] in PhaseOneRoles) &&
            (forall i, j :: 0 <= i < j < |ap| ==> ap[i] != ap[j])
  {
    var ap := Students.PhaseOneApprovers(dir, s).value;
    var required := Certificate.RequiredRoles(s.studyLevel);
    forall i | 0 <= i < |ap|
      ensures RoleOf(dir.roles, ap[i]).Some? && RoleOf(dir.roles, ap[i]).value.general == required[i]
      ensures required[i] in PhaseOneRoles
    {
      ApproverHoldsRequiredRole(dir, s, i);
    }
    forall i, j | 0 <= i < j < |ap| ensures ap[i] != ap[j] {
      ApproverHoldsRequiredRole(dir, s, i);
      ApproverHoldsRequiredRole(dir, s, j);
    }
  }

  /** The status page's department names are the certificate's "Approved By" names, in the same order. */
  lemma {:induction false} StatusNamesAreApprovers(row: Students.StatusRow, studyLevel: string)
    ensures var names := Students.Departments(row, studyLevel);
            var approvers := Certificate.ApprovedBy(studyLevel);
            |names| == |approvers| && forall i :: 0 <= i < |names| ==> names[i].name == approvers[i]
  {
    Certificate.RoleDisplayNames();
    var required := Certificate.RequiredRoles(studyLevel);
    assert required[..3] == [DepartmentHead, Librarian, Cafeteria];
    assert required[|required| - 3..] == [Sport, StudentAffair, Registrar];
  }

  /**
   * Seeding keeps one record per (request, user): the request is new and the
   * approvers are distinct.
   */
  lemma {:induction false} SeedingKeepsPairsUnique(rows: seq<Approval>, requestId: nat, approvers: seq<nat>)
    requires UniquePairs(rows)
    requires forall a :: a in rows ==> a.requestId != requestId
    requires forall i, j :: 0 <= i < j < |approvers| ==> approvers[i] != approvers[j]
    ensures UniquePairs(rows + Students.SeedRecords(requestId, approvers))
  {
    var after := rows + Students.SeedRecords(requestId, approvers);
    forall i, j | 0 <= i < j < |after| ensures after[i].requestId != after[j].requestId || after[i].userId != after[j].userId {
      if j >= |rows| && i < |rows| {
        assert after[i] in rows;
      }
    }
  }

  // ---------------------------------------------------------------------------
  // The whole workflow
  // ---------------------------------------------------------------------------

  /** The seeded phase-1 records of a request once the approvers in `done` have approved. */
  function Marked(requestId: nat, approvers: seq<nat>, done: set<nat>): (r: seq<Approval>)
    ensures |r| == |approvers|
    ensures forall i :: 0 <= i < |r| ==>
              r[i] == Approval(requestId, approvers[i], if approvers[i] in done then Approved else Pending, None)
  {
    seq(|approvers|, i requires 0 <= i < |approvers| =>
      Approval(requestId, approvers[i], if approvers[i] in done then Approved else Pending, None))
  }

  /** How many of `xs` are in `done`. */
  function CountIn(xs: seq<nat>, done: set<nat>): (n: nat)
    ensures n <= |xs|
  {
    if xs == [] then 0 else (if xs[0] in done then 1 else 0) + CountIn(xs[1..], done)
  }

  lemma {:induction false} CountInIgnores(xs: seq<nat>, done: set<nat>, u: nat)
    requires u !in xs
    ensures CountIn(xs, done + {u}) == CountIn(xs, done)
  {
    if xs != [] {
      assert xs[0] in xs;
      assert forall x :: x in xs[1..] ==> x in xs;
      CountInIgnores(xs[1..], done, u);
    }
  }

  lemma {:induction false} CountInAdd(xs: seq<nat>, done: set<nat>, u: nat)
    requires forall i, j :: 0 <= i < j < |xs| ==> xs[i] != xs[j]
    requires u in xs && u !in done
    ensures CountIn(xs, done + {u}) == CountIn(xs, done) + 1
  {
    var tail := xs[1..];
    assert forall i, j :: 0 <= i < j < |tail| ==> tail[i] != tail[j] by {
      forall i, j | 0 <= i < j < |tail| ensures tail[i] != tail[j] {
        assert tail[i] == xs[i + 1] && tail[j] == xs[j + 1];
      }
    }
    if xs[0] == u {
      assert u !in tail by {
        forall k | 0 <= k < |tail| ensures tail[k] != u {
          assert tail[k] == xs[k + 1];
        }
      }
      CountInIgnores(tail, done, u);
    } else {
      assert u in tail by {
        var k :| 0 <= k < |xs| && xs[k] == u;
        assert tail[k - 1] == u;
      }
      CountInAdd(tail, done, u);
    }
  }

  lemma {:induction false} CountInAll(xs: seq<nat>, done: set<nat>)
    requires forall x :: x in xs ==> x in done
    ensures CountIn(xs, done) == |xs|
  {
    if xs != [] {
      assert xs[0] in xs;
      assert forall x :: x in xs[1..] ==> x in xs;
      CountInAll(xs[1..], done);
    }
  }

  lemma {:induction false} CountInEmpty(xs: seq<nat>)
    ensures CountIn(xs, {}) == 0
  {
    if xs != [] {
      CountInEmpty(xs[1..]);
    }
  }

  /** The approved phase-1 records among the marked ones are the approvers that are done. */
  lemma {:induction false} ApprovedMarked(requestId: nat, approvers: seq<nat>, done: set<nat>, roles: seq<RoleRow>,
                                         generals: set<string>)
    requires forall x :: x in approvers ==> HoldsOneOf(roles, x, generals)
    ensures ApprovedRecords(Marked(requestId, approvers, done), roles, requestId, generals) == CountIn(approvers, done)
  {
    if approvers != [] {
      var m := Marked(requestId, approvers, done);
      assert m[1..] == Marked(requestId, approvers[1..], done);
      assert approvers[0] in approvers;
      assert forall x :: x in approvers[1..] ==> x in approvers;
      ApprovedMarked(requestId, approvers[1..], done, roles, generals);
    }
  }

  /** Marked records whose holders lack `generals` never count. */
  lemma {:induction false} UncountedMarked(requestId: nat, approvers: seq<nat>, done: set<nat>, roles: seq<RoleRow>,
                                          generals: set<string>)
    requires forall x :: x in approvers ==> !HoldsOneOf(roles, x, generals)
    ensures ApprovedRecords(Marked(requestId, approvers, done), roles, requestId, generals) == 0
  {
    if approvers != [] {
      var m := Marked(requestId, approvers, done);
      assert m[1..] == Marked(requestId, approvers[1..], done);
      assert approvers[0] in approvers;
      assert forall x :: x in approvers[1..] ==> x in approvers;
      UncountedMarked(requestId, approvers[1..], done, roles, generals);
    }
  }

  /** Appending an approver appends its record. */
  lemma {:induction false} MarkedSnoc(requestId: nat, xs: seq<nat>, y: nat, done: set<nat>)
    ensures Marked(requestId, xs + [y], done) ==
              Marked(requestId, xs, done) + [Approval(requestId, y, if y in done then Approved else Pending, None)]
  {
    var longer := Marked(requestId, xs + [y], done);
    var shorter := Marked(requestId, xs, done) + [Approval(requestId, y, if y in done then Approved else Pending, None)];
    forall k | 0 <= k < |longer| ensures longer[k] == shorter[k] {
      if k < |xs| {
        assert (xs + [y])[k] == xs[k];
      }
    }
  }

  /** A user outside the marked approvers has no record of the request. */
  lemma {:induction false} NoMarkedRecord(base: seq<Approval>, requestId: nat, xs: seq<nat>, done: set<nat>, y: nat)
    requires forall a :: a in base ==> a.requestId != requestId
    requires y !in xs
    ensures !HasRecord(base + Marked(requestId, xs, done), requestId, y)
  {
    var rows := base + Marked(requestId, xs, done);
    forall j | 0 <= j < |rows| ensures rows[j].requestId != requestId || rows[j].userId != y {
      if j < |base| {
        assert rows[j] in base;
      } else {
        assert rows[j].userId == xs[j - |base|];
      }
    }
  }

  /** Only the marked records count towards a gate of the request. */
  lemma {:induction false} CountOnMarked(roles: seq<RoleRow>, base: seq<Approval>, requestId: nat, xs: seq<nat>, done: set<nat>,
                      generals: set<string>)
    requires OneRolePerUser(roles)
    requires forall a :: a in base ==> a.requestId != requestId
    ensures ApprovedCount(base + Marked(requestId, xs, done), roles, requestId, generals) ==
              ApprovedRecords(Marked(requestId, xs, done), roles, requestId, generals)
  {
    ApprovedCountByRecord(base + Marked(requestId, xs, done), roles, requestId, generals);
    ApprovedRecordsAppend(base, Marked(requestId, xs, done), roles, requestId, generals);
    ApprovedRecordsOtherRequests(base, roles, requestId, generals);
  }

  /** An approved record of a holder of `generals` makes the count positive. */
  lemma {:induction false} MarkedHolderCounts(requestId: nat, xs: seq<nat>, done: set<nat>, roles: seq<RoleRow>,
                                             generals: set<string>, k: nat)
    requires k < |xs| && xs[k] in done && HoldsOneOf(roles, xs[k], generals)
    ensures ApprovedRecords(Marked(requestId, xs, done), roles, requestId, generals) > 0
  {
    var m := Marked(requestId, xs, done);
    assert m[1..] == Marked(requestId, xs[1..], done);
    if k > 0 {
      assert xs[1..][k - 1] == xs[k];
      MarkedHolderCounts(requestId, xs[1..], done, roles, generals, k - 1);
    }
  }

  /** A user new to a list of distinct users keeps it distinct. */
  lemma {:induction false} DistinctSnoc(xs: seq<nat>, y: nat)
    requires forall a, b :: 0 <= a < b < |xs| ==> xs[a] != xs[b]
    requires y !in xs
    ensures forall a, b :: 0 <= a < b < |xs + [y]| ==> (xs + [y])[a] != (xs + [y])[b]
  {
  }

  // ---------------------------------------------------------------------------
  // One approval on the marked records
  // ---------------------------------------------------------------------------

  /** An approval that passes the checks writes its record and appends the seeded one, if any. */
  lemma {:induction false} DecideApproval(rows: seq<Approval>, dir: Directory, requests: seq<Request>, requestId: nat, userId: nat,
                       ad: Staffs.Admission, next: seq<Approval>, seed: Option<Approval>)
    requires Staffs.Admit(rows, dir, requests, requestId, userId, Some("approved"), None) == Ok(ad)
    requires ad.index < |rows| && Staffs.Written(rows, ad) == next
    requires Staffs.NextPhase(next, dir, requests, requestId, ad.role) == Ok(seed)
    ensures Staffs.Decide(rows, dir, requests, requestId, userId, Some("approved"), None) ==
              (Ok(Approved), next + (if seed.Some? then [seed.value] else []))
  {
    assert Staffs.ParseDecision(Some("approved")) == Some(Approved);
    assert ad.decision == Approved;
    var written := Staffs.Written(rows, ad);
    assert written == next;
    match seed
    case None =>
      assert next + [] == next;
    case Some(a) =>
  }

  /** An approval without comment by a user with a role, a record and an open gate is admitted. */
  lemma {:induction false} AdmitApproval(rows: seq<Approval>, dir: Directory, requests: seq<Request>, requestId: nat, userId: nat,
                      idx: nat, role: string)
    requires RoleOf(dir.roles, userId).Some? && RoleOf(dir.roles, userId).value.general == role
    requires RecordIndex(rows, requestId, userId) == Some(idx)
    requires Staffs.PrerequisiteGate(rows, dir, requests, requestId, role).None?
    ensures Staffs.Admit(rows, dir, requests, requestId, userId, Some("approved"), None) ==
              Ok(Staffs.Admission(Approved, None, idx, role))
  {
  }

  /**
   * An approval without comment by a user with a role, its record at `k` and
   * an open gate, whose UPDATE gives `next` and whose seeding succeeds with
   * `seed`, writes the record and appends the seeded one, if any.
   */
  lemma {:induction false} ApprovalStep(rows: seq<Approval>, next: seq<Approval>, dir: Directory, requests: seq<Request>, requestId: nat,
                     userId: nat, k: nat, role: string, seed: Option<Approval>, after: seq<Approval>)
    requires RoleOf(dir.roles, userId).Some? && RoleOf(dir.roles, userId).value.general == role
    requires RecordIndex(rows, requestId, userId) == Some(k)
    requires Staffs.PrerequisiteGate(rows, dir, requests, requestId, role).None?
    requires k < |rows| && Staffs.Written(rows, Staffs.Admission(Approved, None, k, role)) == next
    requires Staffs.NextPhase(next, dir, requests, requestId, role) == Ok(seed)
    requires seed.None? ==> after == next
    requires seed.Some? ==> after == next + [seed.value]
    ensures Staffs.Decide(rows, dir, requests, requestId, userId, Some("approved"), None) == (Ok(Approved), after)
  {
    AdmitApproval(rows, dir, requests, requestId, userId, k, role);
    DecideApproval(rows, dir, requests, requestId, userId, Staffs.Admission(Approved, None, k, role), next, seed);
  }

  /** Marking the i-th approver's record is the decision UPDATE on it. */
  lemma {:induction false} WrittenMarked(base: seq<Approval>, requestId: nat, ap: seq<nat>, done: set<nat>, i: nat, role: string)
    requires forall x, y :: 0 <= x < y < |ap| ==> ap[x] != ap[y]
    requires i < |ap|
    ensures var ad := Staffs.Admission(Approved, None, |base| + i, role);
            Staffs.Written(base + Marked(requestId, ap, done), ad) == base + Marked(requestId, ap, done + {ap[i]})
  {
    var ad := Staffs.Admission(Approved, None, |base| + i, role);
    var written := Staffs.Written(base + Marked(requestId, ap, done), ad);
    var next := base + Marked(requestId, ap, done + {ap[i]});
    forall j | 0 <= j < |written| ensures written[j] == next[j] {
      if j < |base| {
        assert written[j] == base[j] == next[j];
      } else if j != |base| + i {
        assert ap[j - |base|] != ap[i];
      }
    }
  }

  /** The approver `ap[i]` has exactly one record: the i-th marked one. */
  lemma {:induction false} MarkedRecord(base: seq<Approval>, requestId: nat, ap: seq<nat>, done: set<nat>, i: nat)
    requires forall a :: a in base ==> a.requestId != requestId
    requires forall x, y :: 0 <= x < y < |ap| ==> ap[x] != ap[y]
    requires i < |ap|
    ensures RecordIndex(base + Marked(requestId, ap, done), requestId, ap[i]) == Some(|base| + i)
  {
    var rows := base + Marked(requestId, ap, done);
    forall j | 0 <= j < |rows| && j != |base| + i ensures rows[j].requestId != requestId || rows[j].userId != ap[i] {
      if j < |base| {
        assert rows[j] in base;
      } else {
        assert rows[j].userId == ap[j - |base|];
      }
    }
    OnlyRecord(rows, requestId, ap[i], |base| + i);
  }

  /** The record of `xs[i]` on the marked table, and its decision UPDATE. */
  lemma {:induction false} MarkedFacts(base: seq<Approval>, requestId: nat, xs: seq<nat>, done: set<nat>, i: nat, u: nat, role: string)
    requires forall a :: a in base ==> a.requestId != requestId
    requires forall x, y :: 0 <= x < y < |xs| ==> xs[x] != xs[y]
    requires i < |xs| && xs[i] == u
    ensures RecordIndex(base + Marked(requestId, xs, done), requestId, u) == Some(|base| + i)
    ensures |base| + i < |base + Marked(requestId, xs, done)|
    ensures Staffs.Written(base + Marked(requestId, xs, done), Staffs.Admission(Approved, None, |base| + i, role)) ==
              base + Marked(requestId, xs, done + {u})
  {
    MarkedRecord(base, requestId, xs, done, i);
    WrittenMarked(base, requestId, xs, done, i, role);
  }

  /**
   * On the marked table, the approver `xs[i]` with an open gate, whose
   * seeding on the updated table gives `seed`, approves: its record is marked
   * and the seeded one, if any, is appended.
   */
  lemma {:induction false} MarkedApproval(dir: Directory, requests: seq<Request>, base: seq<Approval>, rid: nat,
                                          xs: seq<nat>, done: set<nat>, i: nat, u: nat, role: string,
                                          seed: Option<Approval>, after: seq<Approval>)
    requires forall a :: a in base ==> a.requestId != rid
    requires forall x, y :: 0 <= x < y < |xs| ==> xs[x] != xs[y]
    requires i < |xs| && xs[i] == u
    requires RoleOf(dir.roles, u).Some? && RoleOf(dir.roles, u).value.general == role
    requires Staffs.PrerequisiteGate(base + Marked(rid, xs, done), dir, requests, rid, role).None?
    requires Staffs.NextPhase(base + Marked(rid, xs, done + {u}), dir, requests, rid, role) == Ok(seed)
    requires seed.None? ==> after == base + Marked(rid, xs, done + {u})
    requires seed.Some? ==> after == base + Marked(rid, xs, done + {u}) + [seed.value]
    ensures Staffs.Decide(base + Marked(rid, xs, done), dir, requests, rid, u, Some("approved"), None) == (Ok(Approved), after)
  {
    MarkedFacts(base, rid, xs, done, i, u, role);
    ApprovalStep(base + Marked(rid, xs, done), base + Marked(rid, xs, done + {u}), dir, requests, rid, u, |base| + i,
                 role, seed, after);
  }

  /** A pending record appended after the marked ones marks one more approver. */
  lemma {:induction false} MarkedSeeded(base: seq<Approval>, requestId: nat, xs: seq<nat>, done: set<nat>, y: nat)
    requires y !in done
    ensures base + Marked(requestId, xs + [y], done) == base + Marked(requestId, xs, done) + [Approval(requestId, y, Pending, None)]
  {
    MarkedSnoc(requestId, xs, y, done);
    var m := Marked(requestId, xs, done);
    assert base + (m + [Approval(requestId, y, Pending, None)]) == base + m + [Approval(requestId, y, Pending, None)];
  }

  /** After a phase-1 approval, sport is seeded exactly when the count has reached the required one. */
  lemma {:induction false} NextPhaseOne(rows: seq<Approval>, dir: Directory, requests: seq<Request>, requestId: nat, role: string,
                     level: string, sp: nat)
    requires role in PhaseOneRoles
    requires StudyLevelOf(dir, requests, requestId) == Some(level)
    requires UnscopedStaff(dir.roles, Sport) == Some(sp) && !HasRecord(rows, requestId, sp)
    ensures Staffs.NextPhase(rows, dir, requests, requestId, role) ==
              if ApprovedCount(rows, dir.roles, requestId, PhaseOneRoles) == RequiredPhaseOneCount(level)
              then Ok(Some(Approval(requestId, sp, Pending, None))) else Ok(None)
  {
    assert Staffs.NextRole(role) == Some(Sport);
  }

  /** After a sport or student_affair approval, the next role's unscoped holder is seeded when it has no record. */
  lemma {:induction false} NextPhaseLater(rows: seq<Approval>, dir: Directory, requests: seq<Request>, requestId: nat, role: string,
                       next: string, holder: nat)
    requires (role == Sport && next == StudentAffair) || (role == StudentAffair && next == Registrar)
    requires UnscopedStaff(dir.roles, next) == Some(holder) && !HasRecord(rows, requestId, holder)
    ensures Staffs.NextPhase(rows, dir, requests, requestId, role) == Ok(Some(Approval(requestId, holder, Pending, None)))
  {
    assert role !in PhaseOneRoles;
  }

  /** The registrar's approval seeds nothing. */
  lemma {:induction false} RegistrarIsLast()
    ensures Staffs.NextRole(Registrar).None?
  {
  }

  /**
   * The gate of student_affair (or the registrar) is open once the record of
   * a sport (or student_affair) holder is approved.
   */
  lemma {:induction false} HolderGate(dir: Directory, requests: seq<Request>, base: seq<Approval>, requestId: nat, xs: seq<nat>,
                   done: set<nat>, k: nat, role: string, prior: string)
    requires OneRolePerUser(dir.roles)
    requires forall a :: a in base ==> a.requestId != requestId
    requires (role == StudentAffair && prior == Sport) || (role == Registrar && prior == StudentAffair)
    requires k < |xs| && xs[k] in done && RoleOf(dir.roles, xs[k]) == Some(RoleRow(xs[k], prior, None))
    ensures Staffs.PrerequisiteGate(base + Marked(requestId, xs, done), dir, requests, requestId, role).None?
  {
    CountOnMarked(dir.roles, base, requestId, xs, done, {prior});
    HoldsByRole(dir.roles, xs[k], {prior});
    MarkedHolderCounts(requestId, xs, done, dir.roles, {prior}, k);
  }

  // ---------------------------------------------------------------------------
  // Runs of approvals
  // ---------------------------------------------------------------------------

  /** `users` approve in turn, each without comment; None once a call is refused or fails. */
  function Run(rows: seq<Approval>, dir: Directory, requests: seq<Request>, requestId: nat, users: seq<nat>)
    : (r: Option<seq<Approval>>)
    ensures users == [] ==> r == Some(rows)
    decreases |users|
  {
    if users == [] then Some(rows)
    else
      var (response, next) := Staffs.Decide(rows, dir, requests, requestId, users[0], Some("approved"), None);
      if response.Ok? then Run(next, dir, requests, requestId, users[1..]) else None
  }

  /**
   * A run passes through the given tables when each user's approval takes
   * one table to the next.
   */
  lemma {:induction false} RunThrough(tables: seq<seq<Approval>>, dir: Directory, requests: seq<Request>, requestId: nat,
                                      users: seq<nat>)
    requires |tables| == |users| + 1
    requires forall k :: 0 <= k < |users| ==>
               Staffs.Decide(tables[k], dir, requests, requestId, users[k], Some("approved"), None) ==
               (Ok(Approved), tables[k + 1])
    ensures Run(tables[0], dir, requests, requestId, users) == Some(tables[|users|])
    decreases |users|
  {
    if users != [] {
      var rest := tables[1..];
      forall k | 0 <= k < |users[1..]|
        ensures Staffs.Decide(rest[k], dir, requests, requestId, users[1..][k], Some("approved"), None) ==
                (Ok(Approved), rest[k + 1])
      {
        assert rest[k] == tables[k + 1] && users[1..][k] == users[k + 1] && rest[k + 1] == tables[k + 2];
      }
      RunThrough(rest, dir, requests, requestId, users[1..]);
    }
  }

  /** Once every marked approver has approved, every record of the request is approved. */
  lemma {:induction false} MarkedAllApproved(base: seq<Approval>, requestId: nat, xs: seq<nat>, done: set<nat>)
    requires forall a :: a in base ==> a.requestId != requestId
    requires forall x :: x in xs ==> x in done
    ensures forall a :: a in base + Marked(requestId, xs, done) && a.requestId == requestId ==> a.status == Approved
  {
    var rows := base + Marked(requestId, xs, done);
    forall a | a in rows && a.requestId == requestId ensures a.status == Approved {
      var j :| 0 <= j < |rows| && rows[j] == a;
      if j >= |base| {
        assert xs[j - |base|] in xs;
      }
    }
  }

  /** The approvers of `order[..k]` as a set. */
  function Prefix(order: seq<nat>, k: nat): (done: set<nat>)
    requires k <= |order|
    ensures |done| <= k
  {
    if k == 0 then {} else Prefix(order, k - 1) + {order[k - 1]}
  }

  /** A member of `Prefix(order, k)` is one of the first k in the order. */
  lemma {:induction false} PrefixMembers(order: seq<nat>, k: nat, x: nat)
    requires k <= |order| && x in Prefix(order, k)
    ensures exists j :: 0 <= j < k && order[j] == x
  {
    if x != order[k - 1] {
      PrefixMembers(order, k - 1, x);
    }
  }

  /** All of `xs` are in `done` once they all count. */
  lemma {:induction false} CountInFull(xs: seq<nat>, done: set<nat>)
    requires CountIn(xs, done) == |xs|
    ensures forall x :: x in xs ==> x in done
  {
    if xs != [] {
      CountInFull(xs[1..], done);
      assert forall x :: x in xs ==> x == xs[0] || x in xs[1..];
    }
  }

  /** The k-th approver of a distinct order is new, and raises the count of approved approvers to k. */
  lemma {:induction false} PrefixCount(ap: seq<nat>, order: seq<nat>, k: nat)
    requires forall a, b :: 0 <= a < b < |ap| ==> ap[a] != ap[b]
    requires forall a, b :: 0 <= a < b < |order| ==> order[a] != order[b]
    requires forall x :: x in order ==> x in ap
    requires 0 < k <= |order| && CountIn(ap, Prefix(order, k - 1)) == k - 1
    ensures order[k - 1] in ap && order[k - 1] !in Prefix(order, k - 1)
    ensures CountIn(ap, Prefix(order, k)) == k
  {
    var u := order[k - 1];
    if u in Prefix(order, k - 1) {
      PrefixMembers(order, k - 1, u);
    }
    assert u in order;
    CountInAdd(ap, Prefix(order, k - 1), u);
  }

  // ---------------------------------------------------------------------------
  // One request, approved by its whole chain
  // ---------------------------------------------------------------------------

  /**
   * The facts about one request the approval steps rely on: one role row
   * per user, no record of the request among the other records `base`, the
   * student's study level, the distinct phase-1 approvers `ap` (one per
   * phase-1 role, holding none of the later roles), and the unscoped sport,
   * student_affair and registrar staff `sp`, `sa` and `reg`, who are none of
   * them.
   */
  ghost predicate Lineup(dir: Directory, requests: seq<Request>, base: seq<Approval>, rid: nat, level: string,
                         ap: seq<nat>, sp: nat, sa: nat, reg: nat)
  {
    OneRolePerUser(dir.roles) &&
    (forall a :: a in base ==> a.requestId != rid) &&
    StudyLevelOf(dir, requests, rid) == Some(level) &&
    |ap| == RequiredPhaseOneCount(level) &&
    (forall i, j :: 0 <= i < j < |ap| ==> ap[i] != ap[j]) &&
    (forall x :: x in ap ==> RoleOf(dir.roles, x).Some? && RoleOf(dir.roles, x).value.general in PhaseOneRoles) &&
    (forall x :: x in ap ==> RoleOf(dir.roles, x).value.general !in {Sport, StudentAffair, Registrar}) &&
    (forall x :: x in ap ==> HoldsOneOf(dir.roles, x, PhaseOneRoles)) &&
    UnscopedStaff(dir.roles, Sport) == Some(sp) && UnscopedStaff(dir.roles, StudentAffair) == Some(sa) &&
    UnscopedStaff(dir.roles, Registrar) == Some(reg) &&
    RoleOf(dir.roles, sp) == Some(RoleRow(sp, Sport, None)) &&
    RoleOf(dir.roles, sa) == Some(RoleRow(sa, StudentAffair, None)) &&
    RoleOf(dir.roles, reg) == Some(RoleRow(reg, Registrar, None)) &&
    sp !in ap && sa !in ap && reg !in ap && sp != sa && sa != reg && sp != reg
  }

  /** The phase-1 approvers hold the certificate's required roles in order. */
  ghost predicate InRequiredOrder(dir: Directory, level: string, ap: seq<nat>)
  {
    |ap| + 3 == |Certificate.RequiredRoles(level)| &&
    forall i :: 0 <= i < |ap| ==>
      RoleOf(dir.roles, ap[i]).Some? && RoleOf(dir.roles, ap[i]).value.general == Certificate.RequiredRoles(level)[i]
  }

  /** With the records of `done` approved, the phase-1 count is their number and sport has no record yet. */
  lemma {:induction false} PhaseOneCount(dir: Directory, requests: seq<Request>, base: seq<Approval>, rid: nat, level: string,
                      ap: seq<nat>, sp: nat, sa: nat, reg: nat, done: set<nat>)
    requires Lineup(dir, requests, base, rid, level, ap, sp, sa, reg)
    ensures ApprovedCount(base + Marked(rid, ap, done), dir.roles, rid, PhaseOneRoles) == CountIn(ap, done)
    ensures !HasRecord(base + Marked(rid, ap, done), rid, sp)
  {
    CountOnMarked(dir.roles, base, rid, ap, done, PhaseOneRoles);
    ApprovedMarked(rid, ap, done, dir.roles, PhaseOneRoles);
    NoMarkedRecord(base, rid, ap, done, sp);
  }

  /**
   * A phase-1 approver who has not yet approved meets no gate, and its
   * approval seeds sport exactly when it completes the phase-1 count.
   */
  lemma {:induction false} PhaseOneGates(dir: Directory, requests: seq<Request>, base: seq<Approval>, rid: nat, level: string,
                      ap: seq<nat>, sp: nat, sa: nat, reg: nat, done: set<nat>, u: nat)
    requires Lineup(dir, requests, base, rid, level, ap, sp, sa, reg)
    requires u in ap && u !in done
    ensures RoleOf(dir.roles, u).Some? && RoleOf(dir.roles, u).value.general in PhaseOneRoles
    ensures var role := RoleOf(dir.roles, u).value.general;
            role != Sport && role != StudentAffair && role != Registrar && Staffs.NextRole(role) == Some(Sport)
    ensures Staffs.PrerequisiteGate(base + Marked(rid, ap, done), dir, requests, rid, RoleOf(dir.roles, u).value.general).None?
    ensures Staffs.NextPhase(base + Marked(rid, ap, done + {u}), dir, requests, rid, RoleOf(dir.roles, u).value.general) ==
              if CountIn(ap, done + {u}) == |ap| then Ok(Some(Approval(rid, sp, Pending, None))) else Ok(None)
  {
    var role := RoleOf(dir.roles, u).value.general;
    assert role !in {Sport, StudentAffair, Registrar};
    PhaseOneCount(dir, requests, base, rid, level, ap, sp, sa, reg, done + {u});
    NextPhaseOne(base + Marked(rid, ap, done + {u}), dir, requests, rid, role, level, sp);
  }

  /** A phase-1 approver who has not yet approved, and is not the last one, approves: its record is marked approved. */
  lemma {:induction false} PhaseOneStep(dir: Directory, requests: seq<Request>, base: seq<Approval>, rid: nat, level: string,
                     ap: seq<nat>, sp: nat, sa: nat, reg: nat, done: set<nat>, u: nat)
    requires Lineup(dir, requests, base, rid, level, ap, sp, sa, reg)
    requires u in ap && u !in done && CountIn(ap, done + {u}) != |ap|
    ensures Staffs.Decide(base + Marked(rid, ap, done), dir, requests, rid, u, Some("approved"), None) ==
              (Ok(Approved), base + Marked(rid, ap, done + {u}))
  {
    var i :| 0 <= i < |ap| && ap[i] == u;
    PhaseOneGates(dir, requests, base, rid, level, ap, sp, sa, reg, done, u);
    MarkedApproval(dir, requests, base, rid, ap, done, i, u, RoleOf(dir.roles, u).value.general, None,
                   base + Marked(rid, ap, done + {u}));
  }

  /** The last phase-1 approver approves: its record is marked approved and the sport record is seeded. */
  lemma {:induction false} PhaseOneSeedStep(dir: Directory, requests: seq<Request>, base: seq<Approval>, rid: nat, level: string,
                         ap: seq<nat>, sp: nat, sa: nat, reg: nat, done: set<nat>, u: nat)
    requires Lineup(dir, requests, base, rid, level, ap, sp, sa, reg)
    requires u in ap && u !in done && CountIn(ap, done + {u}) == |ap|
    ensures Staffs.Decide(base + Marked(rid, ap, done), dir, requests, rid, u, Some("approved"), None) ==
              (Ok(Approved), base + Marked(rid, ap, done + {u}) + [Approval(rid, sp, Pending, None)])
  {
    var i :| 0 <= i < |ap| && ap[i] == u;
    PhaseOneGates(dir, requests, base, rid, level, ap, sp, sa, reg, done, u);
    MarkedApproval(dir, requests, base, rid, ap, done, i, u, RoleOf(dir.roles, u).value.general,
                   Some(Approval(rid, sp, Pending, None)),
                   base + Marked(rid, ap, done + {u}) + [Approval(rid, sp, Pending, None)]);
  }

  /** The chain of approvers: the phase-1 approvers, then sport, student_affair and the registrar, all distinct. */
  lemma {:induction false} ChainFacts(dir: Directory, requests: seq<Request>, base: seq<Approval>, rid: nat, level: string,
                   ap: seq<nat>, sp: nat, sa: nat, reg: nat)
    requires Lineup(dir, requests, base, rid, level, ap, sp, sa, reg)
    ensures forall a, b :: 0 <= a < b < |ap + [sp]| ==> (ap + [sp])[a] != (ap + [sp])[b]
    ensures forall a, b :: 0 <= a < b < |ap + [sp, sa]| ==> (ap + [sp, sa])[a] != (ap + [sp, sa])[b]
    ensures forall a, b :: 0 <= a < b < |ap + [sp, sa, reg]| ==> (ap + [sp, sa, reg])[a] != (ap + [sp, sa, reg])[b]
    ensures (ap + [sp])[|ap|] == sp && sa !in ap + [sp]
    ensures (ap + [sp, sa])[|ap|] == sp && (ap + [sp, sa])[|ap| + 1] == sa && reg !in ap + [sp, sa]
    ensures (ap + [sp, sa, reg])[|ap| + 1] == sa && (ap + [sp, sa, reg])[|ap| + 2] == reg
  {
    DistinctSnoc(ap, sp);
    DistinctSnoc(ap + [sp], sa);
    DistinctSnoc(ap + [sp] + [sa], reg);
    assert ap + [sp] + [sa] + [reg] == ap + [sp, sa, reg];
  }

  /** Sport approves once every phase-1 record is approved, and student_affair is seeded. */
  lemma {:induction false} SportStep(dir: Directory, requests: seq<Request>, base: seq<Approval>, rid: nat, level: string,
                  ap: seq<nat>, sp: nat, sa: nat, reg: nat, done: set<nat>)
    requires Lineup(dir, requests, base, rid, level, ap, sp, sa, reg)
    requires forall x :: x in ap ==> x in done
    requires sp !in done && sa !in done
    ensures Staffs.Decide(base + Marked(rid, ap + [sp], done), dir, requests, rid, sp, Some("approved"), None) ==
              (Ok(Approved), base + Marked(rid, ap + [sp, sa], done + {sp}))
  {
    var xs := ap + [sp];
    SportGates(dir, requests, base, rid, level, ap, sp, sa, reg, done);
    MarkedApproval(dir, requests, base, rid, xs, done, |ap|, sp, Sport, Some(Approval(rid, sa, Pending, None)),
                   base + Marked(rid, ap + [sp, sa], done + {sp}));
  }

  /** Sport meets an open gate once every phase-1 record is approved, and its approval seeds student_affair. */
  lemma {:induction false} SportGates(dir: Directory, requests: seq<Request>, base: seq<Approval>, rid: nat, level: string,
                   ap: seq<nat>, sp: nat, sa: nat, reg: nat, done: set<nat>)
    requires Lineup(dir, requests, base, rid, level, ap, sp, sa, reg)
    requires forall x :: x in ap ==> x in done
    requires sp !in done && sa !in done
    ensures forall a, b :: 0 <= a < b < |ap + [sp]| ==> (ap + [sp])[a] != (ap + [sp])[b]
    ensures (ap + [sp])[|ap|] == sp
    ensures Staffs.PrerequisiteGate(base + Marked(rid, ap + [sp], done), dir, requests, rid, Sport).None?
    ensures Staffs.NextPhase(base + Marked(rid, ap + [sp], done + {sp}), dir, requests, rid, Sport) ==
              Ok(Some(Approval(rid, sa, Pending, None)))
    ensures base + Marked(rid, ap + [sp, sa], done + {sp}) ==
              base + Marked(rid, ap + [sp], done + {sp}) + [Approval(rid, sa, Pending, None)]
  {
    var xs := ap + [sp];
    ChainFacts(dir, requests, base, rid, level, ap, sp, sa, reg);
    CountOnMarked(dir.roles, base, rid, xs, done, PhaseOneRoles);
    MarkedSnoc(rid, ap, sp, done);
    ApprovedRecordsAppend(Marked(rid, ap, done), [Approval(rid, sp, Pending, None)], dir.roles, rid, PhaseOneRoles);
    ApprovedMarked(rid, ap, done, dir.roles, PhaseOneRoles);
    CountInAll(ap, done);
    NoMarkedRecord(base, rid, xs, done + {sp}, sa);
    NextPhaseLater(base + Marked(rid, xs, done + {sp}), dir, requests, rid, Sport, StudentAffair, sa);
    MarkedSeeded(base, rid, xs, done + {sp}, sa);
    assert ap + [sp] + [sa] == ap + [sp, sa];
  }

  /** student_affair approves once sport has, and the registrar is seeded. */
  lemma {:induction false} StudentAffairStep(dir: Directory, requests: seq<Request>, base: seq<Approval>, rid: nat, level: string,
                          ap: seq<nat>, sp: nat, sa: nat, reg: nat, done: set<nat>)
    requires Lineup(dir, requests, base, rid, level, ap, sp, sa, reg)
    requires sp in done && sa !in done && reg !in done
    ensures Staffs.Decide(base + Marked(rid, ap + [sp, sa], done), dir, requests, rid, sa, Some("approved"), None) ==
              (Ok(Approved), base + Marked(rid, ap + [sp, sa, reg], done + {sa}))
  {
    var xs := ap + [sp, sa];
    StudentAffairGates(dir, requests, base, rid, level, ap, sp, sa, reg, done);
    MarkedApproval(dir, requests, base, rid, xs, done, |ap| + 1, sa, StudentAffair, Some(Approval(rid, reg, Pending, None)),
                   base + Marked(rid, ap + [sp, sa, reg], done + {sa}));
  }

  /** student_affair meets an open gate once sport has approved, and its approval seeds the registrar. */
  lemma {:induction false} StudentAffairGates(dir: Directory, requests: seq<Request>, base: seq<Approval>, rid: nat, level: string,
                           ap: seq<nat>, sp: nat, sa: nat, reg: nat, done: set<nat>)
    requires Lineup(dir, requests, base, rid, level, ap, sp, sa, reg)
    requires sp in done && sa !in done && reg !in done
    ensures forall a, b :: 0 <= a < b < |ap + [sp, sa]| ==> (ap + [sp, sa])[a] != (ap + [sp, sa])[b]
    ensures (ap + [sp, sa])[|ap| + 1] == sa
    ensures Staffs.PrerequisiteGate(base + Marked(rid, ap + [sp, sa], done), dir, requests, rid, StudentAffair).None?
    ensures Staffs.NextPhase(base + Marked(rid, ap + [sp, sa], done + {sa}), dir, requests, rid, StudentAffair) ==
              Ok(Some(Approval(rid, reg, Pending, None)))
    ensures base + Marked(rid, ap + [sp, sa, reg], done + {sa}) ==
              base + Marked(rid, ap + [sp, sa], done + {sa}) + [Approval(rid, reg, Pending, None)]
  {
    var xs := ap + [sp, sa];
    ChainFacts(dir, requests, base, rid, level, ap, sp, sa, reg);
    HolderGate(dir, requests, base, rid, xs, done, |ap|, StudentAffair, Sport);
    NoMarkedRecord(base, rid, xs, done + {sa}, reg);
    NextPhaseLater(base + Marked(rid, xs, done + {sa}), dir, requests, rid, StudentAffair, Registrar, reg);
    MarkedSeeded(base, rid, xs, done + {sa}, reg);
    assert ap + [sp, sa] + [reg] == ap + [sp, sa, reg];
  }

  /** The registrar approves once student_affair has; nothing further is seeded. */
  lemma {:induction false} RegistrarStep(dir: Directory, requests: seq<Request>, base: seq<Approval>, rid: nat, level: string,
                      ap: seq<nat>, sp: nat, sa: nat, reg: nat, done: set<nat>)
    requires Lineup(dir, requests, base, rid, level, ap, sp, sa, reg)
    requires sa in done
    ensures Staffs.Decide(base + Marked(rid, ap + [sp, sa, reg], done), dir, requests, rid, reg, Some("approved"), None) ==
              (Ok(Approved), base + Marked(rid, ap + [sp, sa, reg], done + {reg}))
  {
    var xs := ap + [sp, sa, reg];
    RegistrarGates(dir, requests, base, rid, level, ap, sp, sa, reg, done);
    MarkedApproval(dir, requests, base, rid, xs, done, |ap| + 2, reg, Registrar, None, base + Marked(rid, xs, done + {reg}));
  }

  /** The registrar meets an open gate once student_affair has approved, and its approval seeds nothing. */
  lemma {:induction false} RegistrarGates(dir: Directory, requests: seq<Request>, base: seq<Approval>, rid: nat, level: string,
                       ap: seq<nat>, sp: nat, sa: nat, reg: nat, done: set<nat>)
    requires Lineup(dir, requests, base, rid, level, ap, sp, sa, reg)
    requires sa in done
    ensures forall a, b :: 0 <= a < b < |ap + [sp, sa, reg]| ==> (ap + [sp, sa, reg])[a] != (ap + [sp, sa, reg])[b]
    ensures (ap + [sp, sa, reg])[|ap| + 2] == reg
    ensures Staffs.PrerequisiteGate(base + Marked(rid, ap + [sp, sa, reg], done), dir, requests, rid, Registrar).None?
    ensures Staffs.NextPhase(base + Marked(rid, ap + [sp, sa, reg], done + {reg}), dir, requests, rid, Registrar) == Ok(None)
  {
    ChainFacts(dir, requests, base, rid, level, ap, sp, sa, reg);
    HolderGate(dir, requests, base, rid, ap + [sp, sa, reg], done, |ap| + 1, Registrar, StudentAffair);
    RegistrarIsLast();
  }

  /** Once every phase-1 approver has approved, the seeded sport record extends the marked ones. */
  lemma {:induction false} SeedAfterPhaseOne(dir: Directory, requests: seq<Request>, base: seq<Approval>, rid: nat, level: string,
                          ap: seq<nat>, sp: nat, sa: nat, reg: nat, done: set<nat>)
    requires Lineup(dir, requests, base, rid, level, ap, sp, sa, reg)
    requires forall x :: x in done ==> x in ap
    ensures base + Marked(rid, ap + [sp], done) == base + Marked(rid, ap, done) + [Approval(rid, sp, Pending, None)]
  {
    assert sp !in done;
    MarkedSnoc(rid, ap, sp, done);
  }

  /** After the whole order, the approved users are exactly the phase-1 approvers. */
  lemma {:induction false} PhaseOneDone(ap: seq<nat>, order: seq<nat>)
    requires |order| == |ap|
    requires forall x :: x in order ==> x in ap
    requires CountIn(ap, Prefix(order, |order|)) == |order|
    ensures forall x :: x in ap <==> x in Prefix(order, |order|)
  {
    CountInFull(ap, Prefix(order, |order|));
    forall x | x in Prefix(order, |order|) ensures x in ap {
      PrefixMembers(order, |order|, x);
    }
  }

  /** The i-th approver of the chain holds the certificate's i-th required role. */
  lemma {:induction false} ChainHoldsAt(dir: Directory, requests: seq<Request>, base: seq<Approval>, rid: nat, level: string,
                     ap: seq<nat>, sp: nat, sa: nat, reg: nat, i: nat)
    requires Lineup(dir, requests, base, rid, level, ap, sp, sa, reg) && InRequiredOrder(dir, level, ap)
    requires i < |ap| + 3
    ensures var chain := ap + [sp, sa, reg];
            RoleOf(dir.roles, chain[i]).Some? && RoleOf(dir.roles, chain[i]).value.general == Certificate.RequiredRoles(level)[i]
  {
    var chain := ap + [sp, sa, reg];
    var required := Certificate.RequiredRoles(level);
    var n := |required|;
    if i < |ap| {
      assert chain[i] == ap[i];
    } else {
      assert required[n - 3..] == [Sport, StudentAffair, Registrar];
      assert required[n - 3] == Sport && required[n - 2] == StudentAffair && required[n - 1] == Registrar;
      if i == |ap| {
        assert chain[i] == sp && required[i] == Sport;
      } else if i == |ap| + 1 {
        assert chain[i] == sa && required[i] == StudentAffair;
      } else {
        assert chain[i] == reg && required[i] == Registrar;
      }
    }
  }

  /** Every record of the request approved, and each required role holding one: the certificate gate opens. */
  lemma {:induction false} ChainApproved(dir: Directory, requests: seq<Request>, base: seq<Approval>, rid: nat, level: string,
                      ap: seq<nat>, sp: nat, sa: nat, reg: nat, done: set<nat>)
    requires Lineup(dir, requests, base, rid, level, ap, sp, sa, reg) && InRequiredOrder(dir, level, ap)
    requires forall x :: x in ap + [sp, sa, reg] ==> x in done
    ensures Certificate.FullyApproved(base + Marked(rid, ap + [sp, sa, reg], done), dir.roles, rid, level)
  {
    var chain := ap + [sp, sa, reg];
    var rows := base + Marked(rid, chain, done);
    var required := Certificate.RequiredRoles(level);
    MarkedAllApproved(base, rid, chain, done);
    forall role | role in required
      ensures exists a, r :: a in rows && r in dir.roles && a.userId == r.userId && a.requestId == rid && r.general == role
    {
      var i :| 0 <= i < |required| && required[i] == role;
      ChainHoldsAt(dir, requests, base, rid, level, ap, sp, sa, reg, i);
      var a := rows[|base| + i];
      var r := RoleOf(dir.roles, chain[i]).value;
      assert a in rows && r in dir.roles && a.userId == r.userId;
    }
    Certificate.FullyApprovedWhenAllApproved(rows, dir.roles, rid, level);
  }

  /** A distinct order of phase-1 approvers: after its first k, k of them have approved. */
  lemma {:induction false} PrefixCounts(ap: seq<nat>, order: seq<nat>, k: nat)
    requires forall a, b :: 0 <= a < b < |ap| ==> ap[a] != ap[b]
    requires forall a, b :: 0 <= a < b < |order| ==> order[a] != order[b]
    requires forall x :: x in order ==> x in ap
    requires k <= |order|
    ensures CountIn(ap, Prefix(order, k)) == k
  {
    if k == 0 {
      CountInEmpty(ap);
    } else {
      PrefixCounts(ap, order, k - 1);
      PrefixCount(ap, order, k);
    }
  }

  /**
   * The table after the first k approvals of the chain: the phase-1
   * approvers of `order[..k]`, then (once all of them have approved) the
   * sport, student_affair and registrar records, seeded and approved in turn.
   */
  function Table(base: seq<Approval>, rid: nat, ap: seq<nat>, sp: nat, sa: nat, reg: nat, order: seq<nat>, k: nat)
    : (r: seq<Approval>)
    requires |order| == |ap| && k <= |ap| + 3
    ensures |base| <= |r| && r[..|base|] == base
  {
    var done := Prefix(order, if k < |ap| then k else |ap|);
    if k < |ap| then base + Marked(rid, ap, done)
    else if k == |ap| then base + Marked(rid, ap + [sp], done)
    else if k == |ap| + 1 then base + Marked(rid, ap + [sp, sa], done + {sp})
    else if k == |ap| + 2 then base + Marked(rid, ap + [sp, sa, reg], done + {sp} + {sa})
    else base + Marked(rid, ap + [sp, sa, reg], done + {sp} + {sa} + {reg})
  }

  /** The (k+1)-th phase-1 approver of the order approves, seeding sport when it is the last. */
  lemma {:induction false} PhaseOneTableStep(dir: Directory, requests: seq<Request>, base: seq<Approval>, rid: nat, level: string,
                          ap: seq<nat>, sp: nat, sa: nat, reg: nat, order: seq<nat>, k: nat)
    requires Lineup(dir, requests, base, rid, level, ap, sp, sa, reg)
    requires |order| == |ap| && (forall a, b :: 0 <= a < b < |order| ==> order[a] != order[b])
    requires forall x :: x in order ==> x in ap
    requires k < |ap|
    ensures Staffs.Decide(Table(base, rid, ap, sp, sa, reg, order, k), dir, requests, rid, order[k], Some("approved"), None) ==
              (Ok(Approved), Table(base, rid, ap, sp, sa, reg, order, k + 1))
  {
    PrefixCounts(ap, order, k);
    PrefixCount(ap, order, k + 1);
    if k + 1 == |ap| {
      LastPhaseOneStep(dir, requests, base, rid, level, ap, sp, sa, reg, order);
    } else {
      PhaseOneStep(dir, requests, base, rid, level, ap, sp, sa, reg, Prefix(order, k), order[k]);
    }
  }

  /** The last phase-1 approver of the order approves and seeds sport. */
  lemma {:induction false} LastPhaseOneStep(dir: Directory, requests: seq<Request>, base: seq<Approval>, rid: nat, level: string,
                         ap: seq<nat>, sp: nat, sa: nat, reg: nat, order: seq<nat>)
    requires Lineup(dir, requests, base, rid, level, ap, sp, sa, reg)
    requires |order| == |ap| > 0 && forall x :: x in order ==> x in ap
    requires order[|ap| - 1] in ap && order[|ap| - 1] !in Prefix(order, |ap| - 1)
    requires CountIn(ap, Prefix(order, |ap|)) == |ap|
    ensures Staffs.Decide(base + Marked(rid, ap, Prefix(order, |ap| - 1)), dir, requests, rid, order[|ap| - 1],
                          Some("approved"), None) ==
              (Ok(Approved), base + Marked(rid, ap + [sp], Prefix(order, |ap|)))
  {
    var done := Prefix(order, |ap|);
    assert done == Prefix(order, |ap| - 1) + {order[|ap| - 1]};
    PhaseOneSeedStep(dir, requests, base, rid, level, ap, sp, sa, reg, Prefix(order, |ap| - 1), order[|ap| - 1]);
    forall x | x in done ensures x in ap {
      PrefixMembers(order, |ap|, x);
      var j :| 0 <= j < |ap| && order[j] == x;
      assert order[j] in order;
    }
    SeedAfterPhaseOne(dir, requests, base, rid, level, ap, sp, sa, reg, done);
  }

  /** Sport approves after the whole order, seeding student_affair. */
  lemma {:induction false} SportTableStep(dir: Directory, requests: seq<Request>, base: seq<Approval>, rid: nat, level: string,
                       ap: seq<nat>, sp: nat, sa: nat, reg: nat, order: seq<nat>)
    requires Lineup(dir, requests, base, rid, level, ap, sp, sa, reg)
    requires |order| == |ap| && (forall a, b :: 0 <= a < b < |order| ==> order[a] != order[b])
    requires forall x :: x in order ==> x in ap
    ensures Staffs.Decide(Table(base, rid, ap, sp, sa, reg, order, |ap|), dir, requests, rid, sp, Some("approved"), None) ==
              (Ok(Approved), Table(base, rid, ap, sp, sa, reg, order, |ap| + 1))
  {
    PrefixCounts(ap, order, |order|);
    PhaseOneDone(ap, order);
    SportStep(dir, requests, base, rid, level, ap, sp, sa, reg, Prefix(order, |ap|));
  }

  /** student_affair approves after sport, seeding the registrar. */
  lemma {:induction false} StudentAffairTableStep(dir: Directory, requests: seq<Request>, base: seq<Approval>, rid: nat, level: string,
                               ap: seq<nat>, sp: nat, sa: nat, reg: nat, order: seq<nat>)
    requires Lineup(dir, requests, base, rid, level, ap, sp, sa, reg)
    requires |order| == |ap| && (forall a, b :: 0 <= a < b < |order| ==> order[a] != order[b])
    requires forall x :: x in order ==> x in ap
    ensures Staffs.Decide(Table(base, rid, ap, sp, sa, reg, order, |ap| + 1), dir, requests, rid, sa, Some("approved"), None) ==
              (Ok(Approved), Table(base, rid, ap, sp, sa, reg, order, |ap| + 2))
  {
    PrefixCounts(ap, order, |order|);
    PhaseOneDone(ap, order);
    StudentAffairStep(dir, requests, base, rid, level, ap, sp, sa, reg, Prefix(order, |ap|) + {sp});
  }

  /** The registrar approves after student_affair. */
  lemma {:induction false} RegistrarTableStep(dir: Directory, requests: seq<Request>, base: seq<Approval>, rid: nat, level: string,
                           ap: seq<nat>, sp: nat, sa: nat, reg: nat, order: seq<nat>)
    requires Lineup(dir, requests, base, rid, level, ap, sp, sa, reg)
    requires |order| == |ap|
    ensures Staffs.Decide(Table(base, rid, ap, sp, sa, reg, order, |ap| + 2), dir, requests, rid, reg, Some("approved"), None) ==
              (Ok(Approved), Table(base, rid, ap, sp, sa, reg, order, |ap| + 3))
  {
    RegistrarStep(dir, requests, base, rid, level, ap, sp, sa, reg, Prefix(order, |ap|) + {sp} + {sa});
  }

  /** Each approval of the chain takes one table to the next. */
  lemma {:induction false} ChainStepAt(dir: Directory, requests: seq<Request>, base: seq<Approval>, rid: nat, level: string,
                    ap: seq<nat>, sp: nat, sa: nat, reg: nat, order: seq<nat>, k: nat)
    requires Lineup(dir, requests, base, rid, level, ap, sp, sa, reg)
    requires |order| == |ap| && (forall a, b :: 0 <= a < b < |order| ==> order[a] != order[b])
    requires forall x :: x in order ==> x in ap
    requires k < |ap| + 3
    ensures Staffs.Decide(Table(base, rid, ap, sp, sa, reg, order, k), dir, requests, rid, (order + [sp, sa, reg])[k],
                          Some("approved"), None) ==
              (Ok(Approved), Table(base, rid, ap, sp, sa, reg, order, k + 1))
  {
    if k < |ap| {
      assert (order + [sp, sa, reg])[k] == order[k];
      PhaseOneTableStep(dir, requests, base, rid, level, ap, sp, sa, reg, order, k);
    } else if k == |ap| {
      assert (order + [sp, sa, reg])[k] == sp;
      SportTableStep(dir, requests, base, rid, level, ap, sp, sa, reg, order);
    } else if k == |ap| + 1 {
      assert (order + [sp, sa, reg])[k] == sa;
      StudentAffairTableStep(dir, requests, base, rid, level, ap, sp, sa, reg, order);
    } else {
      assert (order + [sp, sa, reg])[k] == reg;
      RegistrarTableStep(dir, requests, base, rid, level, ap, sp, sa, reg, order);
    }
  }

  /** The final table: every record of the request approved, and the certificate gate open. */
  lemma {:induction false} ChainFinal(dir: Directory, requests: seq<Request>, base: seq<Approval>, rid: nat, level: string,
                   ap: seq<nat>, sp: nat, sa: nat, reg: nat, order: seq<nat>)
    requires Lineup(dir, requests, base, rid, level, ap, sp, sa, reg) && InRequiredOrder(dir, level, ap)
    requires |order| == |ap| && (forall a, b :: 0 <= a < b < |order| ==> order[a] != order[b])
    requires forall x :: x in order ==> x in ap
    ensures var fin := Table(base, rid, ap, sp, sa, reg, order, |ap| + 3);
            |fin| == |base| + |ap| + 3 &&
            (forall a :: a in fin && a.requestId == rid ==> a.status == Approved) &&
            Certificate.FullyApproved(fin, dir.roles, rid, level)
  {
    var done := Prefix(order, |ap|) + {sp} + {sa} + {reg};
    PrefixCounts(ap, order, |order|);
    PhaseOneDone(ap, order);
    MarkedAllApproved(base, rid, ap + [sp, sa, reg], done);
    ChainApproved(dir, requests, base, rid, level, ap, sp, sa, reg, done);
  }

  /** The tables of the whole chain, one before each approval and the final one. */
  function ChainTables(base: seq<Approval>, rid: nat, ap: seq<nat>, sp: nat, sa: nat, reg: nat, order: seq<nat>)
    : (tables: seq<seq<Approval>>)
    requires |order| == |ap|
    ensures |tables| == |ap| + 4
    ensures forall k :: 0 <= k < |ap| + 4 ==> tables[k] == Table(base, rid, ap, sp, sa, reg, order, k)
  {
    seq(|ap| + 4, k requires 0 <= k < |ap| + 4 => Table(base, rid, ap, sp, sa, reg, order, k))
  }

  /** Every approval of the chain takes its table to the next one. */
  lemma {:induction false} ChainSteps(dir: Directory, requests: seq<Request>, base: seq<Approval>, rid: nat, level: string,
                   ap: seq<nat>, sp: nat, sa: nat, reg: nat, order: seq<nat>)
    requires Lineup(dir, requests, base, rid, level, ap, sp, sa, reg)
    requires |order| == |ap| && (forall a, b :: 0 <= a < b < |order| ==> order[a] != order[b])
    requires forall x :: x in order ==> x in ap
    ensures var tables := ChainTables(base, rid, ap, sp, sa, reg, order);
            var users := order + [sp, sa, reg];
            forall k :: 0 <= k < |users| ==>
              Staffs.Decide(tables[k], dir, requests, rid, users[k], Some("approved"), None) == (Ok(Approved), tables[k + 1])
  {
    var tables := ChainTables(base, rid, ap, sp, sa, reg, order);
    var users := order + [sp, sa, reg];
    forall k | 0 <= k < |users|
      ensures Staffs.Decide(tables[k], dir, requests, rid, users[k], Some("approved"), None) == (Ok(Approved), tables[k + 1])
    {
      ChainStepAt(dir, requests, base, rid, level, ap, sp, sa, reg, order, k);
    }
  }

  /**
   * The phase-1 approvers approve in the given order, then sport,
   * student_affair and the registrar: every call succeeds, the other records
   * are untouched, every record of the request ends approved, and the
   * certificate gate opens.
   */
  lemma {:induction false} ChainRun(dir: Directory, requests: seq<Request>, base: seq<Approval>, rid: nat, level: string,
                 ap: seq<nat>, sp: nat, sa: nat, reg: nat, order: seq<nat>)
    requires Lineup(dir, requests, base, rid, level, ap, sp, sa, reg) && InRequiredOrder(dir, level, ap)
    requires |order| == |ap| && (forall a, b :: 0 <= a < b < |order| ==> order[a] != order[b])
    requires forall x :: x in order ==> x in ap
    ensures var r := Run(base + Marked(rid, ap, {}), dir, requests, rid, order + [sp, sa, reg]);
            r.Some? && |r.value| == |base| + |ap| + 3 && r.value[..|base|] == base &&
            (forall a :: a in r.value && a.requestId == rid ==> a.status == Approved) &&
            Certificate.FullyApproved(r.value, dir.roles, rid, level)
  {
    var tables := ChainTables(base, rid, ap, sp, sa, reg, order);
    ChainSteps(dir, requests, base, rid, level, ap, sp, sa, reg, order);
    RunThrough(tables, dir, requests, rid, order + [sp, sa, reg]);
    assert tables[0] == base + Marked(rid, ap, {});
    ChainFinal(dir, requests, base, rid, level, ap, sp, sa, reg, order);
  }

  // ---------------------------------------------------------------------------
  // From submission to certificate
  // ---------------------------------------------------------------------------


  /**
   * The setting of the run: one role row per user, keyed requests and
   * students, the request `q` of student `s` with its phase-1 approvers
   * found, the unscoped sport, student_affair and registrar staff `sp`, `sa`
   * and `reg`, and no record of the request among the other records `base`.
   */
  ghost predicate Setting(dir: Directory, requests: seq<Request>, base: seq<Approval>, q: Request, s: Student,
                          sp: nat, sa: nat, reg: nat)
  {
    OneRolePerUser(dir.roles) && UniqueRequestIds(requests) && UniqueStudentIds(dir.students) &&
    q in requests && s in dir.students && s.studentId == q.studentId &&
    Students.PhaseOneApprovers(dir, s).Ok? &&
    UnscopedStaff(dir.roles, Sport) == Some(sp) && UnscopedStaff(dir.roles, StudentAffair) == Some(sa) &&
    UnscopedStaff(dir.roles, Registrar) == Some(reg) &&
    (forall a :: a in base ==> a.requestId != q.requestId)
  }

  /** One phase-1 approver of the setting: a phase-1 role holder, none of the later-phase staff. */
  lemma {:induction false} SettingApprover(dir: Directory, s: Student, sp: nat, sa: nat, reg: nat, x: nat)
    requires OneRolePerUser(dir.roles) && Students.PhaseOneApprovers(dir, s).Ok?
    requires RoleOf(dir.roles, sp) == Some(RoleRow(sp, Sport, None))
    requires RoleOf(dir.roles, sa) == Some(RoleRow(sa, StudentAffair, None))
    requires RoleOf(dir.roles, reg) == Some(RoleRow(reg, Registrar, None))
    requires x in Students.PhaseOneApprovers(dir, s).value
    ensures RoleOf(dir.roles, x).Some? && RoleOf(dir.roles, x).value.general in PhaseOneRoles
    ensures RoleOf(dir.roles, x).value.general !in {Sport, StudentAffair, Registrar}
    ensures HoldsOneOf(dir.roles, x, PhaseOneRoles)
    ensures !HoldsOneOf(dir.roles, x, {Sport}) && !HoldsOneOf(dir.roles, x, {StudentAffair})
    ensures x != sp && x != sa && x != reg
  {
    var ap := Students.PhaseOneApprovers(dir, s).value;
    var i :| 0 <= i < |ap| && ap[i] == x;
    ApproverHoldsRequiredRole(dir, s, i);
    var required := Certificate.RequiredRoles(s.studyLevel);
    var n := |required|;
    assert required[n - 3..] == [Sport, StudentAffair, Registrar];
    assert required[n - 3] == Sport && required[n - 2] == StudentAffair && required[n - 1] == Registrar;
    assert i < n - 3;
    var g := RoleOf(dir.roles, x).value.general;
    assert g != Sport && g != StudentAffair && g != Registrar;
    HoldsByRole(dir.roles, x, PhaseOneRoles);
    HoldsByRole(dir.roles, x, {Sport});
    HoldsByRole(dir.roles, x, {StudentAffair});
  }

  /** The setting of a submitted request lines its approvers up for the run. */
  lemma {:induction false} SettingLineup(dir: Directory, requests: seq<Request>, base: seq<Approval>, q: Request, s: Student,
                      sp: nat, sa: nat, reg: nat)
    requires Setting(dir, requests, base, q, s, sp, sa, reg)
    ensures var ap := Students.PhaseOneApprovers(dir, s).value;
            Lineup(dir, requests, base, q.requestId, s.studyLevel, ap, sp, sa, reg) &&
            InRequiredOrder(dir, s.studyLevel, ap)
  {
    var ap := Students.PhaseOneApprovers(dir, s).value;
    SeededRolesAreRequired(dir, s);
    RoleOfOnlyRow(dir.roles, RoleRow(sp, Sport, None));
    RoleOfOnlyRow(dir.roles, RoleRow(sa, StudentAffair, None));
    RoleOfOnlyRow(dir.roles, RoleRow(reg, Registrar, None));
    forall x | x in ap
      ensures RoleOf(dir.roles, x).Some? && RoleOf(dir.roles, x).value.general in PhaseOneRoles
      ensures RoleOf(dir.roles, x).value.general !in {Sport, StudentAffair, Registrar}
      ensures HoldsOneOf(dir.roles, x, PhaseOneRoles)
      ensures x != sp && x != sa && x != reg
    {
      SettingApprover(dir, s, sp, sa, reg, x);
    }
    StudyLevelOfFiler(dir, requests, q, s);
  }

  /** A freshly seeded request: every phase-1 record pending. */
  lemma {:induction false} SeedRecordsUnmarked(requestId: nat, approvers: seq<nat>)
    ensures Students.SeedRecords(requestId, approvers) == Marked(requestId, approvers, {})
  {
  }

  /**
   * The whole workflow: after a submission seeds the phase-1 records, the
   * phase-1 approvers approve in any order, then sport, student_affair and
   * the registrar. Every call succeeds, the other requests' records are
   * untouched, every record of the request ends approved, and the
   * certificate gate opens.
   */
  lemma {:induction false} EndToEnd(dir: Directory, requests: seq<Request>, base: seq<Approval>, q: Request, s: Student,
                 sp: nat, sa: nat, reg: nat, order: seq<nat>)
    requires Setting(dir, requests, base, q, s, sp, sa, reg)
    requires |order| == |Students.PhaseOneApprovers(dir, s).value|
    requires forall a, b :: 0 <= a < b < |order| ==> order[a] != order[b]
    requires forall x :: x in order ==> x in Students.PhaseOneApprovers(dir, s).value
    ensures var ap := Students.PhaseOneApprovers(dir, s).value;
            var r := Run(base + Students.SeedRecords(q.requestId, ap), dir, requests, q.requestId, order + [sp, sa, reg]);
            r.Some? && |r.value| == |base| + |ap| + 3 && r.value[..|base|] == base &&
            (forall a :: a in r.value && a.requestId == q.requestId ==> a.status == Approved) &&
            Certificate.FullyApproved(r.value, dir.roles, q.requestId, s.studyLevel)
  {
    var ap := Students.PhaseOneApprovers(dir, s).value;
    SeedRecordsUnmarked(q.requestId, ap);
    SettingLineup(dir, requests, base, q, s, sp, sa, reg);
    ChainRun(dir, requests, base, q.requestId, s.studyLevel, ap, sp, sa, reg, order);
  }

  // ---------------------------------------------------------------------------
  // A request the phase-1 count strands
  // ---------------------------------------------------------------------------

  /**
   * A PhD request 7 whose librarian (user 2) also holds a dormitory role row;
   * user 1 heads the department, user 3 runs the cafeteria, user 4 is sport.
   */
  const StrandedDir := Directory([RoleRow(1, DepartmentHead, Some("cs")), RoleRow(2, Librarian, None),
                                  RoleRow(2, Dormitory, Some("b1")), RoleRow(3, Cafeteria, None), RoleRow(4, Sport, None)],
                                 [Student(10, 20, 5, None, "phd")], map[5 := "cs"], map[], {1}, [])
  const StrandedRequests := [Request(7, 10, 1, 0)]
  /** The department head and the cafeteria have approved; the librarian has not. */
  const StrandedBefore := [Approval(7, 1, Approved, None), Approval(7, 2, Pending, None), Approval(7, 3, Approved, None)]
  const StrandedAfter := [Approval(7, 1, Approved, None), Approval(7, 2, Approved, None), Approval(7, 3, Approved, None)]

  /** A user without role rows in `roles` contributes no join row. */
  lemma {:induction false} NoRolesNoJoin(a: Approval, roles: seq<RoleRow>)
    requires forall r :: r in roles ==> r.userId != a.userId
    ensures RolesFor(a, roles) == []
  {
    if roles != [] {
      assert roles[0] in roles;
      NoRolesNoJoin(a, roles[1..]);
    }
  }

  /** The department head's record joins its one role row. */
  lemma {:induction false} StrandedHeadJoin(roles: seq<RoleRow>, a: Approval)
    requires roles == StrandedDir.roles && a == StrandedAfter[0]
    ensures RolesFor(a, roles) == [(a, roles[0])]
    ensures CountPairs(RolesFor(a, roles), 7, PhaseOneRoles) == 1
  {
    NoRolesNoJoin(a, roles[1..]);
    RolesForFrom(a, roles, 0);
  }

  /** The librarian's record joins both of its role rows. */
  lemma {:induction false} StrandedLibrarianJoin(roles: seq<RoleRow>, a: Approval)
    requires roles == StrandedDir.roles && a == StrandedAfter[1]
    ensures RolesFor(a, roles) == [(a, roles[1]), (a, roles[2])]
    ensures CountPairs(RolesFor(a, roles), 7, PhaseOneRoles) == 2
  {
    NoRolesNoJoin(a, roles[3..]);
    RolesForFrom(a, roles, 2);
    RolesForFrom(a, roles, 1);
    RolesForFrom(a, roles, 0);
  }

  /** The cafeteria's record joins its one role row. */
  lemma {:induction false} StrandedCafeteriaJoin(roles: seq<RoleRow>, a: Approval)
    requires roles == StrandedDir.roles && a == StrandedAfter[2]
    ensures RolesFor(a, roles) == [(a, roles[3])]
    ensures CountPairs(RolesFor(a, roles), 7, PhaseOneRoles) == 1
  {
    NoRolesNoJoin(a, roles[4..]);
    RolesForFrom(a, roles, 3);
    RolesForFrom(a, roles, 2);
    RolesForFrom(a, roles, 1);
    RolesForFrom(a, roles, 0);
  }

  /** One step of the join of a record with the role rows from index `i` on. */
  lemma {:induction false} RolesForFrom(a: Approval, roles: seq<RoleRow>, i: nat)
    requires i < |roles|
    ensures RolesFor(a, roles[i..]) ==
              (if roles[i].userId == a.userId then [(a, roles[i])] else []) + RolesFor(a, roles[i + 1..])
  {
    assert roles[i..][0] == roles[i] && roles[i..][1..] == roles[i + 1..];
  }

  /** One step of the join of the records from index `i` on. */
  lemma {:induction false} JoinedFrom(rows: seq<Approval>, roles: seq<RoleRow>, i: nat)
    requires i < |rows|
    ensures Joined(rows[i..], roles) == RolesFor(rows[i], roles) + Joined(rows[i + 1..], roles)
  {
    assert rows[i..][0] == rows[i] && rows[i..][1..] == rows[i + 1..];
  }

  /** The count over the join of the records from index `i` on, one record at a time. */
  lemma {:induction false} CountFrom(rows: seq<Approval>, roles: seq<RoleRow>, i: nat)
    requires i < |rows|
    ensures CountPairs(Joined(rows[i..], roles), 7, PhaseOneRoles) ==
              CountPairs(RolesFor(rows[i], roles), 7, PhaseOneRoles) + CountPairs(Joined(rows[i + 1..], roles), 7, PhaseOneRoles)
  {
    JoinedFrom(rows, roles, i);
    CountPairsAppend(RolesFor(rows[i], roles), Joined(rows[i + 1..], roles), 7, PhaseOneRoles);
  }

  /** The count over the join of three records is the sum of their contributions. */
  lemma {:induction false} CountOfThree(rows: seq<Approval>, roles: seq<RoleRow>)
    requires |rows| == 3
    ensures ApprovedCount(rows, roles, 7, PhaseOneRoles) ==
              CountPairs(RolesFor(rows[0], roles), 7, PhaseOneRoles) +
              CountPairs(RolesFor(rows[1], roles), 7, PhaseOneRoles) +
              CountPairs(RolesFor(rows[2], roles), 7, PhaseOneRoles)
  {
    assert rows[0..] == rows && rows[3..] == [];
    CountFrom(rows, roles, 2);
    CountFrom(rows, roles, 1);
    CountFrom(rows, roles, 0);
  }

  /**
   * After the librarian's approval the phase-1 count is 4, not the required 3:
   * the librarian's record joins both of its holder's role rows.
   */
  lemma {:induction false} StrandedCount(rows: seq<Approval>, roles: seq<RoleRow>)
    requires rows == StrandedAfter && roles == StrandedDir.roles
    ensures ApprovedCount(rows, roles, 7, PhaseOneRoles) == 4
  {
    StrandedHeadJoin(roles, rows[0]);
    StrandedLibrarianJoin(roles, rows[1]);
    StrandedCafeteriaJoin(roles, rows[2]);
    CountOfThree(rows, roles);
  }

  /**
   * The librarian's approval, the last of phase 1, succeeds but seeds no
   * sport record, because the count skipped from 2 to 4.
   */
  lemma {:induction false} StrandedDecision()
    ensures Staffs.Decide(StrandedBefore, StrandedDir, StrandedRequests, 7, 2, Some("approved"), None) ==
              (Ok(Approved), StrandedAfter)
  {
    var dir, before := StrandedDir, StrandedBefore;
    assert RoleOf(dir.roles, 2) == Some(dir.roles[1]);
    OnlyRecord(before, 7, 2, 1);
    assert Staffs.Written(before, Staffs.Admission(Approved, None, 1, Librarian)) == StrandedAfter;
    StrandedCount(StrandedAfter, StrandedDir.roles);
    assert StudyLevelOf(dir, StrandedRequests, 7) == Some("phd");
    assert Staffs.NextPhase(StrandedAfter, dir, StrandedRequests, 7, Librarian) == Ok(None);
  }

  /** After the librarian's approval the sport gate of the stranded request is open. */
  lemma {:induction false} StrandedSportGateOpen()
    ensures Staffs.PrerequisiteGate(StrandedAfter, StrandedDir, StrandedRequests, 7, Sport).None?
  {
    StrandedCount(StrandedAfter, StrandedDir.roles);
    assert StudyLevelOf(StrandedDir, StrandedRequests, 7) == Some("phd");
  }

  /** The sport staff member has no record of the stranded request, so its approval is refused. */
  lemma {:induction false} StrandedSportRefused()
    ensures !HasRecord(StrandedAfter, 7, 4)
    ensures Staffs.Decide(StrandedAfter, StrandedDir, StrandedRequests, 7, 4, Some("approved"), None) ==
              (Err(Staffs.NoApproval), StrandedAfter)
  {
    assert RoleOf(StrandedDir.roles, 4) == Some(StrandedDir.roles[4]);
  }

  /**
   * Sport is never seeded for the stranded request: the last phase-1 approval
   * succeeds and opens the sport gate, yet the sport staff member has no
   * record for the request and is refused.
   */
  lemma {:induction false} SportNeverSeeded()
    ensures Staffs.Decide(StrandedBefore, StrandedDir, StrandedRequests, 7, 2, Some("approved"), None) ==
              (Ok(Approved), StrandedAfter)
    ensures Staffs.PrerequisiteGate(StrandedAfter, StrandedDir, StrandedRequests, 7, Sport).None?
    ensures !HasRecord(StrandedAfter, 7, 4)
    ensures Staffs.Decide(StrandedAfter, StrandedDir, StrandedRequests, 7, 4, Some("approved"), None) ==
              (Err(Staffs.NoApproval), StrandedAfter)
  {
    StrandedDecision();
    StrandedSportGateOpen();
    StrandedSportRefused();
  }
}
