# Clearance approval workflow

A Dafny model of the approval engine of the clearance management system.
A student submits a clearance request. That request is approved in three
phases, and once every required office has approved it the student can
download a clearance certificate.

- **Phase 1.** The department head of the student's department, the
  librarian and the cafeteria approve. For a non-PhD student, the proctor of
  the student's dormitory block approves too.
- **Phase 2.** Sport approves.
- **Phase 3.** Student affair approves, then the registrar.

The database tables are sequences of rows. `LIMIT 1`, and every "first row"
that the code reads, is the first matching element in table order. Each
`COUNT(*)` over `clearance_approval JOIN roles` counts (record, role row)
pairs of that join.

The tables that endpoints change in place are classes:

- `Schema.ApprovalTable`: the `clearance_approval` table.
- `Schema.RequestTable`: `clearance_requests`, together with its
  AUTO_INCREMENT counter.
- `Certificate.CertificateStore`: the `certificates` table.

Each endpoint that changes a table is a method, and it is proved against a
function that gives the response and the new table from the old table.

The files:

- `schema.dfy`: the entities, the role directory lookups, the approval and
  role join with its counters, and the two table classes.
- `auth.dfy`: the `authenticateToken` middleware.
- `students.dfy`: submission, the status page and the certificate
  placeholder gate.
- `staffs.dfy`: recording a decision, and the staff worklist.
- `certificate.dfy`: the certificate gate, the "Approved By" names and
  certificate reuse.
- `workflow.dfy`: properties that span the endpoints. The main one follows a
  request from submission to an opened certificate gate.

## Model

| member | source | states |
|---|---|---|
| Schema.RoleOf | backend/controller/staffs.js:18-22 | the user's role is one of the user's role rows; there is none exactly when the user has no role row |
| Schema.UnscopedStaff | backend/controller/staffs.js:88-91 | the staff member found holds the role with no sub-role; none is found exactly when no such role row exists |
| Schema.DepartmentHeadFor | backend/controller/students.js:55-63 | the head found holds `department_head` scoped to the student's department name; none is found exactly when the department or such a head is missing |
| Schema.DormitoryFor | backend/controller/students.js:86-96 | the proctor found holds `dormitory` scoped to the student's block number; a NULL or unknown block finds none |
| Schema.StudentOfUser | backend/controller/students.js:9-16 | the student row found belongs to the user; none is found exactly when the user has no student row |
| Schema.StudyLevelOf | backend/controller/staffs.js:42 | a study level found is that of the student who filed the request |
| Schema.StudyLevelOfFiler | backend/controller/staffs.js:85 | with keyed request and student tables, the lookup returns the filer's study level |
| Schema.ApprovedCount | backend/controller/staffs.js:35-41 | the join count is zero exactly when no approved record of the request is held by a user with one of the counted roles |
| Schema.ApprovedCountByRecord | backend/controller/staffs.js:78-84 | with one role row per user, the join count equals the number of approved records of the request whose holders have a counted role |
| Schema.RoleOfOnlyRow | backend/controller/staffs.js:18-22 | with one role row per user, a user's role is that row |
| Schema.ApprovalTable.Insert | backend/controller/staffs.js:101-104 | an inserted record is appended and every other record is kept |
| Schema.ApprovalTable.SetDecision | backend/controller/staffs.js:67-71 | the decision UPDATE changes the status and comment of exactly one record |
| Schema.RequestTable.Insert | backend/controller/students.js:47-52 | the new request gets a fresh id from the counter, and the counter advances |
| Schema.RequestTable.Restore | backend/controller/students.js:101-105 | ROLLBACK restores the rows but leaves the AUTO_INCREMENT counter advanced |
| Auth.ExtractToken | backend/middleware/auth.js:7-8 | the token is the second space-separated field of the header: a missing header or one with no space gives none, a non-empty second field is returned as the token, and a token is never empty and holds no space |
| Auth.BearerToken | backend/middleware/auth.js:8 | `Bearer <t>` yields `t` |
| Auth.JoinSplit | backend/middleware/auth.js:8 | splitting on spaces and joining again restores the header |
| Auth.SplitJoin | backend/middleware/auth.js:8 | joining space-free fields and splitting again restores the fields |
| Auth.RolesOfUser | backend/middleware/auth.js:24-32 | the user's roles are exactly the user's role rows |
| Auth.WithStudentRole | backend/middleware/auth.js:34-41 | `student` is appended once, exactly when the user has a student row and no `student` role; nothing else changes |
| Auth.SomeAdmits | backend/middleware/auth.js:44-47 | access is granted exactly when some role matches a required general role, or a required `general:specific` pair |
| Auth.Authenticate | backend/middleware/auth.js:5-61 | no token gives 401; a token that fails verification gives 403 `InvalidToken`; a caller passes only with a verified token; with no required roles, every verified caller passes; otherwise a verified caller passes exactly when one of the caller's effective roles is admitted, and is refused with 403 `InsufficientPermissions` otherwise |
| Auth.StudentAdmitted | backend/middleware/auth.js:34-47 | a user with a student row and a verified bearer token passes a student-only route, whatever the user's role rows |
| Auth.NonStudentRefused | backend/middleware/auth.js:34-52 | a verified user with no student row and no `student` role is refused with 403 on a student-only route |
| Staffs.Trim | backend/controller/staffs.js:14 | the trimmed comment neither starts nor ends with JavaScript white space |
| Staffs.TrimBlank | backend/controller/staffs.js:14 | a comment trims to empty exactly when all of its characters are white space |
| Staffs.VisibleCommentNotBlank | backend/controller/staffs.js:14-16 | a comment with one visible character is never refused as blank |
| Staffs.ParseDecision | backend/controller/staffs.js:11-13 | only "approved" and "rejected" are accepted, and neither means pending |
| Staffs.StoredComment | backend/controller/staffs.js:70 | an approval stores an empty comment as NULL; a rejection stores the comment as given |
| Staffs.PrerequisiteGate | backend/controller/staffs.js:33-65 | sport needs at least 3 (PhD) or 4 approved phase-1 records, else `PhaseOneIncomplete`, and a missing student row is a server error; student_affair needs an approved sport record, else `SportIncomplete`; the registrar needs an approved student_affair record, else `StudentAffairIncomplete`; other roles are not gated |
| Staffs.Admit | backend/controller/staffs.js:11-65 | the refusals come in source order: invalid status, blank rejection comment, no role, no record, and a closed gate, which returns the gate's own error. Admission happens exactly when all the checks pass, it picks the user's first record, and a rejection then always carries a visible comment |
| Staffs.NextRole | backend/controller/staffs.js:77-145 | a phase-1 approval leads to sport, sport to student_affair and student_affair to the registrar; the registrar leads nowhere |
| Staffs.NextPhase | backend/controller/staffs.js:73-145 | a phase-1 approval seeds sport only when the approved phase-1 count equals the required count; a missing staff member is an error; the seeded record is pending, has no comment and belongs to the first unscoped holder of the next role |
| Staffs.SeedFor | backend/controller/staffs.js:88-105 | an error exactly when no unscoped holder exists; a record is seeded exactly when that holder has none for the request |
| Staffs.ApproveRequest | backend/controller/staffs.js:4-156 | the response and the new table are those of `Decide` on the old table |
| Staffs.DecisionFrame | backend/controller/staffs.js:11-148 | a refusal leaves the table unchanged; otherwise the acting user's record carries the decision, every other record is kept, and at most one record is appended |
| Staffs.RejectionSeedsNothing | backend/controller/staffs.js:73-74 | a rejection never adds a record |
| Staffs.SeededRecord | backend/controller/staffs.js:88-144 | an appended record follows an approval; it is pending and has no comment; its holder has the role after the actor's and had no record for the request |
| Staffs.DecisionKeepsPairsUnique | backend/controller/staffs.js:93-144 | a decision never creates a second record for the same (request, user) pair |
| Staffs.GatesHold | backend/controller/staffs.js:33-65 | any decision that changes the table satisfies the acting role's prerequisite on the table before the call |
| Staffs.PendingRequests | backend/controller/staffs.js:158-296 | no role gives 403. Otherwise an item is listed exactly when the shared joins hold and the role's filter passes: sport needs the approved phase-1 count to equal the required count and a sport holder's record; student_affair and the registrar need the previous phase approved and a record of their own role; the department head sees its own records whose joined role row's sub-role equals the sub-role of the head's first role row; the proctor sees its own records whose joined role row's sub-role is the student's block number; everyone else sees their own records |
| Staffs.SportWorklistListed | backend/controller/staffs.js:202-227 | a request on the sport worklist has an approved phase-1 count equal to the required count, and the listed record is a sport holder's, not necessarily the caller's |
| Staffs.SportWorklistComplete | backend/controller/staffs.js:202-227 | every sport holder's record of a typed request at exactly the required phase-1 count, from a student in a known department, is on the sport worklist |
| Staffs.SportGateOpenButUnlisted | backend/controller/staffs.js:202-227 | above the required phase-1 count the sport gate (line 44) is open, yet the request is missing from the sport worklist |
| Staffs.DepartmentHeadWorklist | backend/controller/staffs.js:275-277 | a department head with one role row lists exactly its own records of typed requests from students in known departments; the student's department is never compared with the head's |
| Staffs.DormitoryWorklist | backend/controller/staffs.js:278-286 | a listed item is the proctor's own record, and the student's block number equals the sub-role of one of the proctor's role rows |
| Staffs.WorklistPassesGate | backend/controller/staffs.js:202-274 | every request on a later-phase worklist passes that role's decision gate |
| Staffs.WorklistOwnRecords | backend/controller/staffs.js:173-199 | outside the later phases, every listed item is one of the caller's own records |
| Staffs.WorklistComplete | backend/controller/staffs.js:173-199 | for the librarian and cafeteria, every own record of a typed request from a student in a known department is listed |
| Students.Precheck | backend/controller/students.js:9-44 | the refusals come in source order: not a student, invalid type, schedule closed, duplicate request; the check passes exactly when none applies, and it yields the caller's student row |
| Students.PhaseOneApprovers | backend/controller/students.js:55-96 | the approvers are the department head, librarian, cafeteria and, for non-PhD students, the block's proctor, in that order; a missing one gives `NoApprover` for the first missing role: the librarian, then the cafeteria, then the dormitory for a non-PhD student |
| Students.SeedRecords | backend/controller/students.js:55-96 | one pending, comment-less record per approver, in approver order |
| Students.InsertPhaseOne | backend/controller/students.js:55-96 | the phase-1 records are appended to the approval table in order, and the result names the approvers or the missing role |
| Students.SubmitClearanceRequest | backend/controller/students.js:3-106 | a refusal changes nothing. A missing approver rolls back both tables but still consumes a request id. Otherwise the request is stored under a fresh id, and its phase-1 records are appended |
| Students.SeededPhaseOne | backend/controller/students.js:47-96 | a submission seeds 3 records for a PhD student and 4 otherwise, all pending and without comment |
| Students.OrElse | backend/controller/students.js:138-147 | `x \|\| fallback`: NULL and the empty string both fall back |
| Students.Departments | backend/controller/students.js:139-147 | the status page lists 6 offices for PhD students and 7 otherwise, in certificate order; an empty status shows "pending", or "skipped" for the dormitory; PhD students have no dormitory entry |
| Students.DormitoryStatusField | backend/controller/students.js:138 | an empty dormitory status reads "skipped" for PhD students; otherwise the view's value is kept |
| Students.ClearanceStatus | backend/controller/students.js:108-156 | a non-student gets 403; otherwise every view row of the caller's student appears, and only those, each with its mapped departments |
| Students.CertificateGate | backend/controller/students.js:158-184 | a non-student is refused; the gate opens only on a view row of this request and student whose overall status is "approved", and it opens whenever all such rows say so; a student is otherwise refused with `NotApproved` |
| Students.GateMatchesStatus | backend/controller/students.js:108-184 | when the certificate gate opens, the caller's status list shows the request with overall status "approved" |
| Certificate.RequiredRoles | backend/controller/certificate.js:50-58 | 6 distinct roles for PhD students and 7 otherwise: the phase-1 roles first, sport, student_affair and registrar last, and dormitory exactly for non-PhD students |
| Certificate.RoleStatusesOf | backend/controller/certificate.js:42-47 | one (role, status) entry per joined record of the request, and no other |
| Certificate.RoleStatusesAppend | backend/controller/certificate.js:42-47 | the entries of a join are those of its parts, in order |
| Certificate.LastPairWins | backend/controller/certificate.js:59-62 | a role's status in the fold is that of the last join row of the request with that role |
| Certificate.LastJoinedRecordWins | backend/controller/certificate.js:41-62 | for the records joined with the roles table, a role's status is that of its last joined record |
| Certificate.StatusMap | backend/controller/certificate.js:59-62 | the fold has a key exactly for the roles that appear, and each key's status comes from one of its entries |
| Certificate.LastWins | backend/controller/certificate.js:59-62 | a role's status in the fold is the one from its last entry |
| Certificate.AbsentRole | backend/controller/certificate.js:59-62 | a role with no entry has no key in the fold |
| Certificate.AllApproved | backend/controller/certificate.js:64 | true exactly when every required role maps to "approved" |
| Certificate.GateByRole | backend/controller/certificate.js:59-64 | when roles do not repeat, all are approved exactly when each required role has an approved entry |
| Certificate.FullyApprovedWhenAllApproved | backend/controller/certificate.js:41-68 | if every record of the request is approved and each required role has a joined record, the gate opens |
| Certificate.ToUpper | backend/controller/certificate.js:106 | lower-case ASCII letters are upper-cased; every other character is kept |
| Certificate.DisplayOneWord | backend/controller/certificate.js:106 | a one-word role shows with a capital first letter |
| Certificate.DisplayTwoWords | backend/controller/certificate.js:106 | `a_b` shows as "A B", each word capitalised |
| Certificate.ApprovedBy | backend/controller/certificate.js:105-108 | the "Approved By" list has one display name per required role, in order |
| Certificate.RoleDisplayNames | backend/controller/certificate.js:105-108 | the seven roles show as "Department Head", "Librarian", "Cafeteria", "Dormitory", "Sport", "Student Affair" and "Registrar" |
| Certificate.ApprovedByNames | backend/controller/certificate.js:50-58 | the exact list for a non-PhD student |
| Certificate.PhdApprovedByNames | backend/controller/certificate.js:50-58 | the exact list for a PhD student: the six names without "Dormitory" |
| Certificate.CertificateStore.Insert | backend/controller/certificate.js:120-126 | storing a new certificate appends it and keeps at most one per (request, student) |
| Certificate.CertificateCheck | backend/controller/certificate.js:9-68 | the refusals come in source order: not a student (403), request not the student's (404), not all approved (403, `NotAllApproved`); the check passes exactly when none applies |
| Certificate.GenerateCertificate | backend/controller/certificate.js:4-139 | a refusal stores nothing; an existing certificate for (request, student) is reused without inserting; otherwise one listing the required offices is generated and stored; at most one is stored per pair |
| Workflow.ApproverHoldsRequiredRole | backend/controller/students.js:55-96 | the i-th seeded approver holds the certificate's i-th required role |
| Workflow.SeededRolesAreRequired | backend/controller/certificate.js:50-58 | the seeded approvers are distinct holders of the required phase-1 roles, in order, and the three later roles complete the list |
| Workflow.StatusNamesAreApprovers | backend/controller/students.js:139-147 | the status page's office names are the certificate's "Approved By" names, in the same order |
| Workflow.SeedingKeepsPairsUnique | backend/controller/students.js:55-96 | submission keeps one record per (request, user) |
| Workflow.RunThrough | backend/controller/staffs.js:4-156 | a sequence of approvals, each moving one table to the next, runs from the first table to the last |
| Workflow.MarkedAllApproved | backend/controller/certificate.js:64 | once every seeded approver has approved, every record of the request is approved |
| Workflow.ChainRun | backend/controller/staffs.js:33-145 | phase-1 approvals in any order, then sport, student_affair and the registrar: every call succeeds, sport, student_affair and registrar records each appear once, other requests' records are untouched, all records end approved and the certificate gate opens |
| Workflow.StrandedCount | backend/controller/staffs.js:77-84 | in the example, a librarian who also holds a dormitory role row makes the phase-1 count 4 for a PhD request that needs 3 |
| Workflow.SportNeverSeeded | backend/controller/staffs.js:33-106 | in the same example, the last phase-1 approval succeeds and opens the sport gate but seeds no sport record, so sport's approval is refused |
| Workflow.EndToEnd | backend/controller/students.js:47-96 | after a successful submission, the approvers approve in any phase-1 order and then in later-phase order; every call succeeds, three records are added, the certificate gate opens, and nothing else changes |

## Left out

- HTTP handling is left out: request parsing, status codes as numbers, JSON bodies and the database pool. Each error is a constructor that names its message.
- Non-string JSON values for `status` and `comments` are left out; both are modelled as optional strings.
- JWT signing and checking is a function parameter, `verify`. Its expiry and secret are not modelled, and neither are bcrypt or login (`backend/controller/login.js` is not part of this model).
- Concurrency is left out: every endpoint runs alone. So the race between two final phase-1 approvals is not modelled, and neither is the isolation the transactions give.
- Schema.RequestTable.Restore and the rollback in Students.SubmitClearanceRequest assume that every statement of a transaction runs on one connection. The source sends `START TRANSACTION`, `COMMIT` and `ROLLBACK` through `pool.query` (`students.js:47`, `98` and `102`; `staffs.js:75`, `147` and `152`) on a pool of up to 10 connections (`backend/config/db.js:12`). So each statement may land on a different connection, and the source does not guarantee that the rollback undoes the earlier inserts.
- SQL collation is not modelled: the model compares strings exactly. MySQL's default collation compares case-insensitively. This affects `department_name = specific_role` (`students.js:55-63`), `block_no = specific_role` (`students.js:86-96`), the `general_role` filters, and `study_level = 'phd'` inside the sport worklist (`staffs.js:223`). The JavaScript checks `=== 'phd'` (`staffs.js:43`, `86`) are exact. Stored role, department, block and study-level strings are assumed to be in one canonical case. Under that assumption the SQL side and the JavaScript side agree.
- Row order of unordered SELECTs is fixed by the model. MySQL does not promise an order without `ORDER BY`, but the model reads tables in table order and the join approval by approval. This fixes which row each of these members finds or keeps:
  - Schema.FirstIndex, Schema.RoleOf, Schema.UnscopedStaff, Schema.DepartmentHeadFor, Schema.DormitoryFor and Schema.StudentOfUser (`LIMIT 1` at `staffs.js:18-22` and `88-91`, `students.js:9-16`, `55-63` and `86-96`) take the first matching row in table order.
  - Certificate.RoleStatusesOf, Certificate.LastWins, Certificate.LastPairWins and Certificate.LastJoinedRecordWins fold the join of `certificate.js:41-62` in that order, so "the last joined record wins" holds for the order the model chose.
- The `clearance_request_status` SQL view is not part of this model. Its per-office columns and overall status are inputs of the status page and of the placeholder certificate gate.
- Display-only columns are left out of the worklist: names, e-mail, department and type names, and block numbers. Its rows are a set, so duplicates from the joins and the `ORDER BY created_at` order are not modelled.
- The worklist's `status IN ("pending","approved","rejected")` filter is always true here, because those are the only statuses.
- Timestamps (`NOW()`, `approved_at`, `updated_at`) are left out, and so is the certificate's issue date. The submission time is the parameter `now`.
- The PDF itself is left out: its bytes, branding, file name and student details. A certificate is its (request, student) key, plus the "Approved By" list of a newly generated one.
- Certificate.GenerateCertificate: the source inserts the certificate after the PDF stream ends and only logs a failure. The model inserts it synchronously.
- Logging is left out.
- The worklist's `JOIN users u` (`staffs.js:194`, and the same join in the sport, student_affair and registrar queries) is left out. Every student row is assumed to have a users row, as the foreign key promises, so that join drops nothing.
- The administration endpoints are not part of this model, nor are the profile endpoints of staff and students: `backend/controller/admins.js`, the profile functions in `staffs.js` and `students.js`, and the routes.
- Workflow.EndToEnd and Workflow.ChainRun assume one role row per user, keyed request and student tables, and configured later-phase staff. The success path needs these; the code does not enforce them.

## Design notes where the code and the design differ

The model follows the code in each case below.

- **The decision survives a failed seeding.** The decision UPDATE (`staffs.js:68`) runs before `START TRANSACTION`. If seeding the next phase then fails (no student row, or no sport, student_affair or registrar staff), the response is a server error, but the decision stays recorded. The model's `Decide` keeps it.
- **Phase-1 completion is a count, not a check of every role.** The code counts approved (record, role row) pairs over the join. The sport gate needs at least the required count (`<` at line 44). Sport is seeded only when the count equals the required count exactly (`===` at line 87), so extra phase-1 approvals in the join can keep sport from ever being seeded. `Workflow.SportNeverSeeded` shows this for a librarian who also holds a dormitory role row. The sport worklist asks for the equal count too (lines 216-226), so `Staffs.SportGateOpenButUnlisted` shows that such a request is open to sport but missing from its worklist.
- **Duplicates are checked per user, not per role.** The check before a later-phase record is created asks whether the chosen holder already has a record (lines 93-144). It does not ask whether any holder of that role does.
- **A rolled-back submission still uses a request id.** The rollback of a failed submission removes its rows, but the AUTO_INCREMENT counter stays advanced.
