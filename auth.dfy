/**
 * The authentication middleware: take the bearer token from the
 * Authorization header, verify it, and admit the caller when one of its roles
 * is in the route's required list. Token verification (JWT) is an oracle
 * passed in as a function from token to user id.
 */
module Auth {
  import opened Schema

  // ---------------------------------------------------------------------------
  // Authorization header
  // ---------------------------------------------------------------------------

  /** `s.split(' ')`: every space ends a field, so neighbouring spaces give empty fields. */
  function SplitOnSpace(s: string): (fields: seq<string>)
    ensures |fields| >= 1
    ensures forall i :: 0 <= i < |fields| ==> ' ' !in fields[i]
    ensures |fields| == 1 <==> ' ' !in s
  {
    if s == [] then [""]
    else
      var rest := SplitOnSpace(s[1..]);
      if s[0] == ' ' then [""] + rest
      else [[s[0]] + rest[0]] + rest[1..]
  }

  /** `fields.join(' ')`, the inverse of SplitOnSpace. */
  function JoinWithSpace(fields: seq<string>): string
    requires |fields| >= 1
  {
    if |fields| == 1 then fields[0] else fields[0] + " " + JoinWithSpace(fields[1..])
  }

  /** Splitting loses nothing: joining the fields back gives the header. */
  lemma {:induction false} JoinSplit(s: string)
    ensures JoinWithSpace(SplitOnSpace(s)) == s
  {
    if s != [] {
      var rest := SplitOnSpace(s[1..]);
      JoinSplit(s[1..]);
      if s[0] == ' ' {
        assert ([""] + rest)[1..] == rest;
      } else if |rest| > 1 {
        var fields := [[s[0]] + rest[0]] + rest[1..];
        assert fields[1..] == rest[1..];
        assert s == [s[0]] + s[1..];
      } else {
        assert s == [s[0]] + s[1..];
      }
    }
  }

  /** A word without spaces glued in front of a string only lengthens the first field. */
  lemma {:induction false} SplitAfterWord(w: string, s: string)
    requires ' ' !in w
    ensures SplitOnSpace(w + s) == [w + SplitOnSpace(s)[0]] + SplitOnSpace(s)[1..]
  {
    if w != [] {
      SplitAfterWord(w[1..], s);
      assert w[0] in w && (w + s)[0] == w[0];
      assert (w + s)[1..] == w[1..] + s;
      var rest := SplitOnSpace(w[1..] + s);
      assert rest[0] == w[1..] + SplitOnSpace(s)[0] && rest[1..] == SplitOnSpace(s)[1..];
      assert [w[0]] + (w[1..] + SplitOnSpace(s)[0]) == w + SplitOnSpace(s)[0];
    } else {
      var split := SplitOnSpace(s);
      assert w + s == s && w + split[0] == split[0];
      assert split == [split[0]] + split[1..];
    }
  }

  /** Space-free fields survive a join followed by a split. */
  lemma {:induction false} SplitJoin(fields: seq<string>)
    requires |fields| >= 1
    requires forall i :: 0 <= i < |fields| ==> ' ' !in fields[i]
    ensures SplitOnSpace(JoinWithSpace(fields)) == fields
  {
    if |fields| == 1 {
      SplitAfterWord(fields[0], "");
      assert fields[0] + "" == fields[0];
    } else {
      var tail := JoinWithSpace(fields[1..]);
      SplitJoin(fields[1..]);
      assert fields[0] + " " + tail == fields[0] + (" " + tail);
      SplitAfterWord(fields[0], " " + tail);
      assert (" " + tail)[1..] == tail;
      var split := SplitOnSpace(" " + tail);
      assert split == [""] + fields[1..];
      assert split[0] == "" && split[1..] == fields[1..];
      assert fields[0] + "" == fields[0];
      assert fields == [fields[0]] + fields[1..];
    }
  }

  /**
   * `authHeader && authHeader.split(' ')[1]`: the second field of the header.
   * A missing or empty header, a header with no space and an empty second
   * field all yield no token (the 401 path).
   */
  function ExtractToken(header: Option<string>): (token: Option<string>)
    ensures header.None? ==> token.None?
    ensures header.Some? && ' ' !in header.value ==> token.None?
    ensures token.Some? ==> token.value != "" && ' ' !in token.value
    ensures token.Some? ==> token.value == SplitOnSpace(header.value)[1]
    ensures header.Some? && |SplitOnSpace(header.value)| >= 2 && SplitOnSpace(header.value)[1] != "" ==>
              token == Some(SplitOnSpace(header.value)[1])
  {
    if header.None? || header.value == "" then None
    else
      var fields := SplitOnSpace(header.value);
      if |fields| < 2 || fields[1] == "" then None else Some(fields[1])
  }

  /** The usual header shape: `Bearer <token>` yields the token. */
  lemma BearerToken(t: string)
    requires t != "" && ' ' !in t
    ensures ExtractToken(Some("Bearer " + t)) == Some(t)
  {
    assert JoinWithSpace(["Bearer", t]) == "Bearer " + t;
    SplitJoin(["Bearer", t]);
  }

  // ---------------------------------------------------------------------------
  // Roles
  // ---------------------------------------------------------------------------

  /** `{ general_role, specific_role }` as the middleware holds it. */
  datatype UserRole = UserRole(general: string, specific: Option<string>)

  /** `SELECT general_role, specific_role FROM roles WHERE user_id = ?`, in table order. */
  function RolesOfUser(roles: seq<RoleRow>, userId: nat): (r: seq<UserRole>)
    ensures |r| <= |roles|
    ensures forall row :: row in roles && row.userId == userId ==> UserRole(row.general, row.specific) in r
    ensures forall x :: x in r ==> RoleRow(userId, x.general, x.specific) in roles
  {
    if roles == [] then []
    else
      (if roles[0].userId == userId then [UserRole(roles[0].general, roles[0].specific)] else [])
      + RolesOfUser(roles[1..], userId)
  }

  predicate HasGeneral(rs: seq<UserRole>, general: string)
  {
    exists x :: x in rs && x.general == general
  }

  /** A user with a `students` row gains the role `student`, appended only if not already held. */
  function WithStudentRole(rs: seq<UserRole>, isStudent: bool): (r: seq<UserRole>)
    ensures rs <= r && |r| <= |rs| + 1
    ensures HasGeneral(r, StudentRole) <==> isStudent || HasGeneral(rs, StudentRole)
    ensures |r| == |rs| + 1 <==> isStudent && !HasGeneral(rs, StudentRole)
    ensures |r| == |rs| + 1 ==> r[|rs|] == UserRole(StudentRole, None)
  {
    if isStudent && !HasGeneral(rs, StudentRole) then
      var r := rs + [UserRole(StudentRole, None)];
      assert r[|rs|] in r;
      r
    else rs
  }

  /**
   * One role admits the caller when its general role is required, or it has a
   * non-empty sub-role and `general:specific` is required.
   */
  predicate Admits(role: UserRole, required: seq<string>)
  {
    role.general in required ||
    (role.specific.Some? && role.specific.value != "" && role.general + ":" + role.specific.value in required)
  }

  /** `userRoles.some(...)`, scanning the roles in order. */
  function SomeAdmits(rs: seq<UserRole>, required: seq<string>): (b: bool)
    ensures b <==> exists i :: 0 <= i < |rs| && Admits(rs[i], required)
  {
    if rs == [] then false
    else if Admits(rs[0], required) then true
    else
      var b := SomeAdmits(rs[1..], required);
      assert b ==> exists i :: 0 <= i < |rs| && Admits(rs[i], required) by {
        if b {
          var i :| 0 <= i < |rs[1..]| && Admits(rs[1..][i], required);
          assert Admits(rs[i + 1], required);
        }
      }
      assert (exists i :: 0 <= i < |rs| && Admits(rs[i], required)) ==> b by {
        if exists i :: 0 <= i < |rs| && Admits(rs[i], required) {
          var i :| 0 <= i < |rs| && Admits(rs[i], required);
          assert i > 0 && Admits(rs[1..][i - 1], required);
        }
      }
      b
  }

  // ---------------------------------------------------------------------------
  // The middleware
  // ---------------------------------------------------------------------------

  datatype AuthOutcome =
    | Unauthorized             // 401 'Access token required'
    | InvalidToken             // 403 'Invalid or expired token'
    | InsufficientPermissions  // 403 'Insufficient permissions'
    | Proceed(userId: nat)     // next(), with req.user set to the decoded token

  /** The roles the middleware checks: the user's role rows, plus `student` for a student. */
  function EffectiveRoles(roles: seq<RoleRow>, students: seq<Student>, userId: nat): seq<UserRole>
  {
    WithStudentRole(RolesOfUser(roles, userId), StudentOfUser(students, userId).Some?)
  }

  /** `authenticateToken(requiredRoles)` applied to one request. */
  function Authenticate(header: Option<string>, verify: string -> Option<nat>, required: seq<string>,
                        roles: seq<RoleRow>, students: seq<Student>): (r: AuthOutcome)
    ensures ExtractToken(header).None? ==> r == Unauthorized
    ensures r.Proceed? ==> ExtractToken(header).Some? && verify(ExtractToken(header).value) == Some(r.userId)
    ensures ExtractToken(header).Some? && verify(ExtractToken(header).value).Some? && |required| == 0 ==>
              r.Proceed?
    ensures ExtractToken(header).Some? && verify(ExtractToken(header).value).Some? && |required| > 0 ==>
              var rs := EffectiveRoles(roles, students, verify(ExtractToken(header).value).value);
              (r.Proceed? <==> exists i :: 0 <= i < |rs| && Admits(rs[i], required))
    ensures ExtractToken(header).Some? && verify(ExtractToken(header).value).None? ==> r == InvalidToken
    ensures ExtractToken(header).Some? && verify(ExtractToken(header).value).Some? && !r.Proceed? ==>
              r == InsufficientPermissions
  {
    match ExtractToken(header)
    case None => Unauthorized
    case Some(token) =>
      match verify(token)
      case None => InvalidToken
      case Some(userId) =>
        if |required| == 0 then Proceed(userId)
        else if SomeAdmits(EffectiveRoles(roles, students, userId), required) then Proceed(userId)
        else InsufficientPermissions
  }

  /**
   * Student routes: a user with a `students` row who presents a verified
   * bearer token passes `authenticateToken(['student'])`, whatever its role rows.
   */
  lemma StudentAdmitted(t: string, verify: string -> Option<nat>, userId: nat, roles: seq<RoleRow>, students: seq<Student>)
    requires t != "" && ' ' !in t && verify(t) == Some(userId)
    requires StudentOfUser(students, userId).Some?
    ensures Authenticate(Some("Bearer " + t), verify, [StudentRole], roles, students) == Proceed(userId)
  {
    BearerToken(t);
    var rs := EffectiveRoles(roles, students, userId);
    assert HasGeneral(rs, StudentRole);
    var x :| x in rs && x.general == StudentRole;
    var i :| 0 <= i < |rs| && rs[i] == x;
    assert Admits(rs[i], [StudentRole]);
  }

  /**
   * A user with no `students` row and no role row of general role `student`
   * is refused with 403 on a route that requires `student`: no
   * `general:specific` tag can equal a tag without a colon.
   */
  lemma NonStudentRefused(t: string, verify: string -> Option<nat>, userId: nat, roles: seq<RoleRow>, students: seq<Student>)
    requires t != "" && ' ' !in t && verify(t) == Some(userId)
    requires StudentOfUser(students, userId).None?
    requires forall row :: row in roles && row.userId == userId ==> row.general != StudentRole
    ensures Authenticate(Some("Bearer " + t), verify, [StudentRole], roles, students) == InsufficientPermissions
  {
    BearerToken(t);
    var rs := EffectiveRoles(roles, students, userId);
    forall i | 0 <= i < |rs| ensures !Admits(rs[i], [StudentRole]) {
      assert rs[i] in rs;
      assert RoleRow(userId, rs[i].general, rs[i].specific) in roles;
      if rs[i].specific.Some? {
        var tag := rs[i].general + ":" + rs[i].specific.value;
        assert tag[|rs[i].general|] == ':';
        assert ':' !in StudentRole;
      }
    }
  }
}
