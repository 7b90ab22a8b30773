/**
 * The users table behind `AuthenticationManager`, shared by the dashboard's and the prototype's
 * `authentication.py`: the guards of authenticate, create_user, change_password and the default
 * users. The SQLite table is a sequence of rows with a UNIQUE username and an AUTOINCREMENT id;
 * bcrypt is a pair of parameters `verify(password, hash)` and `hashPw(password)`.
 */
module Users {
  import opened Wrappers

  datatype UserRow = UserRow(
    id: nat,
    username: string,
    passwordHash: string,
    name: string,
    email: string,
    userType: string,
    department: Option<string>,
    lastLogin: Option<int>,
    isActive: bool)

  /** The dictionary authenticate_user returns: the row's public fields, never its hash. */
  datatype UserView = UserView(
    id: nat,
    username: string,
    name: string,
    email: string,
    userType: string,
    department: Option<string>,
    lastLogin: int)

  /** The arguments of create_user. */
  datatype NewUser = NewUser(
    username: string,
    password: string,
    name: string,
    email: string,
    userType: string,
    department: Option<string>)

  datatype AuthFailure = UnknownUser | BadPassword | WrongUserType | Inactive

  datatype PasswordFailure = NoSuchUser | WrongOldPassword | TooShort

  /** The two copies of authentication.py differ in their default users. */
  datatype Variant = Dashboard | Prototype

  const PasswordMinLength := 8

  predicate UniqueUsernames(rows: seq<UserRow>) {
    forall i, j :: 0 <= i < j < |rows| ==> rows[i].username != rows[j].username
  }

  predicate UniqueIds(rows: seq<UserRow>) {
    forall i, j :: 0 <= i < j < |rows| ==> rows[i].id != rows[j].id
  }

  /** Some row, active or not, holds the username: the UNIQUE constraint refuses another. */
  predicate Taken(rows: seq<UserRow>, username: string) {
    exists u :: u in rows && u.username == username
  }

  /** `SELECT * ... WHERE <p> AND is_active = 1`, fetched with fetch_one. */
  function FirstActive(rows: seq<UserRow>, p: UserRow -> bool): (r: Option<UserRow>)
    ensures r.Some? ==> r.value in rows && r.value.isActive && p(r.value)
    ensures r.None? ==> forall u :: u in rows && u.isActive ==> !p(u)
  {
    if rows == [] then None
    else if rows[0].isActive && p(rows[0]) then Some(rows[0])
    else FirstActive(rows[1..], p)
  }

  /** `_get_user_by_username`. */
  function ByUsername(rows: seq<UserRow>, username: string): Option<UserRow> {
    FirstActive(rows, (u: UserRow) => u.username == username)
  }

  /** `_get_user_by_id`. */
  function ById(rows: seq<UserRow>, id: nat): Option<UserRow> {
    FirstActive(rows, (u: UserRow) => u.id == id)
  }

  /** With unique usernames the lookup finds the one active row that holds the name. */
  lemma ByUsernameFinds(rows: seq<UserRow>, u: UserRow)
    requires UniqueUsernames(rows) && u in rows && u.isActive
    ensures ByUsername(rows, u.username) == Some(u)
  {
    var r := ByUsername(rows, u.username);
    var i :| 0 <= i < |rows| && rows[i] == u;
    var j :| 0 <= j < |rows| && rows[j] == r.value;
    assert i == j;
  }

  /** With unique ids the lookup finds the one active row that holds the id. */
  lemma ByIdFinds(rows: seq<UserRow>, u: UserRow)
    requires UniqueIds(rows) && u in rows && u.isActive
    ensures ById(rows, u.id) == Some(u)
  {
    var r := ById(rows, u.id);
    var i :| 0 <= i < |rows| && rows[i] == u;
    var j :| 0 <= j < |rows| && rows[j] == r.value;
    assert i == j;
  }

  /**
   * authenticate_user's guards in their order: unknown (or inactive) user, wrong password,
   * other user type, inactive user.
   */
  function AuthenticateDecision(rows: seq<UserRow>, verify: (string, string) -> bool,
                                username: string, password: string, userType: string)
    : (r: Result<UserRow, AuthFailure>)
    ensures r == Failure(UnknownUser) <==> forall u :: u in rows && u.isActive ==> u.username != username
    ensures r != Failure(Inactive)
    ensures r.Success? ==> r.value in rows && r.value.isActive && r.value.username == username
                           && verify(password, r.value.passwordHash) && r.value.userType == userType
  {
    match ByUsername(rows, username)
    case None => Failure(UnknownUser)
    case Some(u) =>
      if !verify(password, u.passwordHash) then Failure(BadPassword)
      else if u.userType != userType then Failure(WrongUserType)
      else if !u.isActive then Failure(Inactive)
      else Success(u)
  }

  /** Login succeeds exactly when an active row holds the name, the password and the type. */
  lemma AuthenticateSucceedsIff(rows: seq<UserRow>, verify: (string, string) -> bool,
                                username: string, password: string, userType: string)
    requires UniqueUsernames(rows)
    ensures AuthenticateDecision(rows, verify, username, password, userType).Success?
            <==> exists u :: u in rows && u.isActive && u.username == username
                             && verify(password, u.passwordHash) && u.userType == userType
  {
    if u :| u in rows && u.isActive && u.username == username
            && verify(password, u.passwordHash) && u.userType == userType {
      ByUsernameFinds(rows, u);
    }
  }

  /** The fields returned on a successful login, stamped with the login time. */
  function ViewOf(u: UserRow, now: int): (v: UserView)
    ensures v.id == u.id && v.username == u.username && v.userType == u.userType && v.lastLogin == now
  {
    UserView(u.id, u.username, u.name, u.email, u.userType, u.department, now)
  }

  /** Rows that differ only in their hash give the same login result. */
  lemma ViewHidesHash(u: UserRow, hash: string, now: int)
    ensures ViewOf(u.(passwordHash := hash), now) == ViewOf(u, now)
  {
  }

  /** An `UPDATE users SET ... WHERE id = ?`. */
  datatype Change = LoggedIn(at: int) | NewHash(hash: string) | Deactivated

  function Apply(u: UserRow, c: Change): (v: UserRow)
    ensures v.id == u.id && v.username == u.username
  {
    match c
    case LoggedIn(at) => u.(lastLogin := Some(at))
    case NewHash(hash) => u.(passwordHash := hash)
    case Deactivated => u.(isActive := false)
  }

  function UpdateWhere(rows: seq<UserRow>, id: nat, c: Change): (r: seq<UserRow>)
    ensures |r| == |rows|
    ensures forall i :: 0 <= i < |rows| ==> r[i].id == rows[i].id && r[i].username == rows[i].username
  {
    seq(|rows|, i requires 0 <= i < |rows| => if rows[i].id == id then Apply(rows[i], c) else rows[i])
  }

  /** The row create_user inserts: active, never logged in. */
  function RowFor(id: nat, n: NewUser, hash: string): UserRow {
    UserRow(id, n.username, hash, n.name, n.email, n.userType, n.department, None, true)
  }

  /** SQLite's INSERT: refused (and the error swallowed by execute_query) when the name is taken. */
  function InsertRow(rows: seq<UserRow>, row: UserRow): seq<UserRow> {
    if Taken(rows, row.username) then rows else rows + [row]
  }

  /** What create_user reports as written: only an ACTIVE row with the name makes it refuse. */
  function CreateReportAsWritten(rows: seq<UserRow>, username: string): bool {
    ByUsername(rows, username).None?
  }

  /** What create_user should report: whether its INSERT goes through. */
  function CreateReport(rows: seq<UserRow>, username: string): bool {
    !Taken(rows, username)
  }

  /** As written, create_user reports success without inserting exactly when the name belongs to an inactive row. */
  lemma AsWrittenMisreportsIff(rows: seq<UserRow>, row: UserRow)
    requires UniqueUsernames(rows)
    ensures (CreateReportAsWritten(rows, row.username) && InsertRow(rows, row) == rows)
            <==> exists u :: u in rows && u.username == row.username && !u.isActive
  {
    if u :| u in rows && u.username == row.username && !u.isActive {
      var i :| 0 <= i < |rows| && rows[i] == u;
      forall v | v in rows && v.isActive
        ensures v.username != row.username
      {
        var j :| 0 <= j < |rows| && rows[j] == v;
        assert i != j;
      }
    }
    if CreateReportAsWritten(rows, row.username) && InsertRow(rows, row) == rows {
      assert |InsertRow(rows, row)| == |rows|;
      assert Taken(rows, row.username);
    }
  }

  /** A table holding only a deactivated "auditee1". */
  const DeactivatedAuditee := [UserRow(1, "auditee1", "$2b$12$hash", "Jane Doe", "jdoe@calpoly.edu",
                                       "auditee", Some("Academic Affairs"), None, false)]

  /** The input that shows it: an inactive "auditee1" makes create_user("auditee1", ...) return True. */
  lemma InactiveUsernameMisreported(row: UserRow)
    requires row.username == "auditee1"
    ensures CreateReportAsWritten(DeactivatedAuditee, row.username)
    ensures InsertRow(DeactivatedAuditee, row) == DeactivatedAuditee
  {
    var rows := DeactivatedAuditee;
    assert rows[1..] == [];
    assert rows[0] in rows && rows[0].username == row.username;
  }

  /** The corrected report is true exactly when the row goes in. */
  lemma CreateReportIsInsertion(rows: seq<UserRow>, row: UserRow)
    ensures CreateReport(rows, row.username) <==> InsertRow(rows, row) == rows + [row]
  {
    if InsertRow(rows, row) == rows + [row] {
      assert |InsertRow(rows, row)| == |rows| + 1;
    }
  }

  /** change_password's guards: unknown (or inactive) id, wrong old password, new one too short. */
  function ChangePasswordDecision(rows: seq<UserRow>, verify: (string, string) -> bool,
                                  userId: nat, oldPassword: string, newPassword: string)
    : (r: Result<UserRow, PasswordFailure>)
    ensures r == Failure(NoSuchUser) <==> forall u :: u in rows && u.isActive ==> u.id != userId
    ensures r.Success? ==> r.value in rows && r.value.isActive && r.value.id == userId
                           && verify(oldPassword, r.value.passwordHash) && |newPassword| >= PasswordMinLength
    ensures r == Failure(TooShort) ==> |newPassword| < PasswordMinLength
  {
    match ById(rows, userId)
    case None => Failure(NoSuchUser)
    case Some(u) =>
      if !verify(oldPassword, u.passwordHash) then Failure(WrongOldPassword)
      else if |newPassword| < PasswordMinLength then Failure(TooShort)
      else Success(u)
  }

  /** A change goes through exactly when the id is active, the old password checks and the new one has 8 or more characters. */
  lemma ChangePasswordSucceedsIff(rows: seq<UserRow>, verify: (string, string) -> bool,
                                  userId: nat, oldPassword: string, newPassword: string)
    requires UniqueIds(rows)
    ensures ChangePasswordDecision(rows, verify, userId, oldPassword, newPassword).Success?
            <==> (exists u :: u in rows && u.isActive && u.id == userId && verify(oldPassword, u.passwordHash))
                 && |newPassword| >= PasswordMinLength
  {
    if u :| u in rows && u.isActive && u.id == userId && verify(oldPassword, u.passwordHash) {
      ByIdFinds(rows, u);
    }
  }

  /** After a password change the user logs in with the new password. */
  lemma NewPasswordLogsIn(rows: seq<UserRow>, verify: (string, string) -> bool, hashPw: string -> string,
                          userId: nat, oldPassword: string, newPassword: string)
    requires UniqueUsernames(rows) && UniqueIds(rows)
    requires verify(newPassword, hashPw(newPassword))
    requires ChangePasswordDecision(rows, verify, userId, oldPassword, newPassword).Success?
    ensures var u := ChangePasswordDecision(rows, verify, userId, oldPassword, newPassword).value;
            AuthenticateDecision(UpdateWhere(rows, userId, NewHash(hashPw(newPassword))), verify,
                                 u.username, newPassword, u.userType)
            == Success(Apply(u, NewHash(hashPw(newPassword))))
  {
    var u := ChangePasswordDecision(rows, verify, userId, oldPassword, newPassword).value;
    var updated := UpdateWhere(rows, userId, NewHash(hashPw(newPassword)));
    var i :| 0 <= i < |rows| && rows[i] == u;
    assert updated[i] == Apply(u, NewHash(hashPw(newPassword)));
    assert updated[i] in updated;
    ByUsernameFinds(updated, updated[i]);
  }

  /** A deactivated user is no longer found at all: the login fails as for an unknown name. */
  lemma DeactivatedUserIsUnknown(rows: seq<UserRow>, verify: (string, string) -> bool,
                                 u: UserRow, password: string, userType: string)
    requires UniqueUsernames(rows) && u in rows
    ensures AuthenticateDecision(UpdateWhere(rows, u.id, Deactivated), verify, u.username, password, userType)
            == Failure(UnknownUser)
  {
    var updated := UpdateWhere(rows, u.id, Deactivated);
    var i :| 0 <= i < |rows| && rows[i] == u;
    forall v | v in updated && v.isActive
      ensures v.username != u.username
    {
      var j :| 0 <= j < |updated| && updated[j] == v;
      if j != i {
        assert rows[j].username != rows[i].username;
      }
    }
  }

  function DefaultUsers(v: Variant): seq<NewUser> {
    match v
    case Dashboard => [
      NewUser("auditor1", "password123", "John Smith", "jsmith@calpoly.edu", "auditor",
              Some("Administration and Finance")),
      NewUser("auditee1", "password123", "Jane Doe", "jdoe@calpoly.edu", "auditee",
              Some("Academic Affairs"))]
    case Prototype => [
      NewUser("admin", "admin123", "Admin User", "admin@calpoly.edu", "auditor", Some("Administration")),
      NewUser("demo_auditee", "demo123", "Demo Auditee", "demo@calpoly.edu", "auditee", Some("Academic Affairs"))]
  }

  /** The table _ensure_default_users leaves behind when it starts from an empty one. */
  function DefaultRows(v: Variant, firstId: nat, hashPw: string -> string): seq<UserRow> {
    var d := DefaultUsers(v);
    [RowFor(firstId, d[0], hashPw(d[0].password)), RowFor(firstId + 1, d[1], hashPw(d[1].password))]
  }

  /** Each default user logs in with its default password and type. */
  lemma DefaultUsersLogIn(v: Variant, firstId: nat, verify: (string, string) -> bool,
                          hashPw: string -> string, k: nat)
    requires k < 2
    requires forall p :: verify(p, hashPw(p))
    ensures var d := DefaultUsers(v)[k];
            AuthenticateDecision(DefaultRows(v, firstId, hashPw), verify, d.username, d.password, d.userType)
            == Success(DefaultRows(v, firstId, hashPw)[k])
  {
    var rows := DefaultRows(v, firstId, hashPw);
    assert rows[k] in rows;
    ByUsernameFinds(rows, rows[k]);
  }

  /** The users table, with the integrity SQLite keeps: unique names, unique ids below the next one. */
  class UserTable {
    var rows: seq<UserRow>
    var nextId: nat

    predicate Valid()
      reads this
    {
      UniqueUsernames(rows) && UniqueIds(rows) && forall i :: 0 <= i < |rows| ==> rows[i].id < nextId
    }

    constructor ()
      ensures rows == [] && nextId == 1 && Valid()
    {
      rows := [];
      nextId := 1;
    }

    /** authenticate_user: on success stamps last_login and returns the row without its hash. */
    method Authenticate(verify: (string, string) -> bool, username: string, password: string,
                        userType: string, now: int) returns (r: Option<UserView>)
      modifies this
      requires Valid()
      ensures Valid() && nextId == old(nextId)
      ensures match AuthenticateDecision(old(rows), verify, username, password, userType)
              case Success(u) => r == Some(ViewOf(u, now)) && rows == UpdateWhere(old(rows), u.id, LoggedIn(now))
              case Failure(_) => r == None && rows == old(rows)
    {
      var found := ByUsername(rows, username);
      if found.None? {
        return None;
      }
      var u := found.value;
      if !verify(password, u.passwordHash) {
        return None;
      }
      if u.userType != userType {
        return None;
      }
      if !u.isActive {
        return None;
      }
      rows := UpdateWhere(rows, u.id, LoggedIn(now));
      r := Some(ViewOf(u, now));
    }

    /** SQLite's INSERT with AUTOINCREMENT: a refused insert uses no id. */
    method Insert(row: UserRow)
      modifies this
      requires Valid() && row.id == nextId
      ensures Valid()
      ensures rows == InsertRow(old(rows), row)
      ensures nextId == if Taken(old(rows), row.username) then old(nextId) else old(nextId) + 1
    {
      if !Taken(rows, row.username) {
        rows := rows + [row];
        nextId := nextId + 1;
      }
    }

    /** create_user as written: refuses only a name held by an active row, then reports True whatever the INSERT did. */
    method CreateUserAsWritten(hashPw: string -> string, n: NewUser) returns (created: bool)
      modifies this
      requires Valid()
      ensures Valid()
      ensures created == CreateReportAsWritten(old(rows), n.username)
      ensures created ==> rows == InsertRow(old(rows), RowFor(old(nextId), n, hashPw(n.password)))
      ensures created ==> nextId == if Taken(old(rows), n.username) then old(nextId) else old(nextId) + 1
      ensures !created ==> rows == old(rows) && nextId == old(nextId)
    {
      if ByUsername(rows, n.username).Some? {
        return false;
      }
      Insert(RowFor(nextId, n, hashPw(n.password)));
      created := true;
    }

    /** create_user, reporting True exactly when its row was inserted. */
    method CreateUser(hashPw: string -> string, n: NewUser) returns (created: bool)
      modifies this
      requires Valid()
      ensures Valid()
      ensures created == CreateReport(old(rows), n.username)
      ensures created <==> rows == old(rows) + [RowFor(old(nextId), n, hashPw(n.password))]
      ensures created ==> nextId == old(nextId) + 1
      ensures !created ==> rows == old(rows) && nextId == old(nextId)
    {
      if Taken(rows, n.username) {
        return false;
      }
      Insert(RowFor(nextId, n, hashPw(n.password)));
      created := true;
    }

    /** change_password: on success only the user's hash changes. */
    method ChangePassword(verify: (string, string) -> bool, hashPw: string -> string,
                          userId: nat, oldPassword: string, newPassword: string) returns (changed: bool)
      modifies this
      requires Valid()
      ensures Valid() && nextId == old(nextId)
      ensures changed <==> ChangePasswordDecision(old(rows), verify, userId, oldPassword, newPassword).Success?
      ensures changed ==> rows == UpdateWhere(old(rows), userId, NewHash(hashPw(newPassword)))
      ensures !changed ==> rows == old(rows)
    {
      var found := ById(rows, userId);
      if found.None? {
        return false;
      }
      if !verify(oldPassword, found.value.passwordHash) {
        return false;
      }
      if |newPassword| < PasswordMinLength {
        return false;
      }
      rows := UpdateWhere(rows, userId, NewHash(hashPw(newPassword)));
      changed := true;
    }

    /** deactivate_user: clears is_active on the row with the id (if any) and reports True. */
    method Deactivate(userId: nat) returns (ok: bool)
      modifies this
      requires Valid()
      ensures Valid() && nextId == old(nextId)
      ensures ok && rows == UpdateWhere(old(rows), userId, Deactivated)
    {
      rows := UpdateWhere(rows, userId, Deactivated);
      ok := true;
    }

    /** _ensure_default_users: the two default users go in only when the table has no row at all. */
    method EnsureDefaultUsers(v: Variant, hashPw: string -> string)
      modifies this
      requires Valid()
      ensures Valid()
      ensures old(rows) == [] ==> rows == DefaultRows(v, old(nextId), hashPw)
      ensures old(rows) != [] ==> rows == old(rows) && nextId == old(nextId)
    {
      if |rows| == 0 {
        var d := DefaultUsers(v);
        var first := CreateUserAsWritten(hashPw, d[0]);
        assert rows == [RowFor(old(nextId), d[0], hashPw(d[0].password))];
        assert rows[1..] == [];
        // On this one-row table the as-written lookup and the UNIQUE constraint agree.
        assert !Taken(rows, d[1].username) && ByUsername(rows, d[1].username).None?;
        var second := CreateUserAsWritten(hashPw, d[1]);
      }
    }
  }
}
