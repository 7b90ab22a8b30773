/**
 * `SessionValidator` in both copies of authentication.py: whether a session dictionary is
 * still valid and whether a user dictionary grants a permission. The dashboard's copy checks
 * four fields and a 60-minute timeout and lower-cases the user type; the prototype's copy
 * checks three fields and looks the user type up as written.
 */
module Sessions {
  import opened Wrappers
  import Text

  /** The values a session or user dictionary holds; times are whole minutes. */
  datatype Value = Str(s: string) | Int(n: int) | DateTime(minute: int) | NoneValue

  type Dict = map<string, Value>

  /** The Python exceptions the validators let escape. */
  datatype SessionError = TypeError | ValueError | AttributeError

  const SessionTimeoutMinutes := 60

  const UserTypeKey := "user_type"
  const LastLoginKey := "last_login"

  /** The prototype's required fields: id, username and user_type. */
  predicate HasPrototypeFields(data: Dict) {
    "id" in data && "username" in data && UserTypeKey in data
  }

  /** The dashboard's required fields: those and last_login. */
  predicate HasDashboardFields(data: Dict) {
    HasPrototypeFields(data) && LastLoginKey in data
  }

  /**
   * The login time as a minute: a string goes through `datetime.fromisoformat` (the parameter
   * `parseIso`, None when it raises ValueError); anything but a datetime then fails the subtraction.
   */
  function LoginMinute(v: Value, parseIso: string -> Option<int>): Result<int, SessionError> {
    match v
    case Str(s) => (match parseIso(s) case None => Failure(ValueError) case Some(t) => Success(t))
    case DateTime(t) => Success(t)
    case Int(_) => Failure(TypeError)
    case NoneValue => Failure(TypeError)
  }

  /** The dashboard's `is_session_valid`, at minute `now`. */
  function IsSessionValid(data: Dict, now: int, parseIso: string -> Option<int>): (r: Result<bool, SessionError>)
    ensures r.Failure? ==> HasDashboardFields(data)
    ensures r == Success(true) ==> (LastLoginKey in data
                                   && exists t :: LoginMinute(data[LastLoginKey], parseIso) == Success(t)
                                                  && now - t <= SessionTimeoutMinutes)
  {
    if data == map[] then Success(false)
    else if !HasDashboardFields(data) then Success(false)
    else match LoginMinute(data[LastLoginKey], parseIso)
      case Failure(e) => Failure(e)
      case Success(t) => Success(!(now - t > SessionTimeoutMinutes))
  }

  /** Empty data or a missing required field makes the session invalid, whatever the login time holds. */
  lemma MissingFieldInvalid(data: Dict, now: int, parseIso: string -> Option<int>, field: string)
    requires field in {"id", "username", "user_type", "last_login"} && field !in data
    ensures IsSessionValid(data, now, parseIso) == Success(false)
  {
  }

  /** A session logged in at minute t is valid up to and including minute t + 60, and not after. */
  lemma TimeoutBoundary(data: Dict, parseIso: string -> Option<int>, t: int, now: int)
    requires HasDashboardFields(data) && data[LastLoginKey] == DateTime(t)
    ensures IsSessionValid(data, now, parseIso) == Success(now <= t + SessionTimeoutMinutes)
  {
  }

  /** Once a session has expired it stays expired. */
  lemma ExpiryIsFinal(data: Dict, parseIso: string -> Option<int>, now: int, later: int)
    requires now <= later
    requires IsSessionValid(data, now, parseIso) == Success(false)
    ensures IsSessionValid(data, later, parseIso) == Success(false)
  {
  }

  /** The prototype's `is_session_valid`: non-empty with id, username and user_type; no timeout. */
  function PrototypeIsSessionValid(data: Dict): (r: bool)
    ensures r ==> UserTypeKey in data
  {
    data != map[] && HasPrototypeFields(data)
  }

  /** Every session the dashboard accepts, the prototype accepts too. */
  lemma DashboardIsStricter(data: Dict, now: int, parseIso: string -> Option<int>)
    requires IsSessionValid(data, now, parseIso) == Success(true)
    ensures PrototypeIsSessionValid(data)
  {
  }

  /** An old login with no timeout check: the prototype keeps a session the dashboard has expired. */
  lemma PrototypeNeverExpires(data: Dict, parseIso: string -> Option<int>, t: int)
    requires data == map["id" := Int(1), "username" := Str("auditor1"), "user_type" := Str("auditor"),
                         "last_login" := DateTime(t)]
    ensures IsSessionValid(data, t + SessionTimeoutMinutes + 1, parseIso) == Success(false)
    ensures PrototypeIsSessionValid(data)
  {
    assert "id" in data;
  }

  /** The dashboard's permission table, `permissions.get(user_type, [])`. */
  function DashboardPermissions(userType: string): seq<string> {
    if userType == "auditor" then ["create_audit", "view_all_documents", "manage_compliance", "send_notifications"]
    else if userType == "auditee" then ["upload_documents", "view_own_documents", "respond_to_requests"]
    else []
  }

  /** The prototype's permission table. */
  function PrototypePermissions(userType: string): seq<string> {
    if userType == "auditor" then ["create_audit", "view_all_audits", "review_documents", "send_notifications"]
    else if userType == "auditee" then ["view_assigned_audits", "upload_documents", "view_notifications"]
    else []
  }

  /** `user_data.get('user_type', '').lower()`: a value that is not a string has no `lower`. */
  function LoweredUserType(data: Dict): (r: Result<string, SessionError>)
    ensures r.Failure? <==> UserTypeKey in data && !data[UserTypeKey].Str?
    ensures r.Success? ==> r.value == if UserTypeKey in data then Text.Lower(data[UserTypeKey].s) else ""
  {
    if UserTypeKey !in data then Success("")
    else match data[UserTypeKey]
      case Str(s) => Success(Text.Lower(s))
      case _ => Failure(AttributeError)
  }

  /** The dashboard's `has_permission`. */
  function HasPermission(data: Dict, permission: string): (r: Result<bool, SessionError>)
    ensures r == Success(true) ==> (LoweredUserType(data).Success?
                                   && LoweredUserType(data).value in {"auditor", "auditee"})
  {
    match LoweredUserType(data)
    case Failure(e) => Failure(e)
    case Success(userType) => Success(permission in DashboardPermissions(userType))
  }

  /** The prototype's `has_permission`: empty data, a missing or non-string type grant nothing. */
  function PrototypeHasPermission(data: Dict, permission: string): (r: bool)
    ensures r ==> UserTypeKey in data && data[UserTypeKey].Str?
                  && data[UserTypeKey].s in {"auditor", "auditee"}
  {
    if data == map[] then false
    else if UserTypeKey in data && data[UserTypeKey].Str? then
      permission in PrototypePermissions(data[UserTypeKey].s)
    else false
  }

  /** In each table no permission belongs to both roles. */
  lemma PermissionTablesDisjoint(p: string)
    ensures !(p in DashboardPermissions("auditor") && p in DashboardPermissions("auditee"))
    ensures !(p in PrototypePermissions("auditor") && p in PrototypePermissions("auditee"))
  {
  }

  /** A granted permission tells the role: two users granted the same permission have the same type. */
  lemma PermissionDeterminesRole(a: Dict, b: Dict, p: string)
    requires HasPermission(a, p) == Success(true) && HasPermission(b, p) == Success(true)
    ensures LoweredUserType(a) == LoweredUserType(b)
  {
    PermissionTablesDisjoint(p);
  }

  /** The same, for the prototype's exact lookup. */
  lemma PrototypePermissionDeterminesRole(a: Dict, b: Dict, p: string)
    requires PrototypeHasPermission(a, p) && PrototypeHasPermission(b, p)
    ensures a[UserTypeKey] == b[UserTypeKey]
  {
    PermissionTablesDisjoint(p);
  }

  /** The dashboard ignores the case of the user type; the prototype does not. */
  lemma CaseOfUserType(data: Dict)
    requires data == map[UserTypeKey := Str("Auditor")]
    ensures HasPermission(data, "create_audit") == Success(true)
    ensures !PrototypeHasPermission(data, "create_audit")
  {
    assert Text.Lower("Auditor") == "auditor";
  }

  /** Without a user type the dashboard grants nothing and raises nothing. */
  lemma NoUserTypeNoPermission(data: Dict, p: string)
    requires UserTypeKey !in data
    ensures HasPermission(data, p) == Success(false)
    ensures !PrototypeHasPermission(data, p)
  {
  }
}
