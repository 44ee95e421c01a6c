/**
 * The document store the controllers work on: the users table, the memo-field
 * registry (in stored order) and the memos collection, as one object whose
 * fields the controllers update in place.  The User and MemoField schemas are
 * not part of this model; their shapes are the ones the controllers read and write.
 */
module Store {
  import opened Wrappers
  import opened MemoModel

  const AdminRole := "Admin"
  const StaffRole := "Staff"
  const StudentRole := "Student"

  /** The 404 errors of lookups by id, shared by the controllers and the middleware. */
  const MemoNotFound := Failure(NotFound, "Memo not found")
  const UserNotFound := Failure(NotFound, "User not found")

  /** The 400 error of a memo with neither recipients nor a department, raised by validateMemo and createMemo alike. */
  const NoTarget := Failure(BadRequest, "Must specify recipients or department")

  /** A stored user; `password` is the stored hash, compared only through a matcher. */
  datatype User = User(name: string, email: string, password: string, role: string, department: Dept)

  /** A user as the service returns it, with the password left out. */
  datatype PublicUser = PublicUser(id: UserId, name: string, email: string, role: string, department: Dept)

  /** A memo field definition of the registry. */
  datatype MemoField = MemoField(name: string, fieldType: string, required: bool, options: seq<string>, createdBy: UserId)

  /** The authenticated caller, as the session middleware attaches it to the request. */
  datatype Requester = Requester(id: UserId, role: string, department: Dept)

  /** A JSON value of a request body, as far as the service distinguishes them. */
  datatype JsValue = Undefined | Null | Bool(b: bool) | Str(s: string) | Num(n: int)

  /**
   * The user fields of a request body; for name, email, password and role None
   * stands for a missing or null value, which every reader treats alike.
   */
  datatype UserBody = UserBody(name: Option<string>, email: Option<string>, password: Option<string>,
                               role: Option<string>, department: Dept)

  /**
   * The body of a create-memo request.  `recipients` is a list of user ids or
   * emails; `content` is the content object (None when missing or null).
   */
  datatype MemoBody = MemoBody(recipients: Option<seq<string>>, department: Dept,
                               content: Option<map<string, string>>)

  function Public(id: UserId, u: User): (p: PublicUser)
    ensures p.id == id && p.name == u.name && p.email == u.email
    ensures p.role == u.role && p.department == u.department
  {
    PublicUser(id, u.name, u.email, u.role, u.department)
  }

  /** Some stored user has this email. */
  predicate EmailTaken(users: map<UserId, User>, email: string) {
    exists id :: id in users && users[id].email == email
  }

  /** No two stored users share an email. */
  predicate UniqueEmails(users: map<UserId, User>) {
    forall a, b :: a in users && b in users && users[a].email == users[b].email ==> a == b
  }

  /** No two registry fields share a name. */
  predicate UniqueFieldNames(fields: seq<MemoField>) {
    forall i, j :: 0 <= i < j < |fields| ==> fields[i].name != fields[j].name
  }

  class Database {
    var users: map<UserId, User>
    var fields: seq<MemoField>
    var memos: map<MemoId, Memo>

    constructor ()
      ensures users == map[] && fields == [] && memos == map[]
    {
      users := map[];
      fields := [];
      memos := map[];
    }
  }

  /**
   * `User.findOne({ email })`: some user with that email, or none when no user
   * has it.  Which one is returned when several share the email is the store's choice.
   */
  method FindByEmail(users: map<UserId, User>, email: string) returns (r: Option<UserId>)
    ensures r.Some? ==> r.value in users && users[r.value].email == email
    ensures r.None? <==> !EmailTaken(users, email)
  {
    if id :| id in users && users[id].email == email {
      r := Some(id);
    } else {
      r := None;
    }
  }
}
