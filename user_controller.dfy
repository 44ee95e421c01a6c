/**
 * User administration of backend/controllers/user.controller.js: the listing
 * without passwords, the field-by-field update with fallbacks, and deletion.
 */
module UserController {
  import opened Wrappers
  import opened MemoModel
  import opened Store

  /** getUsers: every user, each without its password. */
  function UsersList(users: map<UserId, User>): (r: map<UserId, PublicUser>)
    ensures r.Keys == users.Keys
    ensures forall id :: id in r ==> r[id].id == id && r[id].email == users[id].email && r[id].name == users[id].name
                                     && r[id].role == users[id].role && r[id].department == users[id].department
  {
    map id | id in users :: Public(id, users[id])
  }

  /**
   * The assignments of updateUser (lines 25-28): a falsy request value keeps the
   * stored one; the department is set to null when the REQUEST role is "Admin",
   * otherwise it is the request's or the stored one.  The password is untouched.
   */
  function UpdatedUser(u: User, b: UserBody): (v: User)
    ensures v.name == (if Truthy(b.name) then b.name.value else u.name)
    ensures v.email == (if Truthy(b.email) then b.email.value else u.email)
    ensures v.role == (if Truthy(b.role) then b.role.value else u.role)
    ensures b.role == Some(AdminRole) ==> v.department == NullDept
    ensures b.role != Some(AdminRole) && b.department.Truthy() ==> v.department == b.department
    ensures b.role != Some(AdminRole) && !b.department.Truthy() ==> v.department == u.department
    ensures v.password == u.password
  {
    User(OrElse(b.name, u.name), OrElse(b.email, u.email), u.password, OrElse(b.role, u.role),
         if b.role == Some(AdminRole) then NullDept else b.department.Or(u.department))
  }

  /** updateUser: 404 for an unknown id, otherwise the target user alone is replaced; emails are not re-checked. */
  method UpdateUser(db: Database, id: UserId, b: UserBody) returns (r: Result<User>)
    modifies db
    ensures id !in old(db.users) ==> r == Err(UserNotFound) && db.users == old(db.users)
    ensures id in old(db.users) ==> r == Ok(UpdatedUser(old(db.users)[id], b)) && db.users == old(db.users)[id := r.value]
    ensures db.memos == old(db.memos) && db.fields == old(db.fields)
  {
    if id !in db.users {
      return Err(UserNotFound);
    }
    var user := db.users[id];
    var department := if b.role == Some(AdminRole) then NullDept else if b.department.Truthy() then b.department else user.department;
    user := user.(name := OrElse(b.name, user.name));
    user := user.(email := OrElse(b.email, user.email));
    user := user.(role := OrElse(b.role, user.role));
    user := user.(department := department);
    db.users := db.users[id := user];
    r := Ok(user);
  }

  /**
   * The department rule reads the request role, not the resulting one: without
   * "Admin" in the request and without a department, the stored department is
   * kept whatever the resulting role is.
   */
  lemma DepartmentFollowsRequestRole(u: User, b: UserBody)
    requires b.role != Some(AdminRole) && !b.department.Truthy()
    ensures UpdatedUser(u, b).department == u.department
    ensures !Truthy(b.role) ==> UpdatedUser(u, b).role == u.role
  {
  }

  /** An Admin (stored with a null department) updated without a role stays an Admin with its department; demoted without one, it becomes Staff with none. */
  lemma DemotionCanLeaveNoDepartment()
    ensures var v := UpdatedUser(User("Al", "a@x.org", "h", AdminRole, Named("Ops")), UserBody(None, None, None, None, NoDept));
            v.role == AdminRole && v.department == Named("Ops")
    ensures var v := UpdatedUser(User("Al", "a@x.org", "h", AdminRole, NullDept), UserBody(None, None, None, Some(StaffRole), NoDept));
            v.role == StaffRole && !v.department.Truthy()
  {
  }

  /** Nothing stops an update from giving a user the email of another. */
  lemma UpdateMayDuplicateEmail()
    ensures var users := map["1" := User("Al", "a@x.org", "h", StaffRole, Named("Ops")),
                             "2" := User("Bo", "b@x.org", "h", StaffRole, Named("Ops"))];
            && UniqueEmails(users)
            && !UniqueEmails(users["2" := UpdatedUser(users["2"], UserBody(None, Some("a@x.org"), None, None, NoDept))])
  {
    var users := map["1" := User("Al", "a@x.org", "h", StaffRole, Named("Ops")),
                     "2" := User("Bo", "b@x.org", "h", StaffRole, Named("Ops"))];
    var after := users["2" := UpdatedUser(users["2"], UserBody(None, Some("a@x.org"), None, None, NoDept))];
    assert after["1"].email == after["2"].email;
  }

  /** deleteUser: 404 for an unknown id, otherwise exactly that user is removed. */
  method DeleteUser(db: Database, id: UserId) returns (r: Outcome)
    modifies db
    ensures r.Pass? <==> id in old(db.users)
    ensures r.Fail? ==> r.failure == UserNotFound && db.users == old(db.users)
    ensures r.Pass? ==> db.users == old(db.users) - {id}
    ensures db.memos == old(db.memos) && db.fields == old(db.fields)
  {
    if id !in db.users {
      return Fail(UserNotFound);
    }
    db.users := db.users - {id};
    r := Pass;
  }
}
