/**
 * The request validators of middlewares/validate.js.  Each is a chain of guards
 * that stops at the first failing one; `isEmail` is the email syntax check of
 * the validator library, taken as a parameter.  String lengths count characters.
 */
module Validate {
  import opened Wrappers
  import opened MemoModel
  import opened Store

  const NameError := Failure(BadRequest, "Name must be at least 2 characters")
  const EmailError := Failure(BadRequest, "Invalid email address")
  const PasswordError := Failure(BadRequest, "Password must be at least 6 characters")
  const RoleError := Failure(BadRequest, "Invalid role")
  const DepartmentError := Failure(BadRequest, "Department is required for non-Admin users")
  const ContentError := Failure(BadRequest, "Content is required and must be an object")
  const NotRecipientError := Failure(Forbidden, "Not authorized: Only recipients can update their reply/approval")

  predicate NameValid(name: Option<string>) {
    Truthy(name) && |name.value| >= 2
  }

  predicate EmailValid(email: Option<string>, isEmail: string -> bool) {
    Truthy(email) && isEmail(email.value)
  }

  /** A password is checked only when one is given. */
  predicate PasswordValid(password: Option<string>) {
    !Truthy(password) || |password.value| >= 6
  }

  predicate RoleValid(role: Option<string>) {
    role.Some? && (role.value == AdminRole || role.value == StaffRole || role.value == StudentRole)
  }

  predicate DepartmentGiven(role: Option<string>, department: Dept) {
    role == Some(AdminRole) || department.Truthy()
  }

  /** Every rule of a user body that fails, in the order the middleware checks them. */
  function UserViolations(b: UserBody, isEmail: string -> bool): (v: seq<Failure>)
    ensures |v| <= 5
  {
    (if NameValid(b.name) then [] else [NameError])
    + (if EmailValid(b.email, isEmail) then [] else [EmailError])
    + (if PasswordValid(b.password) then [] else [PasswordError])
    + (if RoleValid(b.role) then [] else [RoleError])
    + (if DepartmentGiven(b.role, b.department) then [] else [DepartmentError])
  }

  /** validateUser: the first failing rule, or pass when none fails. */
  function ValidateUser(b: UserBody, isEmail: string -> bool): (r: Outcome)
    ensures r.Pass? <==> UserViolations(b, isEmail) == []
    ensures r.Fail? ==> r.failure == UserViolations(b, isEmail)[0]
    ensures !NameValid(b.name) ==> r == Fail(NameError)
    ensures NameValid(b.name) && !EmailValid(b.email, isEmail) ==> r == Fail(EmailError)
    ensures !Truthy(b.password) ==> r != Fail(PasswordError)
    ensures r == Fail(DepartmentError) ==> RoleValid(b.role) && b.role != Some(AdminRole)
  {
    if !NameValid(b.name) then Fail(NameError)
    else if !EmailValid(b.email, isEmail) then Fail(EmailError)
    else if !PasswordValid(b.password) then Fail(PasswordError)
    else if !RoleValid(b.role) then Fail(RoleError)
    else if !DepartmentGiven(b.role, b.department) then Fail(DepartmentError)
    else Pass
  }

  /** validateMemo: a memo needs a target (recipients or a department) and a content object. */
  function ValidateMemo(b: MemoBody): (r: Outcome)
    ensures r.Fail? <==> (b.recipients.None? && !b.department.Truthy()) || b.content.None?
    ensures b.recipients.None? && !b.department.Truthy() ==> r == Fail(NoTarget)
    ensures !(b.recipients.None? && !b.department.Truthy()) && b.content.None? ==> r == Fail(ContentError)
  {
    if b.recipients.None? && !b.department.Truthy() then Fail(NoTarget)
    else if b.content.None? then Fail(ContentError)
    else Pass
  }

  /**
   * validateMemoResponse: only a recipient of an existing memo gets through.
   * Being a function of the collection, it changes nothing.
   */
  function ValidateMemoResponse(memos: map<MemoId, Memo>, memoId: MemoId, user: UserId): (r: Outcome)
    ensures r.Pass? <==> memoId in memos && user in memos[memoId].recipients
    ensures memoId !in memos ==> r == Fail(MemoNotFound)
    ensures memoId in memos && user !in memos[memoId].recipients ==> r == Fail(NotRecipientError)
  {
    if memoId !in memos then Fail(MemoNotFound)
    else if user !in memos[memoId].recipients then Fail(NotRecipientError)
    else Pass
  }

  /** The middleware lets through a user body only when no rule fails, whatever the rule order. */
  lemma UserPassesIffEveryRuleHolds(b: UserBody, isEmail: string -> bool)
    ensures ValidateUser(b, isEmail).Pass? <==>
      NameValid(b.name) && EmailValid(b.email, isEmail) && PasswordValid(b.password)
      && RoleValid(b.role) && DepartmentGiven(b.role, b.department)
  {
  }
}
