# Memo distribution service: a Dafny model of its core

This project models the core of a small memo service. Authenticated users create
memos addressed to a list of recipients or to a whole department. Recipients mark
their delivery status and reply and approve. A memo's sender or an Admin archives it.
Around this lifecycle sit three tables: users, memo fields and memos. The model also
covers the request validators and a per-user statistics view.

The store is one object, `Store.Database`. It has three fields that the operations
reassign:
- `users`: a map from user id to user.
- `fields`: the memo-field registry, as a sequence in stored order.
- `memos`: a map from memo id to memo.

Each controller file is one module. Its operations are methods that take the
database and say, with `old(...)`, what the new tables are.

Most operations are split in two:
- The guards and defaulting are a pure function, such as `StatusUpdate`,
  `PublicRegistration` or `FieldCreation`. That function gives the saved document
  or the error.
- The method, such as `UpdateMemoStatus`, loads the document, applies the change
  and writes it back. It is proved equal to the function.

The loops of the source are read-only methods with invariants:
- the scan of the field registry;
- recipient resolution;
- the department lookup;
- the seeding of the status map;
- the building of the id set in the statistics.

Ids are the string forms of MongoDB ObjectIds, so `id.toString()` is the identity.
The fresh ObjectId of an insert, and the clock reading "now", are parameters.

Behaviour the model keeps as the code has it:
- The status enum admits "recieved" and not "archived". `archiveMemo` still writes
  status "archived" under the key "archived" (`Archival`, `ArchivedIsNotAdmissible`).
- `getMemos` has no sender clause. A memo you only sent is not listed to you
  (`SenderAloneIsNotListed`).
- Duplicate recipients stay in `recipients` but share one status key
  (`SeedStatus`: there are as many keys as recipients exactly when there are no
  duplicates).
- `archiveMemo` does not change `updatedAt`.
- A department field has three states, and the model keeps all three (`Dept`):
  - missing (read back as `undefined`);
  - `null`;
  - a name.
- Where each state comes from:
  - `registerUser` and `updateUser` store `null` for an Admin.
  - The backend self-registration stores an Admin's absent department as missing.
  - A memo created without a department has the field missing.
- Department matching differs between operations:
  - The listing and the statistics match departments the way the store's query
    does. A null or missing department in the query matches a stored null or a
    missing field.
  - `updateMemoStatus` uses JavaScript's strict `!==`. A missing field equals only a
    missing one, and `null` equals only `null`.
  - So a user whose department is `null` sees every memo created without a
    department but may not set its status (`ListedButNotUpdatable`).
  - A user stored without the field may set the status of every such memo
    (`MissingDepartmentsMatch`).
  - The status guard never admits more than the listing. For users with a named
    department the two checks agree (`ListedIffMayUpdateStatus`).
- Self-registration in `controllers/auth.controller.js` accepts the role "Admin"
  when the request asks for it, although a comment there says Admin is excluded
  (`SelfSignupMayChooseAdmin`).
- `updateUser` decides the department from the request's role, not the resulting
  role (`DepartmentFollowsRequestRole`, `DemotionCanLeaveNoDepartment`). It does not
  re-check email uniqueness (`UpdateMayDuplicateEmail`).
- The two auth controllers check in different orders and default differently
  (`CheckOrderDiffers`, `DefaultsDiffer`, `EmptyRoleIsNotDefaulted`).
- `registerUser`, `loginUser` and `getCurrentUser` are the same in both auth files
  apart from the token payload. They are modelled once, in `AuthController`, which
  cites `controllers/auth.controller.js`. The same lines are at
  `backend/controllers/auth.controller.js:11-36`, `:81-98` and `:101-122`.

## Model

| member | source | states |
|---|---|---|
| MemoModel.StatusEntryOf | models/Memo.js:13-16 | a status entry takes the given status, or the schema default "sent" when none is given, stamped with now |
| MemoModel.DefaultResponse | models/Memo.js:22-23 | the schema defaults of a response entry are an empty reply and no approval |
| MemoModel.NewMemo | models/Memo.js:4-29 | a new memo document has no responses map and createdAt = updatedAt = now, the other fields as given |
| MemoModel.ArchivedIsNotAdmissible | models/Memo.js:13 | the status enum admits "recieved" but neither "received" nor the "archived" that archiving writes |
| Store.FindByEmail | controllers/memo.controller.js:28-29 | the lookup by email returns a user having that email, and none exactly when no user has it |
| Validate.ValidateUser | middlewares/validate.js:5-34 | the first failing rule in source order is reported (the head of the list of all failing rules); passes iff no rule fails; an absent password never fails; a department error only for a valid non-Admin role |
| Validate.UserPassesIffEveryRuleHolds | middlewares/validate.js:8-31 | a user body passes exactly when name ≥ 2 chars, email valid, password absent or ≥ 6, role in {Admin, Staff, Student}, and department given unless Admin |
| Validate.ValidateMemo | middlewares/validate.js:36-50 | fails iff neither recipients nor a truthy department is given, or content is missing; without a target the target error is reported, with a target and no content the content error |
| Validate.ValidateMemoResponse | middlewares/validate.js:52-65 | passes iff the memo exists and the user is among its recipients; 404 for a missing memo, 403 for a non-recipient |
| MemoController.FirstMissing | controllers/memo.controller.js:12-19 | none iff every required field is in the content keys; otherwise the name of a required, absent field with no such field before it |
| MemoController.FirstMissingIsFirstOfAll | controllers/memo.controller.js:14-19 | the fail-fast check reports the first element of the list of all missing required fields, and passes iff that list is empty |
| MemoController.CheckRequiredFields | controllers/memo.controller.js:12-19 | the loop over the registry returns exactly the first missing required field |
| MemoController.ResolveRecipients | controllers/memo.controller.js:23-37 | succeeds iff every entry with "@" is some user's email; the result has one id per entry, emails replaced by such a user's id, other entries kept verbatim; on failure the error names an unresolvable entry |
| MemoController.ResolutionIsUnique | controllers/memo.controller.js:25-36 | when emails are unique the resolved list is determined by the entries |
| MemoController.PlainIdsAreKept | controllers/memo.controller.js:35 | entries without "@" come out unchanged, with no existence check |
| MemoController.UsersInDepartment | controllers/memo.controller.js:38-40 | the department lookup lists every user of that department exactly once, and nobody else |
| MemoController.SeedStatus | controllers/memo.controller.js:46-50 | the seeded status map has exactly the recipient ids as keys, each "sent" at now; it has as many keys as recipients iff there are no duplicates |
| MemoController.CreateMemo | controllers/memo.controller.js:8-58 | missing content fails first, then the first missing required field, before any recipient resolution; the list wins over the department, and with neither creation fails; an unknown recipient email fails with 400 "Recipient email not found: " and that entry; a created memo is stored under its fresh id with sender, department and content as given, resolved recipients in order, no responses, both dates now, and a "sent" entry for each recipient |
| MemoController.MemosFor | controllers/memo.controller.js:78-81 | the listing is exactly the memos where the user is a recipient or the department matches, unchanged |
| MemoController.SenderAloneIsNotListed | controllers/memo.controller.js:79-81 | being the sender alone does not put a memo in the listing |
| MemoController.StatusUpdate | controllers/memo.controller.js:91-110 | 404 for a missing memo; succeeds iff the user is a recipient or strictly shares the memo's department, else 403; only status[user] is written, other entries unchanged, updatedAt = now, nothing else changes |
| MemoController.UpdateMemoStatus | controllers/memo.controller.js:91-110 | the saved memo is the one StatusUpdate gives, written back under its id; no other memo or table changes |
| MemoController.StatusUpdateIdempotent | controllers/memo.controller.js:108-109 | repeating a status update leaves the same keys and status value, and the same memo at the same time |
| MemoController.StatusUpdateKeepsSeeded | controllers/memo.controller.js:108 | after a status update every recipient still has a status entry |
| MemoController.ListedButNotUpdatable | controllers/memo.controller.js:100-103 | a user whose department is null sees a memo created without a department in the listing but may not update its status (`undefined !== null`) |
| MemoController.MissingDepartmentsMatch | controllers/memo.controller.js:100-103 | a user stored without a department may update, and sees, every memo stored without one (`undefined === undefined`) |
| MemoController.ListedIffMayUpdateStatus | controllers/memo.controller.js:100-103 | whoever may update a memo's status sees it in the listing; for a user with a named department, the listing filter and the status guard agree |
| MemoController.Archival | controllers/memo.controller.js:120-138 | 404 for a missing memo; succeeds iff the user is the sender or an Admin, else 403; sets only the "archived" sentinel (a value the enum does not admit), keeps every other entry and updatedAt |
| MemoController.ArchiveMemo | controllers/memo.controller.js:120-138 | the saved memo is the one Archival gives, written back under its id; no other memo or table changes |
| MemoController.ArchivalKeepsSeeded | controllers/memo.controller.js:137 | archiving keeps every recipient's status entry |
| MemoController.PickApproval | controllers/memo.controller.js:151 | the body's `approved` is used when defined, `approval` otherwise |
| MemoController.ResponseOf | controllers/memo.controller.js:172-177 | the stored reply is the given one or "", approved holds iff the picked value is literally true, stamped now |
| MemoController.ResponseUpdate | controllers/memo.controller.js:148-178 | 404 for a missing memo; succeeds iff the user is a recipient, else 403; the responses map is created when absent and only the user's entry is upserted, others unchanged; updatedAt = now; status unchanged |
| MemoController.UpdateMemoResponse | controllers/memo.controller.js:148-179 | the saved memo is the one ResponseUpdate gives, written back under its id; no other memo or table changes |
| MemoController.ResponseUpdateIdempotent | controllers/memo.controller.js:173-178 | responding twice with the same input yields the same keys, reply and approval, and the same memo at the same time |
| MemoController.StringApprovalIsNotApproval | controllers/memo.controller.js:151-175 | "true" as a string does not approve, true does, and a defined `approved` false overrides `approval` true |
| MemoController.ValidatedResponseIsAuthorized | controllers/memo.controller.js:155-165 | the controller succeeds exactly when `Validate.ValidateMemoResponse` passes, and they fail with the same code, both 404 for a missing memo; so behind the middleware the controller's guards never fire |
| StatsController.AddEach | controllers/stats.controller.js:19-21 | adding each id into the set yields the union |
| StatsController.StatsBounds | controllers/stats.controller.js:19-36 | memosSent ≤ totalMemos ≤ sent + received; archived memos are among all memos, so memosArchived ≤ totalMemos; the memo listing is the received set, so it is no larger than totalMemos |
| StatsController.GetUserStats | controllers/stats.controller.js:8-57 | reads only; totalMemos is the number of distinct ids sent or received, memosSent the number sent, memosArchived the involved memos with the sentinel; the three bounds hold; a store failure gives 500 and no stats |
| AuthController.AdminRegistration | controllers/auth.controller.js:11-26 | fails with "User already exists" iff the email is taken; stores the given fields with department null for Admin and as given otherwise |
| AuthController.RegisterUser | controllers/auth.controller.js:11-36 | on success the table gains exactly the new user under the fresh id, the only one with that email; on failure nothing changes; email uniqueness is preserved |
| AuthController.PublicRegistration | controllers/auth.controller.js:39-62 | the name/email/password presence check runs before the duplicate check; succeeds iff all present and the email is new; role defaults to "Student", department to "General" |
| AuthController.SelfSignupMayChooseAdmin | controllers/auth.controller.js:55-62 | a self-registration asking for role Admin is stored as Admin, with department "General" |
| AuthController.RegisterPublicUser | controllers/auth.controller.js:39-77 | on success the table gains exactly the new user under the fresh id, the only one with that email; on failure nothing changes; email uniqueness is preserved |
| AuthController.LoginUser | controllers/auth.controller.js:80-97 | a success returns a stored user with that email whose password matches; no such user gives the single 401; with unique emails, success iff such a user exists |
| AuthController.CurrentUser | controllers/auth.controller.js:100-107 | 404 iff the id is not in the table; otherwise that user's record without the password |
| BackendAuthController.PublicRegistration | backend/controllers/auth.controller.js:39-68 | the duplicate check runs first, then presence, then a non-Admin without a department is rejected; it succeeds exactly when all three checks pass; role defaults to "Staff" only when missing; the department is stored as given, and every stored non-Admin has one |
| BackendAuthController.RegisterPublicUser | backend/controllers/auth.controller.js:39-78 | on success the table gains exactly the new user under the fresh id, the only one with that email; on failure nothing changes; email uniqueness is preserved |
| BackendAuthController.CheckOrderDiffers | backend/controllers/auth.controller.js:42-53 | an incomplete request with a taken email is refused as incomplete by one variant and as a duplicate by the other |
| BackendAuthController.DefaultsDiffer | backend/controllers/auth.controller.js:40-68 | a missing role becomes Student in one variant and Staff in this one; an Admin without a department gets "General" there and a missing field here |
| BackendAuthController.EmptyRoleIsNotDefaulted | backend/controllers/auth.controller.js:40 | an empty role is not replaced by the default and is stored as given |
| UserController.UsersList | backend/controllers/user.controller.js:4-12 | every user is listed under its id with its name, email, role and department, and no password |
| UserController.UpdatedUser | backend/controllers/user.controller.js:25-28 | name, email and role keep the stored value where the request's is falsy; the department is null when the request role is Admin, else the request's or the stored one; the password is kept |
| UserController.UpdateUser | backend/controllers/user.controller.js:15-37 | 404 for an unknown id; otherwise only the target user is replaced, by UpdatedUser |
| UserController.DepartmentFollowsRequestRole | backend/controllers/user.controller.js:27-28 | for every user and every request not asking for Admin and giving no department, the stored department is kept whatever the resulting role; without a role the role is kept too |
| UserController.DemotionCanLeaveNoDepartment | backend/controllers/user.controller.js:27-28 | an Admin updated without a role keeps a department it has; an Admin with a null department demoted to Staff without one becomes a Staff user with none |
| UserController.UpdateMayDuplicateEmail | backend/controllers/user.controller.js:25-30 | an update can give a user another user's email, breaking uniqueness |
| UserController.DeleteUser | backend/controllers/user.controller.js:40-55 | 404 iff the user is absent; otherwise exactly that user is removed |
| FieldController.FieldCreation | backend/controllers/field.controller.js:5-20 | fails iff a field with that name exists; otherwise the field carries exactly the given name, type, required flag and options, created by the requester |
| FieldController.AppendKeepsUnique | backend/controllers/field.controller.js:8-20 | appending a field under a new name keeps field names unique |
| FieldController.CreateMemoField | backend/controllers/field.controller.js:5-27 | a success appends exactly one field and leaves the existing ones; a failure changes nothing; unique names are preserved |
| FieldController.GetMemoFields | backend/controllers/field.controller.js:30-38 | returns the whole registry in stored order |

## Left out

- Status codes: the model gives the code each controller sets with `res.status`.
  The error handler in `server.js` answers with `err.status || 500`. Thrown errors
  carry no `status`, so on the wire every such failure becomes 500. The handler is
  not part of this model.
- Tokens, password hashing and `matchPassword` are left out. Registration stores
  the password as given. Login compares it through a `matches` parameter. Responses
  carry the user record without the token.
- `validator.isEmail` is a parameter `isEmail`.
- `validator.isLength` is modelled as `|s|`, the number of characters. The
  library's own counting rules, such as any treatment of variation selectors,
  are not modelled.
- `forwardMemo`, `paraphraseMemoContent` and `getMemoById` are imported by the
  route files but defined in no controller shown, so they are not modelled.
- Email notification, the paraphrasing service, the connection test and the
  Express wiring are I/O and are not modelled.
- Mongoose validation at save time is not modelled. This covers enum enforcement
  on status values, casting of recipient strings to ObjectIds, and the
  required-field rules and any unique indexes of the User and MemoField schemas,
  which are not shown. A unique index on email would make `user.save()` fail where
  `UpdateMayDuplicateEmail` shows a duplicate. A unique index on field names would
  be redundant with the name check.
  The status enum is recorded as the predicate `AdmissibleStatus` only.
- What leaving out enum enforcement costs: if the enum is enforced, `memo.save()`
  rejects the "archived" entry that `archiveMemo` writes. The running service would
  then answer 500 and store nothing, and `memosArchived` would stay 0. The same
  holds for `updateMemoStatus` with a status outside the enum. The model instead
  saves both (`Archival`, `StatusUpdate`).
- Content values are strings, and the model never looks inside them. Content that
  is present but not an object (a string, number or boolean) cannot be expressed.
  So `ValidateMemo` cannot show its "not an object" case. A missing content in
  `createMemo` is the TypeError of `Object.keys`, reported with status 500.
- Only recipient entries that are strings are modelled. The source returns
  non-string entries verbatim.
- `null` and `undefined` are one case, `None`, for request fields other than the
  department:
  - For name, email, password and content the readers use truthiness or
    `Object.keys`, which treat the two alike.
  - For role they differ once: the backend's destructuring default (see
    `BackendAuthController.PublicRegistration` below).
  - Departments keep the distinction.
- MemoModel.StatusEntryOf: an explicit `null` status in an update request is not
  modelled. `None` stands for a missing status and takes the schema default "sent".
  The store fills in defaults only for `undefined`, so a `null` status would be
  stored as `null`.
- Query filters: an `undefined` department in a store query is modelled as
  matching like `null` does, that is, a stored null or a missing field. This is how
  the driver serialises it by default.
- MemoController.ResolveRecipients: when several emails are unknown, the source
  reports whichever lookup rejects first under `Promise.all`. The contract says
  only that some unknown entry is named.
- AuthController.RegisterUser: name, email, password and role are modelled as
  given strings. What happens when one is missing depends on the User schema,
  which is not shown.
- BackendAuthController.PublicRegistration: when the email is missing, the
  duplicate check finds nobody, because every stored user is taken to have an
  email. A `null` role is treated like a missing one and gets the default, where
  the source's destructuring default applies only to `undefined`.
- The unreachable `"Invalid user data"` branch of the root `registerPublicUser` is
  not modelled. `User.create` throws instead of returning nothing.
- `populate(...)` joins in listings and `createdAt` in `getCurrentUser` are left
  out. They are display data from schemas not shown.
- `getMemos` (`MemosFor`) and `getUsers` (`UsersList`) return maps by id, so the
  order of the store's results is not kept.
- Authentication and `restrictTo("Admin")` are route middleware. The model takes
  the authenticated requester as given and does not check Admin-only access.
- A store failure in `getUserStats` is the parameter `storeError`. Store failures
  elsewhere are not modelled.
- Every `new Date()` within one request reads the same `now`.
- Concurrent read-modify-write on the same memo (lost updates) is not modelled.
  Each operation runs alone.
