/**
 * The memo lifecycle of controllers/memo.controller.js: creation (required-field
 * check, recipient resolution, status seeding), the listing filter, and the
 * three keyed upserts (status, archive sentinel, response).  "now" is a parameter.
 */
module MemoController {
  import opened Wrappers
  import opened MemoModel
  import opened Store
  import Validate

  const ContentNotObject := Failure(ServerError, "Cannot convert undefined or null to object")
  const StatusForbidden := Failure(Forbidden, "Not authorized to update this memo")
  const ArchiveForbidden := Failure(Forbidden, "Not authorized to archive this memo")
  const ResponseForbidden := Failure(Forbidden, "Not authorized to respond to this memo")

  function MissingField(name: string): (f: Failure)
    ensures f.code == BadRequest
  {
    Failure(BadRequest, "Missing required field: " + name)
  }

  function RecipientNotFound(entry: string): (f: Failure)
    ensures f.code == BadRequest
  {
    Failure(BadRequest, "Recipient email not found: " + entry)
  }

  // ---------------------------------------------------------------------------
  // Required fields

  /** A field the registry requires and the content does not have. */
  predicate MissingRequired(f: MemoField, keys: set<string>) {
    f.required && f.name !in keys
  }

  /** The names of all missing required fields, in registry order. */
  function AllMissing(fields: seq<MemoField>, keys: set<string>): (names: seq<string>)
    ensures forall n :: n in names ==> n !in keys
  {
    if fields == [] then []
    else (if MissingRequired(fields[0], keys) then [fields[0].name] else []) + AllMissing(fields[1..], keys)
  }

  /** The first field, in registry order, that is required and missing. */
  function FirstMissing(fields: seq<MemoField>, keys: set<string>): (r: Option<string>)
    ensures r.None? <==> forall i :: 0 <= i < |fields| ==> !MissingRequired(fields[i], keys)
    ensures r.Some? ==> exists i :: 0 <= i < |fields| && MissingRequired(fields[i], keys) && r.value == fields[i].name
                                    && forall j :: 0 <= j < i ==> !MissingRequired(fields[j], keys)
  {
    if fields == [] then None
    else if MissingRequired(fields[0], keys) then Some(fields[0].name)
    else
      var r := FirstMissing(fields[1..], keys);
      assert forall i :: 1 <= i < |fields| ==> fields[i] == fields[1..][i - 1];
      r
  }

  /** Failing fast reports the head of the list an aggregate check would report. */
  lemma {:induction false} FirstMissingIsFirstOfAll(fields: seq<MemoField>, keys: set<string>)
    ensures FirstMissing(fields, keys) == if AllMissing(fields, keys) == [] then None else Some(AllMissing(fields, keys)[0])
  {
    if fields != [] && !MissingRequired(fields[0], keys) {
      FirstMissingIsFirstOfAll(fields[1..], keys);
    }
  }

  /** The loop over the registry (lines 14-19): the first required field the content lacks. */
  method CheckRequiredFields(fields: seq<MemoField>, keys: set<string>) returns (missing: Option<string>)
    ensures missing == FirstMissing(fields, keys)
  {
    var i := 0;
    while i < |fields|
      invariant 0 <= i <= |fields|
      invariant FirstMissing(fields, keys) == FirstMissing(fields[i..], keys)
    {
      if fields[i].required && fields[i].name !in keys {
        return Some(fields[i].name);
      }
      assert fields[i..][1..] == fields[i + 1..];
      i := i + 1;
    }
    missing := None;
  }

  // ---------------------------------------------------------------------------
  // Recipients

  /** An entry containing "@" is looked up as an email; any other is taken as a user id. */
  predicate EmailLike(entry: string) {
    '@' in entry
  }

  predicate Resolvable(users: map<UserId, User>, entry: string) {
    !EmailLike(entry) || EmailTaken(users, entry)
  }

  /** `ids` is a resolution of `entries`, position by position. */
  predicate ResolvesTo(users: map<UserId, User>, entries: seq<string>, ids: seq<UserId>) {
    && |ids| == |entries|
    && forall i :: 0 <= i < |entries| ==>
         if EmailLike(entries[i]) then ids[i] in users && users[ids[i]].email == entries[i]
         else ids[i] == entries[i]
  }

  /** `ids` lists every user of the department exactly once. */
  ghost predicate Roster(users: map<UserId, User>, department: string, ids: seq<UserId>) {
    && NoDuplicates(ids)
    && forall id :: id in ids <==> id in users && users[id].department == Named(department)
  }

  /**
   * The recipients mapping (lines 25-37): emails become the id of a user with
   * that email, anything else is kept verbatim.  Some unresolvable email is reported.
   */
  method ResolveRecipients(users: map<UserId, User>, entries: seq<string>) returns (r: Result<seq<UserId>>)
    ensures r.Ok? <==> forall i :: 0 <= i < |entries| ==> Resolvable(users, entries[i])
    ensures r.Ok? ==> ResolvesTo(users, entries, r.value)
    ensures r.Err? ==> exists i :: 0 <= i < |entries| && !Resolvable(users, entries[i])
                                   && r.failure == RecipientNotFound(entries[i])
  {
    var ids: seq<UserId> := [];
    for i := 0 to |entries|
      invariant ResolvesTo(users, entries[..i], ids)
      invariant forall j :: 0 <= j < i ==> Resolvable(users, entries[j])
    {
      var entry := entries[i];
      if EmailLike(entry) {
        var found := FindByEmail(users, entry);
        if found.None? {
          return Err(RecipientNotFound(entry));
        }
        ids := ids + [found.value];
      } else {
        ids := ids + [entry];
      }
    }
    assert entries[..|entries|] == entries;
    r := Ok(ids);
  }

  /** When no two users share an email, the resolution of a list is unique. */
  lemma ResolutionIsUnique(users: map<UserId, User>, entries: seq<string>, a: seq<UserId>, b: seq<UserId>)
    requires UniqueEmails(users)
    requires ResolvesTo(users, entries, a) && ResolvesTo(users, entries, b)
    ensures a == b
  {
  }

  /** Entries without "@" are trusted verbatim, existing users or not. */
  lemma PlainIdsAreKept(users: map<UserId, User>, entries: seq<string>, ids: seq<UserId>)
    requires forall i :: 0 <= i < |entries| ==> !EmailLike(entries[i])
    requires ResolvesTo(users, entries, ids)
    ensures ids == entries
  {
  }

  /** `User.find({ department })` (lines 39-40): every user of the department, once each. */
  method UsersInDepartment(users: map<UserId, User>, department: string) returns (ids: seq<UserId>)
    ensures Roster(users, department, ids)
  {
    ids := [];
    var rest := users.Keys;
    while rest != {}
      invariant rest <= users.Keys
      invariant NoDuplicates(ids)
      invariant forall id :: id in ids <==> id in users && id !in rest && users[id].department == Named(department)
      decreases rest
    {
      var id :| id in rest;
      if users[id].department == Named(department) {
        ids := ids + [id];
      }
      rest := rest - {id};
    }
  }

  // ---------------------------------------------------------------------------
  // Status seeding

  /** The distinct ids of a list. */
  function Elements(s: seq<UserId>): (e: set<UserId>) {
    set x | x in s
  }

  /** A list has at most as many distinct elements as positions, and as many exactly when it has no duplicates. */
  lemma {:induction false} ElementsCount(s: seq<UserId>)
    ensures |Elements(s)| <= |s|
    ensures |Elements(s)| == |s| <==> NoDuplicates(s)
  {
    if s != [] {
      var t := s[1..];
      ElementsCount(t);
      assert Elements(s) == {s[0]} + Elements(t);
      if s[0] in t {
        assert Elements(s) == Elements(t);
        var k :| 0 <= k < |t| && t[k] == s[0];
        assert s[0] == s[k + 1];
      } else {
        assert |Elements(s)| == 1 + |Elements(t)|;
        if NoDuplicates(t) {
          forall i, j | 0 <= i < j < |s| ensures s[i] != s[j] {
            if i > 0 { assert s[i] == t[i - 1] && s[j] == t[j - 1]; }
            else { assert s[j] == t[j - 1]; }
          }
        } else {
          var i, j :| 0 <= i < j < |t| && t[i] == t[j];
          assert s[i + 1] == s[j + 1];
        }
      }
    }
  }

  /**
   * The status map of a new memo (lines 47-50): one "sent" entry per distinct
   * recipient id, so duplicate recipients collapse into one key.
   */
  method SeedStatus(ids: seq<UserId>, now: int) returns (status: map<string, StatusEntry>)
    ensures forall k :: k in status <==> k in ids
    ensures forall k :: k in status ==> status[k] == StatusEntry(StatusSent, now)
    ensures |status| <= |ids|
    ensures |status| == |ids| <==> NoDuplicates(ids)
  {
    status := map[];
    for i := 0 to |ids|
      invariant forall k :: k in status <==> k in ids[..i]
      invariant forall k :: k in status ==> status[k] == StatusEntry(StatusSent, now)
    {
      status := status[ids[i] := StatusEntry(StatusSent, now)];
    }
    assert ids[..|ids|] == ids;
    assert status.Keys == Elements(ids);
    ElementsCount(ids);
  }

  // ---------------------------------------------------------------------------
  // createMemo

  /** Whether creation gets past recipient resolution. */
  predicate TargetResolvable(users: map<UserId, User>, body: MemoBody) {
    if body.recipients.Some? then forall i :: 0 <= i < |body.recipients.value| ==> Resolvable(users, body.recipients.value[i])
    else body.department.Truthy()
  }

  /**
   * createMemo: the required-field check first, then recipient resolution (the
   * list wins over the department), then the new memo with its seeded status.
   * `memoId` is the fresh ObjectId the store assigns.
   */
  method CreateMemo(db: Database, sender: UserId, body: MemoBody, memoId: MemoId, now: int) returns (r: Result<Memo>)
    requires memoId !in db.memos
    modifies db
    ensures db.users == old(db.users) && db.fields == old(db.fields)
    ensures r.Err? ==> db.memos == old(db.memos)
    ensures r.Ok? ==> db.memos == old(db.memos)[memoId := r.value]
    ensures body.content.None? ==> r == Err(ContentNotObject)
    ensures body.content.Some? && FirstMissing(old(db.fields), body.content.value.Keys).Some? ==>
              r == Err(MissingField(FirstMissing(old(db.fields), body.content.value.Keys).value))
    ensures r.Ok? <==> && body.content.Some?
                       && FirstMissing(old(db.fields), body.content.value.Keys).None?
                       && TargetResolvable(old(db.users), body)
    ensures (&& body.content.Some? && FirstMissing(old(db.fields), body.content.value.Keys).None?
             && body.recipients.None? && !body.department.Truthy()) ==> r == Err(NoTarget)
    ensures r.Ok? ==> && r.value.sender == sender
                      && r.value.department == body.department
                      && r.value.content == body.content.value
                      && r.value.responses.None?
                      && r.value.createdAt == now && r.value.updatedAt == now
    ensures (&& r.Err? && body.content.Some? && FirstMissing(old(db.fields), body.content.value.Keys).None?
             && body.recipients.Some?) ==>
              exists i :: && 0 <= i < |body.recipients.value|
                          && !Resolvable(old(db.users), body.recipients.value[i])
                          && r.failure == RecipientNotFound(body.recipients.value[i])
    ensures r.Ok? && body.recipients.Some? ==> ResolvesTo(old(db.users), body.recipients.value, r.value.recipients)
    ensures r.Ok? && body.recipients.None? ==> Roster(old(db.users), body.department.name, r.value.recipients)
    ensures r.Ok? ==> && (forall k :: k in r.value.status <==> k in r.value.recipients)
                      && (forall k :: k in r.value.status ==> r.value.status[k] == StatusEntry(StatusSent, now))
                      && Seeded(r.value)
  {
    if body.content.None? {
      return Err(ContentNotObject);
    }
    var content := body.content.value;
    var missing := CheckRequiredFields(db.fields, content.Keys);
    if missing.Some? {
      return Err(MissingField(missing.value));
    }

    var recipientIds: seq<UserId>;
    if body.recipients.Some? {
      var resolved := ResolveRecipients(db.users, body.recipients.value);
      if resolved.Err? {
        return Err(resolved.failure);
      }
      recipientIds := resolved.value;
    } else if body.department.Truthy() {
      recipientIds := UsersInDepartment(db.users, body.department.name);
    } else {
      return Err(NoTarget);
    }

    var status := SeedStatus(recipientIds, now);
    var memo := NewMemo(sender, recipientIds, body.department, content, status, now);
    db.memos := db.memos[memoId := memo];
    r := Ok(memo);
  }

  // ---------------------------------------------------------------------------
  // getMemos

  /** The listing filter (lines 79-81): recipient, or a department the store's equality match accepts. */
  predicate Listed(m: Memo, u: Requester) {
    u.id in m.recipients || DeptMatches(m.department, u.department)
  }

  /** getMemos: the memos addressed to the user; being the sender does not count. */
  function MemosFor(memos: map<MemoId, Memo>, u: Requester): (r: map<MemoId, Memo>)
    ensures forall id :: id in r <==> id in memos && Listed(memos[id], u)
    ensures forall id :: id in r ==> r[id] == memos[id]
  {
    map id | id in memos && Listed(memos[id], u) :: memos[id]
  }

  /** A memo the user only sent, outside their department, is not listed to them. */
  lemma SenderAloneIsNotListed(memos: map<MemoId, Memo>, u: Requester, id: MemoId)
    requires id in memos && memos[id].sender == u.id
    requires u.id !in memos[id].recipients && !DeptMatches(memos[id].department, u.department)
    ensures id !in MemosFor(memos, u)
  {
  }

  // ---------------------------------------------------------------------------
  // updateMemoStatus

  /**
   * The guard of updateMemoStatus (lines 100-103): a recipient, or a user whose
   * department is strictly equal (`===`) to the memo's, where a missing field
   * equals only a missing one and null only null.
   */
  predicate MayUpdateStatus(m: Memo, u: Requester) {
    u.id in m.recipients || m.department == u.department
  }

  /** The outcome of updateMemoStatus on the stored memos: the saved memo or the error. */
  function StatusUpdate(memos: map<MemoId, Memo>, memoId: MemoId, u: Requester, status: Option<string>, now: int): (r: Result<Memo>)
    ensures memoId !in memos ==> r == Err(MemoNotFound)
    ensures memoId in memos ==> (r.Ok? <==> MayUpdateStatus(memos[memoId], u))
    ensures memoId in memos && !MayUpdateStatus(memos[memoId], u) ==> r == Err(StatusForbidden)
    ensures r.Ok? ==> && r.value.status.Keys == memos[memoId].status.Keys + {u.id}
                      && r.value.status[u.id] == StatusEntryOf(status, now)
                      && (forall k :: k in memos[memoId].status && k != u.id ==> r.value.status[k] == memos[memoId].status[k])
                      && r.value.updatedAt == now
                      && r.value == memos[memoId].(status := r.value.status, updatedAt := now)
  {
    if memoId !in memos then Err(MemoNotFound)
    else
      var m := memos[memoId];
      if !MayUpdateStatus(m, u) then Err(StatusForbidden)
      else Ok(m.(status := m.status[u.id := StatusEntryOf(status, now)], updatedAt := now))
  }

  /** updateMemoStatus: overwrite the caller's own status entry, bump `updatedAt`, save. */
  method UpdateMemoStatus(db: Database, u: Requester, memoId: MemoId, status: Option<string>, now: int) returns (r: Result<Memo>)
    modifies db
    ensures r == StatusUpdate(old(db.memos), memoId, u, status, now)
    ensures db.memos == if r.Ok? then old(db.memos)[memoId := r.value] else old(db.memos)
    ensures db.users == old(db.users) && db.fields == old(db.fields)
  {
    if memoId !in db.memos {
      return Err(MemoNotFound);
    }
    var memo := db.memos[memoId];
    if !(u.id in memo.recipients) && memo.department != u.department {
      return Err(StatusForbidden);
    }
    memo := memo.(status := memo.status[u.id := StatusEntryOf(status, now)]);
    memo := memo.(updatedAt := now);
    db.memos := db.memos[memoId := memo];
    r := Ok(memo);
  }

  /** Repeating a status update changes nothing but the timestamps. */
  lemma StatusUpdateIdempotent(memos: map<MemoId, Memo>, memoId: MemoId, u: Requester, status: Option<string>, t1: int, t2: int)
    requires StatusUpdate(memos, memoId, u, status, t1).Ok?
    ensures var m1 := StatusUpdate(memos, memoId, u, status, t1).value;
            var r2 := StatusUpdate(memos[memoId := m1], memoId, u, status, t2);
            && r2.Ok?
            && r2.value.status.Keys == m1.status.Keys
            && r2.value.status[u.id].status == m1.status[u.id].status
            && (t1 == t2 ==> r2.value == m1)
  {
  }

  /** Status updates keep every recipient's entry present. */
  lemma StatusUpdateKeepsSeeded(memos: map<MemoId, Memo>, memoId: MemoId, u: Requester, status: Option<string>, now: int)
    requires memoId in memos && Seeded(memos[memoId])
    requires StatusUpdate(memos, memoId, u, status, now).Ok?
    ensures Seeded(StatusUpdate(memos, memoId, u, status, now).value)
  {
  }

  /**
   * The two department tests differ only on null and missing fields: a user
   * whose department is null (an Admin after registerUser or updateUser) sees
   * every memo created without a department but may not update its status.
   */
  lemma ListedButNotUpdatable()
    ensures var m := NewMemo("s", [], NoDept, map[], map[], 0);
            var u := Requester("a", AdminRole, NullDept);
            Listed(m, u) && !MayUpdateStatus(m, u)
  {
  }

  /** A user stored without a department may update the status of every memo stored without one. */
  lemma MissingDepartmentsMatch(m: Memo, u: Requester)
    requires m.department == NoDept && u.department == NoDept
    ensures Listed(m, u) && MayUpdateStatus(m, u)
  {
  }

  /** The status guard is never wider than the listing, and for a user with a department the two agree. */
  lemma ListedIffMayUpdateStatus(m: Memo, u: Requester)
    ensures MayUpdateStatus(m, u) ==> Listed(m, u)
    ensures u.department.Named? ==> (Listed(m, u) <==> MayUpdateStatus(m, u))
  {
  }

  // ---------------------------------------------------------------------------
  // archiveMemo

  predicate MayArchive(m: Memo, u: Requester) {
    m.sender == u.id || u.role == AdminRole
  }

  /** The outcome of archiveMemo: the memo with the "archived" sentinel set, or the error. */
  function Archival(memos: map<MemoId, Memo>, memoId: MemoId, u: Requester, now: int): (r: Result<Memo>)
    ensures memoId !in memos ==> r == Err(MemoNotFound)
    ensures memoId in memos ==> (r.Ok? <==> MayArchive(memos[memoId], u))
    ensures memoId in memos && !MayArchive(memos[memoId], u) ==> r == Err(ArchiveForbidden)
    ensures r.Ok? ==> && IsArchived(r.value)
                      && r.value.status[ArchivedKey] == StatusEntry(ArchivedKey, now)
                      && !AdmissibleStatus(r.value.status[ArchivedKey].status)
                      && r.value.status.Keys == memos[memoId].status.Keys + {ArchivedKey}
                      && (forall k :: k in memos[memoId].status && k != ArchivedKey ==> r.value.status[k] == memos[memoId].status[k])
                      && r.value.updatedAt == memos[memoId].updatedAt
                      && r.value == memos[memoId].(status := r.value.status)
  {
    if memoId !in memos then Err(MemoNotFound)
    else
      var m := memos[memoId];
      if !MayArchive(m, u) then Err(ArchiveForbidden)
      else Ok(m.(status := m.status[ArchivedKey := StatusEntry(ArchivedKey, now)]))
  }

  /** archiveMemo: set the sentinel entry and save; `updatedAt` is left as it was. */
  method ArchiveMemo(db: Database, u: Requester, memoId: MemoId, now: int) returns (r: Result<Memo>)
    modifies db
    ensures r == Archival(old(db.memos), memoId, u, now)
    ensures db.memos == if r.Ok? then old(db.memos)[memoId := r.value] else old(db.memos)
    ensures db.users == old(db.users) && db.fields == old(db.fields)
  {
    if memoId !in db.memos {
      return Err(MemoNotFound);
    }
    var memo := db.memos[memoId];
    if memo.sender != u.id && u.role != AdminRole {
      return Err(ArchiveForbidden);
    }
    memo := memo.(status := memo.status[ArchivedKey := StatusEntry(ArchivedKey, now)]);
    db.memos := db.memos[memoId := memo];
    r := Ok(memo);
  }

  /** Archiving keeps every recipient's entry present. */
  lemma ArchivalKeepsSeeded(memos: map<MemoId, Memo>, memoId: MemoId, u: Requester, now: int)
    requires memoId in memos && Seeded(memos[memoId])
    requires Archival(memos, memoId, u, now).Ok?
    ensures Seeded(Archival(memos, memoId, u, now).value)
  {
  }

  // ---------------------------------------------------------------------------
  // updateMemoResponse

  /** `approved !== undefined ? approved : approval` (line 151). */
  function PickApproval(approved: JsValue, approval: JsValue): (v: JsValue)
    ensures approved != Undefined ==> v == approved
    ensures approved == Undefined ==> v == approval
  {
    if approved != Undefined then approved else approval
  }

  /** The response entry stored for a request (lines 173-177); only a literal `true` approves. */
  function ResponseOf(reply: Option<string>, approved: JsValue, approval: JsValue, now: int): (e: ResponseEntry)
    ensures e.approved <==> PickApproval(approved, approval) == Bool(true)
    ensures Truthy(reply) ==> e.reply == reply.value
    ensures !Truthy(reply) ==> e.reply == DefaultResponse(now).reply
    ensures e.timestamp == now
  {
    ResponseEntry(OrElse(reply, ""), PickApproval(approved, approval) == Bool(true), now)
  }

  /** The outcome of updateMemoResponse: the memo with the caller's response upserted, or the error. */
  function ResponseUpdate(memos: map<MemoId, Memo>, memoId: MemoId, u: Requester, reply: Option<string>,
                          approved: JsValue, approval: JsValue, now: int): (r: Result<Memo>)
    ensures memoId !in memos ==> r == Err(MemoNotFound)
    ensures memoId in memos ==> (r.Ok? <==> u.id in memos[memoId].recipients)
    ensures memoId in memos && u.id !in memos[memoId].recipients ==> r == Err(ResponseForbidden)
    ensures r.Ok? ==> && r.value.responses.Some?
                      && u.id in r.value.responses.value
                      && r.value.responses.value[u.id] == ResponseOf(reply, approved, approval, now)
                      && (memos[memoId].responses.None? ==> r.value.responses.value.Keys == {u.id})
                      && (memos[memoId].responses.Some? ==>
                            && r.value.responses.value.Keys == memos[memoId].responses.value.Keys + {u.id}
                            && forall k :: k in memos[memoId].responses.value && k != u.id ==>
                                 r.value.responses.value[k] == memos[memoId].responses.value[k])
                      && r.value.updatedAt == now
                      && r.value == memos[memoId].(responses := r.value.responses, updatedAt := now)
  {
    if memoId !in memos then Err(MemoNotFound)
    else
      var m := memos[memoId];
      if u.id !in m.recipients then Err(ResponseForbidden)
      else
        var existing := if m.responses.Some? then m.responses.value else map[];
        Ok(m.(responses := Some(existing[u.id := ResponseOf(reply, approved, approval, now)]), updatedAt := now))
  }

  /** updateMemoResponse: create the responses map if absent, upsert the caller's entry, bump `updatedAt`, save. */
  method UpdateMemoResponse(db: Database, u: Requester, memoId: MemoId, reply: Option<string>,
                            approved: JsValue, approval: JsValue, now: int) returns (r: Result<Memo>)
    modifies db
    ensures r == ResponseUpdate(old(db.memos), memoId, u, reply, approved, approval, now)
    ensures db.memos == if r.Ok? then old(db.memos)[memoId := r.value] else old(db.memos)
    ensures db.users == old(db.users) && db.fields == old(db.fields)
  {
    var picked := PickApproval(approved, approval);
    if memoId !in db.memos {
      return Err(MemoNotFound);
    }
    var memo := db.memos[memoId];
    if u.id !in memo.recipients {
      return Err(ResponseForbidden);
    }
    if memo.responses.None? {
      memo := memo.(responses := Some(map[]));
    }
    var entry := ResponseEntry(OrElse(reply, ""), picked == Bool(true), now);
    memo := memo.(responses := Some(memo.responses.value[u.id := entry]));
    memo := memo.(updatedAt := now);
    db.memos := db.memos[memoId := memo];
    r := Ok(memo);
  }

  /** Responding twice with the same input leaves the same entry, apart from its timestamp. */
  lemma ResponseUpdateIdempotent(memos: map<MemoId, Memo>, memoId: MemoId, u: Requester, reply: Option<string>,
                                 approved: JsValue, approval: JsValue, t1: int, t2: int)
    requires ResponseUpdate(memos, memoId, u, reply, approved, approval, t1).Ok?
    ensures var m1 := ResponseUpdate(memos, memoId, u, reply, approved, approval, t1).value;
            var r2 := ResponseUpdate(memos[memoId := m1], memoId, u, reply, approved, approval, t2);
            && r2.Ok?
            && r2.value.responses.value.Keys == m1.responses.value.Keys
            && r2.value.responses.value[u.id].reply == m1.responses.value[u.id].reply
            && r2.value.responses.value[u.id].approved == m1.responses.value[u.id].approved
            && (t1 == t2 ==> r2.value == m1)
  {
    var m1 := ResponseUpdate(memos, memoId, u, reply, approved, approval, t1).value;
    var e := ResponseOf(reply, approved, approval, t1);
    assert m1.responses.value[u.id := e] == m1.responses.value;
  }

  /** Approval given only as a string is not an approval. */
  lemma StringApprovalIsNotApproval(reply: Option<string>, now: int)
    ensures !ResponseOf(reply, Undefined, Str("true"), now).approved
    ensures ResponseOf(reply, Undefined, Bool(true), now).approved
    ensures !ResponseOf(reply, Bool(false), Bool(true), now).approved
  {
  }

  /**
   * On the response route validateMemoResponse (middlewares/validate.js) runs
   * first: the controller succeeds exactly when the middleware passes, and both
   * refuse with the same status code (404, then 403), so behind the middleware
   * the controller's own guards never fire.
   */
  lemma ValidatedResponseIsAuthorized(memos: map<MemoId, Memo>, memoId: MemoId, u: Requester, reply: Option<string>,
                                      approved: JsValue, approval: JsValue, now: int)
    ensures var r := ResponseUpdate(memos, memoId, u, reply, approved, approval, now);
            var v := Validate.ValidateMemoResponse(memos, memoId, u.id);
            && (r.Ok? <==> v.Pass?)
            && (r.Err? ==> r.failure.code == v.failure.code)
            && (r == Err(MemoNotFound) <==> v == Fail(MemoNotFound))
  {
  }
}
