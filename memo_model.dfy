/**
 * The Memo document (models/Memo.js): its fields, the status vocabulary of the
 * schema, and the defaults the schema supplies.  Ids are the string forms of
 * MongoDB ObjectIds, so `id.toString()` is the identity here.
 */
module MemoModel {
  import opened Wrappers

  type UserId = string
  type MemoId = string

  /**
   * A department field as JavaScript reads it back from a document or a request
   * body: missing (`undefined`), `null`, or a string.  The first two are both
   * falsy but differ under `===`.
   */
  datatype Dept = NoDept | NullDept | Named(name: string) {
    predicate Truthy() {
      Named? && name != ""
    }

    /** `this || fallback`. */
    function Or(fallback: Dept): (d: Dept)
      ensures Truthy() ==> d == this
      ensures !Truthy() ==> d == fallback
    {
      if Truthy() then this else fallback
    }
  }

  /**
   * The store's equality match `{ department: query }`: a name matches the same
   * name; a null or undefined query matches a stored null or a missing field.
   */
  predicate DeptMatches(stored: Dept, query: Dept) {
    if query.Named? then stored == query else !stored.Named?
  }

  /** The values the schema's `status` enum admits (note the spelling "recieved"). */
  const StatusSent := "sent"
  const StatusDelivered := "delivered"
  const StatusRead := "read"
  const StatusAcknowledged := "acknowledged"
  const StatusRecieved := "recieved"

  /** The sentinel key, and value, that archiving writes into the status map. */
  const ArchivedKey := "archived"

  predicate AdmissibleStatus(s: string) {
    s == StatusSent || s == StatusDelivered || s == StatusRead
    || s == StatusAcknowledged || s == StatusRecieved
  }

  /** One entry of the status map; `timestamp` is a clock reading. */
  datatype StatusEntry = StatusEntry(status: string, timestamp: int)

  /** One entry of the responses map. */
  datatype ResponseEntry = ResponseEntry(reply: string, approved: bool, timestamp: int)

  /**
   * A memo.  `content` values are kept as strings: nothing in the service looks
   * inside them.  `responses` is None until the first response is recorded.
   */
  datatype Memo = Memo(
    sender: UserId,
    recipients: seq<UserId>,
    department: Dept,
    content: map<string, string>,
    status: map<string, StatusEntry>,
    responses: Option<map<string, ResponseEntry>>,
    createdAt: int,
    updatedAt: int)

  /** A status entry built from a request value, with the schema's default "sent". */
  function StatusEntryOf(status: Option<string>, now: int): (e: StatusEntry)
    ensures status.None? ==> e.status == StatusSent
    ensures status.Some? ==> e.status == status.value
    ensures e.timestamp == now
  {
    StatusEntry(status.GetOr(StatusSent), now)
  }

  /**
   * The schema defaults of a response entry: an empty reply, not approved.
   * The timestamp is not a schema default (the schema gives it none); the
   * entry carries the clock reading `now` its writer supplies.
   * updateMemoResponse always supplies both values itself, so these defaults
   * apply to no stored entry; its fallback reply coincides with the default one.
   */
  function DefaultResponse(now: int): (e: ResponseEntry)
    ensures e.reply == "" && !e.approved && e.timestamp == now
  {
    ResponseEntry("", false, now)
  }

  /** A new memo document as `Memo.create` stores it: no responses, both dates now. */
  function NewMemo(sender: UserId, recipients: seq<UserId>, department: Dept,
                   content: map<string, string>, status: map<string, StatusEntry>, now: int): (m: Memo)
    ensures m.responses.None?
    ensures m.createdAt == now && m.updatedAt == now
    ensures m.sender == sender && m.recipients == recipients && m.department == department
    ensures m.content == content && m.status == status
  {
    Memo(sender, recipients, department, content, status, None, now, now)
  }

  /** No element occurs twice. */
  predicate NoDuplicates(s: seq<UserId>) {
    forall i, j :: 0 <= i < j < |s| ==> s[i] != s[j]
  }

  /** Every recipient has an entry in the status map. */
  predicate Seeded(m: Memo) {
    forall r :: r in m.recipients ==> r in m.status
  }

  /** The memo carries the archive sentinel. */
  predicate IsArchived(m: Memo) {
    ArchivedKey in m.status
  }

  /** The value archiving writes is not one the schema's enum admits. */
  lemma ArchivedIsNotAdmissible()
    ensures !AdmissibleStatus(ArchivedKey)
    ensures AdmissibleStatus(StatusRecieved) && !AdmissibleStatus("received")
  {
  }
}
