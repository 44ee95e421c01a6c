/**
 * The user statistics of controllers/stats.controller.js: three counts derived
 * from the memos collection, which the operation only reads.
 */
module StatsController {
  import opened Wrappers
  import opened MemoModel
  import opened Store
  import opened MemoController

  datatype Stats = Stats(totalMemos: nat, memosSent: nat, memosArchived: nat)

  /** The ids of the memos the user sent (`Memo.find({ sender })`). */
  function SentIds(memos: map<MemoId, Memo>, u: Requester): (ids: set<MemoId>) {
    set id | id in memos && memos[id].sender == u.id
  }

  /** The ids of the memos addressed to the user: the same query as the memo listing. */
  function ReceivedIds(memos: map<MemoId, Memo>, u: Requester): (ids: set<MemoId>) {
    set id | id in memos && Listed(memos[id], u)
  }

  /** Sender, recipient or same department: the filter of the archived-memo query. */
  predicate Involved(m: Memo, u: Requester) {
    m.sender == u.id || Listed(m, u)
  }

  /** The ids of the memos the user is involved in that carry the archive sentinel. */
  function ArchivedIds(memos: map<MemoId, Memo>, u: Requester): (ids: set<MemoId>) {
    set id | id in memos && Involved(memos[id], u) && IsArchived(memos[id])
  }

  lemma SubsetCount(a: set<MemoId>, b: set<MemoId>)
    requires a <= b
    ensures |a| <= |b|
  {
    assert b == a + (b - a);
    assert a * (b - a) == {};
  }

  /**
   * The three counts are ordered: sent memos are among all memos, the union is
   * at most the sum of its parts, and archived memos are among all memos; the
   * memo listing is part of the total too.
   */
  lemma {:induction false} StatsBounds(memos: map<MemoId, Memo>, u: Requester)
    ensures |SentIds(memos, u)| <= |SentIds(memos, u) + ReceivedIds(memos, u)|
    ensures |SentIds(memos, u) + ReceivedIds(memos, u)| <= |SentIds(memos, u)| + |ReceivedIds(memos, u)|
    ensures ArchivedIds(memos, u) <= SentIds(memos, u) + ReceivedIds(memos, u)
    ensures |ArchivedIds(memos, u)| <= |SentIds(memos, u) + ReceivedIds(memos, u)|
    ensures MemosFor(memos, u).Keys == ReceivedIds(memos, u)
    ensures |MemosFor(memos, u)| <= |SentIds(memos, u) + ReceivedIds(memos, u)|
  {
    var sent, received := SentIds(memos, u), ReceivedIds(memos, u);
    SubsetCount(sent, sent + received);
    SubsetCount(ArchivedIds(memos, u), sent + received);
    assert MemosFor(memos, u).Keys == received;
    SubsetCount(received, sent + received);
  }

  /** `ids.forEach(id => acc.add(id))` on a mutable set: the union of the two. */
  method AddEach(acc: set<MemoId>, ids: set<MemoId>) returns (r: set<MemoId>)
    ensures r == acc + ids
  {
    r := acc;
    var rest := ids;
    while rest != {}
      invariant rest <= ids
      invariant r + rest == acc + ids
      decreases rest
    {
      var id :| id in rest;
      r := r + {id};
      rest := rest - {id};
    }
  }

  /**
   * getUserStats: `totalMemos` is the size of the id set built by adding the
   * sent and then the received memo ids; `memosSent` and `memosArchived` are
   * query sizes.  A store failure (`storeError`) yields status 500 and no stats.
   */
  method GetUserStats(db: Database, u: Requester, storeError: Option<string>) returns (r: Result<Stats>)
    ensures storeError.Some? ==> r == Err(Failure(ServerError, storeError.value))
    ensures storeError.None? ==> r.Ok?
    ensures r.Ok? ==> && r.value.totalMemos == |SentIds(db.memos, u) + ReceivedIds(db.memos, u)|
                      && r.value.memosSent == |SentIds(db.memos, u)|
                      && r.value.memosArchived == |ArchivedIds(db.memos, u)|
    ensures r.Ok? ==> && r.value.memosSent <= r.value.totalMemos
                      && r.value.totalMemos <= |SentIds(db.memos, u)| + |ReceivedIds(db.memos, u)|
                      && r.value.memosArchived <= r.value.totalMemos
  {
    if storeError.Some? {
      return Err(Failure(ServerError, storeError.value));
    }
    var memos := db.memos;
    var sentMemos := SentIds(memos, u);
    var receivedMemos := ReceivedIds(memos, u);

    var allMemoIds: set<MemoId> := {};
    allMemoIds := AddEach(allMemoIds, sentMemos);
    allMemoIds := AddEach(allMemoIds, receivedMemos);
    assert allMemoIds == sentMemos + receivedMemos;

    var archivedMemos := ArchivedIds(memos, u);
    StatsBounds(memos, u);
    r := Ok(Stats(|allMemoIds|, |sentMemos|, |archivedMemos|));
  }
}
