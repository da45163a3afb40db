/** The `comments` collection and the operations of `CommentDao` on it, each
    an atomic state transition from one collection to the next, together with
    the most-active-commenters report. */
module CommentDao {
  import opened Common

  /** The message of the exception thrown for a comment without an id. */
  const NoIdMessage: string := "Fake comment - no id found!"

  /** The `limit` stage of the most-active-commenters pipeline. */
  const ReportLimit: nat := 20

  /** A comment document. The Java class carries the identifier twice, as a
      string (`getId`) and as an `ObjectId` (`getOid`); `addComment` checks the
      first and re-reads by the second. Here there is one identifier, which is
      `None` when the comment was never given one. */
  datatype Comment = Comment(id: Option<ObjectId>, email: Email, movieId: ObjectId, text: string, date: Date)

  /** The `comments` collection, keyed by `_id`. */
  type CommentStore = map<ObjectId, Comment>

  /** Every stored comment carries the `_id` it is stored under. */
  predicate Valid(store: CommentStore) {
    forall id :: id in store ==> store[id].id == Some(id)
  }

  /** The filter `{email: email, _id: id}` of the ownership-checked writes
      matches a document. */
  predicate OwnedBy(store: CommentStore, id: ObjectId, email: Email) {
    id in store && store[id].email == email
  }

  // ---------------------------------------------------------------------
  // Reads and writes
  // ---------------------------------------------------------------------

  /** `getComment`: the comment stored under `id`, or `None`. */
  function GetComment(store: CommentStore, id: ObjectId): (r: Option<Comment>)
    requires Valid(store)
    ensures r.Some? <==> id in store
    ensures r.Some? ==> r.value.id == Some(id) && r.value == store[id]
  {
    if id in store then Some(store[id]) else None
  }

  /** `addComment`: reject a comment with no id; otherwise insert it (an `_id`
      already present makes the insert fail with a write error that is not
      caught) and return what a re-read by that id finds. */
  function AddComment(store: CommentStore, c: Comment): (out: (CommentStore, Result<Option<Comment>>))
    requires Valid(store)
    ensures Valid(out.0)
    ensures out.1.Err? ==> out.0 == store
    ensures c.id.None? ==> out.1 == Err(IncorrectDaoOperation(NoIdMessage))
    ensures c.id.Some? && c.id.value in store ==> out.1 == Err(DuplicateKeyWrite)
    ensures c.id.Some? && c.id.value !in store ==> out.1 == Ok(Some(c))
    ensures out.1.Ok? ==> c.id.Some? && out.0.Keys == store.Keys + {c.id.value}
    ensures out.1.Ok? ==> out.0[c.id.value] == c
    ensures out.1.Ok? ==> forall id :: id in store ==> out.0[id] == store[id]
  {
    if c.id.None? then (store, Err(IncorrectDaoOperation(NoIdMessage)))
    else if c.id.value in store then (store, Err(DuplicateKeyWrite))
    else
      var inserted := store[c.id.value := c];
      (inserted, Ok(GetComment(inserted, c.id.value)))
  }

  /** The driver's `updateOne` with filter `{email, _id}` and update
      `$set {text, date}`: at most one document matches, and it counts as
      modified only when a field actually changes.

      `updateComment` passes the two `set` updates to `Filters.and` rather than
      `Updates.combine`; this model takes the evident intent, setting both
      the text and the date. */
  function UpdateOwned(store: CommentStore, id: ObjectId, email: Email, text: string, now: Date): (out: (CommentStore, UpdateResult))
    requires Valid(store)
    ensures Valid(out.0)
    ensures out.1.matchedCount == 1 <==> OwnedBy(store, id, email)
    ensures out.1.matchedCount <= 1
    ensures out.1.modifiedCount == 1 <==>
              OwnedBy(store, id, email) && (store[id].text != text || store[id].date != now)
    ensures out.1.modifiedCount <= out.1.matchedCount
    ensures out.1.modifiedCount == 0 ==> out.0 == store
    ensures out.0.Keys == store.Keys
    ensures forall k :: k in store && k != id ==> out.0[k] == store[k]
    ensures OwnedBy(store, id, email) ==> out.0[id] == store[id].(text := text, date := now)
  {
    if OwnedBy(store, id, email) then
      var before := store[id];
      var after := before.(text := text, date := now);
      (store[id := after], UpdateResult(1, if after != before then 1 else 0))
    else
      (store, UpdateResult(0, 0))
  }

  /** `updateComment`: true exactly when the ownership filter matched, even if
      nothing changed (that case is only logged). A successful update replaces
      the text and stamps the date with `now`, and touches nothing else. */
  function UpdateComment(store: CommentStore, id: ObjectId, text: string, email: Email, now: Date): (out: (CommentStore, bool))
    requires Valid(store)
    ensures Valid(out.0)
    ensures out.1 <==> OwnedBy(store, id, email)
    ensures !out.1 ==> out.0 == store
    ensures out.1 ==> out.0.Keys == store.Keys
    ensures out.1 ==> out.0[id] == Comment(Some(id), email, store[id].movieId, text, now)
    ensures out.1 ==> forall k :: k in store && k != id ==> out.0[k] == store[k]
  {
    var (updated, res) := UpdateOwned(store, id, email, text, now);
    if res.matchedCount > 0 then
      // A matched document whose modified count is not 1 is only logged.
      (updated, true)
    else
      // Logged as an error: no comment with this id is owned by `email`.
      (updated, false)
  }

  /** The driver's `deleteOne` with filter `{email, _id}`. */
  function DeleteOwned(store: CommentStore, id: ObjectId, email: Email): (out: (CommentStore, nat))
    ensures out.1 <= 1
    ensures out.1 == 1 <==> OwnedBy(store, id, email)
    ensures out.1 == 1 ==> out.0 == store - {id}
    ensures out.1 == 0 ==> out.0 == store
  {
    if OwnedBy(store, id, email) then (store - {id}, 1) else (store, 0)
  }

  /** `deleteComment`: true exactly when a comment with that id and that owner
      existed; only that comment is removed. */
  function DeleteComment(store: CommentStore, id: ObjectId, email: Email): (out: (CommentStore, bool))
    requires Valid(store)
    ensures Valid(out.0)
    ensures out.1 <==> OwnedBy(store, id, email)
    ensures out.1 ==> id !in out.0 && out.0.Keys == store.Keys - {id}
    ensures forall k :: k in out.0 ==> k in store && out.0[k] == store[k]
    ensures !out.1 ==> out.0 == store
  {
    var (remaining, deleted) := DeleteOwned(store, id, email);
    (remaining, deleted > 0)
  }

  // ---------------------------------------------------------------------
  // Properties relating several calls
  // ---------------------------------------------------------------------

  /** A comment added under a fresh id is found again by that id, with the
      same id and text. */
  lemma AddThenGet(store: CommentStore, c: Comment)
    requires Valid(store)
    requires c.id.Some? && c.id.value !in store
    ensures AddComment(store, c).1.Ok?
    ensures GetComment(AddComment(store, c).0, c.id.value) == Some(c)
  {
  }

  /** Matching one's own comment with the text it already has is still a
      success; if the date is unchanged too, nothing is modified. */
  lemma UpdateWithSameText(store: CommentStore, id: ObjectId, email: Email, now: Date)
    requires Valid(store) && OwnedBy(store, id, email)
    ensures UpdateComment(store, id, store[id].text, email, now).1
    ensures now == store[id].date ==> UpdateOwned(store, id, email, store[id].text, now).1.modifiedCount == 0
    ensures now == store[id].date ==> UpdateComment(store, id, store[id].text, email, now).0 == store
  {
  }

  /** After a successful update a read sees the new text and date. */
  lemma UpdateThenGet(store: CommentStore, id: ObjectId, text: string, email: Email, now: Date)
    requires Valid(store) && OwnedBy(store, id, email)
    ensures var after := UpdateComment(store, id, text, email, now).0;
            GetComment(after, id).Some? && GetComment(after, id).value.text == text &&
            GetComment(after, id).value.date == now && GetComment(after, id).value.email == email
  {
  }

  /** A delete that succeeded cannot succeed again, and the comment is gone. */
  lemma DeleteTwice(store: CommentStore, id: ObjectId, email: Email)
    requires Valid(store)
    ensures var after := DeleteComment(store, id, email).0;
            GetComment(after, id).Some? ==> GetComment(after, id) == GetComment(store, id)
    ensures var after := DeleteComment(store, id, email).0;
            !DeleteComment(after, id, email).1 && DeleteComment(after, id, email).0 == after
  {
  }

  // ---------------------------------------------------------------------
  // Most active commenters
  // ---------------------------------------------------------------------

  /** One row of the report: an owner email and how many comments it owns. */
  datatype Critic = Critic(email: Email, count: nat)

  /** The ids, among `ids`, of stored comments owned by `email`. */
  function CommentsIn(store: CommentStore, ids: set<ObjectId>, email: Email): set<ObjectId> {
    set id | id in ids && id in store && store[id].email == email
  }

  /** The reference count: how many stored comments `email` owns. */
  function CountOf(store: CommentStore, email: Email): nat {
    |CommentsIn(store, store.Keys, email)|
  }

  /** Every email that owns at least one stored comment. */
  function Commenters(store: CommentStore): set<Email> {
    set id | id in store :: store[id].email
  }

  function EmailsOf(rows: seq<Critic>): set<Email> {
    set row | row in rows :: row.email
  }

  predicate DistinctEmails(rows: seq<Critic>) {
    forall i, j :: 0 <= i < j < |rows| ==> rows[i].email != rows[j].email
  }

  predicate NonIncreasing(rows: seq<Critic>) {
    forall i, j :: 0 <= i < j < |rows| ==> rows[j].count <= rows[i].count
  }

  /** Every row of `rows` reports the count held for its email in `counts`. */
  predicate RowsAgree(rows: seq<Critic>, counts: map<Email, nat>) {
    forall i :: 0 <= i < |rows| ==> rows[i].email in counts && rows[i].count == counts[rows[i].email]
  }

  /** Rows with distinct emails are as many as their emails. */
  lemma {:induction false} DistinctRowsCardinality(rows: seq<Critic>)
    requires DistinctEmails(rows)
    ensures |EmailsOf(rows)| == |rows|
  {
    if rows != [] {
      var init := rows[..|rows| - 1];
      var last := rows[|rows| - 1];
      assert rows == init + [last];
      assert DistinctEmails(init);
      DistinctRowsCardinality(init);
      assert EmailsOf(rows) == EmailsOf(init) + {last.email};
      assert last.email !in EmailsOf(init);
    }
  }

  /** Appending a row with a new email keeps the emails distinct and adds
      exactly that email. */
  lemma AppendRow(rows: seq<Critic>, row: Critic)
    ensures EmailsOf(rows + [row]) == EmailsOf(rows) + {row.email}
    ensures DistinctEmails(rows) && row.email !in EmailsOf(rows) ==> DistinctEmails(rows + [row])
    ensures NonIncreasing(rows) && (forall i :: 0 <= i < |rows| ==> row.count <= rows[i].count) ==>
              NonIncreasing(rows + [row])
  {
    if DistinctEmails(rows) && row.email !in EmailsOf(rows) {
      forall i | 0 <= i < |rows| ensures rows[i].email != row.email {
        assert rows[i] in rows;
      }
    }
  }

  /** Scanning one more comment raises exactly its owner's count by one. */
  lemma CommentsInAddOne(store: CommentStore, ids: set<ObjectId>, id: ObjectId, email: Email)
    requires id in store && id !in ids
    ensures |CommentsIn(store, ids + {id}, email)| ==
            |CommentsIn(store, ids, email)| + (if store[id].email == email then 1 else 0)
  {
    if store[id].email == email {
      assert CommentsIn(store, ids + {id}, email) == CommentsIn(store, ids, email) + {id};
    } else {
      assert CommentsIn(store, ids + {id}, email) == CommentsIn(store, ids, email);
    }
  }

  /** The `$group` half of `sortByCount("$email")`: one scan over the
      collection, one counter per email. */
  method GroupByEmail(store: CommentStore) returns (counts: map<Email, nat>)
    ensures counts.Keys == Commenters(store)
    ensures forall e :: e in counts ==> counts[e] == CountOf(store, e) && counts[e] > 0
  {
    counts := map[];
    var todo := store.Keys;
    ghost var done: set<ObjectId> := {};
    while todo != {}
      invariant todo + done == store.Keys && todo !! done
      invariant counts.Keys == set id | id in done :: store[id].email
      invariant forall e :: e in counts ==> counts[e] == |CommentsIn(store, done, e)| && counts[e] > 0
      decreases todo
    {
      var id :| id in todo;
      var e := store[id].email;
      forall e' ensures |CommentsIn(store, done + {id}, e')| ==
                        |CommentsIn(store, done, e')| + (if e == e' then 1 else 0) {
        CommentsInAddOne(store, done, id, e');
      }
      counts := counts[e := (if e in counts then counts[e] else 0) + 1];
      todo := todo - {id};
      done := done + {id};
    }
    assert done == store.Keys;
  }

  /** One of `pool` with the largest count. */
  method PickMostActive(counts: map<Email, nat>, pool: set<Email>) returns (best: Email)
    requires pool != {} && pool <= counts.Keys
    ensures best in pool
    ensures forall e :: e in pool ==> counts[e] <= counts[best]
  {
    best :| best in pool;
    var rest := pool - {best};
    while rest != {}
      invariant rest <= pool && best in pool
      invariant forall e :: e in pool && e !in rest ==> counts[e] <= counts[best]
      decreases rest
    {
      var e :| e in rest;
      if counts[e] > counts[best] {
        best := e;
      }
      rest := rest - {e};
    }
  }

  /** The sort of `sortByCount` and the following `sort(descending("count"))`:
      every group once, by non-increasing count. Ties come out in an
      unspecified order, as on the server. */
  method SortByCountDescending(counts: map<Email, nat>) returns (rows: seq<Critic>)
    ensures EmailsOf(rows) == counts.Keys
    ensures |rows| == |counts|
    ensures DistinctEmails(rows) && NonIncreasing(rows) && RowsAgree(rows, counts)
  {
    rows := [];
    var remaining := counts.Keys;
    while remaining != {}
      invariant SelectionSorted(rows, remaining, counts)
      decreases remaining
    {
      var best := PickMostActive(counts, remaining);
      SelectionStep(rows, remaining, counts, best);
      rows := rows + [Critic(best, counts[best])];
      remaining := remaining - {best};
    }
    DistinctRowsCardinality(rows);
    assert |counts| == |counts.Keys|;
  }

  /** The rows picked so far and the emails still to place split the groups
      between them, and every email still to place ranks below every row. */
  predicate SelectionSorted(rows: seq<Critic>, remaining: set<Email>, counts: map<Email, nat>) {
    && remaining <= counts.Keys
    && EmailsOf(rows) + remaining == counts.Keys && EmailsOf(rows) !! remaining
    && DistinctEmails(rows) && NonIncreasing(rows) && RowsAgree(rows, counts)
    && forall e, i :: e in remaining && 0 <= i < |rows| ==> counts[e] <= rows[i].count
  }

  /** Moving a most active remaining email to the end of the rows keeps the
      selection sorted. */
  lemma SelectionStep(rows: seq<Critic>, remaining: set<Email>, counts: map<Email, nat>, best: Email)
    requires SelectionSorted(rows, remaining, counts)
    requires best in remaining
    requires forall e :: e in remaining ==> counts[e] <= counts[best]
    ensures SelectionSorted(rows + [Critic(best, counts[best])], remaining - {best}, counts)
  {
    var row := Critic(best, counts[best]);
    AppendRow(rows, row);
    assert forall i :: 0 <= i < |rows| ==> row.count <= rows[i].count;
    var rows' := rows + [row];
    assert RowsAgree(rows', counts) by {
      forall i | 0 <= i < |rows'| ensures rows'[i].email in counts && rows'[i].count == counts[rows'[i].email] {
        if i < |rows| { assert rows'[i] == rows[i]; }
      }
    }
  }

  function Min(a: nat, b: nat): nat {
    if a <= b then a else b
  }

  /** `mostActiveCommenters`: group by owner email, count, sort by count
      descending, keep the first `ReportLimit` rows. The rows are the most
      active commenters: no email left out owns more comments than any email
      kept. */
  method MostActiveCommenters(store: CommentStore) returns (report: seq<Critic>)
    ensures |report| <= ReportLimit
    ensures |report| == Min(ReportLimit, |Commenters(store)|)
    ensures DistinctEmails(report) && NonIncreasing(report)
    ensures forall i :: 0 <= i < |report| ==>
              report[i].email in Commenters(store) && report[i].count == CountOf(store, report[i].email)
    ensures |Commenters(store)| <= ReportLimit ==> EmailsOf(report) == Commenters(store)
    ensures forall e, i :: e in Commenters(store) && e !in EmailsOf(report) && 0 <= i < |report| ==>
              CountOf(store, e) <= report[i].count
  {
    var counts := GroupByEmail(store);
    var sorted := SortByCountDescending(counts);
    var n := Min(ReportLimit, |sorted|);
    report := sorted[..n];
    LimitKeepsTop(sorted, counts, n);
  }

  /** The `limit` stage: a prefix of a sorted, complete report keeps its
      order and agreement, and what it drops never outranks what it keeps. */
  lemma LimitKeepsTop(sorted: seq<Critic>, counts: map<Email, nat>, n: nat)
    requires n <= |sorted|
    requires EmailsOf(sorted) == counts.Keys
    requires DistinctEmails(sorted) && NonIncreasing(sorted) && RowsAgree(sorted, counts)
    ensures DistinctEmails(sorted[..n]) && NonIncreasing(sorted[..n]) && RowsAgree(sorted[..n], counts)
    ensures n == |sorted| ==> EmailsOf(sorted[..n]) == counts.Keys
    ensures forall e, i :: e in counts && e !in EmailsOf(sorted[..n]) && 0 <= i < n ==>
              counts[e] <= sorted[..n][i].count
  {
  }

  /** Adding a comment raises its owner's count by one and no other. */
  lemma AddCommentCountsOnce(store: CommentStore, c: Comment, email: Email)
    requires Valid(store)
    requires c.id.Some? && c.id.value !in store
    ensures CountOf(AddComment(store, c).0, email) == CountOf(store, email) + (if c.email == email then 1 else 0)
  {
    var after := AddComment(store, c).0;
    var id := c.id.value;
    assert CommentsIn(after, after.Keys, email) == CommentsIn(after, store.Keys + {id}, email);
    assert CommentsIn(after, store.Keys, email) == CommentsIn(store, store.Keys, email);
    CommentsInAddOne(after, store.Keys, id, email);
  }

  /** Deleting a comment lowers its owner's count by one and no other. */
  lemma DeleteCommentCountsOnce(store: CommentStore, id: ObjectId, email: Email, other: Email)
    requires Valid(store) && OwnedBy(store, id, email)
    ensures CountOf(DeleteComment(store, id, email).0, other) == CountOf(store, other) - (if other == email then 1 else 0)
  {
    var after := DeleteComment(store, id, email).0;
    assert store.Keys == after.Keys + {id};
    assert CommentsIn(after, after.Keys, other) == CommentsIn(store, after.Keys, other);
    CommentsInAddOne(store, after.Keys, id, other);
  }

  /** An update never moves a comment to another owner, so every count in the
      report stays as it was. */
  lemma UpdateKeepsCounts(store: CommentStore, id: ObjectId, text: string, email: Email, now: Date, other: Email)
    requires Valid(store)
    ensures CountOf(UpdateComment(store, id, text, email, now).0, other) == CountOf(store, other)
  {
    var after := UpdateComment(store, id, text, email, now).0;
    assert CommentsIn(after, after.Keys, other) == CommentsIn(store, store.Keys, other);
  }
}
