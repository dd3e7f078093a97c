/** The coupon ledger and guestbook store behind the REST routes of
    `server.js`: three SQLite tables (`issued_coupons`, `completed_coupons`,
    `guestbook`), each with its AUTOINCREMENT counter, and one method per
    route handler. A handler either fails with 400 or 404 and leaves every
    table as it was, or applies its statements. */
module Ledger {
  import opened Js
  import opened Sql
  import opened OrderBy

  /** A `created_at DEFAULT CURRENT_TIMESTAMP` value. The clock has second
      resolution, so stamps of different rows may tie. */
  type Stamp = int

  /** A row of `issued_coupons`. */
  datatype Issued = Issued(
    id: int, date: string, worker: string, content: string, amount: string,
    issuer: Option<string>, createdAt: Stamp)

  /** A row of `completed_coupons`. `issuedId` names an issued coupon but no
      foreign key is enforced: it may be NULL or dangle. */
  datatype Completed = Completed(
    id: int, issuedId: Option<int>, date: string, performer: Option<string>,
    content: string, amount: string, photo: Option<string>, createdAt: Stamp)

  /** A row of `guestbook`. */
  datatype Entry = Entry(id: int, message: string, createdAt: Stamp)

  function IssuedId(r: Issued): int { r.id }
  function CompletedId(r: Completed): int { r.id }
  function EntryId(e: Entry): int { e.id }

  /** `ORDER BY date ASC, created_at ASC` on `issued_coupons`. */
  function IssuedOrder(r: Issued): SortKey { SortKey(r.date, r.createdAt) }

  /** `ORDER BY created_at ASC` on `guestbook`. */
  function EntryOrder(e: Entry): SortKey { SortKey("", e.createdAt) }

  /** The clause `WHERE issued_id = v` on `completed_coupons`. */
  function RefersTo(v: Option<int>): Completed -> bool {
    (c: Completed) => SqlEq(c.issuedId, v)
  }

  /** The pattern of the test cleanup, `LIKE '테스트%'`. */
  const TestPrefix: string := "테스트"

  predicate IsTestMessage(e: Entry) {
    StartsWith(e.message, TestPrefix)
  }

  /** The JSON body of a POST or PUT on `/api/coupons/issued`. */
  datatype IssuedBody = IssuedBody(
    date: Option<string>, worker: Option<string>, content: Option<string>,
    amount: Option<string>, issuer: Option<string>)

  /** The JSON body of a POST or PUT on `/api/coupons/completed`. */
  datatype CompletedBody = CompletedBody(
    date: Option<string>, performer: Option<string>, content: Option<string>,
    amount: Option<string>, issuedId: Option<int>, photo: Option<string>)

  /** The check `!date || !worker || !content || !amount` fails: every
      required field is truthy. Nothing is trimmed. */
  predicate IssuedBodyComplete(b: IssuedBody) {
    TruthyText(b.date) && TruthyText(b.worker) && TruthyText(b.content) && TruthyText(b.amount)
  }

  /** The POST check on a completion, `issued_id` included: 0 is falsy. */
  predicate CompletedBodyComplete(b: CompletedBody) {
    TruthyText(b.date) && TruthyText(b.content) && TruthyText(b.amount) && TruthyNumber(b.issuedId)
  }

  /** The PUT check on a completion: `issued_id` is not required. */
  predicate CompletedBodyFilled(b: CompletedBody) {
    TruthyText(b.date) && TruthyText(b.content) && TruthyText(b.amount)
  }

  /** The row the INSERT of `createIssued` writes. */
  function NewIssued(id: int, b: IssuedBody, now: Stamp): (r: Issued)
    requires IssuedBodyComplete(b)
  {
    Issued(id, b.date.value, b.worker.value, b.content.value, b.amount.value, TextOrNull(b.issuer), now)
  }

  /** The row the INSERT of `createCompleted` writes; `issued_id` goes in as
      given, performer and photo as `|| null`. */
  function NewCompleted(id: int, b: CompletedBody, now: Stamp): (r: Completed)
    requires CompletedBodyComplete(b)
  {
    Completed(id, b.issuedId, b.date.value, TextOrNull(b.performer), b.content.value,
              b.amount.value, TextOrNull(b.photo), now)
  }

  /** A row after the SET list of `updateIssued`. */
  function ReplaceIssued(r: Issued, b: IssuedBody): Issued
    requires IssuedBodyComplete(b)
  {
    r.(date := b.date.value, worker := b.worker.value, content := b.content.value,
       amount := b.amount.value, issuer := TextOrNull(b.issuer))
  }

  /** A row after the SET list of `updateCompleted`: a full replace, so an
      absent `issued_id`, performer or photo becomes NULL. */
  function ReplaceCompleted(r: Completed, b: CompletedBody): Completed
    requires CompletedBodyFilled(b)
  {
    r.(date := b.date.value, performer := TextOrNull(b.performer), content := b.content.value,
       amount := b.amount.value, issuedId := NumberOrNull(b.issuedId), photo := TextOrNull(b.photo))
  }

  /** `UPDATE issued_coupons SET ... WHERE id = k`. */
  function UpdateIssuedWhereId(s: seq<Issued>, k: int, b: IssuedBody): (r: seq<Issued>)
    requires IssuedBodyComplete(b)
    ensures |r| == |s|
    ensures forall i :: 0 <= i < |s| ==> r[i].id == s[i].id && r[i].createdAt == s[i].createdAt
    ensures forall i :: 0 <= i < |s| && s[i].id != k ==> r[i] == s[i]
  {
    seq(|s|, i requires 0 <= i < |s| => if s[i].id == k then ReplaceIssued(s[i], b) else s[i])
  }

  /** `UPDATE completed_coupons SET ... WHERE id = k`. */
  function UpdateCompletedWhereId(s: seq<Completed>, k: int, b: CompletedBody): (r: seq<Completed>)
    requires CompletedBodyFilled(b)
    ensures |r| == |s|
    ensures forall i :: 0 <= i < |s| ==> r[i].id == s[i].id && r[i].createdAt == s[i].createdAt
    ensures forall i :: 0 <= i < |s| && s[i].id != k ==> r[i] == s[i]
  {
    seq(|s|, i requires 0 <= i < |s| => if s[i].id == k then ReplaceCompleted(s[i], b) else s[i])
  }

  /** The two rows `initDatabase` seeds into an empty `issued_coupons`, with
      the next two keys and one timestamp. */
  function SeedIssued(top: int, now: Stamp): seq<Issued> {
    [ Issued(top + 1, "25.11.15.", "유다연", "웹디자인", "3시금(1시간 30분)", Some("박중현"), now),
      Issued(top + 2, "25.11.07.", "이동식", "퍼포먼스촬영", "5시금", Some("타이"), now) ]
  }

  /** The row `initDatabase` seeds into an empty `completed_coupons`. Its
      `issued_id` is the literal 1, whatever keys the issued table holds. */
  function SeedCompleted(top: int, now: Stamp): seq<Completed> {
    [ Completed(top + 1, Some(1), "25.12.10.", Some("정지윤"), "카레만들기", "3시금(1시간 30분)", None, now) ]
  }

  /** Why a handler refused: a missing required field or an unknown id. */
  datatype ApiError = BadRequest | NotFound

  function StatusCode(e: ApiError): int {
    match e
    case BadRequest => 400
    case NotFound => 404
  }

  datatype Result<T> = Ok(value: T) | Err(error: ApiError)

  /** A response that echoes the request fields next to an id. */
  datatype Echo<B> = Echo(id: int, body: B)

  /** A listed row with its derived 1-based `order`. */
  datatype Ranked<R> = Ranked(row: R, order: int)

  /** The answer of `DELETE /api/coupons/completed/:id`: the plain message,
      or the message with `reorder: true` and `deletedIssuedId`. */
  datatype DeleteOutcome = Deleted | DeletedAndReordered(deletedIssuedId: int)

  /** `rows.map((row, index) => ({ ...row, order: index + 1 }))`. */
  function Rank<R>(s: seq<R>): seq<Ranked<R>> {
    seq(|s|, k requires 0 <= k < |s| => Ranked(s[k], k + 1))
  }

  /** The rows of a ranked listing, without their order. */
  function Rows<R>(r: seq<Ranked<R>>): seq<R> {
    seq(|r|, k requires 0 <= k < |r| => r[k].row)
  }

  lemma RowsOfRank<R>(s: seq<R>)
    ensures Rows(Rank(s)) == s
  {
  }

  /** Counting the completions of a NULL reference finds none. */
  lemma NullRefersToNothing(s: seq<Completed>)
    ensures CountWhere(s, RefersTo(None)) == 0
  {
  }

  /** The cascade test of deleteCompleted is exactly "the deleted row was the
      last completion referring to its issued coupon": the count taken before
      the DELETE is 1 if and only if the reference is not NULL and no row
      left after the DELETE refers to it. */
  lemma {:induction false} CascadeIffLastReference(s: seq<Completed>, top: int, j: nat)
    requires KeysAscending(s, CompletedId, top)
    requires j < |s|
    ensures CountWhere(s, RefersTo(s[j].issuedId)) == 1
        <==> (s[j].issuedId.Some?
              && CountWhere(DeleteWhere(s, KeyIs(CompletedId, s[j].id)), RefersTo(s[j].issuedId)) == 0)
  {
    DeleteOneRow(s, CompletedId, j, top);
    assert CompletedId(s[j]) == s[j].id;
    CountWhereWithout(s, j, RefersTo(s[j].issuedId));
    NullRefersToNothing(s);
  }

  /** The two coupon tables, as one deletion of a completion reads and
      leaves them. */
  datatype Coupons = Coupons(issued: seq<Issued>, completed: seq<Completed>)

  /** What `DELETE /api/coupons/completed/:id` does to the coupon tables,
      taken as one atomic step: look the row up, count the completions
      sharing its `issued_id` (the row itself included), delete it, and if
      that count was exactly 1 also delete the issued row with that id,
      whether or not one exists. */
  function DeleteCompletedOn(t: Coupons, id: int): (Result<DeleteOutcome>, Coupons) {
    match Find(t.completed, CompletedId, id)
    case None => (Err(NotFound), t)
    case Some(j) =>
      var v := t.completed[j].issuedId;
      var left := DeleteWhere(t.completed, KeyIs(CompletedId, id));
      if CountWhere(t.completed, RefersTo(v)) == 1 then
        NullRefersToNothing(t.completed);
        (Ok(DeletedAndReordered(v.value)), Coupons(DeleteWhere(t.issued, KeyIs(IssuedId, v.value)), left))
      else (Ok(Deleted), Coupons(t.issued, left))
  }

  /** An unknown id is a 404 that changes nothing; a known one is always
      deleted from the completed table. */
  lemma DeleteCompletedFinds(t: Coupons, id: int)
    ensures DeleteCompletedOn(t, id).0 == Err(NotFound)
        <==> forall i :: 0 <= i < |t.completed| ==> t.completed[i].id != id
    ensures DeleteCompletedOn(t, id).0.Err? ==> DeleteCompletedOn(t, id).1 == t
    ensures DeleteCompletedOn(t, id).0.Ok? ==>
              DeleteCompletedOn(t, id).1.completed == DeleteWhere(t.completed, KeyIs(CompletedId, id))
  {
  }

  /** Deleting completion `j`: the completed table loses exactly that row;
      the issued coupon goes too precisely when no completion refers to it
      any more, and then neither a row with its id nor a completion naming
      it is left; otherwise the issued table is as it was. */
  lemma DeleteCompletedCascade(t: Coupons, j: nat, itop: int, ctop: int)
    requires KeysAscending(t.completed, CompletedId, ctop)
    requires j < |t.completed|
    ensures var (r, u) := DeleteCompletedOn(t, t.completed[j].id);
      var v := t.completed[j].issuedId;
      && u.completed == t.completed[..j] + t.completed[j + 1..]
      && r.Ok?
      && (r == Ok(Deleted) <==> v.None? || CountWhere(u.completed, RefersTo(v)) > 0)
      && (r == Ok(Deleted) ==> u.issued == t.issued)
      && (r.value.DeletedAndReordered? ==>
            && v == Some(r.value.deletedIssuedId)
            && u.issued == DeleteWhere(t.issued, KeyIs(IssuedId, v.value))
            && CountWhere(u.completed, RefersTo(v)) == 0
            && (forall i :: 0 <= i < |u.issued| ==> u.issued[i].id != v.value))
  {
    var id := t.completed[j].id;
    var found := Find(t.completed, CompletedId, id);
    assert found == Some(j);
    CascadeIffLastReference(t.completed, ctop, j);
    DeleteOneRow(t.completed, CompletedId, j, ctop);
    assert KeyIs(CompletedId, CompletedId(t.completed[j])) == KeyIs(CompletedId, id);
    var v := t.completed[j].issuedId;
    if v.Some? {
      DeleteLeavesNoMatch(t.issued, KeyIs(IssuedId, v.value));
    }
  }

  /** Deleting a completion keeps both tables' keys ascending under their
      counters. */
  lemma DeleteCompletedKeepsKeys(t: Coupons, id: int, itop: int, ctop: int)
    requires KeysAscending(t.issued, IssuedId, itop)
    requires KeysAscending(t.completed, CompletedId, ctop)
    ensures KeysAscending(DeleteCompletedOn(t, id).1.issued, IssuedId, itop)
    ensures KeysAscending(DeleteCompletedOn(t, id).1.completed, CompletedId, ctop)
  {
    DeleteKeepsKeys(t.completed, CompletedId, KeyIs(CompletedId, id), ctop);
    match Find(t.completed, CompletedId, id)
    case None =>
    case Some(j) =>
      var v := t.completed[j].issuedId;
      NullRefersToNothing(t.completed);
      if v.Some? {
        DeleteKeepsKeys(t.issued, IssuedId, KeyIs(IssuedId, v.value), itop);
      }
  }

  /** Of two deletions that remove both completions of an issued coupon
      having exactly two, the first leaves the issued table alone and the
      second deletes the coupon: the cascade happens once. */
  lemma TwoCompletionsCascadeOnce(t: Coupons, j: nat, k: nat, ctop: int)
    requires KeysAscending(t.completed, CompletedId, ctop)
    requires j < |t.completed| && k < |t.completed| && j != k
    requires t.completed[j].issuedId.Some? && t.completed[k].issuedId == t.completed[j].issuedId
    requires CountWhere(t.completed, RefersTo(t.completed[j].issuedId)) == 2
    ensures var a := t.completed[j].issuedId.value;
      var (first, u) := DeleteCompletedOn(t, t.completed[j].id);
      var (second, w) := DeleteCompletedOn(u, t.completed[k].id);
      && first == Ok(Deleted) && u.issued == t.issued
      && second == Ok(DeletedAndReordered(a))
      && w.issued == DeleteWhere(t.issued, KeyIs(IssuedId, a))
  {
    var s := t.completed;
    var v := s[j].issuedId;
    FindUnique(s, CompletedId, j, ctop);
    var u := DeleteCompletedOn(t, s[j].id).1;
    assert u == Coupons(t.issued, DeleteWhere(s, KeyIs(CompletedId, s[j].id)));
    DeleteOneRow(s, CompletedId, j, ctop);
    DeleteKeepsKeys(s, CompletedId, KeyIs(CompletedId, CompletedId(s[j])), ctop);
    assert u.completed == s[..j] + s[j + 1..];
    CountWhereWithout(s, j, RefersTo(v));
    var k' := if k < j then k else k - 1;
    assert u.completed[k'] == s[k];
    FindUnique(u.completed, CompletedId, k', ctop);
  }

  /** The SQLite database file: the three tables in rowid order and the
      `sqlite_sequence` counter of each. */
  class Database {
    var issued: seq<Issued>
    var completed: seq<Completed>
    var guestbook: seq<Entry>
    var issuedSeq: nat
    var completedSeq: nat
    var guestbookSeq: nat

    /** Every key is unique, positive, ascending in storage order and at
        most its table's counter. */
    ghost predicate Valid()
      reads this
    {
      && KeysAscending(issued, IssuedId, issuedSeq)
      && KeysAscending(completed, CompletedId, completedSeq)
      && KeysAscending(guestbook, EntryId, guestbookSeq)
    }

    /** A fresh database file: the three CREATE TABLE statements. */
    constructor ()
      ensures Valid()
      ensures issued == [] && completed == [] && guestbook == []
      ensures issuedSeq == 0 && completedSeq == 0 && guestbookSeq == 0
    {
      issued, completed, guestbook := [], [], [];
      issuedSeq, completedSeq, guestbookSeq := 0, 0, 0;
    }

    /** The seeding of `initDatabase`: each coupon table that is empty gets
        its sample rows; tables that hold rows are left alone. */
    method Seed(now: Stamp)
      requires Valid()
      modifies this
      ensures Valid()
      ensures guestbook == old(guestbook) && guestbookSeq == old(guestbookSeq)
      ensures old(issued) == [] ==> issued == SeedIssued(old(issuedSeq), now) && issuedSeq == old(issuedSeq) + 2
      ensures old(issued) != [] ==> issued == old(issued) && issuedSeq == old(issuedSeq)
      ensures old(completed) == [] ==>
        completed == SeedCompleted(old(completedSeq), now) && completedSeq == old(completedSeq) + 1
      ensures old(completed) != [] ==> completed == old(completed) && completedSeq == old(completedSeq)
    {
      if |issued| == 0 {
        issued := SeedIssued(issuedSeq, now);
        issuedSeq := issuedSeq + 2;
      }
      if |completed| == 0 {
        completed := SeedCompleted(completedSeq, now);
        completedSeq := completedSeq + 1;
      }
    }

    /** `GET /api/coupons/issued`: every issued row once, sorted by date text
        and then creation stamp, the k-th carrying order k + 1. */
    function ListIssued(): (r: seq<Ranked<Issued>>)
      reads this
      ensures |r| == |issued|
      ensures forall k :: 0 <= k < |r| ==> r[k].order == k + 1
      ensures forall i, j :: 0 <= i < j < |r| ==> KeyLe(IssuedOrder(r[i].row), IssuedOrder(r[j].row))
      ensures multiset(Rows(r)) == multiset(issued)
    {
      var sorted := SortBy(issued, IssuedOrder);
      RowsOfRank(sorted);
      Rank(sorted)
    }

    /** `GET /api/coupons/completed`: every completed row once, in ascending
        id order, the k-th carrying order k + 1. */
    function ListCompleted(): (r: seq<Ranked<Completed>>)
      reads this
      requires Valid()
      ensures |r| == |completed|
      ensures forall k :: 0 <= k < |r| ==> r[k].order == k + 1
      ensures forall i, j :: 0 <= i < j < |r| ==> r[i].row.id < r[j].row.id
      ensures multiset(Rows(r)) == multiset(completed)
    {
      RowsOfRank(completed);
      Rank(completed)
    }

    /** `GET /api/coupons/issued/:id`. */
    function GetIssued(id: int): (r: Result<Issued>)
      reads this
      ensures r.Err? <==> forall i :: 0 <= i < |issued| ==> issued[i].id != id
      ensures r.Err? ==> r.error == NotFound
      ensures r.Ok? ==> r.value in issued && r.value.id == id
    {
      match Find(issued, IssuedId, id)
      case None => Err(NotFound)
      case Some(k) => Ok(issued[k])
    }

    /** `GET /api/coupons/completed/:id`. */
    function GetCompleted(id: int): (r: Result<Completed>)
      reads this
      ensures r.Err? <==> forall i :: 0 <= i < |completed| ==> completed[i].id != id
      ensures r.Err? ==> r.error == NotFound
      ensures r.Ok? ==> r.value in completed && r.value.id == id
    {
      match Find(completed, CompletedId, id)
      case None => Err(NotFound)
      case Some(k) => Ok(completed[k])
    }

    /** `POST /api/coupons/issued`. */
    method CreateIssued(body: IssuedBody, now: Stamp) returns (r: Result<Echo<IssuedBody>>)
      requires Valid()
      modifies this
      ensures Valid()
      ensures completed == old(completed) && guestbook == old(guestbook)
      ensures completedSeq == old(completedSeq) && guestbookSeq == old(guestbookSeq)
      ensures !IssuedBodyComplete(body) ==>
        r == Err(BadRequest) && issued == old(issued) && issuedSeq == old(issuedSeq)
      ensures IssuedBodyComplete(body) ==>
        && r == Ok(Echo(old(issuedSeq) + 1, body))
        && issuedSeq == old(issuedSeq) + 1
        && issued == old(issued) + [NewIssued(issuedSeq, body, now)]
      ensures r.Ok? ==> forall x :: x in old(issued) ==> x.id < r.value.id
      ensures r.Ok? ==> GetIssued(r.value.id) == Ok(NewIssued(r.value.id, body, now))
    {
      if !IssuedBodyComplete(body) {
        r := Err(BadRequest);
        return;
      }
      var row := NewIssued(issuedSeq + 1, body, now);
      AppendKeepsKeys(issued, IssuedId, issuedSeq, row);
      issued := issued + [row];
      issuedSeq := issuedSeq + 1;
      r := Ok(Echo(issuedSeq, body));
      assert issued[|issued| - 1] == row;
    }

    /** `POST /api/coupons/completed`. Whether `issued_id` names an issued
        row is not checked. */
    method CreateCompleted(body: CompletedBody, now: Stamp) returns (r: Result<Echo<CompletedBody>>)
      requires Valid()
      modifies this
      ensures Valid()
      ensures issued == old(issued) && guestbook == old(guestbook)
      ensures issuedSeq == old(issuedSeq) && guestbookSeq == old(guestbookSeq)
      ensures !CompletedBodyComplete(body) ==>
        r == Err(BadRequest) && completed == old(completed) && completedSeq == old(completedSeq)
      ensures CompletedBodyComplete(body) ==>
        && r == Ok(Echo(old(completedSeq) + 1, body))
        && completedSeq == old(completedSeq) + 1
        && completed == old(completed) + [NewCompleted(completedSeq, body, now)]
      ensures r.Ok? ==> forall x :: x in old(completed) ==> x.id < r.value.id
      ensures r.Ok? ==> GetCompleted(r.value.id) == Ok(NewCompleted(r.value.id, body, now))
    {
      if !CompletedBodyComplete(body) {
        r := Err(BadRequest);
        return;
      }
      var row := NewCompleted(completedSeq + 1, body, now);
      AppendKeepsKeys(completed, CompletedId, completedSeq, row);
      completed := completed + [row];
      completedSeq := completedSeq + 1;
      r := Ok(Echo(completedSeq, body));
      assert completed[|completed| - 1] == row;
    }

    /** `PUT /api/coupons/issued/:id`: a full replace of the five text
        columns of the row with that id. */
    method UpdateIssued(id: int, body: IssuedBody) returns (r: Result<Echo<IssuedBody>>)
      requires Valid()
      modifies this
      ensures Valid()
      ensures completed == old(completed) && guestbook == old(guestbook)
      ensures issuedSeq == old(issuedSeq) && completedSeq == old(completedSeq)
      ensures guestbookSeq == old(guestbookSeq)
      ensures !IssuedBodyComplete(body) ==> r == Err(BadRequest) && issued == old(issued)
      ensures IssuedBodyComplete(body) && old(GetIssued(id)).Err? ==>
        r == Err(NotFound) && issued == old(issued)
      ensures IssuedBodyComplete(body) && old(GetIssued(id)).Ok? ==>
        && r == Ok(Echo(id, body))
        && issued == UpdateIssuedWhereId(old(issued), id, body)
        && GetIssued(id) == Ok(ReplaceIssued(old(GetIssued(id)).value, body))
      ensures |issued| == |old(issued)|
      ensures forall i :: 0 <= i < |issued| ==> issued[i].id == old(issued)[i].id
      ensures forall i :: 0 <= i < |issued| ==> issued[i].createdAt == old(issued)[i].createdAt
      ensures forall i :: 0 <= i < |issued| && old(issued)[i].id != id ==> issued[i] == old(issued)[i]
    {
      if !IssuedBodyComplete(body) {
        r := Err(BadRequest);
        return;
      }
      var found := Find(issued, IssuedId, id);
      var changes := CountWhere(issued, KeyIs(IssuedId, id));
      KeyNamesOneRow(issued, IssuedId, id, issuedSeq);
      ghost var before := issued;
      issued := UpdateIssuedWhereId(issued, id, body);
      FindSameKeys(before, issued, IssuedId, id);
      if changes == 0 {
        assert issued == before;
        r := Err(NotFound);
        return;
      }
      assert issued[found.value] == ReplaceIssued(before[found.value], body);
      r := Ok(Echo(id, body));
    }

    /** `PUT /api/coupons/completed/:id`: a full replace of the row with that
        id; an absent or falsy `issued_id`, performer or photo is written as
        NULL. */
    method UpdateCompleted(id: int, body: CompletedBody) returns (r: Result<Echo<CompletedBody>>)
      requires Valid()
      modifies this
      ensures Valid()
      ensures issued == old(issued) && guestbook == old(guestbook)
      ensures issuedSeq == old(issuedSeq) && completedSeq == old(completedSeq)
      ensures guestbookSeq == old(guestbookSeq)
      ensures !CompletedBodyFilled(body) ==> r == Err(BadRequest) && completed == old(completed)
      ensures CompletedBodyFilled(body) && old(GetCompleted(id)).Err? ==>
        r == Err(NotFound) && completed == old(completed)
      ensures CompletedBodyFilled(body) && old(GetCompleted(id)).Ok? ==>
        && r == Ok(Echo(id, body))
        && completed == UpdateCompletedWhereId(old(completed), id, body)
        && GetCompleted(id) == Ok(ReplaceCompleted(old(GetCompleted(id)).value, body))
      ensures |completed| == |old(completed)|
      ensures forall i :: 0 <= i < |completed| ==> completed[i].id == old(completed)[i].id
      ensures forall i :: 0 <= i < |completed| ==> completed[i].createdAt == old(completed)[i].createdAt
      ensures forall i :: 0 <= i < |completed| && old(completed)[i].id != id ==> completed[i] == old(completed)[i]
    {
      if !CompletedBodyFilled(body) {
        r := Err(BadRequest);
        return;
      }
      var found := Find(completed, CompletedId, id);
      var changes := CountWhere(completed, KeyIs(CompletedId, id));
      KeyNamesOneRow(completed, CompletedId, id, completedSeq);
      ghost var before := completed;
      completed := UpdateCompletedWhereId(completed, id, body);
      FindSameKeys(before, completed, CompletedId, id);
      if changes == 0 {
        assert completed == before;
        r := Err(NotFound);
        return;
      }
      assert completed[found.value] == ReplaceCompleted(before[found.value], body);
      r := Ok(Echo(id, body));
    }

    /** `DELETE /api/coupons/issued/:id`. Completions are never touched, so
        their `issued_id` may now name no row. */
    method DeleteIssued(id: int) returns (r: Result<()>)
      requires Valid()
      modifies this
      ensures Valid()
      ensures completed == old(completed) && guestbook == old(guestbook)
      ensures issuedSeq == old(issuedSeq) && completedSeq == old(completedSeq)
      ensures guestbookSeq == old(guestbookSeq)
      ensures old(GetIssued(id)).Err? ==> r == Err(NotFound) && issued == old(issued)
      ensures old(GetIssued(id)).Ok? ==> r == Ok(()) && issued == DeleteWhere(old(issued), KeyIs(IssuedId, id))
      ensures forall x :: x in issued <==> x in old(issued) && x.id != id
      ensures GetIssued(id).Err?
    {
      var changes := CountWhere(issued, KeyIs(IssuedId, id));
      ghost var before := issued;
      KeyNamesOneRow(issued, IssuedId, id, issuedSeq);
      CountWhereZero(issued, KeyIs(IssuedId, id));
      DeleteKeepsKeys(issued, IssuedId, KeyIs(IssuedId, id), issuedSeq);
      DeleteWhereMembers(issued, KeyIs(IssuedId, id));
      DeleteLeavesNoMatch(issued, KeyIs(IssuedId, id));
      issued := DeleteWhere(issued, KeyIs(IssuedId, id));
      if changes == 0 {
        DeleteNothing(before, KeyIs(IssuedId, id));
        r := Err(NotFound);
        return;
      }
      r := Ok(());
    }

    /** `DELETE /api/coupons/completed/:id`: DeleteCompletedOn applied to
        the coupon tables, statement by statement. */
    method DeleteCompleted(id: int) returns (r: Result<DeleteOutcome>)
      requires Valid()
      modifies this
      ensures Valid()
      ensures guestbook == old(guestbook)
      ensures issuedSeq == old(issuedSeq) && completedSeq == old(completedSeq)
      ensures guestbookSeq == old(guestbookSeq)
      ensures (r, Coupons(issued, completed)) == DeleteCompletedOn(old(Coupons(issued, completed)), id)
    {
      ghost var before := Coupons(issued, completed);
      ghost var after := DeleteCompletedOn(before, id);
      DeleteCompletedKeepsKeys(before, id, issuedSeq, completedSeq);
      var found := Find(completed, CompletedId, id);
      if found.None? {
        r := Err(NotFound);
        return;
      }
      var issuedId := completed[found.value].issuedId;
      var completedCount := CountWhere(completed, RefersTo(issuedId));
      var left := DeleteWhere(completed, KeyIs(CompletedId, id));
      if completedCount == 1 {
        NullRefersToNothing(before.completed);
        var cascaded := DeleteWhere(issued, KeyIs(IssuedId, issuedId.value));
        assert after == (Ok(DeletedAndReordered(issuedId.value)), Coupons(cascaded, left));
        issued, completed := cascaded, left;
        r := Ok(DeletedAndReordered(issuedId.value));
      } else {
        assert after == (Ok(Deleted), Coupons(issued, left));
        completed := left;
        r := Ok(Deleted);
      }
    }

    /** `GET /api/guestbook`: every message once, by creation stamp. */
    function GuestbookList(): (r: seq<Entry>)
      reads this
      ensures forall i, j :: 0 <= i < j < |r| ==> r[i].createdAt <= r[j].createdAt
      ensures multiset(r) == multiset(guestbook)
    {
      SortBy(guestbook, EntryOrder)
    }

    /** `POST /api/guestbook`: an absent, empty or all-white-space message
        is refused; otherwise the trimmed message is stored. */
    method GuestbookAppend(message: Option<string>, now: Stamp) returns (r: Result<Echo<string>>)
      requires Valid()
      modifies this
      ensures Valid()
      ensures issued == old(issued) && completed == old(completed)
      ensures issuedSeq == old(issuedSeq) && completedSeq == old(completedSeq)
      ensures !TruthyText(message) || Trim(message.value) == "" ==>
        r == Err(BadRequest) && guestbook == old(guestbook) && guestbookSeq == old(guestbookSeq)
      ensures TruthyText(message) && Trim(message.value) != "" ==>
        && guestbookSeq == old(guestbookSeq) + 1
        && r == Ok(Echo(guestbookSeq, Trim(message.value)))
        && guestbook == old(guestbook) + [Entry(guestbookSeq, Trim(message.value), now)]
    {
      if !TruthyText(message) || Trim(message.value) == "" {
        r := Err(BadRequest);
        return;
      }
      var entry := Entry(guestbookSeq + 1, Trim(message.value), now);
      AppendKeepsKeys(guestbook, EntryId, guestbookSeq, entry);
      guestbook := guestbook + [entry];
      guestbookSeq := guestbookSeq + 1;
      r := Ok(Echo(guestbookSeq, entry.message));
    }

    /** `DELETE /api/guestbook/test`: exactly the messages that start with
        the test prefix go. */
    method GuestbookDeleteTest()
      requires Valid()
      modifies this
      ensures Valid()
      ensures issued == old(issued) && completed == old(completed)
      ensures issuedSeq == old(issuedSeq) && completedSeq == old(completedSeq)
      ensures guestbookSeq == old(guestbookSeq)
      ensures guestbook == DeleteWhere(old(guestbook), IsTestMessage)
      ensures forall e :: e in guestbook <==> e in old(guestbook) && !IsTestMessage(e)
    {
      DeleteKeepsKeys(guestbook, EntryId, IsTestMessage, guestbookSeq);
      DeleteWhereMembers(guestbook, IsTestMessage);
      guestbook := DeleteWhere(guestbook, IsTestMessage);
    }

    /** `DELETE /api/guestbook/all`: the table is emptied; its AUTOINCREMENT
        counter is kept, as a DELETE leaves `sqlite_sequence` alone. */
    method GuestbookDeleteAll()
      requires Valid()
      modifies this
      ensures Valid()
      ensures issued == old(issued) && completed == old(completed)
      ensures issuedSeq == old(issuedSeq) && completedSeq == old(completedSeq)
      ensures guestbookSeq == old(guestbookSeq)
      ensures guestbook == []
    {
      guestbook := [];
    }
  }
}
