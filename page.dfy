/** The coupon page fed by the server: the two listings of the API, as the
    client receives them, laid out side by side. */
module Page {
  import opened Js
  import opened Ledger
  import opened Layout

  /** A listed issued row as the client holds it, its rank as `order`. */
  function AsCoupon(r: Ranked<Issued>): IssuedCoupon {
    IssuedCoupon(r.row.id, Some(r.order), r.row.date, r.row.worker, r.row.content, r.row.amount, r.row.issuer)
  }

  /** A listed completed row as the client holds it. */
  function AsCompletion(r: Ranked<Completed>): CompletedCoupon {
    CompletedCoupon(r.row.id, r.row.issuedId, r.row.date, r.row.performer, r.row.content, r.row.amount, r.row.photo)
  }

  function AsCoupons(s: seq<Ranked<Issued>>): seq<IssuedCoupon> {
    seq(|s|, k requires 0 <= k < |s| => AsCoupon(s[k]))
  }

  function AsCompletions(s: seq<Ranked<Completed>>): seq<CompletedCoupon> {
    seq(|s|, k requires 0 <= k < |s| => AsCompletion(s[k]))
  }

  /** Every issued coupon the server lists has a positive id, which is what
      the alignment of the two tables needs. */
  lemma ListedIdsNonzero(db: Database)
    requires db.Valid()
    ensures forall k :: 0 <= k < |AsCoupons(db.ListIssued())| ==> AsCoupons(db.ListIssued())[k].id != 0
  {
    var l := db.ListIssued();
    forall k | 0 <= k < |l| ensures l[k].row.id > 0 {
      assert Rows(l)[k] == l[k].row;
      assert l[k].row in multiset(db.issued);
      var i :| 0 <= i < |db.issued| && db.issued[i] == l[k].row;
    }
  }

  /** Whatever the server holds, the page built from its two listings shows
      the issued and completed tables with the same label column, row for
      row. */
  lemma ListingsAlign(db: Database, issuedMobile: bool, completedMobile: bool, narrow: bool)
    requires db.Valid()
    ensures var issued := AsCoupons(db.ListIssued());
      var completed := AsCompletions(db.ListCompleted());
      && IssuedLabels(IssuedTable(issued, completed, issuedMobile, narrow))
         == CompletedLabels(CompletedTable(issued, completed, completedMobile, narrow))
      && |IssuedTable(issued, completed, issuedMobile, narrow)|
         == |CompletedTable(issued, completed, completedMobile, narrow)|
  {
    ListedIdsNonzero(db);
    TablesAlign(AsCoupons(db.ListIssued()), AsCompletions(db.ListCompleted()), issuedMobile, completedMobile, narrow);
  }
}
