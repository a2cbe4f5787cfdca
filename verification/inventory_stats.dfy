/**
 * `getInventoryStats`: stock totals summed over every stock row and loan
 * counts over every loan row. The loan query selects only `book_id` and
 * `status`, so the rows it works on carry no `approved` column.
 */
module InventoryStats {
  import opened Common
  import opened Store

  /** A loan row as the query projects it: `select("book_id, status")`. */
  datatype LoanProjection = LoanProjection(bookId: BookId, status: Status)

  datatype Stats = Stats(
    totalBooks: int,
    availableBooks: int,
    activeLoans: nat,
    pendingLoans: nat,
    loanCounts: map<BookId, nat>)

  function Project(loans: seq<Loan>): (r: seq<LoanProjection>)
    ensures |r| == |loans|
    ensures forall i :: 0 <= i < |loans| ==> r[i] == LoanProjection(loans[i].bookId, loans[i].status)
  {
    seq(|loans|, i requires 0 <= i < |loans| => LoanProjection(loans[i].bookId, loans[i].status))
  }

  function SumTotal(rows: seq<Stock>): int {
    if rows == [] then 0 else rows[0].total + SumTotal(rows[1..])
  }

  function SumAvailable(rows: seq<Stock>): int {
    if rows == [] then 0 else rows[0].available + SumAvailable(rows[1..])
  }

  /** Number of rows naming `bookId`. */
  function CountBook(rows: seq<LoanProjection>, bookId: BookId): nat {
    if rows == [] then 0 else (if rows[0].bookId == bookId then 1 else 0) + CountBook(rows[1..], bookId)
  }

  /**
   * `loanCounts`: one entry per book named by some loan row, holding how many
   * rows name it; a book no row names is absent, which the readers of the map
   * take as 0 (`loanCounts[id] || 0`).
   */
  function LoanCounts(rows: seq<LoanProjection>): (m: map<BookId, nat>)
    ensures m.Keys == set r | r in rows :: r.bookId
    ensures forall b :: CountBook(rows, b) == (if b in m then m[b] else 0)
    ensures forall b :: b in m ==> m[b] >= 1
    decreases |rows|
  {
    if rows == [] then map[]
    else
      var rest := LoanCounts(rows[1..]);
      var b := rows[0].bookId;
      BooksOfCons(rows);
      rest[b := (if b in rest then rest[b] else 0) + 1]
  }

  /** The books named by a non-empty list: the first row's and those of the rest. */
  lemma BooksOfCons(rows: seq<LoanProjection>)
    requires rows != []
    ensures (set r | r in rows :: r.bookId) == (set r | r in rows[1..] :: r.bookId) + {rows[0].bookId}
  {
    assert rows == [rows[0]] + rows[1..];
  }

  /**
   * As written, the pending test is `l.status === "pending" || !l.approved`
   * over projected rows, where `approved` reads as undefined and `!undefined`
   * is true: every row passes.
   */
  predicate PendingAsWritten(row: LoanProjection) {
    row.status == Pending || !ApprovedOfProjection(row)
  }

  /** The `approved` field of a projected row is undefined, i.e. falsy. */
  predicate ApprovedOfProjection(row: LoanProjection) {
    false
  }

  /** The active test of the stats query: `l.status === "active"`. */
  predicate IsActiveRow(row: LoanProjection) {
    row.status == Active
  }

  /** Reference count: the number of rows carrying `status`, counted row by row. */
  function CountStatus(rows: seq<LoanProjection>, status: Status): nat {
    if rows == [] then 0 else (if rows[0].status == status then 1 else 0) + CountStatus(rows[1..], status)
  }

  /** The active filter's length is the number of rows with status active. */
  lemma {:induction false} ActiveCountIsCountStatus(rows: seq<LoanProjection>)
    ensures CountWhere(rows, IsActiveRow) == CountStatus(rows, Active)
    decreases |rows|
  {
    if rows != [] {
      FilterCons(rows, IsActiveRow);
      ActiveCountIsCountStatus(rows[1..]);
    }
  }

  /**
   * As written, the pending test keeps every row: the pending filter is as
   * long as the loan table, whatever the statuses.
   */
  lemma PendingCountIsEveryLoan(loans: seq<LoanProjection>)
    ensures CountWhere(loans, PendingAsWritten) == |loans|
  {
    var f := Filter(loans, PendingAsWritten);
    assert forall x :: x in loans ==> x in f;
    FilterAllKept(loans, PendingAsWritten);
  }

  function GetInventoryStats(inventory: seq<Stock>, loans: seq<LoanProjection>): (r: Stats)
    ensures r.activeLoans == CountStatus(loans, Active)
    ensures r.pendingLoans == |loans|
    ensures forall b :: CountBook(loans, b) == (if b in r.loanCounts then r.loanCounts[b] else 0)
  {
    ActiveCountIsCountStatus(loans);
    PendingCountIsEveryLoan(loans);
    Stats(
      SumTotal(inventory),
      SumAvailable(inventory),
      CountWhere(loans, IsActiveRow),
      CountWhere(loans, PendingAsWritten),
      LoanCounts(loans))
  }

  /** A single returned loan is counted as pending by the code as written. */
  lemma ReturnedLoanCountedPending()
    ensures GetInventoryStats([], [LoanProjection("b1", Returned)]).pendingLoans == 1
  {
  }

  /**
   * The evidently intended pending count: the same test on full rows, where
   * `approved` is read from the loan itself. Since rejecting writes
   * `approved: false`, this count still includes rejected loans, unlike the
   * loan table's "pending" filter and the dashboard's pending list.
   */
  predicate PendingIntended(l: Loan) {
    l.status == Pending || !l.approved
  }

  /** Reference count: the loans that are pending or unapproved, counted row by row. */
  function CountIntended(loans: seq<Loan>): nat {
    if loans == [] then 0
    else (if loans[0].status == Pending || !loans[0].approved then 1 else 0) + CountIntended(loans[1..])
  }

  /** The corrected pending filter keeps as many loans as the row-by-row count. */
  lemma {:induction false} IntendedCountIsCountIntended(loans: seq<Loan>)
    ensures |Filter(loans, PendingIntended)| == CountIntended(loans)
    decreases |loans|
  {
    if loans != [] {
      FilterCons(loans, PendingIntended);
      IntendedCountIsCountIntended(loans[1..]);
    }
  }

  function PendingLoansCorrected(loans: seq<Loan>): (r: nat)
    ensures r == CountIntended(loans)
    ensures r <= |loans|
    ensures r == 0 <==> forall l :: l in loans ==> l.status != Pending && l.approved
  {
    var f := Filter(loans, PendingIntended);
    assert f != [] ==> f[0] in f;
    IntendedCountIsCountIntended(loans);
    |f|
  }

  /** The corrected statistics: identical except for the pending count. */
  function GetInventoryStatsCorrected(inventory: seq<Stock>, loans: seq<Loan>): (r: Stats)
    ensures r.pendingLoans == PendingLoansCorrected(loans)
    ensures r.activeLoans == GetInventoryStats(inventory, Project(loans)).activeLoans
    ensures r.loanCounts == GetInventoryStats(inventory, Project(loans)).loanCounts
  {
    GetInventoryStats(inventory, Project(loans)).(pendingLoans := PendingLoansCorrected(loans))
  }

  /** On full rows, an approved returned loan is not pending. */
  lemma ReturnedLoanNotPendingCorrected(l: Loan)
    requires l.status == Returned && l.approved
    ensures GetInventoryStatsCorrected([], [l]).pendingLoans == 0
  {
  }
}
