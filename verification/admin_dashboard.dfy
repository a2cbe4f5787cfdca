/**
 * The administrator dashboard's overview: the catalogue ranked by loan count
 * (to name the most and least borrowed book), and the loan table split into
 * pending, active, returned and overdue rows.
 */
module AdminDashboard {
  import opened Common
  import opened Store
  import opened Catalog
  import opened Lifecycle
  import LoanManagement

  /** `stats.loanCounts[id] || 0`: a book no loan names counts as 0. */
  function LoanCountOf(counts: map<BookId, nat>, id: BookId): nat {
    if id in counts then counts[id] else 0
  }

  function Key(counts: map<BookId, nat>, b: Book): nat {
    LoanCountOf(counts, b.id)
  }

  /** The selection of books with exactly `k` loans. */
  function HasKey(counts: map<BookId, nat>, k: nat): Book -> bool {
    (b: Book) => Key(counts, b) == k
  }

  /** Loan counts never increase along `r`. */
  ghost predicate SortedByLoans(r: seq<Book>, counts: map<BookId, nat>) {
    forall i, j :: 0 <= i < j < |r| ==> Key(counts, r[j]) <= Key(counts, r[i])
  }

  /** Puts `x` in front of the first entry of `t` with no more loans than `x`. */
  function InsertByLoans(x: Book, t: seq<Book>, counts: map<BookId, nat>): (r: seq<Book>)
    ensures multiset(r) == multiset(t) + multiset{x}
    decreases |t|
  {
    if t == [] then [x]
    else if Key(counts, t[0]) <= Key(counts, x) then [x] + t
    else
      assert t == [t[0]] + t[1..];
      [t[0]] + InsertByLoans(x, t[1..], counts)
  }

  /** Inserting into a ranked sequence keeps it ranked. */
  lemma {:induction false} InsertKeepsSorted(x: Book, t: seq<Book>, counts: map<BookId, nat>)
    requires SortedByLoans(t, counts)
    ensures SortedByLoans(InsertByLoans(x, t, counts), counts)
    decreases |t|
  {
    if t != [] {
      HeadBoundsTail(t, counts);
      assert forall z :: z in t ==> z == t[0] || z in t[1..] by {
        assert t == [t[0]] + t[1..];
      }
      if Key(counts, t[0]) <= Key(counts, x) {
        ConsSorted(x, t, counts);
      } else {
        var rest := InsertByLoans(x, t[1..], counts);
        InsertKeepsSorted(x, t[1..], counts);
        forall z | z in rest
          ensures Key(counts, z) <= Key(counts, t[0])
        {
          assert z in multiset(rest);
          assert z == x || z in multiset(t[1..]);
        }
        ConsSorted(t[0], rest, counts);
      }
    }
  }

  /** The head of a ranked sequence has at least the loans of every later entry, and the rest stays ranked. */
  lemma HeadBoundsTail(t: seq<Book>, counts: map<BookId, nat>)
    requires SortedByLoans(t, counts) && t != []
    ensures SortedByLoans(t[1..], counts)
    ensures forall z :: z in t[1..] ==> Key(counts, z) <= Key(counts, t[0])
  {
    forall i, j | 0 <= i < j < |t[1..]|
      ensures Key(counts, t[1..][j]) <= Key(counts, t[1..][i])
    {
      assert t[1..][i] == t[i + 1] && t[1..][j] == t[j + 1];
    }
    forall z | z in t[1..]
      ensures Key(counts, z) <= Key(counts, t[0])
    {
      var k :| 0 <= k < |t[1..]| && t[1..][k] == z;
      assert t[1..][k] == t[k + 1];
    }
  }

  /** Putting in front of a ranked sequence an entry with at least the loans of all of it keeps it ranked. */
  lemma ConsSorted(y: Book, rest: seq<Book>, counts: map<BookId, nat>)
    requires SortedByLoans(rest, counts)
    requires forall z :: z in rest ==> Key(counts, z) <= Key(counts, y)
    ensures SortedByLoans([y] + rest, counts)
  {
    var r := [y] + rest;
    forall i, j | 0 <= i < j < |r|
      ensures Key(counts, r[j]) <= Key(counts, r[i])
    {
      assert r[j] == rest[j - 1];
      if i == 0 {
        assert rest[j - 1] in rest;
      } else {
        assert r[i] == rest[i - 1];
      }
    }
  }

  /** The first entry of a ranked permutation of `books` has the most loans. */
  lemma HeadIsMax(s: seq<Book>, books: seq<Book>, counts: map<BookId, nat>)
    requires SortedByLoans(s, counts) && multiset(s) == multiset(books) && s != []
    ensures forall b :: b in books ==> Key(counts, b) <= Key(counts, s[0])
  {
    forall b | b in books
      ensures Key(counts, b) <= Key(counts, s[0])
    {
      assert b in multiset(s);
      var j :| 0 <= j < |s| && s[j] == b;
      if j > 0 {
        assert Key(counts, s[j]) <= Key(counts, s[0]);
      }
    }
  }

  /** The last entry of a ranked permutation of `books` has the fewest loans. */
  lemma LastIsMin(s: seq<Book>, books: seq<Book>, counts: map<BookId, nat>)
    requires SortedByLoans(s, counts) && multiset(s) == multiset(books) && s != []
    ensures forall b :: b in books ==> Key(counts, s[|s| - 1]) <= Key(counts, b)
  {
    forall b | b in books
      ensures Key(counts, s[|s| - 1]) <= Key(counts, b)
    {
      assert b in multiset(s);
      var j :| 0 <= j < |s| && s[j] == b;
      if j < |s| - 1 {
        assert Key(counts, s[|s| - 1]) <= Key(counts, s[j]);
      }
    }
  }

  /**
   * `[...books].sort((a, b) => loansB - loansA)`: the catalogue by loan count,
   * most borrowed first. The comparator only ever compares counts, and
   * `Array.prototype.sort` is stable, so books with equal counts keep their
   * catalogue order; the stability lemma below states this.
   */
  function SortByLoans(books: seq<Book>, counts: map<BookId, nat>): (r: seq<Book>)
    ensures SortedByLoans(r, counts)
    ensures multiset(r) == multiset(books)
    ensures |r| == |books|
    decreases |books|
  {
    if books == [] then []
    else
      assert books == [books[0]] + books[1..];
      var rest := SortByLoans(books[1..], counts);
      InsertKeepsSorted(books[0], rest, counts);
      InsertByLoans(books[0], rest, counts)
  }

  /** Inserting `x` adds it in front of the entries with its own count, and nowhere else. */
  lemma {:induction false} InsertKeepsTies(x: Book, t: seq<Book>, counts: map<BookId, nat>, k: nat)
    ensures Filter(InsertByLoans(x, t, counts), HasKey(counts, k))
            == if Key(counts, x) == k then [x] + Filter(t, HasKey(counts, k)) else Filter(t, HasKey(counts, k))
    decreases |t|
  {
    if t != [] && Key(counts, t[0]) > Key(counts, x) {
      var rest := InsertByLoans(x, t[1..], counts);
      assert ([t[0]] + rest)[1..] == rest;
      InsertKeepsTies(x, t[1..], counts, k);
    } else if t != [] {
      assert ([x] + t)[1..] == t;
    }
  }

  /** The sort is stable: for every count, the books with that count appear in catalogue order. */
  lemma {:induction false} SortIsStable(books: seq<Book>, counts: map<BookId, nat>, k: nat)
    ensures Filter(SortByLoans(books, counts), HasKey(counts, k)) == Filter(books, HasKey(counts, k))
    decreases |books|
  {
    if books != [] {
      SortIsStable(books[1..], counts, k);
      InsertKeepsTies(books[0], SortByLoans(books[1..], counts), counts, k);
    }
  }

  /** The first entry of a non-empty filter is the first element that passes it. */
  lemma FirstKeptIsHead(s: seq<Book>, p: Book -> bool)
    requires s != [] && p(s[0])
    ensures Filter(s, p) != [] && Filter(s, p)[0] == s[0]
  {
  }

  /** The last entry of a filter is the last element when that element passes it. */
  lemma LastKeptIsLast(s: seq<Book>, p: Book -> bool)
    requires s != [] && p(s[|s| - 1])
    ensures Filter(s, p) != [] && Filter(s, p)[|Filter(s, p)| - 1] == s[|s| - 1]
  {
    var n := |s| - 1;
    assert s == s[..n] + [s[n]];
    FilterAppend(s[..n], [s[n]], p);
    assert Filter([s[n]], p) == [s[n]];
  }

  /**
   * `sortedByLoans[0]`: undefined for an empty catalogue; otherwise a book
   * with the most loans, and among those the earliest in the catalogue.
   */
  function MostBorrowed(books: seq<Book>, counts: map<BookId, nat>): (r: Option<Book>)
    ensures r.None? <==> books == []
    ensures r.Some? ==> r.value in books
    ensures r.Some? ==> forall b :: b in books ==> Key(counts, b) <= Key(counts, r.value)
    ensures r.Some? ==> r.value == Filter(books, HasKey(counts, Key(counts, r.value)))[0]
  {
    var s := SortByLoans(books, counts);
    if s == [] then None
    else
      assert s[0] in multiset(books);
      HeadIsMax(s, books, counts);
      SortIsStable(books, counts, Key(counts, s[0]));
      FirstKeptIsHead(s, HasKey(counts, Key(counts, s[0])));
      Some(s[0])
  }

  /**
   * `sortedByLoans[length - 1]`: undefined for an empty catalogue; otherwise
   * a book with the fewest loans, and among those the latest in the catalogue.
   */
  function LeastBorrowed(books: seq<Book>, counts: map<BookId, nat>): (r: Option<Book>)
    ensures r.None? <==> books == []
    ensures r.Some? ==> r.value in books
    ensures r.Some? ==> forall b :: b in books ==> Key(counts, r.value) <= Key(counts, b)
    ensures r.Some? ==>
              var ties := Filter(books, HasKey(counts, Key(counts, r.value)));
              ties != [] && r.value == ties[|ties| - 1]
  {
    var s := SortByLoans(books, counts);
    if s == [] then None
    else
      var last := s[|s| - 1];
      assert last in multiset(books);
      LastIsMin(s, books, counts);
      SortIsStable(books, counts, Key(counts, last));
      LastKeptIsLast(s, HasKey(counts, Key(counts, last)));
      Some(last)
  }

  /** With a single book, the most and the least borrowed book coincide. */
  lemma OneBookIsBothExtremes(b: Book, counts: map<BookId, nat>)
    ensures MostBorrowed([b], counts) == LeastBorrowed([b], counts) == Some(b)
  {
  }

  /** The dashboard's pending test: status pending, or unapproved yet active. */
  predicate IsPending(l: Loan) {
    l.status == Pending || (!l.approved && l.status == Active)
  }

  /** The dashboard's active test: status active and approved. */
  predicate IsActive(l: Loan) {
    l.status == Active && l.approved
  }

  predicate IsReturned(l: Loan) {
    l.status == Returned
  }

  function PendingLoans(loans: seq<Loan>): (r: seq<Loan>)
    ensures forall l :: l in r <==> l in loans && IsPending(l)
    ensures Subsequence(r, loans)
  {
    Filter(loans, IsPending)
  }

  function ActiveLoans(loans: seq<Loan>): (r: seq<Loan>)
    ensures forall l :: l in r <==> l in loans && IsActive(l)
    ensures Subsequence(r, loans)
  {
    Filter(loans, IsActive)
  }

  function ReturnedLoans(loans: seq<Loan>): (r: seq<Loan>)
    ensures forall l :: l in r <==> l in loans && IsReturned(l)
    ensures Subsequence(r, loans)
  {
    Filter(loans, IsReturned)
  }

  /** The overdue rows: those active rows whose due date is before `now`. */
  function OverdueLoans(loans: seq<Loan>, now: int): (r: seq<Loan>)
    ensures forall l :: l in r <==> l in loans && IsActive(l) && l.dueDate < now
    ensures Subsequence(r, ActiveLoans(loans))
    ensures |r| <= |ActiveLoans(loans)|
  {
    Filter(ActiveLoans(loans), (l: Loan) => l.dueDate < now)
  }

  /** Three pairwise exclusive tests together pass at most every element once. */
  lemma {:induction false} ExclusiveCountsFit(s: seq<Loan>, p: Loan -> bool, q: Loan -> bool, t: Loan -> bool)
    requires forall x :: x in s ==> !(p(x) && q(x)) && !(p(x) && t(x)) && !(q(x) && t(x))
    ensures |Filter(s, p)| + |Filter(s, q)| + |Filter(s, t)| <= |s|
    decreases |s|
  {
    if s != [] {
      assert forall x :: x in s[1..] ==> x in s;
      ExclusiveCountsFit(s[1..], p, q, t);
    }
  }

  /**
   * No row is both pending and active, nor returned: the three counters on
   * the overview add up to at most the number of loans.
   */
  lemma OverviewCountersFit(loans: seq<Loan>)
    ensures |PendingLoans(loans)| + |ActiveLoans(loans)| + |ReturnedLoans(loans)| <= |loans|
  {
    ExclusiveCountsFit(loans, IsPending, IsActive, IsReturned);
  }

  /**
   * On coherent rows the dashboard's pending and active tests agree with the
   * loan table's "pending" and "active" filters. An approved row whose status
   * says pending, which no action produces, is pending here but not there.
   */
  lemma DashboardAgreesWithTable(l: Loan, now: int)
    ensures Coherent(l) ==> (IsPending(l) <==> LoanManagement.MatchesFilter(l, LoanManagement.FilterPending, now))
    ensures IsActive(l) <==> LoanManagement.MatchesFilter(l, LoanManagement.FilterActive, now)
    ensures l.approved && l.status == Pending ==>
              IsPending(l) && !LoanManagement.MatchesFilter(l, LoanManagement.FilterPending, now)
  {
  }

  /** `pendingLoans.slice(0, 5)`: the first five pending rows, or all of them when fewer. */
  function PendingPreview(pending: seq<Loan>): (r: seq<Loan>)
    ensures |r| == Min(5, |pending|)
    ensures forall i :: 0 <= i < |r| ==> r[i] == pending[i]
  {
    pending[..Min(5, |pending|)]
  }
}
