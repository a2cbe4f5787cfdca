/**
 * The reader's profile page: the saved-books and borrowed-books joins against
 * the catalogue, the counters, the choice between the profile and the form
 * that completes it, and the days left on each borrowed book.
 */
module ProfilePage {
  import opened Common
  import opened Store
  import opened Catalog
  import LoanManagement

  /**
   * One `profiles` row. Every column may be null; the counters are numbers
   * the screens read with `|| 0`.
   */
  datatype Profile = Profile(
    id: UserId,
    fullName: Option<string>,
    career: Option<string>,
    avatarUrl: Option<string>,
    booksRead: Option<int>,
    hoursReading: Option<int>,
    favorites: Option<int>)

  /** A text column read as a condition: null and "" are falsy. */
  predicate Falsy(o: Option<string>) {
    o.None? || o.value == ""
  }

  /** `value || 0` on a nullable number column. */
  function OrZero(o: Option<int>): (r: int)
    ensures o.None? ==> r == 0
    ensures o.Some? ==> r == o.value
  {
    o.GetOr(0)
  }

  /** `savedBooks`: the catalogue books whose id is among the saved ids, in catalogue order. */
  function SavedBooks(books: seq<Book>, savedIds: seq<BookId>): (r: seq<Book>)
    ensures forall b :: b in r <==> b in books && b.id in savedIds
    ensures Subsequence(r, books)
  {
    Filter(books, (b: Book) => b.id in savedIds)
  }

  /** Saving a book twice does not list it twice: a catalogue without repeats gives a list without repeats. */
  lemma SavedBooksOnce(books: seq<Book>, savedIds: seq<BookId>)
    requires Distinct(books)
    ensures Distinct(SavedBooks(books, savedIds))
  {
    FilterKeepsDistinct(books, (b: Book) => b.id in savedIds);
  }

  /** The profile query for borrowed books: the reader's rows with status "active", approved or not. */
  function ActiveLoanRows(loans: seq<Loan>, user: UserId): (r: seq<Loan>)
    ensures forall l :: l in r <==> l in loans && l.userId == user && l.status == Active
    ensures Subsequence(r, loans)
  {
    Filter(loans, (l: Loan) => l.userId == user && l.status == Active)
  }

  /** A loan joined with its catalogue book. */
  datatype Borrowed = Borrowed(loan: Loan, book: Book)

  /** The loan's book is in the catalogue. */
  function HasBook(books: seq<Book>): Loan -> bool {
    (l: Loan) => FindBook(books, l.bookId).Some?
  }

  /**
   * `borrowedBooks`: each row joined with `books.find` on its book id, rows
   * whose book is not in the catalogue dropped, in the order of the rows.
   */
  function BorrowedBooks(rows: seq<Loan>, books: seq<Book>): seq<Borrowed>
    decreases |rows|
  {
    if rows == [] then []
    else
      match FindBook(books, rows[0].bookId)
      case None => BorrowedBooks(rows[1..], books)
      case Some(b) => [Borrowed(rows[0], b)] + BorrowedBooks(rows[1..], books)
  }

  /**
   * The joined list holds exactly the rows whose book is in the catalogue, in
   * order, each paired with the book `find` returns for it.
   */
  lemma {:induction false} BorrowedBooksJoin(rows: seq<Loan>, books: seq<Book>)
    ensures JoinedAsFiltered(BorrowedBooks(rows, books), Filter(rows, HasBook(books)), books)
    decreases |rows|
  {
    if rows != [] {
      BorrowedBooksJoin(rows[1..], books);
      match FindBook(books, rows[0].bookId)
      case None =>
        JoinSkips(rows, books);
      case Some(b) =>
        JoinKeeps(rows, books, b);
        JoinedCons(Borrowed(rows[0], b), BorrowedBooks(rows[1..], books), Filter(rows[1..], HasBook(books)), books);
    }
  }

  /** `joined` pairs each row of `filtered`, in order, with the book `find` returns for it. */
  predicate JoinedAsFiltered(joined: seq<Borrowed>, filtered: seq<Loan>, books: seq<Book>) {
    && |joined| == |filtered|
    && forall i :: 0 <= i < |joined| ==>
         joined[i].loan == filtered[i] && FindBook(books, joined[i].loan.bookId) == Some(joined[i].book)
  }

  /** A row whose book is missing is dropped by both the join and the filter. */
  lemma JoinSkips(rows: seq<Loan>, books: seq<Book>)
    requires rows != [] && FindBook(books, rows[0].bookId).None?
    ensures BorrowedBooks(rows, books) == BorrowedBooks(rows[1..], books)
    ensures Filter(rows, HasBook(books)) == Filter(rows[1..], HasBook(books))
  {
    FilterCons(rows, HasBook(books));
  }

  /** A row whose book is found is kept by both the join and the filter. */
  lemma JoinKeeps(rows: seq<Loan>, books: seq<Book>, b: Book)
    requires rows != [] && FindBook(books, rows[0].bookId) == Some(b)
    ensures BorrowedBooks(rows, books) == [Borrowed(rows[0], b)] + BorrowedBooks(rows[1..], books)
    ensures Filter(rows, HasBook(books)) == [rows[0]] + Filter(rows[1..], HasBook(books))
  {
    FilterCons(rows, HasBook(books));
  }

  lemma JoinedCons(x: Borrowed, joined: seq<Borrowed>, filtered: seq<Loan>, books: seq<Book>)
    requires JoinedAsFiltered(joined, filtered, books)
    requires FindBook(books, x.loan.bookId) == Some(x.book)
    ensures JoinedAsFiltered([x] + joined, [x.loan] + filtered, books)
  {
    var r := [x] + joined;
    var f := [x.loan] + filtered;
    forall i | 1 <= i < |r|
      ensures r[i].loan == f[i] && FindBook(books, r[i].loan.bookId) == Some(r[i].book)
    {
      assert r[i] == joined[i - 1] && f[i] == filtered[i - 1];
    }
  }

  /** When every row's book is in the catalogue, every row is listed, in order. */
  lemma AllCataloguedAllListed(rows: seq<Loan>, books: seq<Book>)
    requires forall l :: l in rows ==> FindBook(books, l.bookId).Some?
    ensures |BorrowedBooks(rows, books)| == |rows|
    ensures forall i :: 0 <= i < |rows| ==> BorrowedBooks(rows, books)[i].loan == rows[i]
  {
    BorrowedBooksJoin(rows, books);
    FilterAllKept(rows, HasBook(books));
  }

  datatype Stats = Stats(booksRead: int, hoursReading: int, favorites: int, activeLoans: nat)

  /** The counters: the profile's columns with null as 0, and the number of listed loans. */
  function ProfileStats(profile: Option<Profile>, borrowed: seq<Borrowed>): (r: Stats)
    ensures r.activeLoans == |borrowed|
    ensures profile.None? ==> r.booksRead == 0 && r.hoursReading == 0 && r.favorites == 0
    ensures profile.Some? ==>
              r.booksRead == OrZero(profile.value.booksRead) && r.hoursReading == OrZero(profile.value.hoursReading)
              && r.favorites == OrZero(profile.value.favorites)
  {
    match profile
    case None => Stats(0, 0, 0, |borrowed|)
    case Some(p) => Stats(OrZero(p.booksRead), OrZero(p.hoursReading), OrZero(p.favorites), |borrowed|)
  }

  /** No profile row, or an empty name or career. A name of spaces counts as filled in. */
  predicate ProfileIncomplete(profile: Option<Profile>) {
    profile.None? || Falsy(profile.value.fullName) || Falsy(profile.value.career)
  }

  /** What the page shows: the completion form seeded with the known values, or the profile. */
  datatype Screen = EditForm(currentName: string, currentCareer: string) | ProfileView(stats: Stats)

  function ProfileScreen(profile: Option<Profile>, borrowed: seq<Borrowed>): (r: Screen)
    ensures r.EditForm? <==> ProfileIncomplete(profile)
    ensures r.EditForm? && profile.Some? ==>
              r.currentName == profile.value.fullName.GetOr("") && r.currentCareer == profile.value.career.GetOr("")
    ensures r.EditForm? && profile.None? ==> r.currentName == "" && r.currentCareer == ""
    ensures r.ProfileView? ==> r.stats == ProfileStats(profile, borrowed)
  {
    if ProfileIncomplete(profile) then
      match profile
      case None => EditForm("", "")
      case Some(p) => EditForm(p.fullName.GetOr(""), p.career.GetOr(""))
    else ProfileView(ProfileStats(profile, borrowed))
  }

  /** `Math.ceil((due - now) / 86400000)`: whole days left, rounded up. */
  function DaysLeft(due: int, now: int): (r: int)
    ensures (r - 1) * DayMs < due - now <= r * DayMs
  {
    -((now - due) / DayMs)
  }

  /** The loan shows as overdue: fewer than zero days left. */
  predicate IsOverdue(due: int, now: int) {
    DaysLeft(due, now) < 0
  }

  /** The profile calls a loan overdue only once a whole day has passed since its due time. */
  lemma OverdueAfterAFullDay(due: int, now: int)
    ensures IsOverdue(due, now) <==> now - due >= DayMs
  {
  }

  /** The badge: "Vencido hace N días" with N the absolute days left, or "N días restantes". */
  datatype DueBadge = OverdueBy(days: nat) | Remaining(days: nat)

  function Badge(due: int, now: int): (r: DueBadge)
    ensures r.OverdueBy? <==> IsOverdue(due, now)
    ensures r.OverdueBy? ==> r.days >= 1 && r.days * DayMs <= now - due < (r.days + 1) * DayMs
    ensures r.Remaining? ==> (r.days as int - 1) * DayMs < due - now <= r.days * DayMs
  {
    var d := DaysLeft(due, now);
    if d < 0 then OverdueBy(-d) else Remaining(d)
  }

  /**
   * Within the first day after the due time the administrator's table
   * already shows an approved active loan as overdue, while the reader's
   * profile still shows it with 0 days left.
   */
  lemma ProfileLagsLoanTable(l: Loan, now: int)
    requires l.approved && l.status == Active && l.dueDate < now < l.dueDate + DayMs
    ensures LoanManagement.StatusBadge(l, now) == LoanManagement.OverdueBadge
    ensures LoanManagement.MatchesFilter(l, LoanManagement.FilterOverdue, now)
    ensures !IsOverdue(l.dueDate, now) && Badge(l.dueDate, now) == Remaining(0)
  {
  }
}
