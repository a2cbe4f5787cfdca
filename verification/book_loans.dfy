/**
 * The reader-facing server actions: asking to borrow a book, returning a
 * loan, and looking up the reader's current loan of a book. Each action is
 * one atomic step `(store, arguments, environment) -> (reply, store')`.
 */
module BookLoans {
  import opened Common
  import opened Store

  /** The rows of `user`'s loans of `bookId` whose status is one of `statuses`. */
  function CallerLoans(loans: seq<Loan>, user: UserId, bookId: BookId, statuses: set<Status>): seq<Loan> {
    Filter(loans, (l: Loan) => l.userId == user && l.bookId == bookId && l.status in statuses)
  }

  /** The inventory row exists and shows at least one available copy. */
  predicate HasCopies(s: State, bookId: BookId) {
    bookId in s.inventory && s.inventory[bookId].available > 0
  }

  /**
   * The duplicate check: a `maybeSingle` over the caller's loans of the book
   * with status "active" (not "pending"); it yields a row, and so blocks,
   * only when exactly one such loan exists.
   */
  predicate BlockedByActiveLoan(s: State, user: UserId, bookId: BookId) {
    Single(CallerLoans(s.loans, user, bookId, {Active})).Some?
  }

  /** The row a successful request inserts. */
  function RequestedLoan(user: UserId, bookId: BookId, env: Env): Loan {
    Loan(env.newId, user, bookId, Pending, false, env.now + LoanPeriodMs, None, None, None, None)
  }

  /** Every check of `borrowBook` passes and the insert goes through. */
  predicate BorrowSucceeds(s: State, bookId: BookId, env: Env) {
    && s.user.Some?
    && HasCopies(s, bookId)
    && !BlockedByActiveLoan(s, s.user.value, bookId)
    && env.primaryOk
    && !IdTaken(s.loans, env.newId)
  }

  /**
   * `borrowBook`: checks sign-in, then stock, then the active-loan duplicate,
   * inserts a pending loan due 14 days later, and only then writes the stock
   * row back as the available count read earlier minus one. The error of that
   * last write is not checked, so it may not take effect (`secondaryOk`).
   */
  function BorrowBook(s: State, bookId: BookId, env: Env): (r: Step)
    ensures s.user.None? ==> r == Step(Error(MsgUserNotSignedIn), s)
    ensures s.user.Some? && !HasCopies(s, bookId) ==> r == Step(Error(MsgNoCopies), s)
    ensures s.user.Some? && HasCopies(s, bookId) && BlockedByActiveLoan(s, s.user.value, bookId) ==>
              r == Step(Error(MsgAlreadyBorrowed), s)
    ensures r.reply.Error? ==> r.state == s
    ensures r.reply.Done? <==> BorrowSucceeds(s, bookId, env)
    ensures r.reply.Done? ==> r.reply.message == MsgBorrowRequested
    ensures r.reply.Done? ==> r.state.loans == s.loans + [RequestedLoan(s.user.value, bookId, env)]
    ensures r.reply.Done? ==>
              r.state.inventory == if env.secondaryOk
                                   then s.inventory[bookId := s.inventory[bookId].(available := s.inventory[bookId].available - 1)]
                                   else s.inventory
    ensures r.state.admins == s.admins && r.state.user == s.user
  {
    match s.user
    case None => Step(Error(MsgUserNotSignedIn), s)
    case Some(u) =>
      if !HasCopies(s, bookId) then Step(Error(MsgNoCopies), s)
      else if BlockedByActiveLoan(s, u, bookId) then Step(Error(MsgAlreadyBorrowed), s)
      else if !env.primaryOk || IdTaken(s.loans, env.newId) then Step(Error(MsgBorrowFailed), s)
      else
        var read := s.inventory[bookId];
        var loans := s.loans + [RequestedLoan(u, bookId, env)];
        var inventory := if env.secondaryOk then s.inventory[bookId := read.(available := read.available - 1)] else s.inventory;
        Step(Done(MsgBorrowRequested), s.(loans := loans, inventory := inventory))
  }

  /**
   * `returnBook`: marks returned every row whose id and owner both match the
   * caller, whatever its status; a non-matching id changes nothing and still
   * succeeds. The stock is never touched.
   */
  function ReturnBook(s: State, loanId: LoanId, env: Env): (r: Step)
    ensures s.user.None? ==> r == Step(Error(MsgUserNotSignedIn), s)
    ensures s.user.Some? && !env.primaryOk ==> r == Step(Error(MsgReturnFailed), s)
    ensures r.reply.Done? <==> s.user.Some? && env.primaryOk
    ensures r.state.inventory == s.inventory && r.state.admins == s.admins && r.state.user == s.user
    ensures |r.state.loans| == |s.loans|
    ensures r.reply.Done? ==>
              forall i :: 0 <= i < |s.loans| ==>
                r.state.loans[i] == if s.loans[i].id == loanId && s.loans[i].userId == s.user.value
                                    then ReturnedRow(s.loans[i], env.now)
                                    else s.loans[i]
  {
    match s.user
    case None => Step(Error(MsgUserNotSignedIn), s)
    case Some(u) =>
      if !env.primaryOk then Step(Error(MsgReturnFailed), s)
      else
        var loans := UpdateWhere(s.loans, (l: Loan) => l.id == loanId && l.userId == u, (l: Loan) => ReturnedRow(l, env.now));
        Step(Done(""), s.(loans := loans))
  }

  /**
   * `getUserLoanForBook`: null without a user; otherwise the caller's loan of
   * the book with status active or pending, when there is exactly one.
   */
  function GetUserLoanForBook(s: State, bookId: BookId): (r: Option<Loan>)
    ensures s.user.None? ==> r.None?
    ensures r.Some? ==> r.value in s.loans && r.value.userId == s.user.value && r.value.bookId == bookId
    ensures r.Some? ==> r.value.status == Active || r.value.status == Pending
    ensures s.user.Some? ==> (r.Some? <==> |CallerLoans(s.loans, s.user.value, bookId, {Active, Pending})| == 1)
  {
    match s.user
    case None => None
    case Some(u) => Single(CallerLoans(s.loans, u, bookId, {Active, Pending}))
  }
}
