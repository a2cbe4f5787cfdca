/**
 * The reader's borrow button on a book page: which of three buttons it
 * renders from the page's props, and what a click does with the reply of
 * `borrowBook`.
 */
module BorrowButton {
  import opened Common
  import opened Store
  import opened BookLoans

  const MsgBorrowed := "¡Libro prestado exitosamente! Tienes 14 días para devolverlo."

  /** The three buttons: already borrowed, unavailable (both disabled), or an offer showing the count. */
  datatype ButtonView = AlreadyBorrowed | Unavailable | Offer(copies: int, disabled: bool)

  /**
   * The render decision: an active loan wins over the count; only a count of
   * exactly 0 is unavailable, so a negative count is offered.
   */
  function Render(availableCopies: int, hasActiveLoan: bool, isLoading: bool): (r: ButtonView)
    ensures r == AlreadyBorrowed <==> hasActiveLoan
    ensures r == Unavailable <==> !hasActiveLoan && availableCopies == 0
    ensures r.Offer? ==> r.copies == availableCopies && r.copies != 0 && (r.disabled <==> isLoading)
  {
    if hasActiveLoan then AlreadyBorrowed
    else if availableCopies == 0 then Unavailable
    else Offer(availableCopies, isLoading)
  }

  /**
   * The props the book page passes: `available_copies || 0` from the book's
   * stock row (0 without one), and whether the signed-in reader has exactly
   * one active loan of the book (a `maybeSingle` on status "active").
   */
  function PageAvailable(s: State, bookId: BookId): int {
    if bookId in s.inventory then s.inventory[bookId].available else 0
  }

  predicate PageHasActiveLoan(s: State, bookId: BookId) {
    s.user.Some? && BlockedByActiveLoan(s, s.user.value, bookId)
  }

  /**
   * The button and the action agree except on negative stock: a disabled
   * button means the action would refuse, and an offer with a positive count
   * means it gets past the stock and duplicate checks; an offer with a
   * negative count is refused for lack of copies.
   */
  lemma ButtonAgreesWithAction(s: State, bookId: BookId, env: Env, isLoading: bool)
    requires s.user.Some?
    ensures var v := Render(PageAvailable(s, bookId), PageHasActiveLoan(s, bookId), isLoading);
            && (v == AlreadyBorrowed ==> BorrowBook(s, bookId, env).reply.Error?)
            && (v == Unavailable ==> BorrowBook(s, bookId, env) == Step(Error(MsgNoCopies), s))
            && (v.Offer? && v.copies > 0 ==>
                  (BorrowBook(s, bookId, env).reply.Done? <==> env.primaryOk && !IdTaken(s.loans, env.newId)))
            && (v.Offer? && v.copies < 0 ==> BorrowBook(s, bookId, env) == Step(Error(MsgNoCopies), s))
  {
  }

  /** What a click leaves behind: the alert shown, whether the page refreshed, and the store. */
  datatype ClickOutcome = ClickOutcome(alert: string, refreshed: bool, isLoading: bool, store: State)

  /**
   * `handleBorrow`: calls `borrowBook`, clears the busy flag, then alerts the
   * error without refreshing, or alerts success and refreshes. The success
   * text speaks of a loan, although the row it created is only a request.
   */
  function HandleBorrow(s: State, bookId: BookId, env: Env): (r: ClickOutcome)
    ensures !r.isLoading
    ensures r.refreshed <==> BorrowSucceeds(s, bookId, env)
    ensures !r.refreshed ==> r.alert == BorrowBook(s, bookId, env).reply.error && r.store == s
    ensures r.refreshed ==> r.alert == MsgBorrowed
    ensures r.refreshed ==> r.store.loans == s.loans + [RequestedLoan(s.user.value, bookId, env)]
    ensures r.refreshed ==> r.store.loans[|s.loans|].status == Pending && !r.store.loans[|s.loans|].approved
  {
    var step := BorrowBook(s, bookId, env);
    match step.reply
    case Error(e) => ClickOutcome(e, false, false, step.state)
    case Done(_) => ClickOutcome(MsgBorrowed, true, false, step.state)
  }
}
