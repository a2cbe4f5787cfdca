/**
 * The administrator's loan table: the status badge of each row, the search
 * box and status filter over the rows, which action buttons a row offers,
 * and the three handlers that call the administrator actions.
 */
module LoanManagement {
  import opened Common
  import opened Store
  import opened Catalog
  import opened Access
  import opened AdminActions
  import opened Lifecycle

  /** A loan as the screen receives it: the row joined with the borrower's profile name. */
  datatype ListedLoan = ListedLoan(loan: Loan, userName: Option<string>)

  const UnknownBook := "Libro desconocido"
  const MsgReasonRequired := "Por favor ingresa un motivo de rechazo"

  /** The title shown for a loan: the catalogue title, or a fallback when it is missing or empty. */
  function GetBookTitle(books: seq<Book>, bookId: BookId): (r: string)
    ensures r != ""
    ensures (forall b :: b in books ==> b.id != bookId) ==> r == UnknownBook
    ensures UniqueIds(books) ==>
              forall b :: b in books && b.id == bookId ==> r == if b.title == "" then UnknownBook else b.title
  {
    match FindBook(books, bookId)
    case None => UnknownBook
    case Some(b) => if b.title == "" then UnknownBook else b.title
  }

  /** The five badges a row can show. */
  datatype Badge = ReturnedBadge | RejectedBadge | PendingBadge | OverdueBadge | ActiveBadge

  /**
   * The badge, by precedence: returned, rejected, then pending when either
   * the flag is unset or the status says pending, then overdue when the due
   * date has passed, else active.
   */
  function StatusBadge(l: Loan, now: int): (r: Badge)
    ensures l.status == Active && !l.approved ==> r == PendingBadge
    ensures r == OverdueBadge ==> l.approved && l.status == Active && l.dueDate < now
  {
    if l.status == Returned then ReturnedBadge
    else if l.status == Rejected then RejectedBadge
    else if !l.approved || l.status == Pending then PendingBadge
    else if l.dueDate < now then
      assert l.status != Returned && l.status != Rejected && l.status != Pending;
      OverdueBadge
    else ActiveBadge
  }

  const FilterAll := "all"
  const FilterPending := "pending"
  const FilterActive := "active"
  const FilterReturned := "returned"
  const FilterOverdue := "overdue"
  const FilterRejected := "rejected"

  /** The status filter; a value outside the six known ones keeps every row. */
  predicate MatchesFilter(l: Loan, filter: string, now: int) {
    if filter == FilterAll then true
    else if filter == FilterPending then !l.approved && l.status != Rejected && l.status != Returned
    else if filter == FilterActive then l.approved && l.status == Active
    else if filter == FilterReturned then l.status == Returned
    else if filter == FilterOverdue then l.approved && l.status == Active && l.dueDate < now
    else if filter == FilterRejected then l.status == Rejected
    else true
  }

  predicate KnownFilter(filter: string) {
    filter in {FilterAll, FilterPending, FilterActive, FilterReturned, FilterOverdue, FilterRejected}
  }

  /** The search box: case-folded substring of the book title or of the borrower's name. */
  predicate MatchesSearch(item: ListedLoan, books: seq<Book>, search: string) {
    ContainsFolded(GetBookTitle(books, item.loan.bookId), search) || ContainsFolded(item.userName.GetOr(""), search)
  }

  /** The rows the table lists, in the order received. */
  function FilteredLoans(items: seq<ListedLoan>, books: seq<Book>, search: string, filter: string, now: int): (r: seq<ListedLoan>)
    ensures forall x :: x in r <==> x in items && MatchesSearch(x, books, search) && MatchesFilter(x.loan, filter, now)
    ensures Subsequence(r, items)
  {
    Filter(items, (x: ListedLoan) => MatchesSearch(x, books, search) && MatchesFilter(x.loan, filter, now))
  }

  /** With an empty search and the "all" filter every row is listed, in order. */
  lemma EmptySearchListsAll(items: seq<ListedLoan>, books: seq<Book>, now: int)
    ensures FilteredLoans(items, books, "", FilterAll, now) == items
  {
    forall x | x in items
      ensures MatchesSearch(x, books, "")
    {
      ContainsFoldedEmpty(GetBookTitle(books, x.loan.bookId));
    }
    FilterAllKept(items, (x: ListedLoan) => MatchesSearch(x, books, "") && MatchesFilter(x.loan, FilterAll, now));
  }

  /** An unknown filter value lists exactly what "all" lists. */
  lemma UnknownFilterListsAll(items: seq<ListedLoan>, books: seq<Book>, search: string, filter: string, now: int)
    requires !KnownFilter(filter)
    ensures FilteredLoans(items, books, search, filter, now) == FilteredLoans(items, books, search, FilterAll, now)
  {
    FilterExt(items,
      (x: ListedLoan) => MatchesSearch(x, books, search) && MatchesFilter(x.loan, filter, now),
      (x: ListedLoan) => MatchesSearch(x, books, search) && MatchesFilter(x.loan, FilterAll, now));
  }

  /** Every overdue row is also listed under "active", and an active row is overdue exactly when past due. */
  lemma OverdueWithinActive(items: seq<ListedLoan>, books: seq<Book>, search: string, now: int)
    ensures forall x :: x in FilteredLoans(items, books, search, FilterOverdue, now) <==>
                        x in FilteredLoans(items, books, search, FilterActive, now) && x.loan.dueDate < now
  {
  }

  /** The row offers approve and reject buttons. */
  predicate ShowsApproveReject(l: Loan) {
    !l.approved && l.status != Rejected && l.status != Returned
  }

  /** The row offers the return button. */
  predicate ShowsReturn(l: Loan) {
    l.approved && l.status == Active
  }

  /**
   * The buttons follow the filters: a row offers approve/reject exactly when
   * it is listed under "pending", the return button exactly when it is listed
   * under "active", and never both.
   */
  lemma ButtonsFollowFilters(l: Loan, now: int)
    ensures ShowsApproveReject(l) <==> MatchesFilter(l, FilterPending, now)
    ensures ShowsReturn(l) <==> MatchesFilter(l, FilterActive, now)
    ensures !(ShowsApproveReject(l) && ShowsReturn(l))
  {
  }

  /**
   * Except on an approved row whose status says pending, the badge agrees
   * with the filters: "Pendiente" exactly for rows under "pending",
   * "Retrasado" exactly for rows under "overdue", "Activo" or "Retrasado"
   * exactly for rows under "active". This covers the unapproved active row,
   * which shows "Pendiente" even past its due date.
   */
  lemma BadgeAgreesWithFilters(l: Loan, now: int)
    requires !(l.approved && l.status == Pending)
    ensures StatusBadge(l, now) == PendingBadge <==> MatchesFilter(l, FilterPending, now)
    ensures StatusBadge(l, now) == OverdueBadge <==> MatchesFilter(l, FilterOverdue, now)
    ensures StatusBadge(l, now) in {ActiveBadge, OverdueBadge} <==> MatchesFilter(l, FilterActive, now)
    ensures StatusBadge(l, now) == ReturnedBadge <==> MatchesFilter(l, FilterReturned, now)
    ensures StatusBadge(l, now) == RejectedBadge <==> MatchesFilter(l, FilterRejected, now)
  {
  }

  /**
   * An approved row whose status says pending, which no action produces,
   * shows "Pendiente" yet is listed under no status filter but "all" and
   * offers no button.
   */
  lemma ApprovedPendingRowIsStranded(l: Loan, now: int)
    requires l.approved && l.status == Pending
    ensures StatusBadge(l, now) == PendingBadge
    ensures forall f :: KnownFilter(f) && f != FilterAll ==> !MatchesFilter(l, f, now)
    ensures !ShowsApproveReject(l) && !ShowsReturn(l)
  {
  }

  /** The table's local state: the row whose reject box is open, its reason, and the row busy with a call. */
  datatype TableUi = TableUi(rejectingId: Option<LoanId>, rejectReason: string, loading: Option<LoanId>)

  /** What a handler leaves behind: the screen state, the alert it raised, the store, and whether it called the server. */
  datatype Outcome = Outcome(ui: TableUi, alert: Option<string>, store: State, called: bool)

  /** The alert a reply raises: its error, if any. */
  function AlertOf(reply: Reply): (r: Option<string>)
    ensures r.Some? <==> reply.Error?
    ensures r.Some? ==> r.value == reply.error
  {
    if reply.Error? then Some(reply.error) else None
  }

  /**
   * `handleReject`: a blank reason raises an alert and stops before any
   * call. Otherwise the untrimmed reason goes to `rejectLoan`; its error is
   * alerted, and the reject box, the reason and the busy marker are cleared
   * whether or not the call failed.
   */
  function HandleReject(ui: TableUi, loanId: LoanId, s: State, env: Env): (r: Outcome)
    ensures IsBlank(ui.rejectReason) ==> r == Outcome(ui, Some(MsgReasonRequired), s, false)
    ensures !IsBlank(ui.rejectReason) ==>
              && r.called
              && r.ui == TableUi(None, "", None)
              && r.store == RejectLoan(s, loanId, ui.rejectReason, env).state
              && (r.alert.Some? <==> !RejectLoan(s, loanId, ui.rejectReason, env).reply.Done?)
  {
    if IsBlank(ui.rejectReason) then Outcome(ui, Some(MsgReasonRequired), s, false)
    else
      var step := RejectLoan(s, loanId, ui.rejectReason, env);
      Outcome(TableUi(None, "", None), AlertOf(step.reply), step.state, true)
  }

  /** A reason made only of white space never reaches the server, so the store and the stock are untouched. */
  lemma BlankReasonLeavesStoreAlone(ui: TableUi, loanId: LoanId, s: State, env: Env)
    requires forall i :: 0 <= i < |ui.rejectReason| ==> IsSpace(ui.rejectReason[i])
    ensures HandleReject(ui, loanId, s, env).store == s
    ensures !HandleReject(ui, loanId, s, env).called
  {
    BlankIffAllSpace(ui.rejectReason);
  }

  /** `handleApprove`: calls `approveLoan`, alerts its error, and clears the busy marker. */
  function HandleApprove(ui: TableUi, loanId: LoanId, s: State, env: Env): (r: Outcome)
    ensures r.called && r.ui == ui.(loading := None)
    ensures r.store == ApproveLoan(s, loanId, env).state
    ensures r.alert.Some? <==> !(CheckIsAdmin(s) && env.primaryOk)
  {
    var step := ApproveLoan(s, loanId, env);
    Outcome(ui.(loading := None), AlertOf(step.reply), step.state, true)
  }

  /** `handleReturn`: calls `markAsReturned`, alerts its error, and clears the busy marker. */
  function HandleReturn(ui: TableUi, loanId: LoanId, s: State, env: Env): (r: Outcome)
    ensures r.called && r.ui == ui.(loading := None)
    ensures r.store == MarkAsReturned(s, loanId, env).state
    ensures r.alert.Some? <==> !(CheckIsAdmin(s) && env.primaryOk)
    ensures r.store.inventory == s.inventory
  {
    var step := MarkAsReturned(s, loanId, env);
    Outcome(ui.(loading := None), AlertOf(step.reply), step.state, true)
  }
}
