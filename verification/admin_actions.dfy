/**
 * The administrator server actions on loans and stock. Each opens with the
 * administrator gate and then issues its writes without looking at the
 * loan's current status.
 */
module AdminActions {
  import opened Common
  import opened Store
  import opened Access

  /** The row after approval by `admin`. */
  function ApprovedRow(l: Loan, admin: UserId, now: int): Loan {
    l.(approved := true, approvedBy := Some(admin), approvedAt := Some(now), status := Active)
  }

  /** The row after rejection by `admin` with `reason`. */
  function RejectedRow(l: Loan, admin: UserId, reason: string, now: int): Loan {
    l.(approved := false, status := Rejected, rejectionReason := Some(reason), approvedBy := Some(admin), approvedAt := Some(now))
  }

  /**
   * The stored procedure `increment_available_copies`, whose body is not part
   * of this model: assumed to add one to the book's available copies when the
   * book has a stock row, and to do nothing otherwise.
   */
  function IncrementAvailable(inventory: map<BookId, Stock>, bookId: BookId): (r: map<BookId, Stock>)
    ensures r.Keys == inventory.Keys
    ensures bookId in inventory ==> r[bookId] == inventory[bookId].(available := inventory[bookId].available + 1)
    ensures forall b :: b in inventory && b != bookId ==> r[b] == inventory[b]
  {
    if bookId in inventory then inventory[bookId := inventory[bookId].(available := inventory[bookId].available + 1)]
    else inventory
  }

  /**
   * `approveLoan`: after the gate, sets approved, approver, approval time and
   * status "active" on every row with that id, whatever its status. Stock is
   * not touched; an unknown id changes nothing and still succeeds.
   */
  function ApproveLoan(s: State, loanId: LoanId, env: Env): (r: Step)
    ensures AdminGate(s).Some? ==> r == Step(Error(AdminGate(s).value), s)
    ensures AdminGate(s).None? && !env.primaryOk ==> r == Step(Error(MsgApproveFailed), s)
    ensures r.reply.Done? <==> CheckIsAdmin(s) && env.primaryOk
    ensures r.state.inventory == s.inventory && r.state.admins == s.admins && r.state.user == s.user
    ensures |r.state.loans| == |s.loans|
    ensures r.reply.Done? ==>
              forall i :: 0 <= i < |s.loans| ==>
                r.state.loans[i] == if s.loans[i].id == loanId then ApprovedRow(s.loans[i], s.user.value, env.now) else s.loans[i]
  {
    match AdminGate(s)
    case Some(e) => Step(Error(e), s)
    case None =>
      if !env.primaryOk then Step(Error(MsgApproveFailed), s)
      else
        var admin := s.user.value;
        Step(Done(""), s.(loans := UpdateWhere(s.loans, WithId(loanId), (l: Loan) => ApprovedRow(l, admin, env.now))))
  }

  /** The row `rejectLoan` reads first: `.single()` over the rows with that id. */
  function RejectTarget(s: State, loanId: LoanId): (r: Option<Loan>)
    ensures r.Some? ==> r.value in s.loans && r.value.id == loanId
  {
    Single(Filter(s.loans, WithId(loanId)))
  }

  /**
   * `rejectLoan`: after the gate, reads the loan and, when it exists, returns
   * a copy of its book to stock through the stored procedure (whose error is
   * ignored: `secondaryOk`). Only then does it mark every row with that id
   * rejected with the given reason. Neither the prior status nor the reason
   * is checked, and a failing update does not undo the increment.
   */
  function RejectLoan(s: State, loanId: LoanId, reason: string, env: Env): (r: Step)
    ensures AdminGate(s).Some? ==> r == Step(Error(AdminGate(s).value), s)
    ensures r.reply.Done? <==> CheckIsAdmin(s) && env.primaryOk
    ensures r.reply.Error? && CheckIsAdmin(s) ==> r.reply.error == MsgRejectFailed && r.state.loans == s.loans
    ensures r.state.admins == s.admins && r.state.user == s.user
    ensures CheckIsAdmin(s) ==>
              r.state.inventory == if RejectTarget(s, loanId).Some? && env.secondaryOk
                                   then IncrementAvailable(s.inventory, RejectTarget(s, loanId).value.bookId)
                                   else s.inventory
    ensures |r.state.loans| == |s.loans|
    ensures r.reply.Done? ==>
              forall i :: 0 <= i < |s.loans| ==>
                r.state.loans[i] == if s.loans[i].id == loanId then RejectedRow(s.loans[i], s.user.value, reason, env.now) else s.loans[i]
  {
    match AdminGate(s)
    case Some(e) => Step(Error(e), s)
    case None =>
      var admin := s.user.value;
      var target := RejectTarget(s, loanId);
      var inventory := if target.Some? && env.secondaryOk then IncrementAvailable(s.inventory, target.value.bookId) else s.inventory;
      if !env.primaryOk then Step(Error(MsgRejectFailed), s.(inventory := inventory))
      else
        var loans := UpdateWhere(s.loans, WithId(loanId), (l: Loan) => RejectedRow(l, admin, reason, env.now));
        Step(Done(""), s.(inventory := inventory, loans := loans))
  }

  /**
   * `markAsReturned`: after the gate, sets status "returned" and the return
   * date on every row with that id, whatever its status. Stock is not touched.
   */
  function MarkAsReturned(s: State, loanId: LoanId, env: Env): (r: Step)
    ensures AdminGate(s).Some? ==> r == Step(Error(AdminGate(s).value), s)
    ensures AdminGate(s).None? && !env.primaryOk ==> r == Step(Error(MsgMarkReturnedFailed), s)
    ensures r.reply.Done? <==> CheckIsAdmin(s) && env.primaryOk
    ensures r.state.inventory == s.inventory && r.state.admins == s.admins && r.state.user == s.user
    ensures |r.state.loans| == |s.loans|
    ensures r.reply.Done? ==>
              forall i :: 0 <= i < |s.loans| ==>
                r.state.loans[i] == if s.loans[i].id == loanId then ReturnedRow(s.loans[i], env.now) else s.loans[i]
  {
    match AdminGate(s)
    case Some(e) => Step(Error(e), s)
    case None =>
      if !env.primaryOk then Step(Error(MsgMarkReturnedFailed), s)
      else Step(Done(""), s.(loans := UpdateWhere(s.loans, WithId(loanId), (l: Loan) => ReturnedRow(l, env.now))))
  }

  /**
   * The stock row `updateInventory` writes over an existing one: the total
   * becomes `n` and the available count moves by the same difference,
   * clamped at zero.
   */
  function Resized(prior: Stock, n: int): (r: Stock)
    ensures r.total == n
    ensures r.available >= 0
    ensures r.available - prior.available == n - prior.total || (r.available == 0 && prior.available + n - prior.total < 0)
  {
    Stock(n, Max(0, prior.available + n - prior.total))
  }

  /**
   * `updateInventory`: after the gate, resizes an existing stock row, or
   * inserts one with every copy available. `n` is not checked to be
   * non-negative.
   */
  function UpdateInventory(s: State, bookId: BookId, n: int, env: Env): (r: Step)
    ensures AdminGate(s).Some? ==> r == Step(Error(AdminGate(s).value), s)
    ensures r.reply.Done? <==> CheckIsAdmin(s) && env.primaryOk
    ensures r.reply.Error? ==> r.state == s
    ensures CheckIsAdmin(s) && !env.primaryOk ==>
              r.reply.error == if bookId in s.inventory then MsgUpdateStockFailed else MsgCreateStockFailed
    ensures r.state.loans == s.loans && r.state.admins == s.admins && r.state.user == s.user
    ensures r.reply.Done? ==> r.state.inventory.Keys == s.inventory.Keys + {bookId}
    ensures r.reply.Done? ==> forall b :: b in s.inventory && b != bookId ==> r.state.inventory[b] == s.inventory[b]
    ensures r.reply.Done? ==> r.state.inventory[bookId].total == n
    ensures r.reply.Done? && bookId in s.inventory ==> r.state.inventory[bookId] == Resized(s.inventory[bookId], n)
    ensures r.reply.Done? && bookId in s.inventory ==> r.state.inventory[bookId].available >= 0
    ensures r.reply.Done? && bookId in s.inventory && n == s.inventory[bookId].total && s.inventory[bookId].available >= 0 ==>
              r.state.inventory[bookId] == s.inventory[bookId]
    ensures r.reply.Done? && bookId !in s.inventory ==> r.state.inventory[bookId] == Stock(n, n)
  {
    match AdminGate(s)
    case Some(e) => Step(Error(e), s)
    case None =>
      if bookId in s.inventory then
        if !env.primaryOk then Step(Error(MsgUpdateStockFailed), s)
        else Step(Done(""), s.(inventory := s.inventory[bookId := Resized(s.inventory[bookId], n)]))
      else
        if !env.primaryOk then Step(Error(MsgCreateStockFailed), s)
        else Step(Done(""), s.(inventory := s.inventory[bookId := Stock(n, n)]))
  }

  /**
   * Saving the same total twice leaves the store as saving it once, unless
   * the first save inserted a row with a negative total: the second save then
   * clamps the available count from `n` up to 0.
   */
  lemma UpdateInventoryIdempotent(s: State, bookId: BookId, n: int, env: Env)
    requires UpdateInventory(s, bookId, n, env).reply.Done?
    requires bookId in s.inventory || n >= 0
    ensures UpdateInventory(UpdateInventory(s, bookId, n, env).state, bookId, n, env)
            == UpdateInventory(s, bookId, n, env)
  {
    var s1 := UpdateInventory(s, bookId, n, env).state;
    assert s1.inventory[bookId].total == n;
    assert s1.inventory[bookId := s1.inventory[bookId]] == s1.inventory;
  }

  /**
   * A resize keeps a well-formed row well-formed: from `0 <= a <= t` and a
   * non-negative new total `n`, the new available count lies in `[0, n]`.
   */
  lemma ResizeKeepsBounds(prior: Stock, n: int)
    requires 0 <= prior.available <= prior.total && n >= 0
    ensures 0 <= Resized(prior, n).available <= Resized(prior, n).total
  {
  }
}
