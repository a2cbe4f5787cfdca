/**
 * The loan lifecycle as a whole: the server actions as one transition
 * relation over the store, the invariants the actions keep, and the
 * multi-step consequences of what each action does to the stock.
 */
module Lifecycle {
  import opened Common
  import opened Store
  import opened Access
  import opened BookLoans
  import opened AdminActions

  /** One request to the server actions, or a change of the signed-in user. */
  datatype Action =
    | Borrow(bookId: BookId)
    | Return(loanId: LoanId)
    | Approve(loanId: LoanId)
    | Reject(loanId: LoanId, reason: string)
    | MarkReturned(loanId: LoanId)
    | Adjust(bookId: BookId, total: int)
    | SignIn(user: Option<UserId>)

  function Apply(s: State, a: Action, env: Env): Step {
    match a
    case Borrow(b) => BorrowBook(s, b, env)
    case Return(id) => ReturnBook(s, id, env)
    case Approve(id) => ApproveLoan(s, id, env)
    case Reject(id, reason) => RejectLoan(s, id, reason, env)
    case MarkReturned(id) => MarkAsReturned(s, id, env)
    case Adjust(b, n) => UpdateInventory(s, b, n, env)
    case SignIn(u) => Step(Done(""), s.(user := u))
  }

  /** The store after a sequence of requests, each atomic. */
  function Run(s: State, trace: seq<(Action, Env)>): State
    decreases |trace|
  {
    if trace == [] then s else Run(Apply(s, trace[0].0, trace[0].1).state, trace[1..])
  }

  // ---------------------------------------------------------------------------
  // Status / approved coherence
  // ---------------------------------------------------------------------------

  /**
   * The combinations of `status` and `approved` the actions produce: an
   * active loan is approved and a pending one is not. Returned and rejected
   * rows may carry either flag.
   */
  predicate Coherent(l: Loan) {
    (l.status == Active ==> l.approved) && (l.status == Pending ==> !l.approved)
  }

  predicate AllCoherent(loans: seq<Loan>) {
    forall i :: 0 <= i < |loans| ==> Coherent(loans[i])
  }

  /** Every action keeps every loan row coherent. */
  lemma ApplyKeepsCoherent(s: State, a: Action, env: Env)
    requires AllCoherent(s.loans)
    ensures AllCoherent(Apply(s, a, env).state.loans)
  {
    var r := Apply(s, a, env);
    match a
    case Borrow(b) =>
      if r.reply.Done? {
        assert r.state.loans == s.loans + [RequestedLoan(s.user.value, b, env)];
        assert forall i :: 0 <= i < |s.loans| ==> r.state.loans[i] == s.loans[i];
      }
    case Return(id) =>
    case Approve(id) =>
    case Reject(id, reason) =>
    case MarkReturned(id) =>
    case Adjust(b, n) =>
    case SignIn(u) =>
  }

  /** From a coherent store, every sequence of requests leads to a coherent store. */
  lemma {:induction false} RunKeepsCoherent(s: State, trace: seq<(Action, Env)>)
    requires AllCoherent(s.loans)
    ensures AllCoherent(Run(s, trace).loans)
    decreases |trace|
  {
    if trace != [] {
      ApplyKeepsCoherent(s, trace[0].0, trace[0].1);
      RunKeepsCoherent(Apply(s, trace[0].0, trace[0].1).state, trace[1..]);
    }
  }

  // ---------------------------------------------------------------------------
  // Available copies stay non-negative, except through a negative insert
  // ---------------------------------------------------------------------------

  predicate StockNonNegative(inventory: map<BookId, Stock>) {
    forall b :: b in inventory ==> inventory[b].available >= 0
  }

  /** The request does not save a negative total for a book that has no stock row yet. */
  predicate InsertsNonNegative(s: State, a: Action) {
    a.Adjust? && a.bookId !in s.inventory ==> a.total >= 0
  }

  /**
   * No request of the run inserts a stock row with a negative total; which
   * saves are inserts depends on the stock the earlier requests left.
   */
  predicate NoNegativeInsert(s: State, trace: seq<(Action, Env)>)
    decreases |trace|
  {
    trace == [] ||
    (InsertsNonNegative(s, trace[0].0) && NoNegativeInsert(Apply(s, trace[0].0, trace[0].1).state, trace[1..]))
  }

  /**
   * Borrowing only decrements a positive count, rejecting increments, the
   * resize clamps at zero; only inserting a row with a negative total
   * produces a negative count.
   */
  lemma ApplyKeepsStockNonNegative(s: State, a: Action, env: Env)
    requires StockNonNegative(s.inventory)
    requires InsertsNonNegative(s, a)
    ensures StockNonNegative(Apply(s, a, env).state.inventory)
  {
    var r := Apply(s, a, env);
    match a
    case Borrow(b) =>
    case Return(id) =>
    case Approve(id) =>
    case Reject(id, reason) =>
      if CheckIsAdmin(s) && RejectTarget(s, id).Some? && env.secondaryOk {
        var t := RejectTarget(s, id).value.bookId;
        assert forall b :: b in r.state.inventory ==> b == t || r.state.inventory[b] == s.inventory[b];
      }
    case MarkReturned(id) =>
    case Adjust(b, n) =>
    case SignIn(u) =>
  }

  lemma {:induction false} RunKeepsStockNonNegative(s: State, trace: seq<(Action, Env)>)
    requires StockNonNegative(s.inventory)
    requires NoNegativeInsert(s, trace)
    ensures StockNonNegative(Run(s, trace).inventory)
    decreases |trace|
  {
    if trace != [] {
      ApplyKeepsStockNonNegative(s, trace[0].0, trace[0].1);
      RunKeepsStockNonNegative(Apply(s, trace[0].0, trace[0].1).state, trace[1..]);
    }
  }

  // ---------------------------------------------------------------------------
  // Round trips of the stock
  // ---------------------------------------------------------------------------

  /** A fresh id selects no row. */
  lemma NoRowWithFreshId(rows: seq<Loan>, id: LoanId)
    requires !IdTaken(rows, id)
    ensures Filter(rows, WithId(id)) == []
  {
  }

  /** After a successful request, its new id names exactly the new row. */
  lemma NewLoanIsOnlyRowWithItsId(s: State, bookId: BookId, env: Env)
    requires BorrowBook(s, bookId, env).reply.Done?
    ensures RejectTarget(BorrowBook(s, bookId, env).state, env.newId)
            == Some(RequestedLoan(s.user.value, bookId, env))
  {
    var s1 := BorrowBook(s, bookId, env).state;
    var row := RequestedLoan(s.user.value, bookId, env);
    assert s1.loans == s.loans + [row];
    FilterAppend(s.loans, [row], WithId(env.newId));
    NoRowWithFreshId(s.loans, env.newId);
    assert Filter([row], WithId(env.newId)) == [row] by {
      assert [row][1..] == [];
    }
  }

  /**
   * A request followed by its rejection gives the copy back: with both stock
   * writes taking effect, the book's available count is what it was before
   * the request, whether or not the rejection's own update succeeds.
   */
  lemma BorrowThenRejectRestoresStock(s: State, bookId: BookId, env1: Env, admin: UserId, reason: string, env2: Env)
    requires BorrowBook(s, bookId, env1).reply.Done?
    requires env1.secondaryOk && env2.secondaryOk
    requires admin in s.admins
    ensures var s1 := BorrowBook(s, bookId, env1).state.(user := Some(admin));
            RejectLoan(s1, env1.newId, reason, env2).state.inventory == s.inventory
  {
    var s1 := BorrowBook(s, bookId, env1).state;
    NewLoanIsOnlyRowWithItsId(s, bookId, env1);
    var s1a := s1.(user := Some(admin));
    assert CheckIsAdmin(s1a);
    assert RejectTarget(s1a, env1.newId) == RejectTarget(s1, env1.newId);
    var inv1 := s1.inventory;
    assert inv1 == Decremented(s.inventory, bookId);
    IncrementUndoesDecrement(s.inventory, bookId);
  }

  /** The stock after `borrowBook`'s write-back of the count read minus one. */
  function Decremented(inventory: map<BookId, Stock>, bookId: BookId): map<BookId, Stock>
    requires bookId in inventory
  {
    inventory[bookId := inventory[bookId].(available := inventory[bookId].available - 1)]
  }

  lemma IncrementUndoesDecrement(inventory: map<BookId, Stock>, bookId: BookId)
    requires bookId in inventory
    ensures IncrementAvailable(Decremented(inventory, bookId), bookId) == inventory
  {
    var r := IncrementAvailable(Decremented(inventory, bookId), bookId);
    assert r.Keys == inventory.Keys;
    assert forall b :: b in inventory ==> r[b] == inventory[b];
  }

  /**
   * A request, its approval and the administrator's return leave the book
   * one copy short: neither approval nor the return touches the stock.
   * The loan row ends returned and approved.
   */
  lemma BorrowApproveMarkReturnedLosesCopy(s: State, bookId: BookId, env1: Env, admin: UserId, env2: Env, env3: Env)
    requires BorrowBook(s, bookId, env1).reply.Done? && env1.secondaryOk
    requires admin in s.admins && env2.primaryOk && env3.primaryOk
    ensures var s1 := BorrowBook(s, bookId, env1).state.(user := Some(admin));
            var s2 := ApproveLoan(s1, env1.newId, env2).state;
            var s3 := MarkAsReturned(s2, env1.newId, env3).state;
            && s3.inventory[bookId].available == s.inventory[bookId].available - 1
            && s3.inventory[bookId].total == s.inventory[bookId].total
            && s3.loans[|s.loans|].status == Returned
            && s3.loans[|s.loans|].approved
  {
    var s1 := BorrowBook(s, bookId, env1).state.(user := Some(admin));
    var s2 := ApproveLoan(s1, env1.newId, env2).state;
    var s3 := MarkAsReturned(s2, env1.newId, env3).state;
    assert s1.loans[|s.loans|].id == env1.newId;
  }

  /**
   * The same with the reader's own return: the book stays one copy short
   * and the loan row ends returned.
   */
  lemma BorrowApproveReturnLosesCopy(s: State, bookId: BookId, env1: Env, admin: UserId, env2: Env, env3: Env)
    requires BorrowBook(s, bookId, env1).reply.Done? && env1.secondaryOk
    requires admin in s.admins && env2.primaryOk && env3.primaryOk
    ensures var s1 := BorrowBook(s, bookId, env1).state.(user := Some(admin));
            var s2 := ApproveLoan(s1, env1.newId, env2).state.(user := s.user);
            var s3 := ReturnBook(s2, env1.newId, env3).state;
            && s3.inventory[bookId].available == s.inventory[bookId].available - 1
            && s3.loans[|s.loans|].status == Returned
  {
    var s1 := BorrowBook(s, bookId, env1).state.(user := Some(admin));
    var s2 := ApproveLoan(s1, env1.newId, env2).state.(user := s.user);
    assert s1.loans[|s.loans|].id == env1.newId;
    assert s2.loans[|s.loans|].userId == s.user.value;
  }

  // ---------------------------------------------------------------------------
  // Consequences the code admits
  // ---------------------------------------------------------------------------

  /**
   * A pending request does not block another one: with no active loan of the
   * book, the caller's second request succeeds and the table then holds two
   * pending loans of the same reader for the same book.
   */
  lemma PendingDoesNotBlock(s: State, bookId: BookId, env: Env)
    requires s.user.Some? && HasCopies(s, bookId) && env.primaryOk && !IdTaken(s.loans, env.newId)
    requires forall l :: l in s.loans && l.userId == s.user.value && l.bookId == bookId ==> l.status == Pending
    ensures BorrowBook(s, bookId, env).reply.Done?
  {
    var active := CallerLoans(s.loans, s.user.value, bookId, {Active});
    assert forall i :: 0 <= i < |active| ==> active[i] in active;
  }

  /**
   * Rejection never looks at the status: rejecting the same loan twice gives
   * two copies back, pushing the available count above the total.
   */
  lemma RejectTwiceOvershoots()
    ensures var loan := Loan("L", "u", "b", Pending, false, 0, None, None, None, None);
            var s := State(map["b" := Stock(1, 0)], [loan], map["a" := "admin"], Some("a"));
            var env := Env(0, "N", true, true);
            var s2 := RejectLoan(RejectLoan(s, "L", "x", env).state, "L", "x", env).state;
            s2.inventory["b"] == Stock(1, 2)
  {
    var loan := Loan("L", "u", "b", Pending, false, 0, None, None, None, None);
    var s := State(map["b" := Stock(1, 0)], [loan], map["a" := "admin"], Some("a"));
    var env := Env(0, "N", true, true);
    assert Filter([loan], WithId("L")) == [loan] by {
      assert [loan][1..] == [];
    }
    var s1 := RejectLoan(s, "L", "x", env).state;
    assert s1.inventory["b"] == Stock(1, 1);
    var loan1 := RejectedRow(loan, "a", "x", 0);
    assert s1.loans == [loan1];
    assert Filter([loan1], WithId("L")) == [loan1] by {
      assert [loan1][1..] == [];
    }
  }

  /**
   * Saving a negative total for a book without a stock row stores a negative
   * available count, and saving it again clamps that count to zero.
   */
  lemma NegativeInsertThenResave(s: State, bookId: BookId, n: int, env: Env)
    requires CheckIsAdmin(s) && env.primaryOk && bookId !in s.inventory && n < 0
    ensures UpdateInventory(s, bookId, n, env).state.inventory[bookId].available == n
    ensures UpdateInventory(UpdateInventory(s, bookId, n, env).state, bookId, n, env).state.inventory[bookId].available == 0
  {
    var s1 := UpdateInventory(s, bookId, n, env).state;
    assert CheckIsAdmin(s1);
  }
}
