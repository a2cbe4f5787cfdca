/**
 * The abstract database the portal's server actions read and write:
 * `books_inventory` (one stock row per book), `book_loans` (the loan table),
 * `admin_users` (the administrator registry) and the signed-in user.
 *
 * The loan table is a sequence of rows rather than a map because the
 * actions query it the way the database client does: a selection by column
 * values may match several rows, `.single()` / `.maybeSingle()` hand back
 * data only when exactly one row matched, and an update by `id` rewrites
 * every matching row.
 */
module Store {
  import opened Common

  type UserId = string
  type BookId = string
  type LoanId = string
  type Role = string

  /** The four values the actions write into `book_loans.status`. */
  datatype Status = Pending | Active | Returned | Rejected

  /**
   * One `book_loans` row. `status` and `approved` are independent columns:
   * the actions write them separately and the screens read both.
   * Timestamps are milliseconds since the epoch.
   */
  datatype Loan = Loan(
    id: LoanId,
    userId: UserId,
    bookId: BookId,
    status: Status,
    approved: bool,
    dueDate: int,
    returnDate: Option<int>,
    approvedBy: Option<UserId>,
    approvedAt: Option<int>,
    rejectionReason: Option<string>)

  /** One `books_inventory` row: `total_copies` and `available_copies`. */
  datatype Stock = Stock(total: int, available: int)

  datatype State = State(
    inventory: map<BookId, Stock>,
    loans: seq<Loan>,
    admins: map<UserId, Role>,
    user: Option<UserId>)

  /**
   * What the outside world contributes to one action: the clock, the id the
   * database generates for an inserted loan, whether the write whose error
   * the action checks succeeds (`primaryOk`), and whether the write whose
   * error the action ignores takes effect (`secondaryOk`).
   */
  datatype Env = Env(now: int, newId: LoanId, primaryOk: bool, secondaryOk: bool)

  /** `{ success: true, message? }` or `{ error }`. */
  datatype Reply = Done(message: string) | Error(error: string)

  /** The reply of an action together with the store it leaves behind. */
  datatype Step = Step(reply: Reply, state: State)

  /** `dueDate.setDate(dueDate.getDate() + 14)`. */
  const LoanPeriodMs: int := 14 * DayMs

  const MsgUserNotSignedIn := "Usuario no autenticado"
  const MsgNoCopies := "No hay copias disponibles"
  const MsgAlreadyBorrowed := "Ya tienes este libro en préstamo"
  const MsgBorrowFailed := "Error al procesar el préstamo"
  const MsgBorrowRequested := "Solicitud enviada. Un administrador debe aprobar tu préstamo."
  const MsgReturnFailed := "Error al devolver el libro"
  const MsgNotSignedIn := "No autenticado"
  const MsgNotAdmin := "No tienes permisos de administrador"
  const MsgApproveFailed := "Error al aprobar el préstamo"
  const MsgRejectFailed := "Error al rechazar el préstamo"
  const MsgMarkReturnedFailed := "Error al marcar como devuelto"
  const MsgUpdateStockFailed := "Error al actualizar inventario"
  const MsgCreateStockFailed := "Error al crear inventario"

  /**
   * `.single()` / `.maybeSingle()` on a selection: the row when exactly one
   * matched; with none, or with several (an error the caller ignores), null.
   */
  function Single(rows: seq<Loan>): (r: Option<Loan>)
    ensures r.Some? <==> |rows| == 1
    ensures r.Some? ==> r.value == rows[0]
  {
    if |rows| == 1 then Some(rows[0]) else None
  }

  /** `UPDATE book_loans SET ... WHERE <selected>`: rewrite every selected row. */
  function UpdateWhere(rows: seq<Loan>, selected: Loan -> bool, change: Loan -> Loan): (r: seq<Loan>)
    ensures |r| == |rows|
    ensures forall i :: 0 <= i < |rows| ==> r[i] == if selected(rows[i]) then change(rows[i]) else rows[i]
  {
    seq(|rows|, i requires 0 <= i < |rows| => if selected(rows[i]) then change(rows[i]) else rows[i])
  }

  /** A row after either return path: status "returned", `return_date` now, nothing else. */
  function ReturnedRow(l: Loan, now: int): Loan {
    l.(status := Returned, returnDate := Some(now))
  }

  /** The selection `.eq("id", id)`. */
  function WithId(id: LoanId): Loan -> bool {
    (l: Loan) => l.id == id
  }

  /** Some row of the loan table already carries this id. */
  predicate IdTaken(rows: seq<Loan>, id: LoanId) {
    exists i | 0 <= i < |rows| :: rows[i].id == id
  }
}
