/**
 * The administrator's inventory screen: the catalogue filtered by a search
 * over title and author and by career, the career label of each row, and the
 * quantity editor that saves through `updateInventory`.
 */
module InventoryManagement {
  import opened Common
  import opened Store
  import opened Catalog
  import opened Access
  import opened AdminActions
  import opened JsNumber

  const CategoryAll := "all"
  const MsgInventorySaved := "Inventario actualizado correctamente"
  /** The quantity the editor opens with and every row shows when not being edited. */
  const PlaceholderQuantity := 3

  /** Case-folded substring of the title or of the author, and the chosen career (or "all"). */
  predicate MatchesBook(b: Book, search: string, categoryFilter: string) {
    && (ContainsFolded(b.title, search) || ContainsFolded(b.author, search))
    && (categoryFilter == CategoryAll || b.category == categoryFilter)
  }

  /** The rows the table lists, in catalogue order. */
  function FilterBooks(books: seq<Book>, search: string, categoryFilter: string): (r: seq<Book>)
    ensures forall b :: b in r <==> b in books && MatchesBook(b, search, categoryFilter)
    ensures Subsequence(r, books)
  {
    Filter(books, (b: Book) => MatchesBook(b, search, categoryFilter))
  }

  /** With an empty search and every career selected the whole catalogue is listed. */
  lemma EmptySearchListsCatalogue(books: seq<Book>)
    ensures FilterBooks(books, "", CategoryAll) == books
  {
    forall b | b in books
      ensures MatchesBook(b, "", CategoryAll)
    {
      ContainsFoldedEmpty(b.title);
    }
    FilterAllKept(books, (b: Book) => MatchesBook(b, "", CategoryAll));
  }

  /** Narrowing to a career lists a subset of what "all" lists, each row of that career. */
  lemma CareerNarrows(books: seq<Book>, search: string, career: string)
    ensures forall b :: b in FilterBooks(books, search, career) ==>
                        b in FilterBooks(books, search, CategoryAll) && (career == CategoryAll || b.category == career)
  {
  }

  /**
   * The career label: the name of the first category with that id, or the
   * id itself when there is none or its name is empty.
   */
  function GetCategoryName(categories: seq<Category>, categoryId: string): (r: string)
    ensures (forall c :: c in categories ==> c.id != categoryId) ==> r == categoryId
    ensures forall i :: 0 <= i < |categories| && categories[i].id == categoryId &&
                        (forall j :: 0 <= j < i ==> categories[j].id != categoryId) ==>
                        r == if categories[i].name == "" then categoryId else categories[i].name
  {
    match FirstIndex(categories, (c: Category) => c.id == categoryId)
    case None => categoryId
    case Some(i) => if categories[i].name == "" then categoryId else categories[i].name
  }

  /** The editor's state: which row is being edited, the quantity in its field, and whether a save is running. */
  datatype EditUi = EditUi(editing: Option<BookId>, quantity: int, loading: bool)

  /** "Editar": open the editor on `bookId` with the field at 3, not at the stored total. */
  function StartEdit(ui: EditUi, bookId: BookId): (r: EditUi)
    ensures r.editing == Some(bookId) && r.quantity == PlaceholderQuantity && r.loading == ui.loading
  {
    EditUi(Some(bookId), PlaceholderQuantity, ui.loading)
  }

  /**
   * Typing into the field: `parseInt(value) || 0`. A numeral, alone or
   * followed by a fraction, gives its integer; a cleared field or text with
   * no digit at all gives 0.
   */
  function TypeQuantity(ui: EditUi, text: string): (r: EditUi)
    ensures r.editing == ui.editing && r.loading == ui.loading
    ensures forall n :: text == ShowInt(n) ==> r.quantity == n
    ensures forall n, tail :: (tail == [] || tail[0] == '.') && text == ShowInt(n) + tail ==> r.quantity == n
    ensures (forall i :: 0 <= i < |text| ==> DigitOf(text[i]).None?) ==> r.quantity == 0
  {
    forall n | text == ShowInt(n)
      ensures ParseQuantity(text) == n
    {
      ParseQuantityRoundTrip(n);
    }
    forall n, tail | (tail == [] || tail[0] == '.') && text == ShowInt(n) + tail
      ensures ParseQuantity(text) == n
    {
      ParseShowInt(n, tail);
    }
    forall t | t == text && forall i :: 0 <= i < |t| ==> DigitOf(t[i]).None?
      ensures ParseQuantity(t) == 0
    {
      NoDigitsReadsZero(t);
    }
    ui.(quantity := ParseQuantity(text))
  }

  /** "Cancelar": close the editor and keep the field's value. */
  function CancelEdit(ui: EditUi): (r: EditUi)
    ensures r.editing.None? && r.quantity == ui.quantity && r.loading == ui.loading
  {
    ui.(editing := None)
  }

  /** The quantity a row shows: the field on the row being edited, 3 on every other row. */
  function ShownQuantity(ui: EditUi, bookId: BookId): (r: int)
    ensures ui.editing != Some(bookId) ==> r == PlaceholderQuantity
    ensures ui.editing == Some(bookId) ==> r == ui.quantity
  {
    if ui.editing == Some(bookId) then ui.quantity else PlaceholderQuantity
  }

  datatype SaveOutcome = SaveOutcome(ui: EditUi, alert: string, store: State)

  /**
   * "Guardar": send the field's value to `updateInventory` (unchecked, so a
   * negative number goes through), alert the error or a confirmation, then
   * close the editor and clear the busy flag whether or not it failed.
   */
  function SaveQuantity(ui: EditUi, bookId: BookId, s: State, env: Env): (r: SaveOutcome)
    ensures r.ui == EditUi(None, ui.quantity, false)
    ensures r.store == UpdateInventory(s, bookId, ui.quantity, env).state
    ensures r.alert == MsgInventorySaved <==> CheckIsAdmin(s) && env.primaryOk
    ensures r.alert != MsgInventorySaved ==> r.store == s
  {
    var step := UpdateInventory(s, bookId, ui.quantity, env);
    SaveOutcome(EditUi(None, ui.quantity, false), if step.reply.Error? then step.reply.error else MsgInventorySaved, step.state)
  }

  /** Opening the editor and saving at once writes a total of 3 copies, not the stored total. */
  lemma EditThenSaveWritesThree(ui: EditUi, bookId: BookId, s: State, env: Env)
    requires CheckIsAdmin(s) && env.primaryOk
    ensures SaveQuantity(StartEdit(ui, bookId), bookId, s, env).store.inventory[bookId].total == PlaceholderQuantity
  {
  }

  /** Typing the numeral of `n` and saving writes a total of exactly `n`. */
  lemma TypeThenSaveWritesTyped(ui: EditUi, bookId: BookId, n: int, s: State, env: Env)
    requires CheckIsAdmin(s) && env.primaryOk
    ensures SaveQuantity(TypeQuantity(StartEdit(ui, bookId), ShowInt(n)), bookId, s, env).store.inventory[bookId].total == n
  {
  }
}
