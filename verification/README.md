# Biblioteca Virtual — a Dafny model of the loan and inventory core

Biblioteca Virtual is a university library portal. Students browse a fixed
catalogue of digital books, request loans and follow their loans on their
profile page. Administrators approve, reject and close loans and resize the
stock of each book. This project models that core as pure functions over an
immutable store and proves properties about it:

- the server actions `borrowBook`, `returnBook`, `getUserLoanForBook`,
  `checkIsAdmin`, `getAdminRole`, `approveLoan`, `rejectLoan`,
  `markAsReturned`, `getInventoryStats` and `updateInventory`
  (modules `BookLoans`, `Access`, `AdminActions`, `InventoryStats`);
- every request as one step of a state machine (`Lifecycle`), with the
  invariants those steps keep and the stock drift they cause;
- the screens that read and call those actions: the administrator's loan
  table (`LoanManagement`), dashboard (`AdminDashboard`) and inventory editor
  (`InventoryManagement`, with `Number.parseInt` in `JsNumber`), the borrow
  button (`BorrowButton`), the home page (`HomePage`), the profile page
  (`ProfilePage`), the PDF viewer (`PdfViewer`), and the sign-up,
  password-update and profile-edit forms (`Forms`, `SignUp`,
  `UpdatePassword`, `EditProfile`).

The database is a `State`: the stock rows (`map<BookId, Stock>`), the loan
table (`seq<Loan>`, every row carrying its id), the administrator registry
(`map<UserId, Role>`) and the signed-in user. The loan table is a sequence,
not a map, because the queries behave differently depending on how many rows
match. `.single()` and `.maybeSingle()` return a row only when exactly one
row matches. An update by id changes every row that matches.

The database and the clock are outside the model, so every action takes an
`Env` parameter:
- `now` is the time in milliseconds;
- `newId` is the id the database gives a new loan, and the insert fails when that id is already taken;
- `primaryOk` says whether the write whose error the code checks succeeds;
- `secondaryOk` says whether the write whose error the code ignores succeeds. These are borrow's stock decrement and reject's `increment_available_copies` call.

The body of `increment_available_copies` is not part of this model. It is
taken to add one to `available_copies` of an existing stock row and to do
nothing when the row is missing. Dates are milliseconds since the epoch. A
day is 86 400 000 ms, and a loan is due 14 such days after it was requested.

Behaviours of the code worth knowing:
- approving, rejecting and marking returned do not check the loan's current status;
- `rejectLoan` does not check on the server that the reason is non-empty;
- neither return path restores a copy to the stock;
- a successful borrow writes the loan before it decrements the stock, so the two writes are not all-or-nothing.

## Model

| member | source | states |
|---|---|---|
| Store.Single | app/actions/admin-actions.ts:109 | Query semantics, not a proved property of the portal: a `.single()` read yields a row exactly when one row matches, and then it yields that row |
| Store.UpdateWhere | app/actions/admin-actions.ts:71-79 | Query semantics, not a proved property of the portal: an update keeps the table's length and changes exactly the rows its filter selects |
| Catalog.FindBook | components/admin/loan-management.tsx:42 | `find` fails exactly when no book has the id; otherwise it returns the first book with that id, which is the only one when ids are unique |
| Access.CheckIsAdmin | app/actions/admin-actions.ts:6-18 | No signed-in user is never an administrator; a signed-in user is one exactly when the registry holds a row for them |
| Access.GetAdminRole | app/actions/admin-actions.ts:20-32 | A role is reported only for a registered signed-in user, it is that user's registry role, and it is never empty |
| Access.RoleIffAdmin | app/actions/admin-actions.ts:20-32 | A role is reported exactly when `checkIsAdmin` holds and the registered role is not empty |
| Access.AdminGate | app/actions/admin-actions.ts:60-69 | The gate passes exactly for administrators; it says "No autenticado" without a user and gives the permission error for a user outside the registry |
| BookLoans.BorrowBook | app/actions/book-loans.ts:6-68 | Each refusal (no user, no copies, exactly one active loan of the book) leaves the store unchanged with its own message. Success happens exactly when the insert succeeds; it appends one pending, unapproved loan due in 14 days and decrements the stock only when that write succeeds |
| BookLoans.ReturnBook | app/actions/book-loans.ts:70-99 | Without a user or on a failed write nothing changes. Otherwise exactly the caller's rows with that id become returned, stamped with the return time, and the stock is never touched |
| BookLoans.GetUserLoanForBook | app/actions/book-loans.ts:109-127 | Yields a loan exactly when the caller has exactly one active-or-pending loan of the book; the loan is the caller's, is for that book and has one of those two statuses |
| AdminActions.IncrementAvailable | app/actions/admin-actions.ts:111-114 | The stock of the rejected loan's book gains one available copy; every other row is kept and no row is created |
| AdminActions.ApproveLoan | app/actions/admin-actions.ts:53-88 | The gate's error or the failed write leaves the store unchanged. Success happens exactly for an administrator whose write succeeds; it approves every row with that id (approver, time, status active) whatever its status, and the stock is untouched |
| AdminActions.RejectTarget | app/actions/admin-actions.ts:109-113 | The row that rejecting restocks is in the table and has the requested id |
| AdminActions.RejectLoan | app/actions/admin-actions.ts:90-134 | The gate refuses non-administrators with the store unchanged. For an administrator the stock is incremented before the status write, even when that write then fails. Success rejects every row with the id, keeping the reason untrimmed |
| AdminActions.MarkAsReturned | app/actions/admin-actions.ts:136-169 | The gate's error or the failed write leaves the store unchanged. Success marks every row with that id returned, and the stock is never restored |
| AdminActions.Resized | app/actions/admin-actions.ts:219-221 | The new total is the requested one. Available copies move by the same amount as the total, clamped at zero |
| AdminActions.UpdateInventory | app/actions/admin-actions.ts:198-249 | The gate or a failed write leaves the store unchanged, with the update or creation message. Success sets only that book's total and keeps every other row. An existing row becomes its clamped resize (`Resized`), whose available count stays non-negative; a new row starts with all copies available |
| AdminActions.UpdateInventoryIdempotent | app/actions/admin-actions.ts:217-234 | Saving the same quantity twice gives the same store as saving it once, unless the second save resizes a row created with a negative total |
| AdminActions.ResizeKeepsBounds | app/actions/admin-actions.ts:219-221 | Resizing a row with 0 ≤ available ≤ total to a non-negative total keeps 0 ≤ available ≤ total |
| InventoryStats.Project | app/actions/admin-actions.ts:176 | The stats query yields one projected row per loan, carrying only its book and its status |
| InventoryStats.LoanCounts | app/actions/admin-actions.ts:184-187 | The counts map has a key exactly for the books some row names, each value at least 1 and equal to the number of rows naming that book |
| InventoryStats.GetInventoryStats | app/actions/admin-actions.ts:171-196 | The active count is the number of loan rows with status active, counted independently row by row. As written, the pending count is the number of loan rows of any status. A book missing from the counts map has no loans, and a present entry is that book's number of loans |
| InventoryStats.ActiveCountIsCountStatus | app/actions/admin-actions.ts:180 | The active filter keeps as many rows as the row-by-row count of active statuses |
| InventoryStats.PendingCountIsEveryLoan | app/actions/admin-actions.ts:176-181 | As written, the pending test keeps every projected row, so the pending count equals the number of loan rows of any status |
| InventoryStats.ReturnedLoanCountedPending | app/actions/admin-actions.ts:181 | As written, a single returned loan is counted as pending |
| InventoryStats.PendingLoansCorrected | app/actions/admin-actions.ts:181 | The corrected count reads `approved` from the full row and equals `CountIntended`, the row-by-row number of loans that are pending or unapproved; it is at most the number of rows, and zero exactly when every loan is approved and not pending |
| InventoryStats.IntendedCountIsCountIntended | app/actions/admin-actions.ts:181 | The corrected pending filter keeps exactly as many loans as the row-by-row count of pending or unapproved loans |
| InventoryStats.GetInventoryStatsCorrected | app/actions/admin-actions.ts:171-196 | The corrected statistics keep the active count and the loan counts and replace only the pending count |
| InventoryStats.ReturnedLoanNotPendingCorrected | app/actions/admin-actions.ts:181 | With the correction, an approved returned loan is not pending |
| Lifecycle.ApplyKeepsCoherent | app/actions/book-loans.ts:45-51 | Every request keeps every loan row coherent: an active row is approved and a pending row is not; returned and rejected rows may carry either flag |
| Lifecycle.RunKeepsCoherent | app/actions/admin-actions.ts:71-125 | Every sequence of requests from a coherent table leads to a coherent table |
| Lifecycle.ApplyKeepsStockNonNegative | app/actions/admin-actions.ts:217-245 | No request makes an available count negative, except inserting a stock row with a negative total; a negative quantity saved on an existing row is clamped to zero and allowed |
| Lifecycle.RunKeepsStockNonNegative | app/actions/admin-actions.ts:217-245 | A run in which no request inserts a stock row with a negative total, judged against the stock the earlier requests left, keeps every available count non-negative; negative resizes of existing rows are allowed |
| Lifecycle.NoRowWithFreshId | app/actions/book-loans.ts:45-55 | No row matches an id that no row carries |
| Lifecycle.NewLoanIsOnlyRowWithItsId | app/actions/book-loans.ts:45-51 | After a successful borrow, rejecting by the new loan's id targets exactly that loan |
| Lifecycle.BorrowThenRejectRestoresStock | app/actions/admin-actions.ts:108-114 | Borrowing and then having an administrator reject the request gives back exactly the original stock |
| Lifecycle.IncrementUndoesDecrement | app/actions/book-loans.ts:58-62 | Adding one copy undoes borrowing one, for any stock row |
| Lifecycle.BorrowApproveMarkReturnedLosesCopy | app/actions/admin-actions.ts:154-160 | A borrow, an approval and an administrator's return leave the book with one copy fewer and the same total |
| Lifecycle.BorrowApproveReturnLosesCopy | app/actions/book-loans.ts:82-89 | A borrow, an approval and the borrower's own return leave the book with one copy fewer |
| Lifecycle.PendingDoesNotBlock | app/actions/book-loans.ts:30-40 | A user whose only loans of a book are pending can request it again |
| Lifecycle.RejectTwiceOvershoots | app/actions/admin-actions.ts:108-125 | Rejecting the same loan twice adds two copies, so a stock of 1 total and 0 available ends at 2 available |
| Lifecycle.NegativeInsertThenResave | app/actions/admin-actions.ts:235-240 | Creating a stock row with a negative quantity stores a negative count; saving it again clamps the count to zero |
| LoanManagement.GetBookTitle | components/admin/loan-management.tsx:41-44 | The shown title is never empty. It is "Libro desconocido" for an unknown book and otherwise the catalogue title, with that fallback for an empty title |
| LoanManagement.FilteredLoans | components/admin/loan-management.tsx:62-76 | A row is listed exactly when it matches the case-folded search and the status filter, and rows keep their order |
| LoanManagement.EmptySearchListsAll | components/admin/loan-management.tsx:62-69 | An empty search with the "all" filter lists the whole table in order |
| LoanManagement.UnknownFilterListsAll | components/admin/loan-management.tsx:69-75 | A filter value outside the six known ones lists exactly what "all" lists |
| LoanManagement.OverdueWithinActive | components/admin/loan-management.tsx:71-73 | A row is under "overdue" exactly when it is under "active" and past due |
| LoanManagement.ButtonsFollowFilters | components/admin/loan-management.tsx:177-232 | Approve/reject buttons appear exactly on rows listed under "pending", the return button exactly on rows under "active", and never both on one row |
| LoanManagement.StatusBadge | components/admin/loan-management.tsx:46-60 | An unapproved active row shows "Pendiente" whatever its due date, and "Retrasado" appears only on an approved active row past due |
| LoanManagement.BadgeAgreesWithFilters | components/admin/loan-management.tsx:46-76 | On every row except an approved one whose status says pending, each badge appears exactly for the rows its filter lists: Pendiente, Retrasado, Activo or Retrasado for "active", Devuelto, Rechazado |
| LoanManagement.ApprovedPendingRowIsStranded | components/admin/loan-management.tsx:53-75 | An approved row with status pending shows "Pendiente" but matches no status filter except "all" and offers no button |
| LoanManagement.AlertOf | components/admin/loan-management.tsx:81-83 | An alert is raised exactly when the action reports an error, and it shows that error |
| LoanManagement.HandleReject | components/admin/loan-management.tsx:87-100 | A blank reason raises the reason alert and changes nothing. Otherwise the untrimmed reason is sent, the reject box, reason and busy marker are cleared, and an alert appears exactly when the call fails |
| LoanManagement.BlankReasonLeavesStoreAlone | components/admin/loan-management.tsx:88-91 | A reason made only of white space never reaches the server, so the store and the stock are untouched |
| LoanManagement.HandleApprove | components/admin/loan-management.tsx:78-85 | Always calls the server and clears the busy marker; the alert appears exactly when the caller is not an administrator or the write fails |
| LoanManagement.HandleReturn | components/admin/loan-management.tsx:102-109 | As for approval, and the stock is never changed |
| AdminDashboard.InsertByLoans | components/admin/admin-dashboard.tsx:49-53 | Inserting keeps exactly the same books, plus the inserted one |
| AdminDashboard.InsertKeepsSorted | components/admin/admin-dashboard.tsx:49-53 | Inserting into a list sorted by descending loan count keeps it sorted |
| AdminDashboard.SortByLoans | components/admin/admin-dashboard.tsx:49-53 | The sorted list is a permutation of the catalogue, in descending order of loan count, with a missing count read as 0 |
| AdminDashboard.SortIsStable | components/admin/admin-dashboard.tsx:49-53 | Books with equal loan counts keep their catalogue order, as the stable `Array.prototype.sort` guarantees |
| AdminDashboard.MostBorrowed | components/admin/admin-dashboard.tsx:55 | Absent exactly for an empty catalogue. Otherwise it is a catalogue book with the largest count, and the first in catalogue order among ties |
| AdminDashboard.LeastBorrowed | components/admin/admin-dashboard.tsx:56 | Absent exactly for an empty catalogue. Otherwise it is a catalogue book with the smallest count, and the last in catalogue order among ties |
| AdminDashboard.OneBookIsBothExtremes | components/admin/admin-dashboard.tsx:55-56 | With one book in the catalogue, the most and the least borrowed book are that book |
| AdminDashboard.PendingLoans | components/admin/admin-dashboard.tsx:58 | Lists in order exactly the loans that are pending, or active but not approved |
| AdminDashboard.ActiveLoans | components/admin/admin-dashboard.tsx:59 | Lists in order exactly the approved active loans |
| AdminDashboard.ReturnedLoans | components/admin/admin-dashboard.tsx:60 | Lists exactly the returned loans, in table order |
| AdminDashboard.OverdueLoans | components/admin/admin-dashboard.tsx:61 | Lists exactly the approved active loans past due, a subsequence of the active list |
| AdminDashboard.OverviewCountersFit | components/admin/admin-dashboard.tsx:58-60 | The pending, active and returned counters never add up to more than the number of loans |
| AdminDashboard.DashboardAgreesWithTable | components/admin/admin-dashboard.tsx:58-59 | On coherent rows the dashboard's pending test agrees with the table's "pending" filter; its active test always agrees with the table's "active" filter. An approved pending row splits them |
| AdminDashboard.PendingPreview | components/admin/admin-dashboard.tsx:192 | The preview shows the first five pending loans, or all of them when there are fewer |
| JsNumber.DigitRun | components/admin/inventory-management.tsx:114 | `parseInt` reads the longest run of digits of the radix, and stops at the first non-digit |
| JsNumber.ParseInt | components/admin/inventory-management.tsx:114 | Text that is empty or only white space gives NaN; text whose first non-space character is 1 to 9 gives a number |
| JsNumber.ParseShowInt | components/admin/inventory-management.tsx:113-114 | Parsing the numeral of any integer, with or without a decimal fraction after it, gives that integer back |
| JsNumber.ParseQuantityRoundTrip | components/admin/inventory-management.tsx:114 | Reading the numeral of any integer back into the field, with NaN read as 0, gives that integer |
| JsNumber.NoDigitsReadsZero | components/admin/inventory-management.tsx:114 | A field holding no digit at all, including an empty one, reads as 0 |
| InventoryManagement.FilterBooks | components/admin/inventory-management.tsx:24-30 | A book is listed exactly when its title or author contains the case-folded search and its career matches, in catalogue order |
| InventoryManagement.EmptySearchListsCatalogue | components/admin/inventory-management.tsx:24-30 | An empty search with every career selected lists the whole catalogue |
| InventoryManagement.CareerNarrows | components/admin/inventory-management.tsx:28 | Choosing a career lists only books of that career, each of which "all" also lists |
| InventoryManagement.GetCategoryName | components/admin/inventory-management.tsx:32-35 | The label is the name of the first category with the id. It falls back to the id when no category has it or the name is empty |
| InventoryManagement.StartEdit | components/admin/inventory-management.tsx:140-143 | Opening the editor puts 3 in the field, not the stored total |
| InventoryManagement.TypeQuantity | components/admin/inventory-management.tsx:114 | Typing the numeral of a number, alone or followed by a fraction, puts exactly that integer in the field; a cleared field or text without any digit puts 0 |
| InventoryManagement.CancelEdit | components/admin/inventory-management.tsx:133 | Cancelling closes the editor and keeps the field's value |
| InventoryManagement.ShownQuantity | components/admin/inventory-management.tsx:109-119 | The row being edited shows the field's value; every other row shows 3 whatever the stock |
| InventoryManagement.SaveQuantity | components/admin/inventory-management.tsx:37-47 | Saving sends the unchecked field value, closes the editor and clears the busy flag. The confirmation appears exactly when an administrator's write succeeds; otherwise nothing changes |
| InventoryManagement.EditThenSaveWritesThree | components/admin/inventory-management.tsx:37-47 | Opening the editor and saving at once writes a total of 3 |
| InventoryManagement.TypeThenSaveWritesTyped | components/admin/inventory-management.tsx:114 | Typing a number's numeral and saving writes exactly that total |
| BorrowButton.Render | components/borrow-button.tsx:32-62 | "Ya lo tienes prestado" appears exactly when an active loan is reported, and "No disponible" exactly when there is none and the count is 0. Otherwise the button offers the count and is disabled exactly while loading |
| BorrowButton.ButtonAgreesWithAction | components/borrow-button.tsx:41-50 | On the book page the button agrees with the action. Already borrowed means the action refuses; unavailable or a negative count gets "no copies"; a positive count succeeds exactly when the insert does |
| BorrowButton.HandleBorrow | components/borrow-button.tsx:19-30 | The page refreshes exactly when the borrow succeeds. It then shows the 14-day message although the new loan is only a pending request; on failure it alerts the action's error and changes nothing |
| HomePage.SearchCatalog | app/page.tsx:13-20 | An empty query lists the catalogue. Otherwise a book is listed exactly when its title or author contains the case-folded query, in catalogue order |
| HomePage.SearchAgreesWithInventory | app/page.tsx:13-20 | The home search lists the same books as the inventory search with every career selected |
| HomePage.Sections | app/page.tsx:22-24 | The three sections concatenate to the result list, with up to 6 featured and up to 3 recommended books, and the rest only when both are full |
| HomePage.SectionsPartition | app/page.tsx:22-24 | Each listed book appears exactly once, at its position, in the section its rank selects |
| HomePage.TileCount | app/page.tsx:118-120 | A career tile's count is the number of catalogue books of that career, counted book by book; it is at most the catalogue's size, and zero exactly when no book is of that career |
| HomePage.CareerFilterCount | app/page.tsx:120 | The tile's filter keeps exactly as many books as the book-by-book count of the career |
| HomePage.TileLabel | app/page.tsx:132 | The word is "libro" exactly for a count of one, "libros" otherwise |
| HomePage.TilesCountEachBookOnce | app/page.tsx:119-132 | With distinct career ids the tiles together count each book of a listed career exactly once |
| ProfilePage.OrZero | app/profile/page.tsx:49-51 | A missing counter reads as 0, a present one as itself |
| ProfilePage.SavedBooks | app/profile/page.tsx:36-37 | A book is listed exactly when its id is among the saved ids, in catalogue order |
| ProfilePage.SavedBooksOnce | app/profile/page.tsx:37 | Each book is listed at most once, however often it was saved |
| ProfilePage.ActiveLoanRows | app/profile/page.tsx:29-34 | The query yields exactly the user's active loans, in table order |
| ProfilePage.BorrowedBooksJoin | app/profile/page.tsx:39-45 | Loans whose book is not in the catalogue are dropped and the order is kept; each remaining loan is paired with its catalogue book |
| ProfilePage.AllCataloguedAllListed | app/profile/page.tsx:39-45 | When every loan's book is catalogued, every loan is listed, in order |
| ProfilePage.ProfileStats | app/profile/page.tsx:48-53 | The counters come from the profile, each missing one read as 0, and the active count is the number of listed loans |
| ProfilePage.ProfileScreen | app/profile/page.tsx:60-73 | The edit form is shown exactly when the profile is missing or lacks a name or a career, seeded with what it has. Otherwise the statistics are shown |
| ProfilePage.DaysLeft | app/profile/page.tsx:175-177 | The days left is the ceiling of the remaining time in days |
| ProfilePage.OverdueAfterAFullDay | app/profile/page.tsx:177-178 | A loan counts as overdue on the profile exactly when a full day or more has passed since its due time |
| ProfilePage.Badge | app/profile/page.tsx:177-203 | The badge says "Vencido hace N días" exactly for overdue loans, with N exactly the whole days late, `now - due` lying in [N days, N + 1 days). Otherwise it gives the days remaining |
| ProfilePage.ProfileLagsLoanTable | app/profile/page.tsx:175-178 | Within a day after its due time a loan is already overdue in the administrator's table, while the profile still shows 0 days remaining |
| PdfViewer.Initial | components/pdf-viewer.tsx:12-14 | The viewer opens natively, loading and without error |
| PdfViewer.Next | components/pdf-viewer.tsx:41-47 | Switching always changes the viewer |
| PdfViewer.SwitchViewer | components/pdf-viewer.tsx:38-48 | Switching moves to the next viewer in the cycle and restarts loading with the error cleared |
| PdfViewer.HandleLoad | components/pdf-viewer.tsx:28-31 | A load keeps the viewer and ends loading without error |
| PdfViewer.HandleError | components/pdf-viewer.tsx:33-36 | An error keeps the viewer and ends loading with the error set |
| PdfViewer.ThreeSwitchesReturn | components/pdf-viewer.tsx:38-48 | Three switches return to the same viewer, loading and without error |
| PdfViewer.FewerSwitchesDoNotReturn | components/pdf-viewer.tsx:41-47 | One or two switches never return to the same viewer |
| PdfViewer.NeverLoadingAndFailed | components/pdf-viewer.tsx:28-48 | From a state that is not both loading and failed, no sequence of events makes it both |
| PdfViewer.ViewerUrl | components/pdf-viewer.tsx:16-26 | The native viewer uses the document URL; the other two embed the encoded URL between their fixed prefix and suffix |
| PdfViewer.EmbeddedUrlsCarryDocument | components/pdf-viewer.tsx:18-21 | The encoded document URL can be recovered from either embedded viewer's URL by removing the prefix and suffix |
| PdfViewer.Label | components/pdf-viewer.tsx:58 | The native viewer is labelled "Nativo", Google's "Google Docs" and Mozilla's "Mozilla PDF.js", each label belonging to its viewer only |
| PdfViewer.LabelsDistinct | components/pdf-viewer.tsx:58 | Two viewers share a label exactly when they are the same viewer |
| Forms.Utf16Length | app/auth/signup/page.tsx:37 | `.length` counts UTF-16 code units: at least one and at most two per character |
| Forms.AstralCharactersCountTwice | app/auth/signup/page.tsx:37 | Three emoji already meet the six-character minimum |
| Forms.CheckPasswords | app/auth/signup/page.tsx:31-41 | The passwords pass exactly when they are equal and at least 6 units long. A mismatch is reported before a short password |
| Forms.CheckIdentity | app/auth/signup/page.tsx:43-53 | The identity passes exactly when the name is not blank and a career is chosen. A blank name is reported before a missing career |
| Forms.AcceptedNameHasText | app/auth/signup/page.tsx:43-47 | An accepted name holds at least one character that is not white space |
| SignUp.Validate | app/auth/signup/page.tsx:31-53 | The form passes exactly when both the password and the identity checks pass. Password errors come first |
| SignUp.NewProfile | app/auth/signup/page.tsx:70-80 | The new profile carries the form's name and career, no avatar and zero counters |
| SignUp.HandleSignUp | app/auth/signup/page.tsx:25-94 | Validation errors stop before sign-up. The page navigates exactly when sign-up succeeds with a user, and an error shows exactly for a validation or sign-up failure. The profile is written only when the upsert succeeds, and loading always ends |
| SignUp.SignUpCompletesProfile | app/auth/signup/page.tsx:69-87 | After a successful sign-up the profile is complete and shows zero statistics |
| SignUp.FailedUpsertStillNavigates | app/auth/signup/page.tsx:82-87 | A failed profile upsert still navigates to the profile, which then asks for the name and career again |
| UpdatePassword.Render | app/auth/update-password/page.tsx:65-78 | The form is shown exactly with a valid session |
| UpdatePassword.HandleUpdatePassword | app/auth/update-password/page.tsx:32-63 | Validation errors stop before the call and leave the loading flag as it was. Otherwise the call is made and loading ends; the page goes to login with the confirmation exactly when the update succeeds, else it shows the error |
| UpdatePassword.MismatchReportedFirst | app/auth/update-password/page.tsx:36-44 | Any two differing passwords, whatever their length, are reported as a mismatch, never reach the server and never lead to the login page |
| EditProfile.InitialDraft | components/edit-profile-form.tsx:22-23 | The form starts from the name and career it is given |
| EditProfile.Upserted | components/edit-profile-form.tsx:58-66 | Saving writes the name and career, resets the three counters to 0 and keeps the avatar |
| EditProfile.HandleSubmit | components/edit-profile-form.tsx:38-76 | Validation errors stop before the write. The page refreshes exactly when validation and the upsert succeed, else it shows an error and the profiles are unchanged; loading always ends |
| EditProfile.SaveCompletesProfileAndResetsCounters | components/edit-profile-form.tsx:58-70 | After a save the profile page shows the statistics, with all counters reset to 0 |
| EditProfile.FormSeededFromProfile | components/edit-profile-form.tsx:22-23 | The form shown for an incomplete profile starts from that profile's name and career, or empty ones |

## Left out

- Supabase I/O, authentication, the router, `alert`, `confirm` and `revalidatePath` are effects outside the model. Their outcomes are the `Env`, `AuthEnv` and error parameters, and the results are the returned records.
- Concurrency: each request is one atomic step. Interleavings of the borrow's two writes with other requests are not modelled.
- The body of the `increment_available_copies` database function is not part of this model; it is taken to add one copy.
- `getAllLoans` and `getBookAvailability` are plain reads without logic. The screens receive their results as inputs.
- `loan_date`, `created_at` and query ordering: the profile's `order("loan_date")` and the loan list's `order("created_at")` are taken as the order of the input sequence.
- Calendar days: the due date is `now` plus 14 × 86 400 000 ms, so a daylight-saving shift made by `setDate` is not modelled.
- Floating point: `Math.ceil` of a day difference is computed exactly on integers, and `parseInt` beyond 2^53 is read exactly.
- JsNumber.ParseInt: does not state the result for every text; the round-trip lemmas state it for numerals and for texts without digits.
- InventoryManagement.TypeQuantity: states the field for a numeral, a numeral followed by a fraction, and text without any digit, not for every text (leading spaces or a sign, trailing letters), for the same reason as `JsNumber.ParseInt`.
- InventoryStats.GetInventoryStats: does not state the stock totals, which are plain sums over the stock rows; the dashboard shows them without further logic.
- Case folding is ASCII-only `toLowerCase`. `trim` covers ASCII white space, NBSP, BOM and U+2028/U+2029, but not U+1680, U+2000–U+200A, U+202F, U+205F or U+3000.
- `encodeURIComponent` is an abstract parameter of `PdfViewer.ViewerUrl`.
- `toLocaleDateString`, `memberSince`, icons, styling, tabs and the JSX layout are presentation only.
- Loan statuses other than pending, active, returned and rejected are not modelled; the database never writes any other status.
- The login, reset-password, about, categories and category pages, and the header, logout, return, search-bar and book-card components, only forward to Supabase or display data. The admin page only gates and loads data. The return button calls `returnBook`, which is modelled.
- The catalogue's contents are opaque: books and categories are inputs, not the fixed data file.
- The rejection reason shown under a rejected row of the loan table is presentation only.

## Findings

| source | as written | input that shows it | evidently intended | confidence | as-written member | corrected member |
|---|---|---|---|---|---|---|
| app/actions/admin-actions.ts:176-181 | The loan query selects only `book_id, status`, so `!l.approved` is true for every row and every loan counts as pending | One returned, approved loan: the pending count is 1 | Count loans whose status is pending or that are not approved, reading `approved` from the row: `CountIntended`, counted row by row (rejected loans, written with `approved: false`, still count, unlike the loan table's and the dashboard's pending lists) | not executed | InventoryStats.PendingCountIsEveryLoan | InventoryStats.GetInventoryStatsCorrected |
