# bookworm-hub-dashboard: a verified model of the library client

This project models the logic of *bookworm-hub-dashboard*, a small
library-management web client. The client keeps books, users and loans in a
hosted record store. It reads and writes them through three service files.
Hooks and pages keep in-memory lists, search filters and form drafts. The
dashboard computes aggregates, and a mock session signs users in and out.

The model has these parts:

- **The record store** (`store.dfy`, `rows.dfy`). A `Store` class holds three
  maps keyed by id: books, users and loans. Each service function is a method
  on it. Every remote call takes a flag saying whether the store answered
  without an error. An insert also fails when its id is already taken. Queries
  that use `.single()` fail on a missing row. A plain `update().eq()` that
  matches nothing is not an error.
- **The loan workflow** (`loan_workflow.dfy`). `createLoan` and `returnLoan`
  are specified by pure step functions over the three tables. The store
  methods are proved equal to them. The lemmas prove three things:
  - a loan's status only ever moves from active to returned;
  - when every step succeeds, "a book is unavailable exactly when it has an
    active loan, and it has at most one" is preserved;
  - each partial failure breaks that invariant in a specific way: a book left
    unavailable with no loan, or a book made available while its loan is still
    active.

  `returnLoan` never checks the status it reads. Returning an already
  returned loan therefore frees a book that has since been lent again
  (`ReturningAReturnedLoanFreesLentBook`).
- **Dashboard aggregates** (`dashboard.dfy`):
  - the four counters;
  - the category histogram, which is an imperative loop proved to give one
    tally per category whose counts add up to the number of books;
  - the twelve-month series. Its values lie in 5..24. The comment in the
    source says 25, but 25 is never produced.
- **Client-side list state**:
  - the loans hook, as a class whose invariant is that every stored status is
    `active` or `returned` (`loans_hook.dfy`);
  - the books hook (`books_hook.dfy`);
  - the users hook, which also models the duplicate handlers of the users page
    (`users_hook.dfy`);
  - the self-contained in-memory catalogue page (`books_page.dfy`);
  - the book form (`book_form.dfy`);
  - the loans page (`loans_page.dfy`).

  They share the search filters (`search.dfy`, `text.dfy`), the list
  operations (`lists.dfy`) and the form conversions (`forms.dfy`).
- **The mock session** (`auth.dfy`): sign-in, sign-up, sign-out and the
  restore of a stored user.

Two facts about the code shape the loan model:

- `returnLoan` updates the book before the loan.
- No service deletes a loan. `useLoans.ts` imports `deleteLoan`,
  `updateLoanStatus`, `getLoansByUserId` and `getLoansByBookId`, but
  `apiLoans.ts` does not define them. The hook methods that call them take
  the reply as a parameter.

Inputs the model does not compute are parameters: clock readings (`now`),
fresh ids, the store's success flags, the confirmation dialog's answer, the
current year and the draws of `Math.random`. Timestamps are integers.

## Model

| member | source | states |
|---|---|---|
| Text.Lower | src/features/books/hooks/useBooks.ts:30-32 | `toLowerCase` keeps the length and lower-cases each character on its own (ASCII letters only) |
| Text.LowerIdempotent | src/features/books/hooks/useBooks.ts:30-32 | lower-casing twice is lower-casing once |
| Text.ContainsAt | src/features/books/hooks/useBooks.ts:30-32 | `includes` holds exactly when the term occurs at some position of the field |
| Text.ContainsEmpty | src/features/books/hooks/useBooks.ts:30-32 | every field includes the empty term |
| Text.ContainsLonger | src/features/books/hooks/useBooks.ts:30-32 | a term longer than the field never matches |
| Lists.Filter | src/features/books/hooks/useBooks.ts:29-33 | `filter` keeps exactly the elements satisfying the predicate, each as often as it occurs, and drops every other occurrence |
| Lists.FilterAppend | src/features/books/hooks/useBooks.ts:29-33 | filtering a concatenation is concatenating the filtered parts |
| Lists.FilterCountsIndices | src/services/apiDashboard.ts:19-21 | the length of a filter is the number of positions whose element passes the predicate |
| Lists.FilterIsSubsequence | src/features/loans/components/LoansList.tsx:21-31 | a filter keeps the surviving elements in their original order |
| Lists.FilterKeepsAll | src/features/loans/components/LoansList.tsx:22 | a predicate true everywhere keeps the whole list |
| Lists.FilterDropsAll | src/features/loans/components/LoansList.tsx:24-30 | a predicate false everywhere leaves nothing |
| Lists.FilterPartition | src/services/apiDashboard.ts:21 | a predicate and its negation split the list: the two filtered lengths add up to its length |
| Lists.ReplaceById | src/features/books/hooks/useBooks.ts:56-60 | replace-by-id keeps the length, replaces exactly the entries with the id and leaves every other entry in place |
| Lists.ReplaceAbsentId | src/features/books/hooks/useBooks.ts:56-60 | replacing an id no entry carries changes nothing |
| Lists.ReplaceIdempotent | src/features/books/hooks/useBooks.ts:56-60 | replacing twice with a row that keeps the id is replacing once |
| Lists.RemoveById | src/features/books/hooks/useBooks.ts:43 | remove-by-id keeps exactly the entries with another id, in order |
| Lists.InsertPos | src/services/apiBooks.ts:9 | a new element goes after every element with a key at least its own and before the first with a smaller key |
| Lists.InsertDesc | src/services/apiBooks.ts:9 | inserting adds exactly that one element to the list, and nothing else changes in the multiset of elements |
| Lists.InsertDescSorted | src/services/apiBooks.ts:9 | inserting into a newest-first list keeps it newest first |
| Lists.InsertDescMember | src/services/apiBooks.ts:9 | an element is in the result of an insertion iff it was inserted or was there before |
| Lists.InsertKeyed | src/services/apiBooks.ts:6-9 | splicing a row and its key in at the same place lists one key more, each key still once |
| Lists.ListDescStep | src/services/apiBooks.ts:6-9 | one insertion keeps "the keys taken so far are listed once each, newest first" with one key more |
| Lists.ListDesc | src/services/apiBooks.ts:6-9 | the listing has one entry per key of the table, holding that key's row, with no key twice and none missing, ordered by the key descending |
| Lists.ListedRowsCoverTable | src/services/apiBooks.ts:6-9 | a listing holds every row of the table and nothing else |
| Lists.ListedIdsDistinct | src/services/apiBooks.ts:6-9 | when each row is stored under its own id, no id appears twice in a listing |
| Lists.RepeatedRowIsNoListing | src/services/apiBooks.ts:6-9 | a list repeating a row one key holds, and dropping a row two keys hold, is not a listing |
| Rows.NewBookRow | src/services/apiBooks.ts:35-40 | the inserted book has exactly the given fields, a borrow count of 0 and both timestamps set to now |
| Rows.PatchBook | src/services/apiBooks.ts:57-60 | an update overwrites exactly the supplied fields, keeps the others and the id, and refreshes `updated_at` |
| Rows.PatchBookIdempotent | src/services/apiBooks.ts:57-67 | sending the same book patch twice has the effect of sending it once |
| Rows.EmptyBookPatch | src/services/apiBooks.ts:57-60 | a patch supplying nothing changes only `updated_at` |
| Rows.NewUserRow | src/services/apiUsers.ts:35-39 | the inserted user has exactly the given fields and both timestamps set to now |
| Rows.PatchUser | src/services/apiUsers.ts:56-59 | a user update overwrites exactly the supplied fields and refreshes `updated_at` |
| Rows.PatchUserIdempotent | src/services/apiUsers.ts:56-66 | sending the same user patch twice has the effect of sending it once |
| Rows.ActiveLoanRow | src/services/apiLoans.ts:55-60 | the inserted loan carries the given ids, is active, is dated now, and has no return date |
| Rows.Joined | src/services/apiLoans.ts:8 | the join keeps every column of the loan, `created_at` included, and embeds the stored book row and the stored user row exactly when they exist |
| LoanWorkflow.SetBook | src/services/apiLoans.ts:86-89 | an update by id without `.single()` changes only that book, and nothing when it is missing |
| LoanWorkflow.CreateLoanStep | src/services/apiLoans.ts:34-70 | a failed book update throws and changes nothing. Otherwise the book becomes unavailable and no other book changes. A loan row appears exactly when the insert succeeds. An insert failure leaves the book unavailable with no new loan |
| LoanWorkflow.ReturnLoanStep | src/services/apiLoans.ts:72-113 | a failed read throws before touching any book, and a failed book update changes nothing. Otherwise the loan's book becomes available and no other book changes. A failed loan update then leaves the loan unchanged; on success the loan is returned with a return date of now |
| LoanWorkflow.CreateLoanAdvances | src/services/apiLoans.ts:53-60 | creating a loan keeps every loan and adds only active ones |
| LoanWorkflow.ReturnLoanAdvances | src/services/apiLoans.ts:97-103 | returning a loan only ever moves a status to returned |
| LoanWorkflow.CreateLoanKeepsConsistent | src/services/apiLoans.ts:39-62 | lending an available book with both calls succeeding keeps "unavailable iff one active loan" |
| LoanWorkflow.ReturnLoanKeepsConsistent | src/services/apiLoans.ts:74-105 | returning an active loan with every call succeeding keeps "unavailable iff one active loan" |
| LoanWorkflow.CreateLoanInsertFailureStrandsBook | src/services/apiLoans.ts:39-67 | when the insert fails after the update, the book is unavailable with no active loan, with no rollback |
| LoanWorkflow.ReturnLoanUpdateFailureFreesLentBook | src/services/apiLoans.ts:86-110 | when the loan update fails after the book update, the book is available while its loan is still active |
| LoanWorkflow.ReturningAReturnedLoanFreesLentBook | src/services/apiLoans.ts:74-89 | returning an already returned loan frees a book lent again under another active loan |
| LoanWorkflow.LendThenReturn | src/services/apiLoans.ts:34-113 | lending then returning makes the book available again with the written borrow count, and the loan is returned with the return date |
| RecordStore.Store.constructor | src/services/apiBooks.ts:6-9 | the store starts from the given tables, and its primary-key invariant holds exactly when each table stores every row under its own id |
| RecordStore.Store.JoinedLoans | src/services/apiLoans.ts:6-8 | the joined view has exactly the loan ids of the table |
| RecordStore.Store.GetBooks | src/services/apiBooks.ts:5-17 | a store error throws "Error fetching books". Otherwise every book is listed once per key, newest `created_at` first, and an empty table gives `[]`. When every row is stored under its own id, no id is listed twice |
| RecordStore.Store.GetBook | src/services/apiBooks.ts:19-32 | the row when the store answers and the id exists, else null |
| RecordStore.Store.CreateBook | src/services/apiBooks.ts:34-54 | on success the new row is stored under a fresh id and returned; on error the call throws and the table is unchanged. Every row stays stored under its own id |
| RecordStore.Store.UpdateBook | src/services/apiBooks.ts:56-75 | on success only that row is patched and returned; an error, including a missing row, throws and changes nothing. Every row stays stored under its own id |
| RecordStore.Store.DeleteBook | src/services/apiBooks.ts:77-87 | on success only that id is removed, with no check on loans; on error nothing changes. Every row stays stored under its own id |
| RecordStore.Store.GetUsers | src/services/apiUsers.ts:5-17 | a store error throws "Error fetching users". Otherwise every user is listed once per key, newest first, and an empty table gives `[]`. When every row is stored under its own id, no id is listed twice |
| RecordStore.Store.GetUser | src/services/apiUsers.ts:19-32 | the row when the store answers and the id exists, else null |
| RecordStore.Store.CreateUser | src/services/apiUsers.ts:34-53 | on success the new row is stored and returned; on error the call throws and the table is unchanged. Every row stays stored under its own id |
| RecordStore.Store.UpdateUser | src/services/apiUsers.ts:55-74 | on success only that row is patched and returned; an error, including a missing row, throws and changes nothing. Every row stays stored under its own id |
| RecordStore.Store.DeleteUser | src/services/apiUsers.ts:76-86 | on success only that id is removed, with no check on loans; on error nothing changes. Every row stays stored under its own id |
| RecordStore.Store.GetLoans | src/services/apiLoans.ts:5-17 | a store error throws "Error fetching loans". Otherwise every joined loan is listed once per key, newest `loan_date` first, and an empty table gives `[]`. When every row is stored under its own id, no id is listed twice |
| RecordStore.Store.GetLoan | src/services/apiLoans.ts:19-32 | the joined row when the store answers and the id exists, else null rather than an error |
| RecordStore.Store.CreateLoan | src/services/apiLoans.ts:34-70 | the new tables and the result are those of `CreateLoanStep`. Every row stays stored under its own id |
| RecordStore.Store.ReturnLoan | src/services/apiLoans.ts:72-113 | the new tables and the result are those of `ReturnLoanStep`. Every row stays stored under its own id |
| Search.FilterBooks | src/features/books/hooks/useBooks.ts:29-33 | a book is kept iff the lower-cased term occurs in its lower-cased title, author or category, as often as it occurs in the list, in list order |
| Search.EmptyTermKeepsAllBooks | src/features/books/hooks/useBooks.ts:29-33 | an empty term keeps every book, in order |
| Search.FilterUsers | src/features/users/hooks/useUsers.ts:36-39 | a user is kept iff the term occurs in their name or email, ignoring case, as often as they occur in the list, in list order |
| Search.EmptyTermKeepsAllUsers | src/features/users/hooks/useUsers.ts:36-39 | an empty term keeps every user, in order |
| Search.FilterLoans | src/features/loans/components/LoansList.tsx:21-31 | an empty term keeps every loan. Otherwise a loan is kept iff the term occurs in the embedded book's title or author or the embedded user's name or email, as often as it occurs in the list. The result is an ordered subsequence |
| Search.UnjoinedLoanNeverMatches | src/features/loans/components/LoansList.tsx:26-29 | with a non-empty term, a loan embedding neither a book nor a user is dropped |
| Search.AvailableBooks | src/pages/Loans.tsx:49 | exactly the available books, each as often as in the list, in order |
| Dashboard.TotalBorrowCountAppend | src/services/apiDashboard.ts:20 | the borrow-count sum of two lists is the sum of their sums |
| Dashboard.TotalBorrowCountNonNegative | src/services/apiDashboard.ts:20 | missing counts count as 0, so with no negative count the total is not negative |
| Dashboard.DashboardStats | src/services/apiDashboard.ts:13-29 | `totalBooks` is the number of books. `activeUsers` is the number of positions holding an active user. `totalLoanedBooks` is the number of positions holding an unavailable book, at most `totalBooks`. `totalLoans` is the sum of the borrow counts |
| Dashboard.ActiveUsersByIndex | src/services/apiDashboard.ts:19 | the filtered users are as many as the positions holding an active user |
| Dashboard.LoanedBooksByIndex | src/services/apiDashboard.ts:21 | the filtered books are as many as the positions holding an unavailable book |
| Dashboard.LoanedAndAvailablePartition | src/services/apiDashboard.ts:21 | the loaned books are exactly the unavailable ones, and loaned plus available is the number of books |
| Dashboard.ActiveUsersCounted | src/services/apiDashboard.ts:19 | the counted users are exactly the active ones, and the count equals the user count iff all users are active |
| Dashboard.CountInCategoryPositive | src/services/apiDashboard.ts:38-40 | a category with a non-zero count is carried by some book |
| Dashboard.CountInCategoryAbsent | src/services/apiDashboard.ts:38-40 | a category no book carries counts zero |
| Dashboard.CountInCategoryStep | src/services/apiDashboard.ts:39 | visiting one more book adds one to its own category and nothing to any other |
| Dashboard.SumOverIgnores | src/services/apiDashboard.ts:43-46 | the count of a category not yet listed does not enter the total |
| Dashboard.SumOverBump | src/services/apiDashboard.ts:39 | adding one to a listed category adds one to the total |
| Dashboard.TallyBump | src/services/apiDashboard.ts:39 | one loop turn for a known category keeps the tally invariant one book further |
| Dashboard.TallyNew | src/services/apiDashboard.ts:39 | one loop turn for a new category keeps the tally invariant one book further |
| Dashboard.CountCategories | src/services/apiDashboard.ts:37-40 | the `forEach` leaves distinct keys, each counting its books at least once, with counts adding up to the number of books |
| Dashboard.Tallies | src/services/apiDashboard.ts:43-46 | one `{category, count}` entry per key, in key order |
| Dashboard.TallySumOfTallies | src/services/apiDashboard.ts:43-46 | the entries' counts add up to the record's total |
| Dashboard.BooksByCategory | src/services/apiDashboard.ts:32-47 | one entry per distinct category, each count at least 1 and equal to its number of books; every book's category appears; the counts add up to the number of books |
| Dashboard.MonthlyLoanStats | src/services/apiDashboard.ts:59-76 | exactly twelve entries labelled Jan to Dez in order, each in 5..24 |
| Dashboard.DrawToLoans | src/services/apiDashboard.ts:74 | `floor(r * 20) + 5` for a draw in [0, 1) lies in 5..24 |
| Dashboard.MonthlyMaximumIs24 | src/services/apiDashboard.ts:74 | 24 is reached and 25 never is |
| Forms.NumberOf | src/features/books/components/BookForm.tsx:37 | `Number` of a non-numeric text gives 0 (for JavaScript's NaN) and of the empty text gives 0 |
| Forms.NumberOfDigitsOf | src/features/books/components/BookForm.tsx:37 | reading back the decimal text of a number gives the number |
| Forms.LeadingZero | src/features/books/components/BookForm.tsx:37 | a leading zero does not change the value read |
| LoansHook.NormalizeStatus | src/features/loans/hooks/useLoans.ts:52 | the result is `active` or `returned`, and it is `active` iff the input is |
| LoansHook.Normalized | src/features/loans/hooks/useLoans.ts:50-53 | normalising changes only the status, and makes it one of the two values |
| LoansHook.NormalizedFixesWellTyped | src/features/loans/hooks/useLoans.ts:104-107 | a loan already well typed is left as it is, so normalising is idempotent |
| LoansHook.NormalizeAll | src/features/loans/hooks/useLoans.ts:50-53 | the `map` normalises every loan in place and keeps the length |
| LoansHook.NormalizeKeys | src/features/loans/hooks/useLoans.ts:50-53 | normalising keeps each listed loan under its key |
| LoansHook.NormalizeSorted | src/features/loans/hooks/useLoans.ts:50-53 | normalising keeps the loan dates and so the newest-first order |
| LoansHook.NormalizeListing | src/features/loans/hooks/useLoans.ts:48-53 | normalising a listing lists the normalised table in the same order |
| LoansHook.LoanList.constructor | src/features/loans/hooks/useLoans.ts:39-42 | no loans, not loading, no error, empty search term |
| LoansHook.LoanList.FetchLoans | src/features/loans/hooks/useLoans.ts:44-60 | on success the list is the store's listing normalised, one entry per key, newest first, with no error. On failure the list is unchanged and the error holds the message. Loading ends false |
| LoansHook.LoanList.FetchLoansFrom | src/features/loans/hooks/useLoans.ts:62-78 | the reply replaces the list, normalised, or its error is kept and the list is not; loading ends false |
| LoansHook.LoanList.AddLoan | src/features/loans/hooks/useLoans.ts:98-119 | the store changes as `createLoan` does. On success the new loan is appended after the unchanged old list and returned. On failure the list is unchanged, null is returned and the error is kept. Loading ends false |
| LoansHook.LoanList.ReturnLoan | src/features/loans/hooks/useLoans.ts:121-144 | on success the reply, with its status forced to returned, replaces exactly the entries with the id and is returned. On failure the list is unchanged, null is returned and the error is kept |
| LoansHook.LoanList.RemoveLoan | src/features/loans/hooks/useLoans.ts:146-161 | on success the entries with the id are dropped, the rest kept in order, and true is returned. On failure the list is unchanged, the error is kept and false is returned |
| LoansHook.LoanList.HandleSearch | src/features/loans/hooks/useLoans.ts:164-166 | only the search term changes |
| LoansHook.LoanList.HandleCreateLoan | src/features/loans/hooks/useLoans.ts:168-176 | the two ids go to `addLoan` in a request with status `active` and an empty return date, with the effect of `addLoan` |
| LoansHook.CreatedLoanIsActive | src/features/loans/hooks/useLoans.ts:104-107 | a created loan is active, so the hook stores it unchanged |
| LoansHook.ReturnMarksReturned | src/features/loans/hooks/useLoans.ts:125-134 | after a return, every entry with the id is returned, the length is kept and no other entry changes |
| LoansHook.RemoveDropsId | src/features/loans/hooks/useLoans.ts:150-151 | after a removal no entry has the id and every other entry remains |
| BooksHook.BookList.constructor | src/features/books/hooks/useBooks.ts:8-10 | no books, empty term, loading |
| BooksHook.BookList.Visible | src/features/books/hooks/useBooks.ts:29-33 | the exposed books are exactly the matching ones, each as often as in the list, in list order |
| BooksHook.BookList.Load | src/features/books/hooks/useBooks.ts:12-27 | on success the list is the store's listing, one entry per key, newest first; on failure it is unchanged; loading ends false |
| BooksHook.BookList.HandleSearch | src/features/books/hooks/useBooks.ts:35-37 | only the search term changes |
| BooksHook.BookList.HandleDelete | src/features/books/hooks/useBooks.ts:39-50 | list and store change only when the delete is confirmed and succeeds, and then only the books with that id go |
| BooksHook.BookList.AddBookToList | src/features/books/hooks/useBooks.ts:52-54 | the book is prepended to the unchanged old list |
| BooksHook.BookList.UpdateBookInList | src/features/books/hooks/useBooks.ts:56-60 | the book replaces exactly the entries with its id |
| BooksHook.AddedBookShownFirst | src/features/books/hooks/useBooks.ts:52-54 | an added book is shown iff it matches the term, and then first |
| BooksHook.DeletedBookNotShown | src/features/books/hooks/useBooks.ts:43 | after a delete no shown book has the id |
| BooksHook.UpdatedBookShown | src/features/books/hooks/useBooks.ts:56-60 | updating a listed book keeps the length, and the new version is shown iff it matches |
| UsersHook.EditDraft | src/features/users/hooks/useUsers.ts:45-51 | a text event sets `name` or `email` to the value, the checkbox sets `is_active`, and other events change nothing |
| UsersHook.DraftOf | src/features/users/hooks/useUsers.ts:116-124 | the draft holds the user's name, email and active flag |
| UsersHook.PatchOf | src/features/users/hooks/useUsers.ts:83-87 | the edit sends all three draft fields |
| UsersHook.SaveUnchangedDraft | src/features/users/hooks/useUsers.ts:83-91 | saving an untouched draft only refreshes the user's `updated_at` |
| UsersHook.EditsFillDraft | src/features/users/hooks/useUsers.ts:45-51 | typing into every input, in either order, leaves exactly the typed values |
| UsersHook.BlankDraftNotFilled | src/features/users/hooks/useUsers.ts:54-57 | the reset form cannot be submitted |
| UsersHook.UserDirectory.constructor | src/features/users/hooks/useUsers.ts:8-17 | no users, loading, the blank draft, not editing |
| UsersHook.UserDirectory.Visible | src/pages/Users.tsx:67-70 | the shown users are exactly those whose name or email mentions the term, each as often as in the list, in order |
| UsersHook.UserDirectory.FetchUsers | src/features/users/hooks/useUsers.ts:23-34 | on success the list is the store's listing, one entry per key, newest first; on failure it is unchanged; loading ends false |
| UsersHook.UserDirectory.HandleSearch | src/pages/Users.tsx:72-74 | only the search term changes |
| UsersHook.UserDirectory.HandleInputChange | src/pages/Users.tsx:76-82 | the draft is edited as `EditDraft` says and nothing else changes |
| UsersHook.UserDirectory.HandleAddUser | src/features/users/hooks/useUsers.ts:53-74 | an empty name or email changes nothing. A successful create prepends the stored user, with `is_active` as drafted, and resets the draft. A failed create leaves the list and the draft |
| UsersHook.UserDirectory.HandleEditUser | src/features/users/hooks/useUsers.ts:76-101 | rejected without name, email or a current user id. On success only that user is replaced, and the draft and edit state are cleared. On failure nothing changes |
| UsersHook.UserDirectory.HandleDeleteUser | src/features/users/hooks/useUsers.ts:103-114 | list and store change only on a confirmed, successful delete, and then only that id goes |
| UsersHook.UserDirectory.StartEditing | src/features/users/hooks/useUsers.ts:116-124 | the draft holds the user's fields and the user becomes the one being edited |
| UsersHook.UserDirectory.ResetForm | src/pages/Users.tsx:157-163 | the draft becomes name '', email '', active |
| UsersHook.UserDirectory.HandleOpenChange | src/pages/Users.tsx:183-189 | closing the dialog resets the draft, leaves edit mode and clears the current id; opening it changes nothing |
| BooksPage.YearValue | src/pages/Books.tsx:81 | `Number(year)` is the number itself, or the value read from the typed text |
| BooksPage.BlankDraft | src/pages/Books.tsx:41-47 | blank text fields, the current year, available |
| BooksPage.EditDraft | src/pages/Books.tsx:61-67 | each of the five controls sets its own field, the year as raw text; other events change nothing |
| BooksPage.DraftOf | src/pages/Books.tsx:125-132 | the draft holds the book's fields |
| BooksPage.AddedBook | src/pages/Books.tsx:75-86 | the added book has the draft's fields, `borrowCount` 0 and `createdAt == updatedAt` |
| BooksPage.Merged | src/pages/Books.tsx:101-109 | each text field falls back to the old value when empty. The year falls back when it reads as 0. `available` is taken from the draft. Only `updatedAt` is refreshed |
| BooksPage.EditById | src/pages/Books.tsx:99-110 | only the entries with the id are merged; the length and every other entry are unchanged |
| BooksPage.SaveUnchangedDraft | src/pages/Books.tsx:99-110 | saving an untouched draft only refreshes `updatedAt` |
| BooksPage.UnreadableYearKeepsYear | src/pages/Books.tsx:106 | a typed year that is not a number keeps the book's year |
| BooksPage.TypedYearTaken | src/pages/Books.tsx:106 | a typed non-zero year is stored as that number |
| BooksPage.EditKeepsIds | src/pages/Books.tsx:99-110 | an edit keeps every id in place, so distinct ids stay distinct |
| BooksPage.AddKeepsIdsDistinct | src/pages/Books.tsx:88 | prepending a book with an unused id keeps the ids distinct |
| BooksPage.BookCatalog.constructor | src/pages/Books.tsx:39-49 | the seed books, empty term, the blank draft, not editing |
| BooksPage.BookCatalog.Visible | src/pages/Books.tsx:51-55 | the shown books are exactly the matching ones, each as often as in the list, in order |
| BooksPage.BookCatalog.HandleSearch | src/pages/Books.tsx:57-59 | only the search term changes |
| BooksPage.BookCatalog.HandleInputChange | src/pages/Books.tsx:61-67 | the draft is edited as `EditDraft` says and nothing else changes |
| BooksPage.BookCatalog.HandleAddBook | src/pages/Books.tsx:69-91 | a draft missing a required field changes nothing; otherwise the built book is prepended and the draft reset |
| BooksPage.BookCatalog.HandleEditBook | src/pages/Books.tsx:93-116 | rejected without the required fields or a current book id; otherwise only that book is merged and the edit state is cleared |
| BooksPage.BookCatalog.HandleDeleteBook | src/pages/Books.tsx:118-123 | a confirmed delete removes exactly the books with that id |
| BooksPage.BookCatalog.StartEditing | src/pages/Books.tsx:125-135 | the draft holds the book's fields and the book becomes the one being edited |
| BooksPage.BookCatalog.ResetForm | src/pages/Books.tsx:137-145 | the draft becomes the blank draft for the current year |
| BooksPage.BookCatalog.HandleOpenChange | src/pages/Books.tsx:157-163 | closing the dialog resets the draft, leaves edit mode and clears the current id; opening it changes nothing |
| BookFormModel.BlankDraft | src/features/books/components/BookForm.tsx:18-24 | blank text fields, the current year, available, no id |
| BookFormModel.PartialOf | src/features/books/components/BookForm.tsx:12 | a whole book handed in as the prop has every field present |
| BookFormModel.EditDraft | src/features/books/components/BookForm.tsx:32-39 | the checkbox stores a boolean, `year` the number read from the text, and the other fields the raw text; other events change nothing |
| BookFormModel.PatchOf | src/features/books/components/BookForm.tsx:49-55 | the update sends the four fields, the availability when present, and no borrow count |
| BookFormModel.NewBookOf | src/features/books/components/BookForm.tsx:60-66 | the create sends missing text as '' and availability true only when the draft has it true |
| BookFormModel.FilledDraftCreatedAsTyped | src/features/books/components/BookForm.tsx:60-66 | a filled draft is created with exactly its text and a non-zero year |
| BookFormModel.SaveUntouchedBook | src/features/books/components/BookForm.tsx:48-55 | submitting a stored book untouched only refreshes `updated_at` |
| BookFormModel.TypedYearStored | src/features/books/components/BookForm.tsx:37 | typing the decimal text of a year stores that year |
| BookFormModel.BookEditor.constructor | src/features/books/components/BookForm.tsx:18-30 | the draft is the book handed in when there is one, else the blank draft |
| BookFormModel.BookEditor.SetBook | src/features/books/components/BookForm.tsx:26-30 | a new book prop replaces the whole draft; no prop leaves it |
| BookFormModel.BookEditor.HandleInputChange | src/features/books/components/BookForm.tsx:32-39 | the draft is edited as `EditDraft` says |
| BookFormModel.BookEditor.HandleSubmit | src/features/books/components/BookForm.tsx:41-76 | a draft missing a required field makes no call. Editing a book with an id updates it. Anything else creates a book. The callback receives only a row the store returned, and the store is unchanged on error |
| LoansPage.LoanDesk.constructor | src/pages/Loans.tsx:45-47 | no selections and the dialog closed |
| LoansPage.LoanDesk.AvailableToLend | src/pages/Loans.tsx:49 | exactly the shown books that are available, each as often as in the list |
| LoansPage.LoanDesk.FilteredLoans | src/pages/Loans.tsx:67-77 | every loan for an empty term, else exactly the loans whose book or user mentions it, each as often as in the list, in order |
| LoansPage.LoanDesk.SelectBook | src/pages/Loans.tsx:116 | only the selected book changes |
| LoansPage.LoanDesk.SelectUser | src/pages/Loans.tsx:138 | only the selected user changes |
| LoansPage.LoanDesk.SetDialogOpen | src/pages/Loans.tsx:97 | only the dialog flag changes |
| LoansPage.LoanDesk.HandleLoanSubmit | src/pages/Loans.tsx:55-64 | nothing happens without both selections. Otherwise the loan is requested with the effect of `handleCreateLoan`, then both selections are cleared and the dialog closes, whether or not the create succeeded |
| LoansPage.LendingOfferedBookKeepsConsistent | src/pages/Loans.tsx:49 | lending an offered book whose row is current, with both calls succeeding, creates the loan and keeps the tables consistent |
| Auth.EmailPrefix | src/contexts/AuthContext.tsx:50 | `split('@')[0]` is the longest prefix without `@`: it ends at the first `@` or at the end |
| Auth.EmailPrefixOfAddress | src/contexts/AuthContext.tsx:50 | the name derived from `local@domain` is `local` |
| Auth.SignedInAs | src/contexts/AuthContext.tsx:47-51 | the signed-in user has id '123', the given email and the email's prefix as name |
| Auth.Session.constructor | src/contexts/AuthContext.tsx:26-27 | no user, loading |
| Auth.Session.Restore | src/contexts/AuthContext.tsx:31-39 | a stored user becomes the user; loading becomes false |
| Auth.Session.SignIn | src/contexts/AuthContext.tsx:41-66 | a non-empty email and password sign in as `SignedInAs(email)`, persist the user and go to the dashboard. Anything else leaves user, storage and route. Loading ends false |
| Auth.Session.SignUp | src/contexts/AuthContext.tsx:68-93 | a non-empty email, password and name sign in under the given name. Anything else leaves user, storage and route. Loading ends false |
| Auth.Session.SignOut | src/contexts/AuthContext.tsx:95-100 | the user and the stored user become null and the route is the login page |

## Left out

- The hosted store's client, query builder, joins and RPC are modelled as three maps with a success flag per call. `isSupabaseConfigured` is configuration.
- `data || []`: a store that answers with no data and no error is modelled as an empty table. The listing methods then return `[]`.
- RecordStore.Store.CreateLoan: the `borrow_count` value written with `available: false` is the un-awaited `increment_borrow_count` call. The model takes the stored value as a parameter and does not claim it is one more than before.
- Rows.PatchBook and Rows.PatchUser: a `Partial<Book>` or `Partial<User>` may also carry `id` or `created_at`. The patches model only the data fields, and `borrow_count` for books.
- Rows.NewBookRow and Rows.NewUserRow: `created_at` and `updated_at` come from two separate clock readings in the source. The model uses one instant for both.
- Clock readings, `Date.now()` ids and the ids the store assigns are parameters. Timestamps are integers.
- `Math.random()` is a parameter: twelve reals in [0, 1).
- Forms.NumberOf: `Number(...)` is modelled on digit strings only. Text with signs, fractions, exponents or surrounding spaces reads as 0 here, where JavaScript gives a number. NaN reads as 0; both are falsy in every guard here.
- BooksPage.AddedBook: a typed year that is not a number passes the guard in the source and is stored as NaN. The model stores 0.
- Text.Lower: lower-casing is on ASCII letters only, with no Unicode case mapping.
- Concurrency and interleaving are not modelled. This covers `await`, the dashboard's `setTimeout` delays, React's batched state updates and two overlapping loan creations. Each operation is atomic and sequential.
- Browser and UI effects are not modelled. `window.confirm` is a boolean parameter. `toast` and `console` are dropped. `navigate` is the `route` field. `localStorage` is the `stored` field, with `JSON` round-trips taken as exact. The React-context check in `useAuth` is left out.
- Dashboard.BooksByCategory: category names are taken to be ordinary keys. In the source the tally object is a plain `{}`, so a name that is a property of `Object.prototype` (`constructor`, `toString`, `__proto__`, ...) reads an inherited value or sets the prototype; the fixture data has no such category.
- Dashboard.BooksByCategory: the tallies follow the order in which categories first appear. JavaScript's `Object.keys` would put integer-like category names first, in numeric order.
- `getMostBorrowedBooks` returns a fixed fixture and has no logic to model.
- The dashboard aggregates take the book and user lists as parameters. The source reads them from the fixture file `src/data/mockData.ts`, which is not part of this model; the same holds for the seed list of the catalogue page.
- `fetchLoansByUser` and `fetchLoansByBook` share one method, LoansHook.LoanList.FetchLoansFrom. The services they call are not defined, so their reply is a parameter and the user or book id does not enter the model. `returnLoan` (via `updateLoanStatus`) and `removeLoan` (via `deleteLoan`) take their replies the same way.
- `handleReturnLoan` in `useLoans.ts` only forwards to `returnLoan` and is modelled by LoansHook.LoanList.ReturnLoan.
- The users page repeats the users hook's state and handlers. Its search handler reads the term off an input event. One class, UsersHook.UserDirectory, models both.
- UsersHook.EditDraft, BooksPage.EditDraft and BookFormModel.EditDraft: an input event for a control the form does not render is ignored. In the source it would add a field of that name to the draft object.
- BooksPage.Merged: the draft's `available` is always defined, because every way of setting the draft sets it. So the `!== undefined` fallback never applies, and likewise `|| false` in the add path.
- The rendering-only components, type files and fixture data are not modelled.
