/** The hosted record store and the service functions of
    `src/services/apiBooks.ts`, `apiUsers.ts` and `apiLoans.ts` that call it.
    The store is three tables keyed by id. Every remote call takes a flag
    saying whether the store answered without an error; an insert also fails
    when the id it is given is already taken. Clock readings and the ids the
    store assigns are parameters. */
module RecordStore {
  import opened Outcomes
  import opened Rows
  import opened Lists
  import LoanWorkflow

  const ERR_FETCHING_BOOKS: string := "Error fetching books"
  const ERR_CREATING_BOOK: string := "Error creating book"
  const ERR_UPDATING_BOOK: string := "Error updating book"
  const ERR_DELETING_BOOK: string := "Error deleting book"
  const ERR_FETCHING_USERS: string := "Error fetching users"
  const ERR_CREATING_USER: string := "Error creating user"
  const ERR_UPDATING_USER: string := "Error updating user"
  const ERR_DELETING_USER: string := "Error deleting user"
  const ERR_FETCHING_LOANS: string := "Error fetching loans"

  class Store {
    var books: map<string, Book>
    var users: map<string, User>
    var loans: map<string, Loan>

    constructor(books0: map<string, Book>, users0: map<string, User>, loans0: map<string, Loan>)
      ensures books == books0 && users == users0 && loans == loans0
      ensures Valid() <==> KeyedById(books0, BookId) && KeyedById(users0, UserId) && KeyedById(loans0, LoanId)
    {
      books, users, loans := books0, users0, loans0;
    }

    /** Every row is stored under its own id, as the tables' primary keys ensure. */
    ghost predicate Valid()
      reads this
    {
      KeyedById(books, BookId) && KeyedById(users, UserId) && KeyedById(loans, LoanId)
    }

    function Tables(): LoanWorkflow.Tables
      reads this
    {
      LoanWorkflow.Tables(books, users, loans)
    }

    /** Every loan as the join returns it, keyed by loan id. */
    function JoinedLoans(): (m: map<string, Loan>)
      reads this
      ensures m.Keys == loans.Keys
    {
      map id | id in loans :: Joined(books, users, loans[id])
    }

    // ---- books ----

    /** `getBooks`: every book once, newest `created_at` first, or the error. */
    method GetBooks(ok: bool) returns (r: Result<seq<Book>>)
      ensures !ok ==> r == Err(ERR_FETCHING_BOOKS)
      ensures ok ==> r.Ok? && ListsTableDesc(r.value, books, BookCreated)
      ensures ok && books == map[] ==> r == Ok([])
      ensures ok && Valid() ==> forall i, j :: 0 <= i < j < |r.value| ==> r.value[i].id != r.value[j].id
    {
      if !ok {
        return Err(ERR_FETCHING_BOOKS);
      }
      var rows := ListDesc(books, BookCreated);
      if Valid() {
        ListedIdsDistinct(rows, books, BookCreated, BookId);
      }
      r := Ok(rows);
    }

    /** `getBook`: the row, or null when the store fails or no row has the id. */
    method GetBook(id: string, ok: bool) returns (r: Option<Book>)
      ensures r.Some? <==> ok && id in books
      ensures r.Some? ==> r.value == books[id]
    {
      if !ok || id !in books {
        return None;
      }
      r := Some(books[id]);
    }

    method CreateBook(f: NewBook, newId: string, now: Timestamp, ok: bool) returns (r: Result<Book>)
      modifies this
      ensures old(Valid()) ==> Valid()
      ensures users == old(users) && loans == old(loans)
      ensures r.Ok? <==> ok && newId !in old(books)
      ensures r.Ok? ==> r.value == NewBookRow(f, newId, now) && books == old(books)[newId := r.value]
      ensures r.Err? ==> r.error == ERR_CREATING_BOOK && books == old(books)
    {
      var row := NewBookRow(f, newId, now);
      if !ok || newId in books {
        return Err(ERR_CREATING_BOOK);
      }
      books := books[newId := row];
      r := Ok(row);
    }

    /** `updateBook`: `.single()` makes a missing row an error. */
    method UpdateBook(id: string, p: BookPatch, now: Timestamp, ok: bool) returns (r: Result<Book>)
      modifies this
      ensures old(Valid()) ==> Valid()
      ensures users == old(users) && loans == old(loans)
      ensures r.Ok? <==> ok && id in old(books)
      ensures r.Ok? ==> r.value == PatchBook(old(books)[id], p, now) && books == old(books)[id := r.value]
      ensures r.Err? ==> r.error == ERR_UPDATING_BOOK && books == old(books)
    {
      if !ok || id !in books {
        return Err(ERR_UPDATING_BOOK);
      }
      var row := PatchBook(books[id], p, now);
      books := books[id := row];
      r := Ok(row);
    }

    /** `deleteBook`: no check for loans that reference the book. */
    method DeleteBook(id: string, ok: bool) returns (r: Outcome)
      modifies this
      ensures old(Valid()) ==> Valid()
      ensures users == old(users) && loans == old(loans)
      ensures !ok ==> r == Fail(ERR_DELETING_BOOK) && books == old(books)
      ensures ok ==> r == Pass && books == old(books) - {id}
    {
      if !ok {
        return Fail(ERR_DELETING_BOOK);
      }
      books := books - {id};
      r := Pass;
    }

    // ---- users ----

    method GetUsers(ok: bool) returns (r: Result<seq<User>>)
      ensures !ok ==> r == Err(ERR_FETCHING_USERS)
      ensures ok ==> r.Ok? && ListsTableDesc(r.value, users, UserCreated)
      ensures ok && users == map[] ==> r == Ok([])
      ensures ok && Valid() ==> forall i, j :: 0 <= i < j < |r.value| ==> r.value[i].id != r.value[j].id
    {
      if !ok {
        return Err(ERR_FETCHING_USERS);
      }
      var rows := ListDesc(users, UserCreated);
      if Valid() {
        ListedIdsDistinct(rows, users, UserCreated, UserId);
      }
      r := Ok(rows);
    }

    method GetUser(id: string, ok: bool) returns (r: Option<User>)
      ensures r.Some? <==> ok && id in users
      ensures r.Some? ==> r.value == users[id]
    {
      if !ok || id !in users {
        return None;
      }
      r := Some(users[id]);
    }

    method CreateUser(f: NewUser, newId: string, now: Timestamp, ok: bool) returns (r: Result<User>)
      modifies this
      ensures old(Valid()) ==> Valid()
      ensures books == old(books) && loans == old(loans)
      ensures r.Ok? <==> ok && newId !in old(users)
      ensures r.Ok? ==> r.value == NewUserRow(f, newId, now) && users == old(users)[newId := r.value]
      ensures r.Err? ==> r.error == ERR_CREATING_USER && users == old(users)
    {
      var row := NewUserRow(f, newId, now);
      if !ok || newId in users {
        return Err(ERR_CREATING_USER);
      }
      users := users[newId := row];
      r := Ok(row);
    }

    method UpdateUser(id: string, p: UserPatch, now: Timestamp, ok: bool) returns (r: Result<User>)
      modifies this
      ensures old(Valid()) ==> Valid()
      ensures books == old(books) && loans == old(loans)
      ensures r.Ok? <==> ok && id in old(users)
      ensures r.Ok? ==> r.value == PatchUser(old(users)[id], p, now) && users == old(users)[id := r.value]
      ensures r.Err? ==> r.error == ERR_UPDATING_USER && users == old(users)
    {
      if !ok || id !in users {
        return Err(ERR_UPDATING_USER);
      }
      var row := PatchUser(users[id], p, now);
      users := users[id := row];
      r := Ok(row);
    }

    /** `deleteUser`: no check for loans that reference the user. */
    method DeleteUser(id: string, ok: bool) returns (r: Outcome)
      modifies this
      ensures old(Valid()) ==> Valid()
      ensures books == old(books) && loans == old(loans)
      ensures !ok ==> r == Fail(ERR_DELETING_USER) && users == old(users)
      ensures ok ==> r == Pass && users == old(users) - {id}
    {
      if !ok {
        return Fail(ERR_DELETING_USER);
      }
      users := users - {id};
      r := Pass;
    }

    // ---- loans ----

    /** `getLoans`: every loan once, joined with its book and user, newest
        `loan_date` first, or the error. */
    method GetLoans(ok: bool) returns (r: Result<seq<Loan>>)
      ensures !ok ==> r == Err(ERR_FETCHING_LOANS)
      ensures ok ==> r.Ok? && ListsTableDesc(r.value, JoinedLoans(), LoanDate)
      ensures ok && loans == map[] ==> r == Ok([])
      ensures ok && Valid() ==> forall i, j :: 0 <= i < j < |r.value| ==> r.value[i].id != r.value[j].id
    {
      if !ok {
        return Err(ERR_FETCHING_LOANS);
      }
      var rows := ListDesc(JoinedLoans(), LoanDate);
      if Valid() {
        assert KeyedById(JoinedLoans(), LoanId);
        ListedIdsDistinct(rows, JoinedLoans(), LoanDate, LoanId);
      }
      r := Ok(rows);
    }

    /** `getLoan`: null, not an error, when the store fails or the id is absent. */
    method GetLoan(id: string, ok: bool) returns (r: Option<Loan>)
      ensures r.Some? <==> ok && id in loans
      ensures r.Some? ==> r.value == Joined(books, users, loans[id])
    {
      if !ok || id !in loans {
        return None;
      }
      r := Some(Joined(books, users, loans[id]));
    }

    /** `createLoan`: the book update strictly before the insert, no rollback. */
    method CreateLoan(bookId: string, userId: string, now: Timestamp, newId: string, written: int,
                      updateOk: bool, insertOk: bool) returns (r: Result<Loan>)
      modifies this
      ensures old(Valid()) ==> Valid()
      ensures var s := LoanWorkflow.CreateLoanStep(old(Tables()), bookId, userId, now, newId, written, updateOk, insertOk);
        Tables() == s.tables && r == s.result
    {
      if !updateOk {
        return Err(LoanWorkflow.ERR_BOOK_AVAILABILITY);
      }
      if bookId in books {
        books := books[bookId := books[bookId].(available := false, borrowCount := Some(written))];
      }
      if !insertOk || newId in loans {
        return Err(LoanWorkflow.ERR_CREATING_LOAN);
      }
      var row := ActiveLoanRow(newId, bookId, userId, now);
      loans := loans[newId := row];
      r := Ok(Joined(books, users, row));
    }

    /** `returnLoan`: read the loan, free its book, then mark it returned. */
    method ReturnLoan(id: string, now: Timestamp, fetchOk: bool, bookOk: bool, loanOk: bool) returns (r: Result<Loan>)
      modifies this
      ensures old(Valid()) ==> Valid()
      ensures var s := LoanWorkflow.ReturnLoanStep(old(Tables()), id, now, fetchOk, bookOk, loanOk);
        Tables() == s.tables && r == s.result
    {
      if !fetchOk || id !in loans {
        return Err(LoanWorkflow.ERR_FETCHING_LOAN);
      }
      var bookId := loans[id].bookId;
      if !bookOk {
        return Err(LoanWorkflow.ERR_BOOK_AVAILABILITY);
      }
      if bookId in books {
        books := books[bookId := books[bookId].(available := true)];
      }
      if !loanOk {
        return Err(LoanWorkflow.ERR_UPDATING_LOAN);
      }
      var row := loans[id].(status := RETURNED, returnDate := Some(now));
      loans := loans[id := row];
      r := Ok(Joined(books, users, row));
    }
  }
}
