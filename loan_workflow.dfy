/** The loan workflow of `src/services/apiLoans.ts` as transitions on the
    three tables. `createLoan` first marks the book unavailable and writes its
    borrow count, then inserts an active loan; `returnLoan` reads the loan,
    marks its book available, then marks the loan returned. Each remote call
    may fail (`...Ok` is false); a failure ends the sequence with nothing
    undone. */
module LoanWorkflow {
  import opened Outcomes
  import opened Rows

  datatype Tables = Tables(books: map<string, Book>, users: map<string, User>, loans: map<string, Loan>)

  /** The tables after an operation and what the operation returned or threw. */
  datatype Step<T> = Step(tables: Tables, result: Result<T>)

  const ERR_BOOK_AVAILABILITY: string := "Error updating book availability"
  const ERR_CREATING_LOAN: string := "Error creating loan"
  const ERR_FETCHING_LOAN: string := "Error fetching loan"
  const ERR_UPDATING_LOAN: string := "Error updating loan"

  /** `update(...).eq('id', id)` without `.single()`: no row matched is not an error. */
  function SetBook(books: map<string, Book>, id: string, f: Book -> Book): (r: map<string, Book>)
    ensures r.Keys == books.Keys
    ensures id in books ==> r[id] == f(books[id])
    ensures forall k :: k in books && k != id ==> r[k] == books[k]
  {
    if id in books then books[id := f(books[id])] else books
  }

  function Borrowed(written: int): Book -> Book {
    (b: Book) => b.(available := false, borrowCount := Some(written))
  }

  function Released(): Book -> Book {
    (b: Book) => b.(available := true)
  }

  /** `createLoan({ book_id, user_id })`. The store may fail on the book
      update (`updateOk`) or on the insert (`insertOk`, or the new id taken).
      `written` is whatever the store ends up holding in `borrow_count`: the
      service passes the un-awaited `increment_borrow_count` call as the
      value, so the model does not fix it. */
  function CreateLoanStep(t: Tables, bookId: string, userId: string, now: Timestamp,
                          newId: string, written: int, updateOk: bool, insertOk: bool): (s: Step<Loan>)
    // the book update failed: nothing changed and the call threw
    ensures !updateOk ==> s == Step(t, Err(ERR_BOOK_AVAILABILITY))
    // no book is added or removed and no user is touched
    ensures s.tables.books.Keys == t.books.Keys && s.tables.users == t.users
    // from the update on, the book (when it exists) is unavailable, whatever happens next
    ensures updateOk && bookId in t.books ==>
      !s.tables.books[bookId].available && s.tables.books[bookId].borrowCount == Some(written)
    // no other book is touched
    ensures forall k :: k in t.books && k != bookId ==> s.tables.books[k] == t.books[k]
    // a loan row appears exactly when the call succeeds
    ensures s.result.Ok? <==> updateOk && insertOk && newId !in t.loans
    ensures s.result.Err? ==> s.tables.loans == t.loans
    ensures s.result.Ok? ==>
      s.tables.loans == t.loans[newId := ActiveLoanRow(newId, bookId, userId, now)]
      && s.result.value == Joined(s.tables.books, s.tables.users, ActiveLoanRow(newId, bookId, userId, now))
    // partial failure: the book is left unavailable and no loan exists
    ensures updateOk && !(insertOk && newId !in t.loans) ==>
      s.result == Err(ERR_CREATING_LOAN) && s.tables.loans == t.loans
  {
    if !updateOk then Step(t, Err(ERR_BOOK_AVAILABILITY))
    else
      var t1 := t.(books := SetBook(t.books, bookId, Borrowed(written)));
      if !insertOk || newId in t.loans then Step(t1, Err(ERR_CREATING_LOAN))
      else
        var row := ActiveLoanRow(newId, bookId, userId, now);
        var t2 := t1.(loans := t1.loans[newId := row]);
        Step(t2, Ok(Joined(t2.books, t2.users, row)))
  }

  /** `returnLoan(id)`. Reading the loan fails when the store fails
      (`fetchOk`) or when no loan has that id; then no book is touched. The
      book is marked available before the loan is marked returned. */
  function ReturnLoanStep(t: Tables, id: string, now: Timestamp,
                          fetchOk: bool, bookOk: bool, loanOk: bool): (s: Step<Loan>)
    ensures !(fetchOk && id in t.loans) ==> s == Step(t, Err(ERR_FETCHING_LOAN))
    ensures fetchOk && id in t.loans && !bookOk ==> s == Step(t, Err(ERR_BOOK_AVAILABILITY))
    ensures s.tables.users == t.users && s.tables.loans.Keys == t.loans.Keys
    ensures s.tables.books.Keys == t.books.Keys
    ensures fetchOk && id in t.loans && bookOk ==>
      var bid := t.loans[id].bookId;
      && (bid in t.books ==> s.tables.books[bid] == t.books[bid].(available := true))
      && (forall k :: k in t.books && k != bid ==> s.tables.books[k] == t.books[k])
    // partial failure: the book is available again while the loan is unchanged
    ensures fetchOk && id in t.loans && bookOk && !loanOk ==>
      s.result == Err(ERR_UPDATING_LOAN) && s.tables.loans == t.loans
    ensures s.result.Ok? <==> fetchOk && id in t.loans && bookOk && loanOk
    ensures s.result.Ok? ==>
      var row := t.loans[id].(status := RETURNED, returnDate := Some(now));
      s.tables.loans == t.loans[id := row] && s.result.value == Joined(s.tables.books, s.tables.users, row)
  {
    if !fetchOk || id !in t.loans then Step(t, Err(ERR_FETCHING_LOAN))
    else
      var bid := t.loans[id].bookId;
      if !bookOk then Step(t, Err(ERR_BOOK_AVAILABILITY))
      else
        var t1 := t.(books := SetBook(t.books, bid, Released()));
        if !loanOk then Step(t1, Err(ERR_UPDATING_LOAN))
        else
          var row := t.loans[id].(status := RETURNED, returnDate := Some(now));
          var t2 := t1.(loans := t1.loans[id := row]);
          Step(t2, Ok(Joined(t2.books, t2.users, row)))
  }

  /** The per-loan state machine: a loan that exists stays, its status either
      stays as it was or becomes returned (never active again), and a loan
      that appears is active. */
  ghost predicate StatusAdvances(before: map<string, Loan>, after: map<string, Loan>) {
    && (forall id :: id in before ==>
          id in after && (after[id].status == before[id].status || after[id].status == RETURNED))
    && (forall id :: id in after && id !in before ==> after[id].status == ACTIVE)
  }

  lemma CreateLoanAdvances(t: Tables, bookId: string, userId: string, now: Timestamp,
                           newId: string, written: int, updateOk: bool, insertOk: bool)
    ensures StatusAdvances(t.loans, CreateLoanStep(t, bookId, userId, now, newId, written, updateOk, insertOk).tables.loans)
  {
  }

  lemma ReturnLoanAdvances(t: Tables, id: string, now: Timestamp, fetchOk: bool, bookOk: bool, loanOk: bool)
    ensures StatusAdvances(t.loans, ReturnLoanStep(t, id, now, fetchOk, bookOk, loanOk).tables.loans)
  {
  }

  /** Some loan of the book is active. */
  ghost predicate HasActiveLoan(loans: map<string, Loan>, bookId: string) {
    exists id :: id in loans && loans[id].bookId == bookId && loans[id].status == ACTIVE
  }

  /** The correspondence the workflow is meant to keep: a book is unavailable
      exactly when one of its loans is active, and no book has two active loans. */
  ghost predicate Consistent(books: map<string, Book>, loans: map<string, Loan>) {
    && (forall b :: b in books ==> (!books[b].available <==> HasActiveLoan(loans, b)))
    && (forall x, y ::
          (x in loans && y in loans && loans[x].status == ACTIVE && loans[y].status == ACTIVE
           && loans[x].bookId == loans[y].bookId) ==> x == y)
  }

  /** Lending an available book with every step succeeding keeps the correspondence. */
  lemma CreateLoanKeepsConsistent(t: Tables, bookId: string, userId: string, now: Timestamp,
                                  newId: string, written: int)
    requires Consistent(t.books, t.loans)
    requires bookId in t.books && t.books[bookId].available
    requires newId !in t.loans
    ensures var s := CreateLoanStep(t, bookId, userId, now, newId, written, true, true);
      s.result.Ok? && Consistent(s.tables.books, s.tables.loans)
  {
    var s := CreateLoanStep(t, bookId, userId, now, newId, written, true, true);
    var books, loans := s.tables.books, s.tables.loans;
    assert !HasActiveLoan(t.loans, bookId);
    assert loans[newId].bookId == bookId && loans[newId].status == ACTIVE;
    forall b | b in books
      ensures !books[b].available <==> HasActiveLoan(loans, b)
    {
      if b == bookId {
        assert HasActiveLoan(loans, b);
      } else {
        if HasActiveLoan(loans, b) {
          var id :| id in loans && loans[id].bookId == b && loans[id].status == ACTIVE;
          assert id != newId && id in t.loans;
        }
        if HasActiveLoan(t.loans, b) {
          var id :| id in t.loans && t.loans[id].bookId == b && t.loans[id].status == ACTIVE;
          assert id in loans && loans[id] == t.loans[id];
        }
      }
    }
  }

  /** Returning an active loan with every step succeeding keeps the correspondence. */
  lemma ReturnLoanKeepsConsistent(t: Tables, id: string, now: Timestamp)
    requires Consistent(t.books, t.loans)
    requires id in t.loans && t.loans[id].status == ACTIVE
    ensures var s := ReturnLoanStep(t, id, now, true, true, true);
      s.result.Ok? && Consistent(s.tables.books, s.tables.loans)
  {
    var s := ReturnLoanStep(t, id, now, true, true, true);
    var books, loans := s.tables.books, s.tables.loans;
    var bid := t.loans[id].bookId;
    forall b | b in books
      ensures !books[b].available <==> HasActiveLoan(loans, b)
    {
      if HasActiveLoan(loans, b) {
        var x :| x in loans && loans[x].bookId == b && loans[x].status == ACTIVE;
        assert x != id && loans[x] == t.loans[x];
        assert b != bid;
      }
      if b != bid && HasActiveLoan(t.loans, b) {
        var x :| x in t.loans && t.loans[x].bookId == b && t.loans[x].status == ACTIVE;
        assert x != id && loans[x] == t.loans[x];
      }
    }
  }

  /** Partial failure of `createLoan`: when the insert fails after the book
      update, a book that was available is left unavailable with no active
      loan, and the correspondence is broken. */
  lemma CreateLoanInsertFailureStrandsBook(t: Tables, bookId: string, userId: string, now: Timestamp,
                                           newId: string, written: int)
    requires Consistent(t.books, t.loans)
    requires bookId in t.books && t.books[bookId].available
    ensures var s := CreateLoanStep(t, bookId, userId, now, newId, written, true, false);
      && s.result.Err?
      && !s.tables.books[bookId].available
      && !HasActiveLoan(s.tables.loans, bookId)
      && !Consistent(s.tables.books, s.tables.loans)
  {
    assert !HasActiveLoan(t.loans, bookId);
  }

  /** Partial failure of `returnLoan`: when the loan update fails after the
      book update, the book is available while its loan is still active. */
  lemma ReturnLoanUpdateFailureFreesLentBook(t: Tables, id: string, now: Timestamp)
    requires id in t.loans && t.loans[id].status == ACTIVE && t.loans[id].bookId in t.books
    ensures var s := ReturnLoanStep(t, id, now, true, true, false);
      && s.result.Err?
      && s.tables.books[t.loans[id].bookId].available
      && s.tables.loans[id].status == ACTIVE
      && !Consistent(s.tables.books, s.tables.loans)
  {
    var s := ReturnLoanStep(t, id, now, true, true, false);
    assert HasActiveLoan(s.tables.loans, t.loans[id].bookId);
  }

  /** `returnLoan` does not look at the status it reads: returning a loan
      that is already returned marks its book available even when the book
      has since been lent again. */
  lemma ReturningAReturnedLoanFreesLentBook(t: Tables, old_: string, current: string, now: Timestamp)
    requires Consistent(t.books, t.loans)
    requires old_ in t.loans && current in t.loans
    requires t.loans[old_].status == RETURNED && t.loans[current].status == ACTIVE
    requires t.loans[old_].bookId == t.loans[current].bookId && t.loans[current].bookId in t.books
    ensures var s := ReturnLoanStep(t, old_, now, true, true, true);
      && s.result.Ok?
      && s.tables.books[t.loans[current].bookId].available
      && s.tables.loans[current].status == ACTIVE
      && !Consistent(s.tables.books, s.tables.loans)
  {
    var s := ReturnLoanStep(t, old_, now, true, true, true);
    assert old_ != current;
    assert HasActiveLoan(s.tables.loans, t.loans[current].bookId);
  }

  /** Lending an available book and returning the loan, every step
      succeeding, makes the book available again; its borrow count keeps the
      value the lending wrote, and the loan ends returned with a return date. */
  lemma LendThenReturn(t: Tables, bookId: string, userId: string, lent: Timestamp,
                       newId: string, written: int, returned: Timestamp)
    requires bookId in t.books && t.books[bookId].available && newId !in t.loans
    ensures var s1 := CreateLoanStep(t, bookId, userId, lent, newId, written, true, true);
      var s2 := ReturnLoanStep(s1.tables, newId, returned, true, true, true);
      && s1.result.Ok? && s2.result.Ok?
      && s2.tables.books[bookId] == t.books[bookId].(borrowCount := Some(written))
      && s2.tables.loans[newId].status == RETURNED
      && s2.tables.loans[newId].returnDate == Some(returned)
      && s2.tables.loans[newId].loanDate == lent
      && s2.tables.loans == t.loans[newId := s2.tables.loans[newId]]
  {
    var s1 := CreateLoanStep(t, bookId, userId, lent, newId, written, true, true);
    assert s1.tables.loans[newId].bookId == bookId;
    var s2 := ReturnLoanStep(s1.tables, newId, returned, true, true, true);
    assert s2.result.Ok?;
    assert s2.tables.books[bookId] == s1.tables.books[bookId].(available := true);
    assert s2.tables.books[bookId] == t.books[bookId].(borrowCount := Some(written));
    assert s2.tables.loans[newId].status == RETURNED;
    assert s2.tables.loans[newId].returnDate == Some(returned);
    assert s2.tables.loans[newId].loanDate == lent;
    assert t.loans[newId := s2.tables.loans[newId]] == s1.tables.loans[newId := s2.tables.loans[newId]];
  }
}
