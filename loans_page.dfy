/** The loans page `src/pages/Loans.tsx`: the loans hook, the books hook
    whose available books can be lent, the two selections of the new-loan
    dialog and whether the dialog is open. */
module LoansPage {
  import opened Outcomes
  import opened Rows
  import opened Lists
  import opened Search
  import RecordStore
  import LoanWorkflow
  import LoansHook
  import BooksHook

  class LoanDesk {
    const loanList: LoansHook.LoanList
    const bookList: BooksHook.BookList
    var selectedBookId: string
    var selectedUserId: string
    var isDialogOpen: bool

    constructor(loans0: LoansHook.LoanList, books0: BooksHook.BookList)
      ensures loanList == loans0 && bookList == books0
      ensures selectedBookId == "" && selectedUserId == "" && !isDialogOpen
    {
      loanList, bookList := loans0, books0;
      selectedBookId, selectedUserId, isDialogOpen := "", "", false;
    }

    /** `books.filter(book => book.available)` over the books the books hook shows. */
    function AvailableToLend(): (r: seq<Book>)
      reads this, bookList
      ensures forall b :: b in r <==> b in bookList.books && BookMatches(b, bookList.searchTerm) && b.available
      ensures forall b :: multiset(r)[b] == (if BookMatches(b, bookList.searchTerm) && b.available
                                              then multiset(bookList.books)[b] else 0)
    {
      AvailableBooks(bookList.Visible())
    }

    /** `filteredLoans`: every loan for an empty term, else the loans whose
        embedded book or user mentions it. */
    function FilteredLoans(): (r: seq<Loan>)
      reads this, loanList
      ensures loanList.searchTerm == "" ==> r == loanList.loans
      ensures loanList.searchTerm != "" ==>
        forall l :: l in r <==> l in loanList.loans && LoanMatches(l, loanList.searchTerm)
      ensures loanList.searchTerm != "" ==>
        forall l :: multiset(r)[l] == (if LoanMatches(l, loanList.searchTerm)
                                       then multiset(loanList.loans)[l] else 0)
      ensures IsSubsequence(r, loanList.loans)
    {
      FilterLoans(loanList.loans, loanList.searchTerm)
    }

    method SelectBook(id: string)
      modifies this
      ensures selectedBookId == id && selectedUserId == old(selectedUserId) && isDialogOpen == old(isDialogOpen)
    {
      selectedBookId := id;
    }

    method SelectUser(id: string)
      modifies this
      ensures selectedUserId == id && selectedBookId == old(selectedBookId) && isDialogOpen == old(isDialogOpen)
    {
      selectedUserId := id;
    }

    method SetDialogOpen(open: bool)
      modifies this
      ensures isDialogOpen == open
      ensures selectedBookId == old(selectedBookId) && selectedUserId == old(selectedUserId)
    {
      isDialogOpen := open;
    }

    /** `handleLoanSubmit`: nothing without both selections; otherwise the
        loan is requested, and whether or not it was created the selections
        are cleared and the dialog closes. */
    method HandleLoanSubmit(store: RecordStore.Store, now: Timestamp, newId: string, written: int,
                            updateOk: bool, insertOk: bool)
      requires loanList.Valid()
      modifies this, loanList, store
      ensures loanList.Valid()
      ensures var submitted := old(selectedBookId) != "" && old(selectedUserId) != "";
        && (!submitted ==>
              && store.Tables() == old(store.Tables())
              && loanList.loans == old(loanList.loans) && loanList.error == old(loanList.error)
              && loanList.loading == old(loanList.loading)
              && selectedBookId == old(selectedBookId) && selectedUserId == old(selectedUserId)
              && isDialogOpen == old(isDialogOpen))
        && (submitted ==>
              var s := LoanWorkflow.CreateLoanStep(old(store.Tables()), old(selectedBookId), old(selectedUserId),
                                                   now, newId, written, updateOk, insertOk);
              && store.Tables() == s.tables
              && (s.result.Ok? ==> loanList.loans == old(loanList.loans) + [s.result.value] && loanList.error == None)
              && (s.result.Err? ==> loanList.loans == old(loanList.loans) && loanList.error == Some(s.result.error))
              && !loanList.loading
              && selectedBookId == "" && selectedUserId == "" && !isDialogOpen)
      ensures loanList.searchTerm == old(loanList.searchTerm)
    {
      if selectedBookId == "" || selectedUserId == "" {
        return;
      }
      var _ := loanList.HandleCreateLoan(store, selectedBookId, selectedUserId, now, newId, written, updateOk, insertOk);
      selectedBookId := "";
      selectedUserId := "";
      isDialogOpen := false;
    }
  }

  /** Lending a book the desk offers, while the list still shows the
      store's row, with both store calls succeeding and a fresh loan id,
      creates the loan and keeps the tables consistent. */
  lemma LendingOfferedBookKeepsConsistent(t: LoanWorkflow.Tables, books: seq<Book>, term: string, b: Book,
                                          userId: string, now: Timestamp, newId: string, written: int)
    requires b in AvailableBooks(FilterBooks(books, term))
    requires LoanWorkflow.Consistent(t.books, t.loans) && b.id in t.books && t.books[b.id] == b
    requires newId !in t.loans
    ensures var s := LoanWorkflow.CreateLoanStep(t, b.id, userId, now, newId, written, true, true);
      s.result.Ok? && LoanWorkflow.Consistent(s.tables.books, s.tables.loans)
  {
    assert b.available;
    LoanWorkflow.CreateLoanKeepsConsistent(t, b.id, userId, now, newId, written);
  }
}
