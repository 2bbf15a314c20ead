/** The loans hook of `src/features/loans/hooks/useLoans.ts`: the in-memory
    list of loans the loans page shows, its loading flag, its last error and
    its search term. Every loan the hook stores has its `status` forced to
    one of the two values of the column. The services `getLoansByUserId`,
    `getLoansByBookId`, `updateLoanStatus` and `deleteLoan` it imports are
    not part of this model; their replies are parameters. */
module LoansHook {
  import opened Outcomes
  import opened Rows
  import opened Lists
  import RecordStore
  import LoanWorkflow

  /** `status === "active" ? "active" : "returned"`. */
  function NormalizeStatus(s: string): (r: string)
    ensures r == ACTIVE || r == RETURNED
    ensures r == ACTIVE <==> s == ACTIVE
  {
    if s == ACTIVE then ACTIVE else RETURNED
  }

  predicate WellTyped(l: Loan) {
    l.status == ACTIVE || l.status == RETURNED
  }

  /** `{ ...loan, status: ... }`: only the status changes. */
  function Normalized(l: Loan): (r: Loan)
    ensures WellTyped(r)
    ensures r.(status := l.status) == l
    ensures r.status == ACTIVE <==> l.status == ACTIVE
  {
    l.(status := NormalizeStatus(l.status))
  }

  /** A loan whose status is already one of the two values is left as it is,
      so normalising twice is normalising once. */
  lemma NormalizedFixesWellTyped(l: Loan)
    ensures WellTyped(l) <==> Normalized(l) == l
    ensures Normalized(Normalized(l)) == Normalized(l)
  {
  }

  /** `data.map(loan => ({ ...loan, status: ... }))`. */
  function NormalizeAll(ls: seq<Loan>): (r: seq<Loan>)
    ensures |r| == |ls|
    ensures forall i :: 0 <= i < |ls| ==> r[i] == Normalized(ls[i])
  {
    seq(|ls|, i requires 0 <= i < |ls| => Normalized(ls[i]))
  }

  /** The table of loans as the hook sees it after normalising. */
  function NormalizeTable(m: map<string, Loan>): (r: map<string, Loan>)
    ensures r.Keys == m.Keys
    ensures forall k :: k in m ==> r[k] == Normalized(m[k])
  {
    map k | k in m :: Normalized(m[k])
  }

  /** Normalising keeps each listed loan under its key. */
  lemma NormalizeKeys(rows: seq<Loan>, m: map<string, Loan>, keys: seq<string>)
    requires ListsKeys(rows, m, keys, m.Keys)
    ensures ListsKeys(NormalizeAll(rows), NormalizeTable(m), keys, m.Keys)
  {
  }

  /** Normalising keeps the loan dates, so it keeps the order. */
  lemma NormalizeSorted(rows: seq<Loan>)
    requires SortedDesc(rows, LoanDate)
    ensures SortedDesc(NormalizeAll(rows), LoanDate)
  {
    var r := NormalizeAll(rows);
    forall i, j | 0 <= i < j < |r| ensures LoanDate(r[i]) >= LoanDate(r[j]) {
      assert r[i].loanDate == rows[i].loanDate && r[j].loanDate == rows[j].loanDate;
    }
  }

  /** Normalising a listing of a table lists the normalised table, in the
      same order: the status is not the ordering column. */
  lemma NormalizeListing(rows: seq<Loan>, m: map<string, Loan>)
    requires ListsTableDesc(rows, m, LoanDate)
    ensures ListsTableDesc(NormalizeAll(rows), NormalizeTable(m), LoanDate)
  {
    var keys :| ListsKeys(rows, m, keys, m.Keys);
    NormalizeKeys(rows, m, keys);
    NormalizeSorted(rows);
    assert NormalizeTable(m).Keys == m.Keys;
  }

  /** What `addLoan` hands to `createLoan`. Only the two ids reach the
      store; `createLoan` sets its own loan date and status. */
  datatype LoanRequest = LoanRequest(
    bookId: string,
    userId: string,
    loanDate: Timestamp,
    returnDate: string,
    status: string)

  class LoanList {
    var loans: seq<Loan>
    var loading: bool
    var error: Option<string>
    var searchTerm: string

    /** The `Loan` type of the hook: every stored loan has one of the two statuses. */
    ghost predicate Valid()
      reads this
    {
      forall i :: 0 <= i < |loans| ==> WellTyped(loans[i])
    }

    constructor()
      ensures Valid()
      ensures loans == [] && !loading && error == None && searchTerm == ""
    {
      loans, loading, error, searchTerm := [], false, None, "";
    }

    /** The shared tail of `fetchLoansByUser` and `fetchLoansByBook`: the
        reply replaces the list, or its error is kept and the list is not. */
    method FetchLoansFrom(reply: Result<seq<Loan>>)
      requires Valid()
      modifies this
      ensures Valid()
      ensures !loading && searchTerm == old(searchTerm)
      ensures reply.Ok? ==> loans == NormalizeAll(reply.value) && error == None
      ensures reply.Err? ==> loans == old(loans) && error == Some(reply.error)
    {
      loading := true;
      error := None;
      match reply {
        case Ok(data) =>
          loans := NormalizeAll(data);
        case Err(e) =>
          error := Some(e);
      }
      loading := false;
    }

    /** `fetchLoans`: every loan of the store, joined and normalised, newest first. */
    method FetchLoans(store: RecordStore.Store, ok: bool)
      requires Valid()
      modifies this
      ensures Valid()
      ensures !loading && searchTerm == old(searchTerm)
      ensures ok ==> error == None && ListsTableDesc(loans, NormalizeTable(store.JoinedLoans()), LoanDate)
      ensures !ok ==> loans == old(loans) && error == Some(RecordStore.ERR_FETCHING_LOANS)
    {
      var reply := store.GetLoans(ok);
      if reply.Ok? {
        NormalizeListing(reply.value, store.JoinedLoans());
      }
      FetchLoansFrom(reply);
    }

    /** `addLoan`: create the loan in the store and append it to the list. */
    method AddLoan(store: RecordStore.Store, req: LoanRequest, now: Timestamp, newId: string,
                   written: int, updateOk: bool, insertOk: bool) returns (r: Option<Loan>)
      requires Valid()
      modifies this, store
      ensures Valid()
      ensures var s := LoanWorkflow.CreateLoanStep(old(store.Tables()), req.bookId, req.userId, now, newId, written, updateOk, insertOk);
        && store.Tables() == s.tables
        && (s.result.Ok? ==> r == Some(s.result.value) && loans == old(loans) + [s.result.value] && error == None)
        && (s.result.Err? ==> r == None && loans == old(loans) && error == Some(s.result.error))
      ensures !loading && searchTerm == old(searchTerm)
    {
      loading := true;
      error := None;
      var created := store.CreateLoan(req.bookId, req.userId, now, newId, written, updateOk, insertOk);
      match created {
        case Ok(l) =>
          var typed := Normalized(l);
          loans := loans + [typed];
          r := Some(typed);
        case Err(e) =>
          error := Some(e);
          r := None;
      }
      loading := false;
    }

    /** `returnLoan`: the updated row, with status `"returned"`, replaces
        every listed loan with the id. */
    method ReturnLoan(id: string, reply: Result<Loan>) returns (r: Option<Loan>)
      requires Valid()
      modifies this
      ensures Valid()
      ensures !loading && searchTerm == old(searchTerm)
      ensures reply.Ok? ==>
        && r == Some(reply.value.(status := RETURNED))
        && loans == ReplaceById(old(loans), LoanId, id, r.value)
        && error == None
      ensures reply.Err? ==> r == None && loans == old(loans) && error == Some(reply.error)
    {
      loading := true;
      error := None;
      match reply {
        case Ok(u) =>
          var typed := u.(status := RETURNED);
          loans := ReplaceById(loans, LoanId, id, typed);
          r := Some(typed);
        case Err(e) =>
          error := Some(e);
          r := None;
      }
      loading := false;
    }

    /** `removeLoan`: on success every listed loan with the id is dropped. */
    method RemoveLoan(id: string, reply: Outcome) returns (r: bool)
      requires Valid()
      modifies this
      ensures Valid()
      ensures !loading && searchTerm == old(searchTerm)
      ensures r <==> reply.Pass?
      ensures reply.Pass? ==> loans == RemoveById(old(loans), LoanId, id) && error == None
      ensures reply.Fail? ==> loans == old(loans) && error == Some(reply.error)
    {
      loading := true;
      error := None;
      match reply {
        case Pass =>
          ghost var before := loans;
          loans := RemoveById(loans, LoanId, id);
          forall i | 0 <= i < |loans| ensures WellTyped(loans[i]) {
            assert loans[i] in before;
          }
          r := true;
        case Fail(e) =>
          error := Some(e);
          r := false;
      }
      loading := false;
    }

    method HandleSearch(term: string)
      modifies this
      ensures searchTerm == term
      ensures loans == old(loans) && loading == old(loading) && error == old(error)
    {
      searchTerm := term;
    }

    /** `handleCreateLoan`: a request dated now, with an empty return date
        and status `"active"`, handed to `addLoan`. */
    method HandleCreateLoan(store: RecordStore.Store, bookId: string, userId: string, now: Timestamp,
                            newId: string, written: int, updateOk: bool, insertOk: bool) returns (r: Option<Loan>)
      requires Valid()
      modifies this, store
      ensures Valid()
      ensures var s := LoanWorkflow.CreateLoanStep(old(store.Tables()), bookId, userId, now, newId, written, updateOk, insertOk);
        && store.Tables() == s.tables
        && (s.result.Ok? ==> r == Some(s.result.value) && loans == old(loans) + [s.result.value] && error == None)
        && (s.result.Err? ==> r == None && loans == old(loans) && error == Some(s.result.error))
      ensures !loading && searchTerm == old(searchTerm)
    {
      r := AddLoan(store, LoanRequest(bookId, userId, now, "", ACTIVE), now, newId, written, updateOk, insertOk);
    }
  }

  /** A loan the store has just created is active, so the hook stores it unchanged. */
  lemma CreatedLoanIsActive(t: LoanWorkflow.Tables, bookId: string, userId: string, now: Timestamp,
                            newId: string, written: int, updateOk: bool, insertOk: bool)
    ensures var s := LoanWorkflow.CreateLoanStep(t, bookId, userId, now, newId, written, updateOk, insertOk);
      s.result.Ok? ==> s.result.value.status == ACTIVE && Normalized(s.result.value) == s.result.value
  {
  }

  /** After a successful return every listed loan with the id is returned,
      and no other loan changes. */
  lemma ReturnMarksReturned(loans: seq<Loan>, id: string, u: Loan)
    ensures var r := ReplaceById(loans, LoanId, id, u.(status := RETURNED));
      && |r| == |loans|
      && (forall i :: 0 <= i < |loans| && loans[i].id == id ==> r[i].status == RETURNED)
      && (forall i :: 0 <= i < |loans| && loans[i].id != id ==> r[i] == loans[i])
  {
  }

  /** After a successful removal no listed loan has the id. */
  lemma RemoveDropsId(loans: seq<Loan>, id: string)
    ensures forall l :: l in RemoveById(loans, LoanId, id) ==> l.id != id
    ensures forall l :: l in loans && l.id != id ==> l in RemoveById(loans, LoanId, id)
  {
  }
}
