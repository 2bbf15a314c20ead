/** The search filters of the list pages: a row is kept when the lower-cased
    search term occurs in one of its lower-cased text fields. */
module Search {
  import opened Outcomes
  import opened Rows
  import opened Text
  import opened Lists

  /** `field.toLowerCase().includes(term.toLowerCase())`. */
  predicate Mentions(field: string, term: string) {
    Contains(Lower(field), Lower(term))
  }

  /** Book search: title, author or category. */
  predicate BookMatches(b: Book, term: string) {
    Mentions(b.title, term) || Mentions(b.author, term) || Mentions(b.category, term)
  }

  function FilterBooks(books: seq<Book>, term: string): (r: seq<Book>)
    ensures forall b :: b in r <==> b in books && BookMatches(b, term)
    ensures forall b :: multiset(r)[b] == if BookMatches(b, term) then multiset(books)[b] else 0
    ensures IsSubsequence(r, books)
  {
    FilterIsSubsequence(books, (b: Book) => BookMatches(b, term));
    Filter(books, (b: Book) => BookMatches(b, term))
  }

  /** An empty search term keeps every book, in order. */
  lemma EmptyTermKeepsAllBooks(books: seq<Book>)
    ensures FilterBooks(books, "") == books
  {
    forall b | b in books ensures BookMatches(b, "") {
      ContainsEmpty(Lower(b.title));
    }
    FilterKeepsAll(books, (b: Book) => BookMatches(b, ""));
  }

  /** User search: name or email. */
  predicate UserMatches(u: User, term: string) {
    Mentions(u.name, term) || Mentions(u.email, term)
  }

  function FilterUsers(users: seq<User>, term: string): (r: seq<User>)
    ensures forall u :: u in r <==> u in users && UserMatches(u, term)
    ensures forall u :: multiset(r)[u] == if UserMatches(u, term) then multiset(users)[u] else 0
    ensures IsSubsequence(r, users)
  {
    FilterIsSubsequence(users, (u: User) => UserMatches(u, term));
    Filter(users, (u: User) => UserMatches(u, term))
  }

  lemma EmptyTermKeepsAllUsers(users: seq<User>)
    ensures FilterUsers(users, "") == users
  {
    forall u | u in users ensures UserMatches(u, "") {
      ContainsEmpty(Lower(u.name));
    }
    FilterKeepsAll(users, (u: User) => UserMatches(u, ""));
  }

  /** Loan search: the embedded book's title or author, or the embedded
      user's name or email; a side that is not embedded matches nothing
      (`loan.book?.title...` is undefined). */
  predicate LoanMatches(l: Loan, term: string) {
    || (l.book.Some? && (Mentions(l.book.value.title, term) || Mentions(l.book.value.author, term)))
    || (l.user.Some? && (Mentions(l.user.value.name, term) || Mentions(l.user.value.email, term)))
  }

  /** `if (!searchTerm) return true;` guards the match. */
  function FilterLoans(loans: seq<Loan>, term: string): (r: seq<Loan>)
    ensures term == "" ==> r == loans
    ensures term != "" ==> forall l :: l in r <==> l in loans && LoanMatches(l, term)
    ensures term != "" ==> forall l :: multiset(r)[l] == if LoanMatches(l, term) then multiset(loans)[l] else 0
    ensures IsSubsequence(r, loans)
  {
    if term == "" then
      FilterKeepsAll(loans, (l: Loan) => true);
      FilterIsSubsequence(loans, (l: Loan) => true);
      loans
    else
      FilterIsSubsequence(loans, (l: Loan) => LoanMatches(l, term));
      Filter(loans, (l: Loan) => LoanMatches(l, term))
  }

  /** With a non-empty term a loan that embeds neither a book nor a user is dropped. */
  lemma UnjoinedLoanNeverMatches(loans: seq<Loan>, term: string, l: Loan)
    requires term != "" && l.book == None && l.user == None
    ensures l !in FilterLoans(loans, term)
  {
  }

  /** `books.filter(book => book.available)` of the loans page. */
  function AvailableBooks(books: seq<Book>): (r: seq<Book>)
    ensures forall b :: b in r <==> b in books && b.available
    ensures forall b :: multiset(r)[b] == if b.available then multiset(books)[b] else 0
    ensures IsSubsequence(r, books)
  {
    FilterIsSubsequence(books, (b: Book) => b.available);
    Filter(books, (b: Book) => b.available)
  }
}
