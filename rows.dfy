/** The rows of the three tables of the record store (`books`, `users`,
    `loans`) and the request shapes the services send to it. Identifiers are
    strings, timestamps are ordered instants. A loan row read through the
    store's join carries the book and user it references. */
module Rows {
  import opened Outcomes

  type Timestamp = int

  /** The two values of the `status` column of a loan. */
  const ACTIVE: string := "active"
  const RETURNED: string := "returned"

  datatype Book = Book(
    id: string,
    title: string,
    author: string,
    category: string,
    year: int,
    available: bool,
    createdAt: Timestamp,
    updatedAt: Timestamp,
    borrowCount: Option<int>)

  datatype User = User(
    id: string,
    name: string,
    email: string,
    isActive: bool,
    createdAt: Timestamp,
    updatedAt: Timestamp)

  datatype Loan = Loan(
    id: string,
    bookId: string,
    userId: string,
    loanDate: Timestamp,
    returnDate: Option<Timestamp>,
    status: string,
    createdAt: Timestamp,
    book: Option<Book>,
    user: Option<User>)

  /** What a caller hands to `createBook`: the insert shape without the
      fields the service fills in. */
  datatype NewBook = NewBook(title: string, author: string, category: string, year: int, available: bool)

  /** A `Partial<Book>` handed to `updateBook`; `None` is a field left out. */
  datatype BookPatch = BookPatch(
    title: Option<string>,
    author: Option<string>,
    category: Option<string>,
    year: Option<int>,
    available: Option<bool>,
    borrowCount: Option<int>)

  datatype NewUser = NewUser(name: string, email: string, isActive: bool)

  datatype UserPatch = UserPatch(name: Option<string>, email: Option<string>, isActive: Option<bool>)

  function BookId(b: Book): string { b.id }
  function UserId(u: User): string { u.id }
  function LoanId(l: Loan): string { l.id }

  /** The ordering columns of the three list queries. */
  function BookCreated(b: Book): Timestamp { b.createdAt }
  function UserCreated(u: User): Timestamp { u.createdAt }
  function LoanDate(l: Loan): Timestamp { l.loanDate }

  /** The row `createBook` inserts: the given fields, a zero borrow count and
      both timestamps set to the same instant. */
  function NewBookRow(f: NewBook, id: string, now: Timestamp): (b: Book)
    ensures b.id == id && b.createdAt == now && b.updatedAt == now
    ensures b.title == f.title && b.author == f.author && b.category == f.category
    ensures b.year == f.year && b.available == f.available
    ensures b.borrowCount == Some(0)
  {
    Book(id, f.title, f.author, f.category, f.year, f.available, now, now, Some(0))
  }

  /** The row after `updateBook`: supplied fields overwrite, absent ones are
      kept, and `updated_at` is refreshed. */
  function PatchBook(b: Book, p: BookPatch, now: Timestamp): (r: Book)
    ensures r.id == b.id && r.createdAt == b.createdAt && r.updatedAt == now
    ensures r.title == (if p.title.Some? then p.title.value else b.title)
    ensures r.author == (if p.author.Some? then p.author.value else b.author)
    ensures r.category == (if p.category.Some? then p.category.value else b.category)
    ensures r.year == (if p.year.Some? then p.year.value else b.year)
    ensures r.available == (if p.available.Some? then p.available.value else b.available)
    ensures r.borrowCount == (if p.borrowCount.Some? then p.borrowCount else b.borrowCount)
  {
    b.(title := p.title.GetOr(b.title),
       author := p.author.GetOr(b.author),
       category := p.category.GetOr(b.category),
       year := p.year.GetOr(b.year),
       available := p.available.GetOr(b.available),
       borrowCount := if p.borrowCount.Some? then p.borrowCount else b.borrowCount,
       updatedAt := now)
  }

  /** Sending the same patch twice has the effect of sending it once. */
  lemma PatchBookIdempotent(b: Book, p: BookPatch, now: Timestamp)
    ensures PatchBook(PatchBook(b, p, now), p, now) == PatchBook(b, p, now)
  {
  }

  /** A patch that supplies nothing only refreshes the update timestamp. */
  lemma EmptyBookPatch(b: Book, now: Timestamp)
    ensures PatchBook(b, BookPatch(None, None, None, None, None, None), now) == b.(updatedAt := now)
  {
  }

  /** The row `createUser` inserts. */
  function NewUserRow(f: NewUser, id: string, now: Timestamp): (u: User)
    ensures u.id == id && u.createdAt == now && u.updatedAt == now
    ensures u.name == f.name && u.email == f.email && u.isActive == f.isActive
  {
    User(id, f.name, f.email, f.isActive, now, now)
  }

  /** The row after `updateUser`. */
  function PatchUser(u: User, p: UserPatch, now: Timestamp): (r: User)
    ensures r.id == u.id && r.createdAt == u.createdAt && r.updatedAt == now
    ensures r.name == (if p.name.Some? then p.name.value else u.name)
    ensures r.email == (if p.email.Some? then p.email.value else u.email)
    ensures r.isActive == (if p.isActive.Some? then p.isActive.value else u.isActive)
  {
    u.(name := p.name.GetOr(u.name),
       email := p.email.GetOr(u.email),
       isActive := p.isActive.GetOr(u.isActive),
       updatedAt := now)
  }

  lemma PatchUserIdempotent(u: User, p: UserPatch, now: Timestamp)
    ensures PatchUser(PatchUser(u, p, now), p, now) == PatchUser(u, p, now)
  {
  }

  /** The row `createLoan` inserts: active, lent now, no return date. */
  function ActiveLoanRow(id: string, bookId: string, userId: string, now: Timestamp): (l: Loan)
    ensures l.id == id && l.bookId == bookId && l.userId == userId
    ensures l.status == ACTIVE && l.loanDate == now && l.returnDate == None
  {
    Loan(id, bookId, userId, now, None, ACTIVE, now, None, None)
  }

  function Lookup<T>(m: map<string, T>, k: string): (r: Option<T>)
    ensures r.Some? <==> k in m
    ensures r.Some? ==> r.value == m[k]
  {
    if k in m then Some(m[k]) else None
  }

  /** A loan as the store's `select('*, book:books(*), user:users(*)')`
      returns it: the referenced rows embedded, absent when they are gone. */
  function Joined(books: map<string, Book>, users: map<string, User>, l: Loan): (r: Loan)
    ensures r.id == l.id && r.bookId == l.bookId && r.userId == l.userId
    ensures r.loanDate == l.loanDate && r.returnDate == l.returnDate && r.status == l.status
    ensures r.createdAt == l.createdAt
    ensures r.book.Some? <==> l.bookId in books
    ensures r.book.Some? ==> r.book.value == books[l.bookId]
    ensures r.user.Some? <==> l.userId in users
    ensures r.user.Some? ==> r.user.value == users[l.userId]
  {
    l.(book := Lookup(books, l.bookId), user := Lookup(users, l.userId))
  }
}
