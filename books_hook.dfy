/** The books hook of `src/features/books/hooks/useBooks.ts`: the list of
    books read from the store, the search term, and the loading flag. The
    hook hands out only the books that match the search term. */
module BooksHook {
  import opened Outcomes
  import opened Rows
  import opened Lists
  import opened Search
  import RecordStore

  class BookList {
    var books: seq<Book>
    var searchTerm: string
    var loading: bool

    /** The first render: nothing loaded yet, loading. */
    constructor()
      ensures books == [] && searchTerm == "" && loading
    {
      books, searchTerm, loading := [], "", true;
    }

    /** `books: filteredBooks`: the matching books, in list order. */
    function Visible(): (r: seq<Book>)
      reads this
      ensures forall b :: b in r <==> b in books && BookMatches(b, searchTerm)
      ensures forall b :: multiset(r)[b] == if BookMatches(b, searchTerm) then multiset(books)[b] else 0
      ensures IsSubsequence(r, books)
    {
      FilterBooks(books, searchTerm)
    }

    /** The mount effect: the store's listing replaces the list; on a
        failure the list stays as it was. */
    method Load(store: RecordStore.Store, ok: bool)
      modifies this
      ensures !loading && searchTerm == old(searchTerm)
      ensures ok ==> ListsTableDesc(books, store.books, BookCreated)
      ensures !ok ==> books == old(books)
    {
      loading := true;
      var reply := store.GetBooks(ok);
      if reply.Ok? {
        books := reply.value;
      }
      loading := false;
    }

    method HandleSearch(value: string)
      modifies this
      ensures searchTerm == value && books == old(books) && loading == old(loading)
    {
      searchTerm := value;
    }

    /** `handleDelete`: only after the confirmation, and the book leaves the
        list only when the store deleted it. */
    method HandleDelete(store: RecordStore.Store, id: string, confirmed: bool, ok: bool)
      modifies this, store
      ensures searchTerm == old(searchTerm) && loading == old(loading)
      ensures store.users == old(store.users) && store.loans == old(store.loans)
      ensures confirmed && ok ==> books == RemoveById(old(books), BookId, id) && store.books == old(store.books) - {id}
      ensures !(confirmed && ok) ==> books == old(books) && store.books == old(store.books)
    {
      if confirmed {
        var outcome := store.DeleteBook(id, ok);
        if outcome.Pass? {
          books := RemoveById(books, BookId, id);
        }
      }
    }

    /** `addBookToList`: the new book goes first. */
    method AddBookToList(b: Book)
      modifies this
      ensures books == [b] + old(books)
      ensures searchTerm == old(searchTerm) && loading == old(loading)
    {
      books := [b] + books;
    }

    /** `updateBookInList`: the book replaces every entry with its id. */
    method UpdateBookInList(b: Book)
      modifies this
      ensures books == ReplaceById(old(books), BookId, b.id, b)
      ensures searchTerm == old(searchTerm) && loading == old(loading)
    {
      books := ReplaceById(books, BookId, b.id, b);
    }
  }

  /** A book added to the list is shown exactly when it matches the term,
      and it is shown first. */
  lemma {:induction false} AddedBookShownFirst(books: seq<Book>, b: Book, term: string)
    ensures (b in FilterBooks([b] + books, term)) <==> BookMatches(b, term)
    ensures BookMatches(b, term) ==> FilterBooks([b] + books, term)[0] == b
  {
    if BookMatches(b, term) {
      assert ([b] + books)[1..] == books;
    }
  }

  /** After a confirmed, successful delete the book is not shown, whatever the term. */
  lemma DeletedBookNotShown(books: seq<Book>, id: string, term: string)
    ensures forall b :: b in FilterBooks(RemoveById(books, BookId, id), term) ==> b.id != id
  {
  }

  /** Updating a book that is shown keeps the entry count, and the new
      version is shown exactly when it matches. */
  lemma UpdatedBookShown(books: seq<Book>, b: Book, term: string)
    requires exists i :: 0 <= i < |books| && books[i].id == b.id
    ensures |ReplaceById(books, BookId, b.id, b)| == |books|
    ensures (b in FilterBooks(ReplaceById(books, BookId, b.id, b), term)) <==> BookMatches(b, term)
  {
    var i :| 0 <= i < |books| && books[i].id == b.id;
    assert ReplaceById(books, BookId, b.id, b)[i] == b;
  }
}
