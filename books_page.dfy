/** The catalogue page `src/pages/Books.tsx`. It keeps its own list of books
    in memory, seeded with fixture data, and adds, edits and deletes entries
    of that list without calling the store. The form draft holds the year as
    the number it was loaded with or as the text typed into the year input. */
module BooksPage {
  import opened Outcomes
  import opened Rows
  import opened Lists
  import opened Search
  import opened Forms

  /** The `year` of the draft: a number, or the raw text of the input. */
  datatype YearField = YearNumber(n: int) | YearText(s: string)

  /** `!newBook.year` is false. */
  predicate YearTruthy(y: YearField) {
    match y
    case YearNumber(n) => n != 0
    case YearText(s) => s != ""
  }

  /** `Number(newBook.year)`. */
  function YearValue(y: YearField): (n: int)
    ensures y.YearNumber? ==> n == y.n
    ensures y.YearText? ==> n == NumberOf(y.s)
  {
    match y
    case YearNumber(n) => n
    case YearText(s) => NumberOf(s)
  }

  datatype BookDraft = BookDraft(title: string, author: string, category: string, year: YearField, available: bool)

  /** The empty form: blank text fields, the current year, available. */
  function BlankDraft(currentYear: int): (d: BookDraft)
    ensures d.title == "" && d.author == "" && d.category == ""
    ensures d.year == YearNumber(currentYear) && d.available
  {
    BookDraft("", "", "", YearNumber(currentYear), true)
  }

  /** `!newBook.title || !newBook.author || !newBook.category || !newBook.year`. */
  predicate Filled(d: BookDraft) {
    d.title != "" && d.author != "" && d.category != "" && YearTruthy(d.year)
  }

  /** `{ ...prev, [name]: type === 'checkbox' ? checked : value }` for the
      five controls of the form; the year input stores its raw text. */
  function EditDraft(d: BookDraft, e: FieldEdit): (r: BookDraft)
    ensures e.TextEdit? && e.name == "title" ==> r == d.(title := e.value)
    ensures e.TextEdit? && e.name == "author" ==> r == d.(author := e.value)
    ensures e.TextEdit? && e.name == "category" ==> r == d.(category := e.value)
    ensures e.TextEdit? && e.name == "year" ==> r == d.(year := YearText(e.value))
    ensures e.CheckEdit? && e.name == "available" ==> r == d.(available := e.checked)
    ensures e.name !in {"title", "author", "category", "year", "available"} ==> r == d
  {
    match e
    case TextEdit(n, v) =>
      if n == "title" then d.(title := v)
      else if n == "author" then d.(author := v)
      else if n == "category" then d.(category := v)
      else if n == "year" then d.(year := YearText(v))
      else d
    case CheckEdit(n, c) =>
      if n == "available" then d.(available := c) else d
  }

  /** The draft `startEditing` loads from a book. */
  function DraftOf(b: Book): (d: BookDraft)
    ensures d.title == b.title && d.author == b.author && d.category == b.category
    ensures d.year == YearNumber(b.year) && d.available == b.available
  {
    BookDraft(b.title, b.author, b.category, YearNumber(b.year), b.available)
  }

  /** The book `handleAddBook` builds: the draft's fields, the year read as
      a number, no loans yet, created and updated now. */
  function AddedBook(d: BookDraft, id: string, now: Timestamp): (b: Book)
    ensures b.id == id && b.title == d.title && b.author == d.author && b.category == d.category
    ensures b.year == YearValue(d.year) && b.available == d.available
    ensures b.createdAt == now && b.updatedAt == now && b.borrowCount == Some(0)
  {
    NewBookRow(NewBook(d.title, d.author, d.category, YearValue(d.year), d.available), id, now)
  }

  /** The entry `handleEditBook` writes over a book: each text field of the
      draft when non-empty, the year when it reads as a non-zero number,
      the availability always, and a fresh update time. */
  function Merged(b: Book, d: BookDraft, now: Timestamp): (r: Book)
    ensures r.id == b.id && r.createdAt == b.createdAt && r.borrowCount == b.borrowCount
    ensures r.title == (if d.title != "" then d.title else b.title)
    ensures r.author == (if d.author != "" then d.author else b.author)
    ensures r.category == (if d.category != "" then d.category else b.category)
    ensures r.year == (if YearValue(d.year) != 0 then YearValue(d.year) else b.year)
    ensures r.available == d.available && r.updatedAt == now
  {
    b.(title := if d.title != "" then d.title else b.title,
       author := if d.author != "" then d.author else b.author,
       category := if d.category != "" then d.category else b.category,
       year := if YearValue(d.year) != 0 then YearValue(d.year) else b.year,
       available := d.available,
       updatedAt := now)
  }

  /** `prev.map(book => book.id === id ? { ...book, ... } : book)`. */
  function EditById(books: seq<Book>, id: string, d: BookDraft, now: Timestamp): (r: seq<Book>)
    ensures |r| == |books|
    ensures forall i :: 0 <= i < |books| && books[i].id == id ==> r[i] == Merged(books[i], d, now)
    ensures forall i :: 0 <= i < |books| && books[i].id != id ==> r[i] == books[i]
  {
    seq(|books|, i requires 0 <= i < |books| => if books[i].id == id then Merged(books[i], d, now) else books[i])
  }

  /** Saving a draft loaded from a book without touching it only refreshes
      the update time. */
  lemma SaveUnchangedDraft(b: Book, now: Timestamp)
    ensures Merged(b, DraftOf(b), now) == b.(updatedAt := now)
  {
  }

  /** A year typed as text that does not read as a number keeps the book's year. */
  lemma UnreadableYearKeepsYear(b: Book, d: BookDraft, now: Timestamp)
    requires d.year.YearText? && !AllDigits(d.year.s)
    ensures Merged(b, d, now).year == b.year
  {
  }

  /** A year typed as the decimal text of a non-zero number is taken as that number. */
  lemma TypedYearTaken(b: Book, d: BookDraft, now: Timestamp, year: nat)
    requires year != 0 && d.year == YearText(DigitsOf(year))
    ensures Merged(b, d, now).year == year
  {
    NumberOfDigitsOf(year);
  }

  predicate DistinctIds(books: seq<Book>) {
    forall i, j :: 0 <= i < j < |books| ==> books[i].id != books[j].id
  }

  /** An edit keeps every id where it was, so distinct ids stay distinct. */
  lemma EditKeepsIds(books: seq<Book>, id: string, d: BookDraft, now: Timestamp)
    ensures forall i :: 0 <= i < |books| ==> EditById(books, id, d, now)[i].id == books[i].id
    ensures DistinctIds(books) ==> DistinctIds(EditById(books, id, d, now))
  {
    var r := EditById(books, id, d, now);
    assert forall i :: 0 <= i < |books| ==> r[i].id == books[i].id;
  }

  class BookCatalog {
    var books: seq<Book>
    var searchTerm: string
    var draft: BookDraft
    var isEditing: bool
    var currentBookId: Option<string>

    /** The first render, seeded with the fixture books. */
    constructor(seed: seq<Book>, currentYear: int)
      ensures books == seed && searchTerm == ""
      ensures draft == BlankDraft(currentYear) && !isEditing && currentBookId == None
    {
      books, searchTerm := seed, "";
      draft, isEditing, currentBookId := BlankDraft(currentYear), false, None;
    }

    /** `filteredBooks`. */
    function Visible(): (r: seq<Book>)
      reads this
      ensures forall b :: b in r <==> b in books && BookMatches(b, searchTerm)
      ensures forall b :: multiset(r)[b] == if BookMatches(b, searchTerm) then multiset(books)[b] else 0
      ensures IsSubsequence(r, books)
    {
      FilterBooks(books, searchTerm)
    }

    method HandleSearch(value: string)
      modifies this
      ensures searchTerm == value
      ensures books == old(books) && draft == old(draft)
      ensures isEditing == old(isEditing) && currentBookId == old(currentBookId)
    {
      searchTerm := value;
    }

    method HandleInputChange(e: FieldEdit)
      modifies this
      ensures draft == EditDraft(old(draft), e)
      ensures books == old(books) && searchTerm == old(searchTerm)
      ensures isEditing == old(isEditing) && currentBookId == old(currentBookId)
    {
      draft := EditDraft(draft, e);
    }

    /** `handleAddBook`: a filled draft becomes the first book and the form is cleared. */
    method HandleAddBook(newId: string, now: Timestamp, currentYear: int)
      modifies this
      ensures Filled(old(draft)) ==>
        books == [AddedBook(old(draft), newId, now)] + old(books) && draft == BlankDraft(currentYear)
      ensures !Filled(old(draft)) ==> books == old(books) && draft == old(draft)
      ensures searchTerm == old(searchTerm)
      ensures isEditing == old(isEditing) && currentBookId == old(currentBookId)
    {
      if !Filled(draft) {
        return;
      }
      books := [AddedBook(draft, newId, now)] + books;
      ResetForm(currentYear);
    }

    /** `handleEditBook`: a filled draft is merged into the book being
        edited, then the form and the edit state are cleared. */
    method HandleEditBook(now: Timestamp, currentYear: int)
      modifies this
      ensures var saved := Filled(old(draft)) && old(currentBookId).Some? && old(currentBookId).value != "";
        && (saved ==>
              && books == EditById(old(books), old(currentBookId).value, old(draft), now)
              && draft == BlankDraft(currentYear) && !isEditing && currentBookId == None)
        && (!saved ==>
              && books == old(books) && draft == old(draft)
              && isEditing == old(isEditing) && currentBookId == old(currentBookId))
      ensures searchTerm == old(searchTerm)
    {
      if !Filled(draft) || currentBookId == None || currentBookId.value == "" {
        return;
      }
      books := EditById(books, currentBookId.value, draft, now);
      ResetForm(currentYear);
      isEditing := false;
      currentBookId := None;
    }

    /** `handleDeleteBook`: after the confirmation every entry with the id goes. */
    method HandleDeleteBook(id: string, confirmed: bool)
      modifies this
      ensures confirmed ==> books == RemoveById(old(books), BookId, id)
      ensures !confirmed ==> books == old(books)
      ensures searchTerm == old(searchTerm) && draft == old(draft)
      ensures isEditing == old(isEditing) && currentBookId == old(currentBookId)
    {
      if confirmed {
        books := RemoveById(books, BookId, id);
      }
    }

    method StartEditing(b: Book)
      modifies this
      ensures draft == DraftOf(b) && currentBookId == Some(b.id) && isEditing
      ensures books == old(books) && searchTerm == old(searchTerm)
    {
      draft := DraftOf(b);
      currentBookId := Some(b.id);
      isEditing := true;
    }

    method ResetForm(currentYear: int)
      modifies this
      ensures draft == BlankDraft(currentYear)
      ensures books == old(books) && searchTerm == old(searchTerm)
      ensures isEditing == old(isEditing) && currentBookId == old(currentBookId)
    {
      draft := BlankDraft(currentYear);
    }

    /** The dialog's `onOpenChange`: closing it clears the form and leaves
        edit mode; opening it changes nothing. */
    method HandleOpenChange(open: bool, currentYear: int)
      modifies this
      ensures draft == if open then old(draft) else BlankDraft(currentYear)
      ensures isEditing == (open && old(isEditing))
      ensures currentBookId == if open then old(currentBookId) else None
      ensures books == old(books) && searchTerm == old(searchTerm)
    {
      if !open {
        ResetForm(currentYear);
        isEditing := false;
        currentBookId := None;
      }
    }
  }

  /** A book added with an id no entry carries keeps the ids distinct. */
  lemma {:induction false} AddKeepsIdsDistinct(books: seq<Book>, d: BookDraft, id: string, now: Timestamp)
    requires DistinctIds(books)
    requires forall b :: b in books ==> b.id != id
    ensures DistinctIds([AddedBook(d, id, now)] + books)
  {
    var r := [AddedBook(d, id, now)] + books;
    forall i, j | 0 <= i < j < |r| ensures r[i].id != r[j].id {
      assert r[j] == books[j - 1];
      if i > 0 {
        assert r[i] == books[i - 1];
      }
    }
  }
}
