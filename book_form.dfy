/** The book form of `src/features/books/components/BookForm.tsx`: a draft
    `Partial<Book>` that starts blank or as the book handed in, and a submit
    that updates that book in the store when editing one with an id and
    creates a new book otherwise. The `onSuccess` callback is modelled by the
    submit's result: the book it would be called with, if any. */
module BookFormModel {
  import opened Outcomes
  import opened Rows
  import opened Forms
  import RecordStore

  /** A `Partial<Book>`: every field may be missing. The other columns of a
      book do not enter the form's logic. */
  datatype PartialBook = PartialBook(
    id: Option<string>,
    title: Option<string>,
    author: Option<string>,
    category: Option<string>,
    year: Option<int>,
    available: Option<bool>)

  /** The initial `newBook`: blank text fields, the current year, available. */
  function BlankDraft(currentYear: int): (d: PartialBook)
    ensures d.id == None && d.title == Some("") && d.author == Some("") && d.category == Some("")
    ensures d.year == Some(currentYear) && d.available == Some(true)
  {
    PartialBook(None, Some(""), Some(""), Some(""), Some(currentYear), Some(true))
  }

  /** The whole of a stored book, as a caller hands it in for editing. */
  function PartialOf(b: Book): (p: PartialBook)
    ensures p.id == Some(b.id) && p.title == Some(b.title) && p.author == Some(b.author)
    ensures p.category == Some(b.category) && p.year == Some(b.year) && p.available == Some(b.available)
  {
    PartialBook(Some(b.id), Some(b.title), Some(b.author), Some(b.category), Some(b.year), Some(b.available))
  }

  /** A text field is truthy when present and non-empty. */
  predicate TextTruthy(s: Option<string>) {
    s.Some? && s.value != ""
  }

  /** `!newBook.title || !newBook.author || !newBook.category || !newBook.year` is false. */
  predicate Filled(d: PartialBook) {
    TextTruthy(d.title) && TextTruthy(d.author) && TextTruthy(d.category) && d.year.Some? && d.year.value != 0
  }

  /** `[name]: type === 'checkbox' ? checked : name === 'year' ? Number(value) : value`
      for the five controls of the form. */
  function EditDraft(d: PartialBook, e: FieldEdit): (r: PartialBook)
    ensures e.TextEdit? && e.name == "title" ==> r == d.(title := Some(e.value))
    ensures e.TextEdit? && e.name == "author" ==> r == d.(author := Some(e.value))
    ensures e.TextEdit? && e.name == "category" ==> r == d.(category := Some(e.value))
    ensures e.TextEdit? && e.name == "year" ==> r == d.(year := Some(NumberOf(e.value)))
    ensures e.CheckEdit? && e.name == "available" ==> r == d.(available := Some(e.checked))
    ensures e.name !in {"title", "author", "category", "year", "available"} ==> r == d
  {
    match e
    case TextEdit(n, v) =>
      if n == "title" then d.(title := Some(v))
      else if n == "author" then d.(author := Some(v))
      else if n == "category" then d.(category := Some(v))
      else if n == "year" then d.(year := Some(NumberOf(v)))
      else d
    case CheckEdit(n, c) =>
      if n == "available" then d.(available := Some(c)) else d
  }

  /** What the update path sends: the draft's four fields and its
      availability when it has one. */
  function PatchOf(d: PartialBook): (p: BookPatch)
    requires Filled(d)
    ensures p.title == d.title && p.author == d.author && p.category == d.category
    ensures p.year == d.year && p.available == d.available && p.borrowCount == None
  {
    BookPatch(d.title, d.author, d.category, d.year, d.available, None)
  }

  /** What the create path sends: missing text as `''`, a missing
      availability as `false`. */
  function NewBookOf(d: PartialBook): (f: NewBook)
    requires d.year.Some?
    ensures f.title == d.title.GetOr("") && f.author == d.author.GetOr("") && f.category == d.category.GetOr("")
    ensures f.year == d.year.value
    ensures f.available <==> d.available == Some(true)
  {
    NewBook(d.title.GetOr(""), d.author.GetOr(""), d.category.GetOr(""), d.year.value, d.available.GetOr(false))
  }

  /** A filled draft is created with exactly the text it holds. */
  lemma FilledDraftCreatedAsTyped(d: PartialBook)
    requires Filled(d)
    ensures NewBookOf(d).title == d.title.value && NewBookOf(d).author == d.author.value
    ensures NewBookOf(d).category == d.category.value && NewBookOf(d).year != 0
  {
  }

  /** Submitting the form for a stored book without touching it only
      refreshes the book's update time. */
  lemma SaveUntouchedBook(b: Book, now: Timestamp)
    requires b.title != "" && b.author != "" && b.category != "" && b.year != 0
    ensures Filled(PartialOf(b))
    ensures PatchBook(b, PatchOf(PartialOf(b)), now) == b.(updatedAt := now)
  {
  }

  /** A year typed as the decimal text of a number is stored as that number. */
  lemma TypedYearStored(d: PartialBook, year: nat)
    ensures EditDraft(d, TextEdit("year", DigitsOf(year))).year == Some(year)
  {
    NumberOfDigitsOf(year);
  }

  class BookEditor {
    var book: Option<PartialBook>
    var isEditing: bool
    var draft: PartialBook

    /** Mounting: the blank draft, then the effect copies the book in when given. */
    constructor(book0: Option<PartialBook>, isEditing0: bool, currentYear: int)
      ensures book == book0 && isEditing == isEditing0
      ensures draft == (if book0.Some? then book0.value else BlankDraft(currentYear))
    {
      book, isEditing := book0, isEditing0;
      draft := BlankDraft(currentYear);
      if book0.Some? {
        draft := book0.value;
      }
    }

    /** A new `book` prop: the effect copies it into the draft when given. */
    method SetBook(p: Option<PartialBook>)
      modifies this
      ensures book == p && isEditing == old(isEditing)
      ensures draft == (if p.Some? then p.value else old(draft))
    {
      book := p;
      if p.Some? {
        draft := p.value;
      }
    }

    method HandleInputChange(e: FieldEdit)
      modifies this
      ensures draft == EditDraft(old(draft), e)
      ensures book == old(book) && isEditing == old(isEditing)
    {
      draft := EditDraft(draft, e);
    }

    /** `isEditing && book?.id`. */
    predicate EditsExisting()
      reads this
    {
      isEditing && book.Some? && TextTruthy(book.value.id)
    }

    /** `handleSubmit`: the book handed to `onSuccess`, if the store call succeeded. */
    method HandleSubmit(store: RecordStore.Store, newId: string, now: Timestamp, ok: bool) returns (r: Option<Book>)
      modifies store
      ensures store.users == old(store.users) && store.loans == old(store.loans)
      ensures !Filled(draft) ==> r == None && store.books == old(store.books)
      ensures Filled(draft) && EditsExisting() ==>
        var id := book.value.id.value;
        && (r.Some? <==> ok && id in old(store.books))
        && (r.Some? ==> r.value == PatchBook(old(store.books)[id], PatchOf(draft), now)
                        && store.books == old(store.books)[id := r.value])
        && (r.None? ==> store.books == old(store.books))
      ensures Filled(draft) && !EditsExisting() ==>
        && (r.Some? <==> ok && newId !in old(store.books))
        && (r.Some? ==> r.value == NewBookRow(NewBookOf(draft), newId, now)
                        && store.books == old(store.books)[newId := r.value])
        && (r.None? ==> store.books == old(store.books))
    {
      if !Filled(draft) {
        return None;
      }
      var reply: Result<Book>;
      if EditsExisting() {
        reply := store.UpdateBook(book.value.id.value, PatchOf(draft), now, ok);
      } else {
        reply := store.CreateBook(NewBookOf(draft), newId, now, ok);
      }
      r := if reply.Ok? then Some(reply.value) else None;
    }
  }
}
