/** Book records and the two linear scans the store runs over its list:
    the case-insensitive "does this title already exist" test of the add
    form and the "first record with exactly this title" lookup of the manage
    form. */
module Records {
  import opened Text

  datatype Option<T> = None | Some(value: T)

  /** One catalog entry as it is held in memory and written to the data file. */
  datatype Book = Book(title: string, author: string, year: int, genre: string,
                       read: bool, addedDate: string)

  /** What the add and edit forms submit: every field but the added date.
      The text fields arrive already stripped of surrounding whitespace. */
  datatype Fields = Fields(title: string, author: string, year: int, genre: string,
                           read: bool)

  /** The year widget's range. */
  const MinYear := 0
  const MaxYear := 2025

  predicate YearInRange(f: Fields)
  {
    MinYear <= f.year <= MaxYear
  }

  /** The required text fields are all non-empty (Python truthiness of str). */
  predicate Filled(f: Fields)
  {
    f.title != [] && f.author != [] && f.genre != []
  }

  /** The editable fields of a record; the edit form is pre-filled with them. */
  function FieldsOf(b: Book): Fields
  {
    Fields(b.title, b.author, b.year, b.genre, b.read)
  }

  /** The record an add creates, stamped with the given date. */
  function NewBook(f: Fields, stamp: string): (r: Book)
    ensures FieldsOf(r) == f && r.addedDate == stamp
  {
    Book(f.title, f.author, f.year, f.genre, f.read, stamp)
  }

  /** The record an edit leaves behind: every field from the form except
      the added date, which `dict.update` does not touch. */
  function Edit(b: Book, f: Fields): (r: Book)
    ensures FieldsOf(r) == f && r.addedDate == b.addedDate
  {
    b.(title := f.title, author := f.author, year := f.year, genre := f.genre, read := f.read)
  }

  /** Some record's title equals `title` once both are lower-cased. */
  predicate TitleTaken(books: seq<Book>, title: string)
  {
    exists i :: 0 <= i < |books| && Lower(books[i].title) == Lower(title)
  }

  /** No two records have titles that are equal ignoring case. */
  predicate UniqueTitles(books: seq<Book>)
  {
    forall i, j :: 0 <= i < j < |books| ==> Lower(books[i].title) != Lower(books[j].title)
  }

  /** Position of the first record whose title is exactly `title`. */
  function FirstIndex(books: seq<Book>, title: string): (r: Option<nat>)
    ensures r.Some? ==> r.value < |books| && books[r.value].title == title
    ensures r.Some? ==> forall j :: 0 <= j < r.value ==> books[j].title != title
    ensures r.None? <==> forall j :: 0 <= j < |books| ==> books[j].title != title
  {
    if books == [] then None
    else if books[0].title == title then Some(0)
    else match FirstIndex(books[1..], title)
      case None => None
      case Some(i) => Some(i + 1)
  }

  /** The duplicate scan of the add form: `any(b.title.lower() == title.lower() ...)`. */
  method TitleInUse(books: seq<Book>, title: string) returns (taken: bool)
    ensures taken == TitleTaken(books, title)
  {
    var key := Lower(title);
    taken := false;
    var i := 0;
    while i < |books| && !taken
      invariant 0 <= i <= |books|
      invariant taken ==> TitleTaken(books, title)
      invariant !taken ==> forall j :: 0 <= j < i ==> Lower(books[j].title) != key
    {
      taken := Lower(books[i].title) == key;
      i := i + 1;
    }
  }

  /** The lookup of the manage form: `next((b for b in books if b.title == t), None)`,
      returning the position of the record found. */
  method Lookup(books: seq<Book>, title: string) returns (found: Option<nat>)
    ensures found == FirstIndex(books, title)
  {
    var i := 0;
    while i < |books|
      invariant 0 <= i <= |books|
      invariant forall j :: 0 <= j < i ==> books[j].title != title
    {
      if books[i].title == title {
        return Some(i);
      }
      i := i + 1;
    }
    return None;
  }
}
