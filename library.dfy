/** The record store: the in-memory list of books and the data file it is
    written to, with the three mutations performed in place. */
module Store {
  import opened Records
  import opened Catalog
  import opened Storage

  /** What a form submission reports back. */
  datatype Outcome = Done | Refused(error: Error)

  class Library {
    var books: seq<Book>
    var disk: Disk

    /** Reading the data file gives back the list in memory. It holds after
        opening and after every operation, since each successful change is
        followed by a full save and a refused one touches neither. */
    ghost predicate Valid()
      reads this
    {
      Load(disk) == books
    }

    /** Startup: the list is whatever the data file yields. */
    constructor Open(d: Disk)
      ensures Valid()
      ensures disk == d && books == Load(d)
    {
      disk := d;
      books := Load(d);
    }

    /** Overwrite the data file with the whole list. */
    method Save()
      modifies this`disk
      ensures disk == Stored(books)
      ensures Valid()
    {
      disk := Stored(books);
    }

    /** The add form. */
    method Add(f: Fields, stamp: string) returns (r: Outcome)
      requires Valid() && YearInRange(f)
      modifies this
      ensures Valid()
      ensures match AddBook(old(books), f, stamp)
        case Ok(nb) => r == Done && books == nb && disk == Stored(nb)
        case Err(e) => r == Refused(e) && books == old(books) && disk == old(disk)
    {
      if !Filled(f) {
        return Refused(MissingFields);
      }
      var taken := TitleInUse(books, f.title);
      if taken {
        return Refused(AlreadyExists);
      }
      books := books + [NewBook(f, stamp)];
      Save();
      r := Done;
    }

    /** The edit form for the record selected by `target`. */
    method Update(target: string, f: Fields) returns (r: Outcome)
      requires Valid() && YearInRange(f)
      modifies this
      ensures Valid()
      ensures match UpdateBook(old(books), target, f)
        case Ok(nb) => r == Done && books == nb && disk == Stored(nb)
        case Err(e) => r == Refused(e) && books == old(books) && disk == old(disk)
    {
      var found := Lookup(books, target);
      if found.None? {
        return Refused(NotFound);
      }
      if !Filled(f) {
        return Refused(MissingFields);
      }
      var i := found.value;
      books := books[i := Edit(books[i], f)];
      Save();
      r := Done;
    }

    /** The delete button for the record selected by `target`. */
    method Delete(target: string) returns (r: Outcome)
      requires Valid()
      modifies this
      ensures Valid()
      ensures match DeleteBook(old(books), target)
        case Ok(nb) => r == Done && books == nb && disk == Stored(nb)
        case Err(e) => r == Refused(e) && books == old(books) && disk == old(disk)
    {
      var found := Lookup(books, target);
      if found.None? {
        return Refused(NotFound);
      }
      books := RemoveFirst(books, books[found.value]);
      Save();
      r := Done;
    }
  }
}
