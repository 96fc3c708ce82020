/** The store's three mutations as functions from the old collection to the
    new one (or to the error the form reports), with the laws that relate
    them. The `Library` class performs them in place; these are its
    specification. */
module Catalog {
  import opened Text
  import opened Records

  /** Why a mutation was refused. `MissingFields`: a required text field is
      empty. `AlreadyExists`: the new title clashes, ignoring case, with a
      stored one. `NotFound`: no record has the selected title. */
  datatype Error = MissingFields | AlreadyExists | NotFound

  datatype Result<T> = Ok(value: T) | Err(error: Error)

  /** Adding a record: the empty-field check first, then the case-insensitive
      duplicate check, then an append at the end. */
  function AddBook(books: seq<Book>, f: Fields, stamp: string): Result<seq<Book>>
  {
    if !Filled(f) then Err(MissingFields)
    else if TitleTaken(books, f.title) then Err(AlreadyExists)
    else Ok(books + [NewBook(f, stamp)])
  }

  /** Editing the first record whose title is exactly `target`. The lookup
      comes first (no record: nothing happens), then the empty-field check;
      there is no duplicate check. */
  function UpdateBook(books: seq<Book>, target: string, f: Fields): Result<seq<Book>>
  {
    match FirstIndex(books, target)
    case None => Err(NotFound)
    case Some(i) => if !Filled(f) then Err(MissingFields) else Ok(books[i := Edit(books[i], f)])
  }

  /** Python's `list.remove(b)`: drop the first element equal to `b`. */
  function RemoveFirst(books: seq<Book>, b: Book): (r: seq<Book>)
    requires b in books
    ensures |r| == |books| - 1
  {
    if books[0] == b then books[1..]
    else [books[0]] + RemoveFirst(books[1..], b)
  }

  /** Deleting the record the manage form looked up: the first record whose
      title is exactly `target`, removed with `list.remove`. */
  function DeleteBook(books: seq<Book>, target: string): Result<seq<Book>>
  {
    match FirstIndex(books, target)
    case None => Err(NotFound)
    case Some(i) => Ok(RemoveFirst(books, books[i]))
  }

  // ---------------------------------------------------------------- add

  /** Which of the three outcomes an add has, and on success the exact new
      collection: one longer, the old records untouched in front, the new
      record last with the submitted fields and the given date. */
  lemma AddOutcome(books: seq<Book>, f: Fields, stamp: string)
    ensures AddBook(books, f, stamp) == Err(MissingFields) <==> !Filled(f)
    ensures AddBook(books, f, stamp) == Err(AlreadyExists) <==> Filled(f) && TitleTaken(books, f.title)
    ensures AddBook(books, f, stamp).Ok? <==> Filled(f) && !TitleTaken(books, f.title)
    ensures AddBook(books, f, stamp).Ok? ==>
      var nb := AddBook(books, f, stamp).value;
      |nb| == |books| + 1 && nb[..|books|] == books &&
      nb[|books|].title == f.title && nb[|books|].author == f.author &&
      nb[|books|].year == f.year && nb[|books|].genre == f.genre &&
      nb[|books|].read == f.read && nb[|books|].addedDate == stamp
  {
  }

  /** If no two titles clash ignoring case before an add, none do after it. */
  lemma AddKeepsTitlesUnique(books: seq<Book>, f: Fields, stamp: string)
    requires UniqueTitles(books)
    requires AddBook(books, f, stamp).Ok?
    ensures UniqueTitles(AddBook(books, f, stamp).value)
  {
    var nb := AddBook(books, f, stamp).value;
    forall i, j | 0 <= i < j < |nb|
      ensures Lower(nb[i].title) != Lower(nb[j].title)
    {
      if j == |books| {
        assert nb[i] == books[i];
      }
    }
  }

  /** Deleting the title just added gives back the collection as it was
      before the add: the new title matches no older record, so the record
      the delete finds is the new last one. */
  lemma AddThenDeleteRestores(books: seq<Book>, f: Fields, stamp: string)
    requires AddBook(books, f, stamp).Ok?
    ensures DeleteBook(AddBook(books, f, stamp).value, f.title) == Ok(books)
  {
    var nb := AddBook(books, f, stamp).value;
    forall j | 0 <= j < |books|
      ensures nb[j].title != f.title
    {
      assert nb[j] == books[j];
      assert Lower(books[j].title) != Lower(f.title);
    }
    assert nb[|books|] == NewBook(f, stamp);
    assert FirstIndex(nb, f.title) == Some(|books|);
    DeleteRemovesFirstMatch(nb, f.title);
    assert nb[..|books|] + nb[|books| + 1..] == books;
  }

  // ---------------------------------------------------------------- update

  /** Which outcome an update has, and on success the exact change: only the
      first exact-title match is rewritten, its five editable fields come
      from the form, its added date is kept, and the length and every other
      record are unchanged. */
  lemma UpdateOutcome(books: seq<Book>, target: string, f: Fields)
    ensures UpdateBook(books, target, f) == Err(NotFound) <==> FirstIndex(books, target).None?
    ensures UpdateBook(books, target, f) == Err(MissingFields) <==> FirstIndex(books, target).Some? && !Filled(f)
    ensures UpdateBook(books, target, f).Ok? <==> FirstIndex(books, target).Some? && Filled(f)
    ensures UpdateBook(books, target, f).Ok? ==>
      var i := FirstIndex(books, target).value;
      var nb := UpdateBook(books, target, f).value;
      |nb| == |books| &&
      nb[i].title == f.title && nb[i].author == f.author && nb[i].year == f.year &&
      nb[i].genre == f.genre && nb[i].read == f.read &&
      nb[i].addedDate == books[i].addedDate &&
      forall j :: 0 <= j < |books| && j != i ==> nb[j] == books[j]
  {
  }

  /** Submitting the edit form with the values it was pre-filled with leaves
      the collection exactly as it was. */
  lemma UpdateWithOwnFieldsIsIdentity(books: seq<Book>, i: nat)
    requires i < |books| && FirstIndex(books, books[i].title) == Some(i)
    requires Filled(FieldsOf(books[i]))
    ensures UpdateBook(books, books[i].title, FieldsOf(books[i])) == Ok(books)
  {
    var b := books[i];
    assert Edit(b, FieldsOf(b)) == b;
    assert books[i := b] == books;
  }

  /** Update has no duplicate check, so it keeps titles unique only when the
      new title clashes with no other record. */
  lemma UpdateKeepsTitlesUniqueWhenFree(books: seq<Book>, target: string, f: Fields)
    requires UniqueTitles(books)
    requires UpdateBook(books, target, f).Ok?
    requires forall j :: 0 <= j < |books| && Some(j) != FirstIndex(books, target) ==>
               Lower(books[j].title) != Lower(f.title)
    ensures UniqueTitles(UpdateBook(books, target, f).value)
  {
    var i := FirstIndex(books, target).value;
    var nb := UpdateBook(books, target, f).value;
    forall a, b | 0 <= a < b < |nb|
      ensures Lower(nb[a].title) != Lower(nb[b].title)
    {
      if a == i {
        assert Some(b) != FirstIndex(books, target);
      } else if b == i {
        assert Some(a) != FirstIndex(books, target);
      }
    }
  }

  /** ... and does not keep them unique in general: renaming one of two
      records to the other's title (in another case) is accepted. */
  lemma UpdateCanDuplicateTitles()
    ensures var books := [Book("Dune", "Herbert", 1965, "SF", false, "d1"),
                          Book("Emma", "Austen", 1815, "Novel", true, "d2")];
            var f := Fields("DUNE", "Austen", 1815, "Novel", true);
            UniqueTitles(books) && UpdateBook(books, "Emma", f).Ok? &&
            !UniqueTitles(UpdateBook(books, "Emma", f).value)
  {
    var books := [Book("Dune", "Herbert", 1965, "SF", false, "d1"),
                  Book("Emma", "Austen", 1815, "Novel", true, "d2")];
    var f := Fields("DUNE", "Austen", 1815, "Novel", true);
    assert Lower("Dune") == "dune";
    assert Lower("Emma") == "emma";
    assert Lower("DUNE") == "dune";
    var nb := UpdateBook(books, "Emma", f).value;
    assert nb[0].title == "Dune" && nb[1].title == "DUNE";
  }

  // ---------------------------------------------------------------- delete

  /** `list.remove` of an element with no equal element in front of it
      removes exactly that position. */
  lemma {:induction false} RemoveFirstAt(books: seq<Book>, i: nat)
    requires i < |books|
    requires forall j :: 0 <= j < i ==> books[j] != books[i]
    ensures RemoveFirst(books, books[i]) == books[..i] + books[i + 1..]
  {
    var b := books[i];
    if i > 0 {
      var tail := books[1..];
      assert books[0] != b;
      assert tail[i - 1] == b;
      forall j | 0 <= j < i - 1
        ensures tail[j] != tail[i - 1]
      {
        assert tail[j] == books[j + 1];
      }
      RemoveFirstAt(tail, i - 1);
      calc {
        RemoveFirst(books, b);
        [books[0]] + RemoveFirst(tail, b);
        [books[0]] + (tail[..i - 1] + tail[i..]);
        { assert books[..i] == [books[0]] + tail[..i - 1];
          assert books[i + 1..] == tail[i..]; }
        books[..i] + books[i + 1..];
      }
    }
  }

  /** A delete of a missing title is refused; a delete of a present title
      removes exactly the first exact-title match, so the length drops by one
      and the other records keep their relative order. */
  lemma DeleteRemovesFirstMatch(books: seq<Book>, target: string)
    ensures FirstIndex(books, target).None? <==> DeleteBook(books, target) == Err(NotFound)
    ensures FirstIndex(books, target).Some? ==>
      var i := FirstIndex(books, target).value;
      DeleteBook(books, target) == Ok(books[..i] + books[i + 1..])
  {
    match FirstIndex(books, target)
    case None =>
    case Some(i) =>
      forall j | 0 <= j < i
        ensures books[j] != books[i]
      {
        assert books[j].title != target;
      }
      RemoveFirstAt(books, i);
  }

  /** Deleting keeps titles unique: it only takes a record away. */
  lemma DeleteKeepsTitlesUnique(books: seq<Book>, target: string)
    requires UniqueTitles(books)
    requires DeleteBook(books, target).Ok?
    ensures UniqueTitles(DeleteBook(books, target).value)
  {
    DeleteRemovesFirstMatch(books, target);
    var i := FirstIndex(books, target).value;
    var nb := DeleteBook(books, target).value;
    forall a, b | 0 <= a < b < |nb|
      ensures Lower(nb[a].title) != Lower(nb[b].title)
    {
      var a' := if a < i then a else a + 1;
      var b' := if b < i then b else b + 1;
      assert nb[a] == books[a'] && nb[b] == books[b'];
    }
  }
}
