/** The two read-only views of the collection: the search of the "View
    Books" page and the counters of the "Statistics" page. */
module Views {
  import opened Text
  import opened Records
  import opened Catalog

  // ---------------------------------------------------------------- search

  /** A record matches a lower-cased query when its lower-cased title or
      lower-cased author contains it. */
  predicate Matches(b: Book, key: string)
  {
    Contains(Lower(b.title), key) || Contains(Lower(b.author), key)
  }

  /** The records that match `key`, in their original order. */
  function Filter(books: seq<Book>, key: string): (r: seq<Book>)
    ensures |r| <= |books|
    ensures forall i :: 0 <= i < |r| ==> Matches(r[i], key)
    ensures multiset(r) <= multiset(books)
  {
    if books == [] then []
    else
      assert books == [books[0]] + books[1..];
      (if Matches(books[0], key) then [books[0]] else []) + Filter(books[1..], key)
  }

  /** The search box: the query is lower-cased, and an empty query shows
      the whole collection. */
  function Search(books: seq<Book>, query: string): (r: seq<Book>)
    ensures Lower(query) == [] ==> r == books
    ensures Lower(query) != [] ==> forall i :: 0 <= i < |r| ==> Matches(r[i], Lower(query))
    ensures multiset(r) <= multiset(books)
  {
    var key := Lower(query);
    if key == [] then books else Filter(books, key)
  }

  /** `xs` is `ys` with some elements left out and the rest in order. */
  predicate IsSubsequence(xs: seq<Book>, ys: seq<Book>)
    decreases |ys|
  {
    xs == [] ||
    (ys != [] &&
     ((xs[0] == ys[0] && IsSubsequence(xs[1..], ys[1..])) || IsSubsequence(xs, ys[1..])))
  }

  /** Every record keeps all of its copies when it matches and loses all of
      them when it does not. */
  lemma {:induction false} FilterCount(books: seq<Book>, key: string, b: Book)
    ensures multiset(Filter(books, key))[b] == if Matches(b, key) then multiset(books)[b] else 0
  {
    if books != [] {
      var head, tail := books[0], books[1..];
      var kept := if Matches(head, key) then [head] else [];
      FilterCount(tail, key, b);
      assert books == [head] + tail;
      assert Filter(books, key) == kept + Filter(tail, key);
      assert multiset(Filter(books, key)) == multiset(kept) + multiset(Filter(tail, key));
      assert multiset(books) == multiset([head]) + multiset(tail);
    }
  }

  /** The filter keeps the original order. */
  lemma {:induction false} FilterIsSubsequence(books: seq<Book>, key: string)
    ensures IsSubsequence(Filter(books, key), books)
  {
    if books != [] {
      FilterIsSubsequence(books[1..], key);
      var rest := Filter(books[1..], key);
      if Matches(books[0], key) {
        assert Filter(books, key) == [books[0]] + rest;
        assert ([books[0]] + rest)[1..] == rest;
      } else {
        assert Filter(books, key) == rest;
      }
    }
  }

  /** An empty query would match every record anyway, so the empty-query
      shortcut of the search box changes nothing. */
  lemma {:induction false} FilterEmptyKeepsAll(books: seq<Book>)
    ensures Filter(books, []) == books
  {
    if books != [] {
      ContainsEmpty(Lower(books[0].title));
      FilterEmptyKeepsAll(books[1..]);
    }
  }

  /** What the search box shows: the whole collection for an empty query;
      otherwise, in their original order, exactly the records whose title or
      author contains the query ignoring case, each with all its copies. */
  lemma SearchResult(books: seq<Book>, query: string, b: Book)
    ensures query == [] ==> Search(books, query) == books
    ensures Search(books, query) == Filter(books, Lower(query))
    ensures IsSubsequence(Search(books, query), books)
    ensures multiset(Search(books, query))[b] ==
              if Matches(b, Lower(query)) then multiset(books)[b] else 0
  {
    if Lower(query) == [] {
      FilterEmptyKeepsAll(books);
    }
    FilterIsSubsequence(books, Lower(query));
    FilterCount(books, Lower(query), b);
  }

  /** After a successful add, searching for the new title, typed in any
      case, shows the new record. */
  lemma SearchFindsAdded(books: seq<Book>, f: Fields, stamp: string, query: string)
    requires AddBook(books, f, stamp).Ok?
    requires Lower(query) == Lower(f.title)
    ensures NewBook(f, stamp) in Search(AddBook(books, f, stamp).value, query)
  {
    var nb := AddBook(books, f, stamp).value;
    var n := NewBook(f, stamp);
    ContainsSelf(Lower(f.title));
    assert Matches(n, Lower(query));
    assert nb[|books|] == n;
    SearchResult(nb, query, n);
    assert multiset(nb)[n] > 0;
  }

  // ---------------------------------------------------------------- statistics

  /** The counters of the statistics page. */
  datatype Stats = Stats(total: nat, read: nat, unread: nat)

  /** Number of records whose read flag is set. */
  function CountRead(books: seq<Book>): (n: nat)
    ensures n <= |books|
  {
    if books == [] then 0 else (if books[0].read then 1 else 0) + CountRead(books[1..])
  }

  /** Total, read and unread counts. */
  function Statistics(books: seq<Book>): (s: Stats)
    ensures s.total == |books|
    ensures s.read + s.unread == s.total
    ensures s.read == 0 <==> forall i :: 0 <= i < |books| ==> !books[i].read
    ensures s.unread == 0 <==> forall i :: 0 <= i < |books| ==> books[i].read
  {
    CountReadExtremes(books);
    var read := CountRead(books);
    Stats(|books|, read, |books| - read)
  }

  /** The reading-progress figure, guarded against an empty collection. */
  function ReadPercentage(s: Stats): (p: real)
    requires s.read <= s.total
    ensures s.total == 0 ==> p == 0.0
    ensures 0.0 <= p <= 100.0
    ensures p == 100.0 <==> s.total > 0 && s.read == s.total
  {
    if s.total > 0 then s.read as real / s.total as real * 100.0 else 0.0
  }

  /** Counting read records distributes over concatenation. */
  lemma {:induction false} CountReadAppend(a: seq<Book>, b: seq<Book>)
    ensures CountRead(a + b) == CountRead(a) + CountRead(b)
  {
    if a == [] {
      assert a + b == b;
    } else {
      assert (a + b)[0] == a[0];
      assert (a + b)[1..] == a[1..] + b;
      CountReadAppend(a[1..], b);
    }
  }

  /** Nothing is read exactly when the read count is zero, and everything is
      read exactly when it equals the total. */
  lemma {:induction false} CountReadExtremes(books: seq<Book>)
    ensures CountRead(books) == 0 <==> forall i :: 0 <= i < |books| ==> !books[i].read
    ensures CountRead(books) == |books| <==> forall i :: 0 <= i < |books| ==> books[i].read
  {
    if books != [] {
      CountReadExtremes(books[1..]);
      assert forall i :: 1 <= i < |books| ==> books[i] == books[1..][i - 1];
    }
  }

  /** A successful add raises the total by one, and the read count by one
      exactly when the new record is marked read. */
  lemma StatisticsAfterAdd(books: seq<Book>, f: Fields, stamp: string)
    requires AddBook(books, f, stamp).Ok?
    ensures var s, s' := Statistics(books), Statistics(AddBook(books, f, stamp).value);
            s'.total == s.total + 1 && s'.read == s.read + (if f.read then 1 else 0)
  {
    CountReadAppend(books, [NewBook(f, stamp)]);
  }

  /** Taking out the record at `i` lowers the read count by its read flag. */
  lemma {:induction false} CountReadRemoveAt(books: seq<Book>, i: nat)
    requires i < |books|
    ensures CountRead(books[..i] + books[i + 1..]) + (if books[i].read then 1 else 0) == CountRead(books)
  {
    var pre, x, post := books[..i], books[i], books[i + 1..];
    assert books == pre + ([x] + post);
    CountReadAppend(pre, [x] + post);
    CountReadAppend([x], post);
    CountReadAppend(pre, post);
    assert [x][1..] == [];
  }

  /** A successful update keeps the total, and moves the read count by the
      change in the edited record's read flag. */
  lemma StatisticsAfterUpdate(books: seq<Book>, target: string, f: Fields)
    requires UpdateBook(books, target, f).Ok?
    ensures var i := FirstIndex(books, target).value;
            var s, s' := Statistics(books), Statistics(UpdateBook(books, target, f).value);
            s'.total == s.total &&
            s'.read == s.read - (if books[i].read then 1 else 0) + (if f.read then 1 else 0)
  {
    var i := FirstIndex(books, target).value;
    var nb := UpdateBook(books, target, f).value;
    CountReadRemoveAt(books, i);
    CountReadRemoveAt(nb, i);
    assert nb[..i] + nb[i + 1..] == books[..i] + books[i + 1..];
  }

  /** A successful delete lowers the total by one, and the read count by one
      exactly when the deleted record was marked read. */
  lemma StatisticsAfterDelete(books: seq<Book>, target: string)
    requires DeleteBook(books, target).Ok?
    ensures var i := FirstIndex(books, target).value;
            var s, s' := Statistics(books), Statistics(DeleteBook(books, target).value);
            s'.total + 1 == s.total && s'.read + (if books[i].read then 1 else 0) == s.read
  {
    DeleteRemovesFirstMatch(books, target);
    CountReadRemoveAt(books, FirstIndex(books, target).value);
  }

  /** The two worked cases: an empty collection, and four records of which
      three are read. */
  lemma StatisticsExamples()
    ensures Statistics([]) == Stats(0, 0, 0) && ReadPercentage(Stats(0, 0, 0)) == 0.0
    ensures var b := Book("T", "A", 2000, "G", true, "d");
            var u := b.(read := false);
            Statistics([b, u, b, b]) == Stats(4, 3, 1) && ReadPercentage(Stats(4, 3, 1)) == 75.0
  {
    var b := Book("T", "A", 2000, "G", true, "d");
    var u := b.(read := false);
    assert [b, u, b, b][1..] == [u, b, b];
    assert [u, b, b][1..] == [b, b];
    assert [b, b][1..] == [b];
    assert CountRead([b]) == 1;
    assert CountRead([b, b]) == 2;
    assert CountRead([u, b, b]) == 2;
    assert CountRead([b, u, b, b]) == 3;
  }
}
