/** The data file the collection is written to after every change and read
    back from when the app starts. Only what it holds is modelled, not its
    encoding. */
module Storage {
  import opened Records

  /** The data file: absent, present but not valid JSON, or holding a
      collection. */
  datatype Disk = Missing | Malformed | Stored(books: seq<Book>)

  /** Reading the data file: a missing file or one that is not valid JSON
      is not an error, it yields the empty collection. */
  function Load(d: Disk): seq<Book>
  {
    match d
    case Stored(books) => books
    case _ => []
  }
}
