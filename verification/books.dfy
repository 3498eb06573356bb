/** The data model shared by the three screens: a catalog book record, the
    borrowed-list kept on the device, its invariants, and how a stored
    snapshot of it is read back. */
module Books {

  datatype Option<T> = None | Some(value: T)

  /** A catalog record. `id` is assigned by the remote collection; the other
      fields are the document's own. A missing `available` field reads as
      `false`, as `!book.available` does in the detail screen. */
  datatype Book = Book(
    id: string,
    title: Option<string>,
    author: Option<string>,
    image: string,
    available: bool,
    year: Option<int>,
    pages: Option<int>,
    genre: Option<string>,
    description: Option<string>)

  /** The most books that may be borrowed at a time. */
  const BorrowLimit: nat := 3

  /** Some entry of `books` carries identifier `id`. */
  ghost predicate HasId(books: seq<Book>, id: string)
  {
    exists i :: 0 <= i < |books| && books[i].id == id
  }

  /** No identifier occurs twice in `books`. */
  ghost predicate UniqueIds(books: seq<Book>)
  {
    forall i, j :: 0 <= i < j < |books| ==> books[i].id != books[j].id
  }

  /** The borrowed-list invariant: at most `BorrowLimit` entries, ids unique. */
  ghost predicate Valid(books: seq<Book>)
  {
    |books| <= BorrowLimit && UniqueIds(books)
  }

  /** What reading the `borrowedBooks` key of the device store yields: nothing
      stored (or an empty string), a failed read or parse, or a stored list. */
  datatype Snapshot = Absent | Unreadable | Present(books: seq<Book>)

  /** The borrowed-list a screen holds after reading the store: anything other
      than a stored list leaves the screen with the empty list. */
  function Load(s: Snapshot): (r: seq<Book>)
    ensures s.Present? ==> r == s.books
    ensures !s.Present? ==> r == [] && Valid(r)
  {
    match s
    case Present(books) => books
    case _ => []
  }
}
