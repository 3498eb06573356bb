/** The detail screen's borrow rule: a guarded append onto the borrowed-list
    snapshot the screen loaded, and the predicate that enables its button. */
module BookDetail {
  import opened Books

  /** Why a borrow was refused, one per alert the screen can raise. */
  datatype Rejection = LimitReached | AlreadyBorrowed | NotAvailable

  datatype BorrowResult = Ok(books: seq<Book>) | Rejected(reason: Rejection)

  /** Whether `book` is already in the snapshot, compared by identifier
      (the screen's `borrowedBooks.some(b => b.id === book.id)`). */
  function IsBorrowed(borrowed: seq<Book>, book: Book): (r: bool)
    ensures r <==> HasId(borrowed, book.id)
    decreases |borrowed|
  {
    if borrowed == [] then false
    else
      assert forall i :: 1 <= i < |borrowed| ==> borrowed[i] == borrowed[1..][i - 1];
      borrowed[0].id == book.id || IsBorrowed(borrowed[1..], book)
  }

  /** The borrow action: the three checks run in this order and the first
      that fails decides the rejection; otherwise the book is appended. */
  function Borrow(borrowed: seq<Book>, book: Book): (r: BorrowResult)
    ensures |borrowed| >= BorrowLimit ==> r == Rejected(LimitReached)
    ensures |borrowed| < BorrowLimit && HasId(borrowed, book.id) ==> r == Rejected(AlreadyBorrowed)
    ensures |borrowed| < BorrowLimit && !HasId(borrowed, book.id) && !book.available ==>
              r == Rejected(NotAvailable)
    ensures r.Ok? <==> |borrowed| < BorrowLimit && !HasId(borrowed, book.id) && book.available
    ensures r.Ok? ==> |r.books| == |borrowed| + 1 && r.books[..|borrowed|] == borrowed
                      && r.books[|borrowed|] == book
  {
    if |borrowed| >= BorrowLimit then Rejected(LimitReached)
    else if IsBorrowed(borrowed, book) then Rejected(AlreadyBorrowed)
    else if !book.available then Rejected(NotAvailable)
    else Ok(borrowed + [book])
  }

  /** The screen's list after a borrow attempt: a rejection leaves it as it was. */
  function BorrowedAfter(borrowed: seq<Book>, book: Book): (r: seq<Book>)
    ensures Borrow(borrowed, book).Rejected? ==> r == borrowed
    ensures Borrow(borrowed, book).Ok? ==> r == borrowed + [book]
  {
    match Borrow(borrowed, book)
    case Ok(books) => books
    case Rejected(_) => borrowed
  }

  /** A successful borrow keeps the borrowed-list invariant. The cap needs no
      assumption, since the count check guards the append; uniqueness of ids
      needs the snapshot to have unique ids already. */
  lemma BorrowPreservesValid(borrowed: seq<Book>, book: Book)
    requires UniqueIds(borrowed)
    ensures Borrow(borrowed, book).Ok? ==> Valid(Borrow(borrowed, book).books)
  {
    var r := Borrow(borrowed, book);
    if r.Ok? {
      var s := r.books;
      assert s == borrowed + [book];
      forall i, j | 0 <= i < j < |s|
        ensures s[i].id != s[j].id
      {
        if j == |borrowed| {
          assert s[i] == borrowed[i];
        } else {
          assert s[i] == borrowed[i] && s[j] == borrowed[j];
        }
      }
    }
  }

  /** The list after a borrow attempt keeps the invariant whenever it held before. */
  lemma BorrowedAfterPreservesValid(borrowed: seq<Book>, book: Book)
    ensures Valid(borrowed) ==> Valid(BorrowedAfter(borrowed, book))
  {
    if Valid(borrowed) {
      BorrowPreservesValid(borrowed, book);
    }
  }

  /** The borrow button is interactive exactly when the book is available and
      not already borrowed; the count plays no part. */
  predicate BorrowEnabled(borrowed: seq<Book>, book: Book)
  {
    book.available && !IsBorrowed(borrowed, book)
  }

  /** Below the cap, the button is enabled exactly when pressing it succeeds. */
  lemma BorrowEnabledMatchesBorrow(borrowed: seq<Book>, book: Book)
    ensures BorrowEnabled(borrowed, book) <==> book.available && !HasId(borrowed, book.id)
    ensures |borrowed| < BorrowLimit ==> (BorrowEnabled(borrowed, book) <==> Borrow(borrowed, book).Ok?)
    ensures !BorrowEnabled(borrowed, book) ==> Borrow(borrowed, book).Rejected?
  {
  }

  /** Enablement depends only on availability and membership: two snapshots that
      agree on whether the book is present enable the button alike, whatever
      their lengths. */
  lemma BorrowEnabledIgnoresCount(a: seq<Book>, b: seq<Book>, book: Book)
    requires HasId(a, book.id) <==> HasId(b, book.id)
    ensures BorrowEnabled(a, book) == BorrowEnabled(b, book)
  {
  }

  /** At the cap the button can still be enabled, and the handler's own count
      check then refuses the borrow. */
  lemma EnabledAtLimitStillRejected()
    ensures var full := [Sample("1"), Sample("2"), Sample("3")];
            BorrowEnabled(full, Sample("4")) && Borrow(full, Sample("4")) == Rejected(LimitReached)
  {
    var full := [Sample("1"), Sample("2"), Sample("3")];
    assert !IsBorrowed(full, Sample("4"));
  }

  /** An available book with identifier `id` and no other data. */
  function Sample(id: string): Book
  {
    Book(id, None, None, "", true, None, None, None, None)
  }
}
