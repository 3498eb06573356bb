/** The borrowed-list as a state machine over the two screens that change it:
    a list is loaded from the device store, then borrow and return actions
    are applied to it one at a time. */
module Library {
  import opened Books
  import opened BookDetail
  import opened BorrowedBooks

  /** A user action on the borrowed-list. */
  datatype Action = BorrowAction(book: Book) | ReturnAction(id: string)

  /** The list after one action: a borrow attempt as the detail screen applies
      it, or a return as the borrowed-books screen applies it. */
  function Step(borrowed: seq<Book>, a: Action): (r: seq<Book>)
    ensures a.BorrowAction? && Borrow(borrowed, a.book).Rejected? ==> r == borrowed
    ensures a.BorrowAction? && Borrow(borrowed, a.book).Ok? ==> r == borrowed + [a.book]
    ensures a.ReturnAction? ==> !HasId(r, a.id) && |r| <= |borrowed|
    ensures Valid(borrowed) ==> Valid(r)
  {
    match a
    case BorrowAction(book) =>
      BorrowedAfterPreservesValid(borrowed, book);
      BorrowedAfter(borrowed, book)
    case ReturnAction(id) =>
      ReturnPreservesValid(borrowed, id);
      Return(borrowed, id)
  }

  /** The list after a sequence of actions, applied in order. */
  function Run(borrowed: seq<Book>, actions: seq<Action>): (r: seq<Book>)
    ensures Valid(borrowed) ==> Valid(r)
    decreases |actions|
  {
    if actions == [] then borrowed
    else Run(Step(borrowed, actions[0]), actions[1..])
  }

  /** Returning a book just borrowed gives back the list as it was before. */
  lemma ReturnUndoesBorrow(borrowed: seq<Book>, book: Book)
    requires Borrow(borrowed, book).Ok?
    ensures Return(Borrow(borrowed, book).books, book.id) == borrowed
  {
    var p := KeepsOtherThan(book.id);
    Seqs.FilterAppend(p, borrowed, [book]);
    ReturnAbsentIsIdentity(borrowed, book.id);
    assert Seqs.Filter(p, [book]) == [];
  }

  /** Every list reached from a store with nothing in it keeps the invariant:
      at most three books, no identifier twice. */
  lemma ReachableListsValid(actions: seq<Action>)
    ensures Valid(Run(Load(Absent), actions))
  {
  }

  /** A: available, B: not available. Borrowing A succeeds and marks it
      borrowed, borrowing B is refused as not available, and returning A
      empties the list. */
  lemma BorrowReturnScenario()
    ensures var a := Book("A", Some("A"), None, "", true, None, None, None, None);
            var b := Book("B", Some("B"), None, "", false, None, None, None, None);
            var s1 := Step(Load(Absent), BorrowAction(a));
            && s1 == [a]
            && IsBorrowed(s1, a)
            && Borrow(s1, b) == Rejected(NotAvailable)
            && Step(s1, ReturnAction("A")) == []
  {
    var a := Book("A", Some("A"), None, "", true, None, None, None, None);
    var b := Book("B", Some("B"), None, "", false, None, None, None, None);
    var s1 := Step(Load(Absent), BorrowAction(a));
    assert s1 == [a];
    assert s1[0].id == "A";
    assert !HasId(s1, "B");
  }

  /** With three books borrowed, a fourth distinct, available book is refused
      as over the limit and the list stays as it was. */
  lemma LimitScenario()
    ensures var full := [Sample("1"), Sample("2"), Sample("3")];
            && Borrow(full, Sample("4")) == Rejected(LimitReached)
            && Step(full, BorrowAction(Sample("4"))) == full
  {
  }
}
