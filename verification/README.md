# BookLibraryApp borrowing and search rules in Dafny

BookLibraryApp is a small React Native front-end over a remote book catalog.
It has three screens. The catalog screen lists the books and filters them with a search box. The detail screen shows one book and lets the user borrow it. The borrowed-books screen lists the borrowed books and lets the user return them. The borrowed books are kept on the device as one list under the `borrowedBooks` key. At most three books may be borrowed at a time.

This project models the pure rules inside those screens as functions over
immutable values:

- `books.dfy` (module `Books`): the `Book` record and the borrowed-list invariant: at most `BorrowLimit` (3) entries, with no identifier appearing twice. It also models how a stored snapshot loads: a missing or unreadable value gives the empty list.
- `book_detail.dfy` (module `BookDetail`): the `isBorrowed` membership test and the borrow rule. The rule has three ordered rejections (`LimitReached`, `AlreadyBorrowed`, `NotAvailable`); if none applies, the book is appended. The module also has the predicate that enables the borrow button.
- `borrowed_books.dfy` (module `BorrowedBooks`): the return rule, which filters out every entry carrying the returned identifier.
- `book_list.dfy` (module `BookList`): the catalog search. The pieces are JavaScript `trim`, ASCII `toLowerCase`, `includes`, the filter with missing fields read as `''`, and the screen state that holds the catalog, the view and the search text.
- `seqs.dfy` (module `Seqs`): the array `filter` that both the return rule and the search use, and the subsequence relation.
- `library.dfy` (module `Library`): the borrowed-list as a state machine. The list is loaded, then borrow and return actions are applied one at a time. The module also holds two example runs of the borrow and return rules.

A reader might expect otherwise on three points, so here is what the code does:

- The borrowed-books screen reads storage once, when it mounts (`useEffect` with `[]`), not on every focus.
- A return asks for no confirmation.
- A return removes every entry with the identifier, not only the first.

Search matches the lowercased query against the title and author without trimming it. Trimming decides only whether the query is blank. So `"hobbit "` (with a trailing space) does not find "The Hobbit"; `UntrimmedQueryExample` shows this.

## Model

| member | source | states |
|---|---|---|
| Books.Load | screens/BookDetailScreen.js:26-33 | a missing or unreadable stored value loads as the empty list, which satisfies the invariant; a stored list loads as it is (the borrowed-books screen reads the same way at BorrowedBooksScreen.js:10-11) |
| BookDetail.IsBorrowed | screens/BookDetailScreen.js:38 | true exactly when some entry of the snapshot has the book's identifier |
| BookDetail.Borrow | screens/BookDetailScreen.js:40-62 | 3 or more entries gives LimitReached whatever the book; below the cap, an identifier already present gives AlreadyBorrowed; otherwise an unavailable book gives NotAvailable; success happens exactly when none applies, and the new list is one longer, with the old entries first and in order and the book last |
| BookDetail.BorrowedAfter | screens/BookDetailScreen.js:42-55 | after a rejected borrow the screen's list is unchanged; after a success it is the old list with the book appended |
| BookDetail.BorrowPreservesValid | screens/BookDetailScreen.js:42-54 | a successful borrow from a list with unique ids yields a list of at most 3 entries with unique ids |
| BookDetail.BorrowedAfterPreservesValid | screens/BookDetailScreen.js:42-55 | a borrow attempt, accepted or rejected, keeps the invariant |
| BookDetail.BorrowEnabledMatchesBorrow | screens/BookDetailScreen.js:112-116 | the button is enabled exactly when the book is available and its id is absent; below the cap this is exactly when borrowing succeeds; a disabled button would always be rejected |
| BookDetail.BorrowEnabledIgnoresCount | screens/BookDetailScreen.js:115 | two snapshots that agree on whether the book is present enable the button alike, whatever their lengths |
| BookDetail.EnabledAtLimitStillRejected | screens/BookDetailScreen.js:42-45 | with three other books borrowed the button is enabled, yet the handler rejects with LimitReached |
| BorrowedBooks.Return | screens/BorrowedBooksScreen.js:16-20 | no entry with the id is left; every other book is kept as often as before; the survivors keep their relative order; the list never grows |
| BorrowedBooks.ReturnAbsentIsIdentity | screens/BorrowedBooksScreen.js:17 | returning an id that is not in the list leaves the list unchanged |
| BorrowedBooks.ReturnIdempotent | screens/BorrowedBooksScreen.js:17 | returning an id twice gives the same list as returning it once |
| BorrowedBooks.ReturnRemovesOne | screens/BorrowedBooksScreen.js:17 | with unique ids, returning the id at position k removes exactly that entry, so the list gets one shorter |
| BorrowedBooks.FilterKeepsUniqueIds | screens/BorrowedBooksScreen.js:17 | filtering a list with unique ids leaves the ids unique |
| BorrowedBooks.ReturnPreservesValid | screens/BorrowedBooksScreen.js:16-19 | return keeps the invariant: at most 3 entries, ids unique |
| Seqs.Filter | screens/BookListScreen.js:51-54 | the array filter never lengthens its input, and everything it keeps satisfies the predicate |
| Seqs.FilterContents | screens/BookListScreen.js:51-54 | the filter keeps exactly the elements satisfying the predicate, each as often as in the input, and the result is a subsequence of the input |
| Seqs.FilterIdempotent | screens/BookListScreen.js:51-55 | filtering the result again with the same predicate changes nothing |
| BookList.TrimStart | screens/BookListScreen.js:50 | the result is a suffix of the input; every character dropped is whitespace; the result does not start with whitespace |
| BookList.TrimEnd | screens/BookListScreen.js:50 | the result is a prefix of the input; every character dropped is whitespace; the result does not end with whitespace |
| BookList.TrimEmptyIff | screens/BookListScreen.js:50 | a query trims to the empty string exactly when every character is whitespace |
| BookList.ToLower | screens/BookListScreen.js:52-53 | same length; no ASCII capital remains; each capital becomes its lowercase letter; every other character is unchanged |
| BookList.ToLowerKeepsBlank | screens/BookListScreen.js:50-53 | lowercasing neither creates nor removes whitespace, so blankness of a query survives lowercasing |
| BookList.Includes | screens/BookListScreen.js:52-53 | `includes` holds exactly when the needle occurs at some position of the haystack |
| BookList.Search | screens/BookListScreen.js:47-59 | an empty or all-whitespace query yields the whole catalog; the view is always a subsequence of the catalog; for any other query a book is in the view exactly when it is in the catalog and its lowercased title or author contains the lowercased query, and each such book appears as often as in the catalog |
| BookList.SearchIdempotent | screens/BookListScreen.js:51-55 | searching the view again with the same query returns the same view |
| BookList.SearchCaseInsensitive | screens/BookListScreen.js:52-53 | two queries that lowercase to the same string give the same view |
| BookList.MissingFieldsNeverMatch | screens/BookListScreen.js:52-53 | a book whose title and author are both missing (read as '') is never in the view for a non-blank query |
| BookList.UntrimmedQueryExample | screens/BookListScreen.js:50-53 | the query is matched untrimmed: "hobbit " finds nothing in a catalog holding only "The Hobbit" |
| BookList.TitleSearchExample | screens/BookListScreen.js:51-54 | searching "the" over "The Hobbit", "Dune" and "Brave New World" gives exactly ["The Hobbit"] |
| BookList.Loaded | screens/BookListScreen.js:32-33 | after the fetch the catalog and the view are both the fetched list, and the view is consistent with the empty search text |
| BookList.HandleSearch | screens/BookListScreen.js:47-59 | typing leaves the catalog unchanged, records the text, and makes the view the search of the catalog for that text |
| Library.Step | screens/BookDetailScreen.js:54-55 | a rejected borrow leaves the list unchanged, an accepted one appends the book, and a return leaves no entry with the id; each step keeps the invariant |
| Library.Run | screens/BorrowedBooksScreen.js:16-19 | any sequence of borrow and return actions applied to a valid list keeps it valid |
| Library.ReturnUndoesBorrow | screens/BorrowedBooksScreen.js:17 | returning a book just borrowed restores the list as it was before the borrow |
| Library.ReachableListsValid | screens/BookDetailScreen.js:28 | every list reached from an empty store has at most 3 entries and unique ids |
| Library.BorrowReturnScenario | screens/BookDetailScreen.js:38-54 | starting from an empty store: borrowing available A gives [A] with A marked borrowed; borrowing unavailable B is rejected as NotAvailable; returning A empties the list |
| Library.LimitScenario | screens/BookDetailScreen.js:42-45 | with three books borrowed, a fourth distinct available book is rejected as LimitReached and the list stays the same |

## Left out

- App.js: it only configures navigation and tabs.
- The Firestore fetch and the mapping from documents to records (BookListScreen.js:27-31): this is remote I/O. `Loaded` takes the fetched list as a parameter. A failed fetch leaves the screen in the same state as `Loaded([])`.
- AsyncStorage reads and writes, and `JSON.stringify`/`JSON.parse`: these are foreign calls. The store is the `Snapshot` value handed to `Load`. A write is assumed to store the list the screen computed. The serialization round trip is not modelled.
- The order of `setBorrowedBooks` before `setItem`, and the missing rollback when the write fails: these are asynchronous effects, not list logic.
- Stale snapshots: each screen holds the list it loaded. A borrow made from an old snapshot could overwrite a return made on the other screen. `Library.Step` assumes every action sees the latest list.
- React state and effects, alerts and their message texts, navigation, the "Learn More" link, rendering, styles and loading indicators: this is UI.
- BookList.ToLower: maps only the ASCII letters. JavaScript `toLowerCase` applies full Unicode case mapping, which can also change a string's length.
- Books.Book: `available` is a boolean, with a missing flag read as false. Field values of other JSON types (numbers, null) are not modelled.
- Books.Load: a stored JSON `null` (which would make the detail screen fail) is not modelled. Any stored value other than a list counts as unreadable.
