/** The catalog screen's search: a blank query shows the whole catalog, any
    other query keeps the books whose title or author contains it, ignoring
    case. The catalog itself is only ever read. */
module BookList {
  import opened Books
  import opened Seqs

  // ---------------------------------------------------------------------------
  // Trimming

  /** The characters `String.prototype.trim` strips: ECMAScript WhiteSpace
      (tab, vertical tab, form feed, space, no-break space, byte order mark and
      the other space separators) and LineTerminator. */
  predicate IsWhitespace(c: char)
  {
    var n := c as int;
    n == 0x09 || n == 0x0B || n == 0x0C || n == 0x20 || n == 0xA0 || n == 0xFEFF
    || n == 0x1680 || (0x2000 <= n <= 0x200A) || n == 0x202F || n == 0x205F || n == 0x3000
    || n == 0x0A || n == 0x0D || n == 0x2028 || n == 0x2029
  }

  ghost predicate AllWhitespace(s: string)
  {
    forall i :: 0 <= i < |s| ==> IsWhitespace(s[i])
  }

  /** `s` without its leading whitespace. */
  function TrimStart(s: string): (r: string)
    ensures |r| <= |s| && r == s[|s| - |r|..]
    ensures forall i :: 0 <= i < |s| - |r| ==> IsWhitespace(s[i])
    ensures r != [] ==> !IsWhitespace(r[0])
    decreases |s|
  {
    if s != [] && IsWhitespace(s[0]) then TrimStart(s[1..]) else s
  }

  /** `s` without its trailing whitespace. */
  function TrimEnd(s: string): (r: string)
    ensures |r| <= |s| && r == s[..|r|]
    ensures forall i :: |r| <= i < |s| ==> IsWhitespace(s[i])
    ensures r != [] ==> !IsWhitespace(r[|r| - 1])
    decreases |s|
  {
    if s != [] && IsWhitespace(s[|s| - 1]) then TrimEnd(s[..|s| - 1]) else s
  }

  /** `String.prototype.trim`. */
  function Trim(s: string): string
  {
    TrimEnd(TrimStart(s))
  }

  /** A string trims to the empty string exactly when it is all whitespace. */
  lemma TrimEmptyIff(s: string)
    ensures Trim(s) == [] <==> AllWhitespace(s)
  {
    var t := TrimStart(s);
    if Trim(s) == [] {
      assert TrimEnd(t) == [];
    }
  }

  // ---------------------------------------------------------------------------
  // Lowercasing and substring search

  /** Lowercases one character. Only the ASCII letters are mapped here;
      JavaScript's `toLowerCase` applies the full Unicode case mapping. */
  function LowerChar(c: char): char
  {
    if 'A' <= c <= 'Z' then (c as int + 32) as char else c
  }

  /** `String.prototype.toLowerCase`, restricted to ASCII letters. */
  function ToLower(s: string): (r: string)
    ensures |r| == |s|
    ensures forall i :: 0 <= i < |r| ==> !('A' <= r[i] <= 'Z')
    ensures forall i :: 0 <= i < |s| && 'A' <= s[i] <= 'Z' ==> r[i] as int == s[i] as int + 32
    ensures forall i :: 0 <= i < |s| && !('A' <= s[i] <= 'Z') ==> r[i] == s[i]
  {
    seq(|s|, i requires 0 <= i < |s| => LowerChar(s[i]))
  }

  /** Lowercasing twice is lowercasing once. */
  lemma ToLowerIdempotent(s: string)
    ensures ToLower(ToLower(s)) == ToLower(s)
  {
  }

  /** Lowercasing neither creates nor removes whitespace. */
  lemma ToLowerKeepsBlank(s: string)
    ensures AllWhitespace(ToLower(s)) <==> AllWhitespace(s)
  {
    var l := ToLower(s);
    forall i | 0 <= i < |s| ensures IsWhitespace(l[i]) <==> IsWhitespace(s[i]) {
      if 'A' <= s[i] <= 'Z' {
        assert 'a' as int <= l[i] as int <= 'z' as int;
      }
    }
  }

  /** `needle` occurs in `hay` at some position. */
  ghost predicate ContainsSubstring(hay: string, needle: string)
  {
    exists i :: 0 <= i <= |hay| && needle <= hay[i..]
  }

  lemma ContainsSubstringStep(hay: string, needle: string)
    requires hay != []
    ensures ContainsSubstring(hay, needle) <==> needle <= hay || ContainsSubstring(hay[1..], needle)
  {
    assert hay[0..] == hay;
    if ContainsSubstring(hay, needle) && !(needle <= hay) {
      var i :| 0 <= i <= |hay| && needle <= hay[i..];
      assert hay[1..][i - 1..] == hay[i..];
    }
    if ContainsSubstring(hay[1..], needle) {
      var j :| 0 <= j <= |hay| - 1 && needle <= hay[1..][j..];
      assert hay[1..][j..] == hay[j + 1..];
    }
  }

  /** `String.prototype.includes`: tries every starting position in turn. */
  function Includes(hay: string, needle: string): (r: bool)
    ensures r <==> ContainsSubstring(hay, needle)
    decreases |hay|
  {
    if hay == [] then
      assert hay[0..] == hay;
      needle <= hay
    else
      ContainsSubstringStep(hay, needle);
      needle <= hay || Includes(hay[1..], needle)
  }

  // ---------------------------------------------------------------------------
  // The filter

  /** A missing text field reads as the empty string (`book.title || ''`). */
  function FieldText(f: Option<string>): string
  {
    match f
    case Some(s) => s
    case None => ""
  }

  /** The search predicate of the screen: the lowercased title or the
      lowercased author includes the lowercased, untrimmed query. */
  predicate Matches(book: Book, query: string)
  {
    Includes(ToLower(FieldText(book.title)), ToLower(query))
    || Includes(ToLower(FieldText(book.author)), ToLower(query))
  }

  /** What it means for a book to match, stated with substring occurrence. */
  ghost predicate MatchesByContainment(book: Book, query: string)
  {
    ContainsSubstring(ToLower(FieldText(book.title)), ToLower(query))
    || ContainsSubstring(ToLower(FieldText(book.author)), ToLower(query))
  }

  function Matcher(query: string): Book -> bool
  {
    (b: Book) => Matches(b, query)
  }

  lemma MatcherMeansMatchesByContainment(query: string)
    ensures forall b :: Matcher(query)(b) <==> MatchesByContainment(b, query)
  {
  }

  /** The filtered view for `query`: the whole catalog when the query is blank,
      otherwise the matching books in catalog order. */
  function Search(books: seq<Book>, query: string): (r: seq<Book>)
    ensures IsSubsequence(r, books)
    ensures AllWhitespace(query) ==> r == books
    ensures !AllWhitespace(query) ==>
              forall b :: b in r <==> b in books && MatchesByContainment(b, query)
    ensures !AllWhitespace(query) ==>
              forall b :: multiset(r)[b] == if MatchesByContainment(b, query) then multiset(books)[b] else 0
  {
    TrimEmptyIff(query);
    if Trim(query) != [] then
      FilterContents(Matcher(query), books);
      MatcherMeansMatchesByContainment(query);
      Filter(Matcher(query), books)
    else
      SubsequenceRefl(books);
      books
  }

  /** Searching the result again with the same query changes nothing. */
  lemma SearchIdempotent(books: seq<Book>, query: string)
    ensures Search(Search(books, query), query) == Search(books, query)
  {
    TrimEmptyIff(query);
    if Trim(query) != [] {
      FilterIdempotent(Matcher(query), books);
    }
  }

  /** Two queries that lowercase alike give the same view. */
  lemma SearchCaseInsensitive(books: seq<Book>, q1: string, q2: string)
    requires ToLower(q1) == ToLower(q2)
    ensures Search(books, q1) == Search(books, q2)
  {
    TrimEmptyIff(q1);
    TrimEmptyIff(q2);
    ToLowerKeepsBlank(q1);
    ToLowerKeepsBlank(q2);
    if Trim(q1) != [] {
      FilterCongruent(Matcher(q1), Matcher(q2), books);
    }
  }

  /** A book with neither title nor author never matches a non-blank query. */
  lemma MissingFieldsNeverMatch(books: seq<Book>, book: Book, query: string)
    requires FieldText(book.title) == "" && FieldText(book.author) == ""
    requires !AllWhitespace(query)
    ensures book !in Search(books, query)
  {
    assert |ToLower(query)| > 0;
  }

  /** The query is not trimmed before matching: a trailing space rules out a
      title that only has the word at its end. */
  lemma UntrimmedQueryExample()
    ensures Search([TitledBook("1", "The Hobbit")], "hobbit ") == []
  {
    assert !IsWhitespace("hobbit "[0]);
    UntrimmedQueryMisses();
  }

  lemma UntrimmedQueryMisses()
    ensures !MatchesByContainment(TitledBook("1", "The Hobbit"), "hobbit ")
  {
    var query := "hobbit ";
    var hay := ToLower("The Hobbit");
    assert hay == "the hobbit";
    assert ToLower(query) == query;
    forall i | 0 <= i <= |hay| ensures !(query <= hay[i..]) {
      if i <= 3 {
        assert hay[i..][6] == hay[i + 6] != ' ';
      }
    }
    FirstCharAbsent("", query);
  }

  /** A needle whose first character does not occur in `hay` does not occur in it. */
  lemma FirstCharAbsent(hay: string, needle: string)
    requires needle != [] && needle[0] !in hay
    ensures !ContainsSubstring(hay, needle)
  {
  }

  /** A lowercase letter is absent from the lowercased string when neither it
      nor its capital occurs in the original. */
  lemma LowerAvoids(s: string, c: char)
    requires 'a' <= c <= 'z' && c !in s && (c as int - 32) as char !in s
    ensures c !in ToLower(s)
  {
  }

  /** A catalog record with only an identifier and a title. */
  function TitledBook(id: string, title: string): Book
  {
    Book(id, Some(title), None, "", true, None, None, None, None)
  }

  /** A title-only book whose lowercased title lacks the first character of
      the lowercased query does not match it. */
  lemma TitleLacksFirstChar(id: string, title: string, query: string)
    requires query != [] && ToLower(query)[0] !in ToLower(title)
    ensures !MatchesByContainment(TitledBook(id, title), query)
  {
    FirstCharAbsent(ToLower(title), ToLower(query));
    FirstCharAbsent("", ToLower(query));
  }

  lemma TitleSearchExampleMatches()
    ensures MatchesByContainment(TitledBook("1", "The Hobbit"), "the")
    ensures !MatchesByContainment(TitledBook("2", "Dune"), "the")
    ensures !MatchesByContainment(TitledBook("3", "Brave New World"), "the")
  {
    assert ToLower("the") == "the";
    var hay := ToLower("The Hobbit");
    assert hay[0] == 't' && hay[1] == 'h' && hay[2] == 'e';
    assert "the" <= hay[0..];
    LowerAvoids("Dune", 't');
    TitleLacksFirstChar("2", "Dune", "the");
    LowerAvoids("Brave New World", 't');
    TitleLacksFirstChar("3", "Brave New World", "the");
  }

  /** Searching "the" over three titles keeps only the one containing it. */
  lemma TitleSearchExample()
    ensures var hobbit := TitledBook("1", "The Hobbit");
            Search([hobbit, TitledBook("2", "Dune"), TitledBook("3", "Brave New World")], "the")
              == [hobbit]
  {
    var hobbit, dune, brave := TitledBook("1", "The Hobbit"), TitledBook("2", "Dune"),
                               TitledBook("3", "Brave New World");
    var books := [hobbit, dune, brave];
    assert Trim("the") != [] by {
      assert !IsWhitespace("the"[0]);
      TrimEmptyIff("the");
    }
    var p := Matcher("the");
    TitleSearchExampleFilter();
    assert books[1..] == [dune, brave] && books[1..][1..] == [brave];
    assert Filter(p, [brave]) == [];
  }

  lemma TitleSearchExampleFilter()
    ensures Matcher("the")(TitledBook("1", "The Hobbit"))
    ensures !Matcher("the")(TitledBook("2", "Dune"))
    ensures !Matcher("the")(TitledBook("3", "Brave New World"))
  {
    TitleSearchExampleMatches();
    MatcherMeansMatchesByContainment("the");
  }

  // ---------------------------------------------------------------------------
  // The screen's state

  /** The catalog screen's state: the fetched catalog, the view shown, and
      the text in the search box. */
  datatype CatalogView = CatalogView(books: seq<Book>, filtered: seq<Book>, search: string)

  /** The view shown is always the search of the catalog for the box's text. */
  ghost predicate Consistent(v: CatalogView)
  {
    v.filtered == Search(v.books, v.search)
  }

  /** The state after the catalog arrives: the whole catalog, empty search box. */
  function Loaded(fetched: seq<Book>): (v: CatalogView)
    ensures v.books == fetched && v.filtered == fetched
    ensures Consistent(v)
  {
    CatalogView(fetched, fetched, "")
  }

  /** Typing in the search box: the catalog is left alone and the view is
      recomputed from it. */
  function HandleSearch(v: CatalogView, text: string): (v': CatalogView)
    ensures v'.books == v.books && v'.search == text
    ensures Consistent(v')
    ensures IsSubsequence(v'.filtered, v.books)
  {
    CatalogView(v.books, Search(v.books, text), text)
  }
}
