/** Catalog management: `add_book_to_catalog` (field validation, the
    duplicate-ISBN check and the insert) and `search_books_in_catalog`. */
module Catalog {
  import opened Text
  import opened Records
  import opened Store

  const MaxTitleLength: nat := 200
  const MaxAuthorLength: nat := 100
  const IsbnLength: nat := 13
  /** The largest copy count accepted: 2^31 - 1. */
  const MaxCopies: int := 2147483647

  datatype CatalogError =
    | TitleRequired     // missing or blank title
    | TitleTooLong      // stripped title over 200 characters
    | AuthorRequired    // missing or blank author
    | AuthorTooLong     // stripped author over 100 characters
    | IsbnWrongLength   // ISBN not 13 characters long
    | IsbnNotDigits     // ISBN holds a non-digit
    | InvalidCopies     // copy count outside 1 .. 2^31 - 1
    | DuplicateIsbn     // another book already has this ISBN
    | DatabaseError     // the insert was refused

  /** The field checks of `add_book_to_catalog`, in the order it makes them:
      the first failing one, or None when all pass. */
  function ValidateNewBook(title: string, author: string, isbn: string, copies: int): (r: Option<CatalogError>)
    ensures r.None? <==>
              && Strip(title) != [] && |Strip(title)| <= MaxTitleLength
              && Strip(author) != [] && |Strip(author)| <= MaxAuthorLength
              && |isbn| == IsbnLength && (forall i | 0 <= i < |isbn| :: IsAsciiDigit(isbn[i]))
              && 1 <= copies <= MaxCopies
    ensures (forall i | 0 <= i < |title| :: IsWhitespace(title[i])) ==> r == Some(TitleRequired)
    // Each error is the first check, in the order above, that fails.
    ensures r == Some(TitleRequired) <==> Strip(title) == []
    ensures r == Some(TitleTooLong) <==> Strip(title) != [] && |Strip(title)| > MaxTitleLength
    ensures r == Some(AuthorRequired) <==>
              Strip(title) != [] && |Strip(title)| <= MaxTitleLength && Strip(author) == []
    ensures r == Some(AuthorTooLong) <==>
              && Strip(title) != [] && |Strip(title)| <= MaxTitleLength
              && Strip(author) != [] && |Strip(author)| > MaxAuthorLength
    ensures r == Some(IsbnWrongLength) <==>
              && Strip(title) != [] && |Strip(title)| <= MaxTitleLength
              && Strip(author) != [] && |Strip(author)| <= MaxAuthorLength
              && |isbn| != IsbnLength
    ensures r == Some(IsbnNotDigits) <==>
              && Strip(title) != [] && |Strip(title)| <= MaxTitleLength
              && Strip(author) != [] && |Strip(author)| <= MaxAuthorLength
              && |isbn| == IsbnLength && !(forall i | 0 <= i < |isbn| :: IsAsciiDigit(isbn[i]))
    ensures r == Some(InvalidCopies) <==>
              && Strip(title) != [] && |Strip(title)| <= MaxTitleLength
              && Strip(author) != [] && |Strip(author)| <= MaxAuthorLength
              && |isbn| == IsbnLength && (forall i | 0 <= i < |isbn| :: IsAsciiDigit(isbn[i]))
              && (copies < 1 || copies > MaxCopies)
    ensures r.Some? ==> r.value != DuplicateIsbn && r.value != DatabaseError
  {
    StripEmptyIffBlank(title);
    if Strip(title) == [] then Some(TitleRequired)
    else if |Strip(title)| > MaxTitleLength then Some(TitleTooLong)
    else if Strip(author) == [] then Some(AuthorRequired)
    else if |Strip(author)| > MaxAuthorLength then Some(AuthorTooLong)
    else if |isbn| != IsbnLength then Some(IsbnWrongLength)
    else if !IsDigitString(isbn) then Some(IsbnNotDigits)
    else if copies <= 0 || copies > MaxCopies then Some(InvalidCopies)
    else None
  }

  /** `add_book_to_catalog(title, author, isbn, copies)`: a rejected book
      changes nothing; an accepted one is appended with its title and author
      stripped and every copy on the shelf. `insertFails` stands for the
      database refusing the write. */
  method AddBook(db: Library, title: string, author: string, isbn: string, copies: int, insertFails: bool)
    returns (result: Result<Book, CatalogError>)
    modifies db
    ensures ValidateNewBook(title, author, isbn, copies).Some? ==>
              result == Err(ValidateNewBook(title, author, isbn, copies).value)
    ensures ValidateNewBook(title, author, isbn, copies).None? && HasIsbn(old(db.books), isbn) ==>
              result == Err(DuplicateIsbn)
    ensures ValidateNewBook(title, author, isbn, copies).None? && !HasIsbn(old(db.books), isbn) ==>
              result == (if insertFails then Err(DatabaseError)
                         else Ok(Book(NextBookId(old(db.books)), Strip(title), Strip(author), isbn, copies, copies)))
    ensures result.Ok? ==> db.books == old(db.books) + [result.value]
    ensures result.Err? ==> db.books == old(db.books)
    ensures db.records == old(db.records)
    ensures old(db.Valid()) ==> db.Valid()
  {
    var invalid := ValidateNewBook(title, author, isbn, copies);
    if invalid.Some? {
      return Err(invalid.value);
    }
    if HasIsbn(db.books, isbn) {
      return Err(DuplicateIsbn);
    }
    var book := Book(NextBookId(db.books), Strip(title), Strip(author), isbn, copies, copies);
    if db.Valid() {
      AddBookKeepsConsistency(db.books, db.records, book);
    }
    var inserted := db.InsertBook(book, insertFails);
    if !inserted {
      return Err(DatabaseError);
    }
    return Ok(book);
  }

  // ---------------------------------------------------------------------
  // Search

  datatype SearchType = ByTitle | ByAuthor | ByIsbn

  /** The field a title or author search looks at. */
  function SearchedField(b: Book, kind: SearchType): string {
    if kind == ByTitle then b.title else if kind == ByAuthor then b.author else b.isbn
  }

  /** The three filters the search applies, named rather than passed as
      closures: the first pass over the catalog, the second pass over the
      sorted results, and the resulting condition stated outright. */
  datatype Criterion =
    | FirstPass(term: string, kind: SearchType)
    | SecondPass(term: string, kind: SearchType)
    | Wanted(term: string, kind: SearchType)

  predicate Accepts(c: Criterion, b: Book) {
    match c
    case FirstPass(t, kind) =>
      (match kind
       case ByTitle => IsSubstring(Lower(t), Lower(b.title)) && |t| <= MaxTitleLength
       case ByAuthor => IsSubstring(Lower(t), Lower(b.author)) && |t| <= MaxAuthorLength
       case ByIsbn => b.isbn == t && |t| == IsbnLength && IsDigitString(t))
    case SecondPass(t, kind) =>
      if kind == ByIsbn then b.isbn == t
      else IsSubstring(Lower(SearchedField(b, kind)), Lower(t))
    case Wanted(t, kind) =>
      (match kind
       case ByTitle => Lower(b.title) == Lower(t) && |t| <= MaxTitleLength
       case ByAuthor => Lower(b.author) == Lower(t) && |t| <= MaxAuthorLength
       case ByIsbn => b.isbn == t && |t| == IsbnLength && IsDigitString(t))
  }

  /** The books of `s` that `c` accepts, in the order of `s`. */
  function Filter(s: seq<Book>, c: Criterion): (r: seq<Book>)
    ensures forall x | x in r :: x in s && Accepts(c, x)
  {
    if |s| == 0 then []
    else
      var rest := Filter(s[..|s| - 1], c);
      assert forall x | x in s[..|s| - 1] :: x in s;
      if Accepts(c, s[|s| - 1]) then rest + [s[|s| - 1]] else rest
  }

  /** Filtering keeps exactly the accepted copies of every book. */
  lemma {:induction false} FilterCounts(s: seq<Book>, c: Criterion, x: Book)
    ensures multiset(Filter(s, c))[x] == if Accepts(c, x) then multiset(s)[x] else 0
  {
    if |s| > 0 {
      var n := |s| - 1;
      FilterCounts(s[..n], c, x);
      assert s == s[..n] + [s[n]];
    }
  }

  /** The two passes of a title or author search together keep exactly the
      books whose field equals the term, ignoring case; an ISBN search keeps
      the books with exactly that 13-digit ISBN. */
  lemma BothPassesMeanWanted(t: string, kind: SearchType, b: Book)
    ensures Accepts(FirstPass(t, kind), b) && Accepts(SecondPass(t, kind), b) <==> Accepts(Wanted(t, kind), b)
  {
    if kind == ByTitle {
      MutualContainmentIsEquality(Lower(t), Lower(b.title));
    } else if kind == ByAuthor {
      MutualContainmentIsEquality(Lower(t), Lower(b.author));
    }
  }

  /** The sort key: the lower-cased title. */
  function TitleKey(b: Book): string {
    Lower(b.title)
  }

  ghost predicate SortedByTitle(s: seq<Book>) {
    forall i, j | 0 <= i < j < |s| :: LexLessEq(TitleKey(s[i]), TitleKey(s[j]))
  }

  /** Appending a key no smaller than every key present keeps a sequence
      sorted. */
  lemma AppendKeepsSorted(s: seq<Book>, b: Book)
    requires SortedByTitle(s)
    requires forall x | x in s :: LexLessEq(TitleKey(x), TitleKey(b))
    ensures SortedByTitle(s + [b])
  {
    forall i, j | 0 <= i < j < |s| + 1 ensures LexLessEq(TitleKey((s + [b])[i]), TitleKey((s + [b])[j])) {
      if j == |s| {
        assert (s + [b])[i] in s;
      } else {
        assert (s + [b])[i] == s[i] && (s + [b])[j] == s[j];
      }
    }
  }

  /** Inserts `b` after every element whose key is not greater, so equal
      keys keep their order. */
  function InsertByTitle(s: seq<Book>, b: Book): (r: seq<Book>)
    ensures multiset(r) == multiset(s) + multiset{b}
  {
    if |s| == 0 then [b]
    else
      var n := |s| - 1;
      assert s == s[..n] + [s[n]];
      if LexLessEq(TitleKey(s[n]), TitleKey(b)) then s + [b]
      else InsertByTitle(s[..n], b) + [s[n]]
  }

  /** In a sorted sequence every key is at most the last one. */
  lemma LastKeyIsGreatest(s: seq<Book>, b: Book)
    requires SortedByTitle(s) && |s| > 0
    requires LexLessEq(TitleKey(s[|s| - 1]), TitleKey(b))
    ensures forall x | x in s :: LexLessEq(TitleKey(x), TitleKey(b))
  {
    var n := |s| - 1;
    forall x | x in s ensures LexLessEq(TitleKey(x), TitleKey(b)) {
      var i :| 0 <= i < |s| && s[i] == x;
      if i < n {
        LexLessEqTransitive(TitleKey(s[i]), TitleKey(s[n]), TitleKey(b));
      }
    }
  }

  /** Inserting into the front of a sorted sequence a book whose key is
      below the last one keeps every key at most the last one. */
  lemma InsertedFrontStaysBelowLast(s: seq<Book>, b: Book)
    requires SortedByTitle(s) && |s| > 0
    requires LexLessEq(TitleKey(b), TitleKey(s[|s| - 1]))
    ensures forall x | x in InsertByTitle(s[..|s| - 1], b) :: LexLessEq(TitleKey(x), TitleKey(s[|s| - 1]))
  {
    var n := |s| - 1;
    var front := InsertByTitle(s[..n], b);
    forall x | x in front ensures LexLessEq(TitleKey(x), TitleKey(s[n])) {
      assert x in multiset(front);
      if x != b {
        assert x in multiset(s[..n]);
        var i :| 0 <= i < n && s[..n][i] == x;
      }
    }
  }

  lemma {:induction false} InsertKeepsSorted(s: seq<Book>, b: Book)
    requires SortedByTitle(s)
    ensures SortedByTitle(InsertByTitle(s, b))
  {
    if |s| > 0 {
      var n := |s| - 1;
      if LexLessEq(TitleKey(s[n]), TitleKey(b)) {
        LastKeyIsGreatest(s, b);
        AppendKeepsSorted(s, b);
      } else {
        InsertKeepsSorted(s[..n], b);
        LexLessEqTotal(TitleKey(s[n]), TitleKey(b));
        InsertedFrontStaysBelowLast(s, b);
        AppendKeepsSorted(InsertByTitle(s[..n], b), s[n]);
      }
    }
  }

  /** `results.sort(key=lambda x: x['title'].lower())`, as an insertion sort. */
  function SortByTitle(s: seq<Book>): (r: seq<Book>)
    ensures SortedByTitle(r)
    ensures multiset(r) == multiset(s)
  {
    if |s| == 0 then []
    else
      assert s == s[..|s| - 1] + [s[|s| - 1]];
      var front := SortByTitle(s[..|s| - 1]);
      InsertKeepsSorted(front, s[|s| - 1]);
      InsertByTitle(front, s[|s| - 1])
  }

  /** Filtering a sorted sequence leaves it sorted. */
  lemma {:induction false} FilterKeepsSorted(s: seq<Book>, c: Criterion)
    requires SortedByTitle(s)
    ensures SortedByTitle(Filter(s, c))
  {
    if |s| > 0 {
      var n := |s| - 1;
      FilterKeepsSorted(s[..n], c);
      var rest := Filter(s[..n], c);
      forall x | x in rest ensures LexLessEq(TitleKey(x), TitleKey(s[n])) {
        var k :| 0 <= k < n && s[..n][k] == x;
      }
    }
  }

  /** The second pass run over any reordering of the first pass's result
      keeps exactly the wanted books, copy for copy. */
  lemma TwoPassesFindWanted(books: seq<Book>, firstPass: seq<Book>, t: string, kind: SearchType)
    requires multiset(firstPass) == multiset(Filter(books, FirstPass(t, kind)))
    ensures multiset(Filter(firstPass, SecondPass(t, kind))) == multiset(Filter(books, Wanted(t, kind)))
  {
    forall x ensures multiset(Filter(firstPass, SecondPass(t, kind)))[x] == multiset(Filter(books, Wanted(t, kind)))[x] {
      FilterCounts(firstPass, SecondPass(t, kind), x);
      FilterCounts(books, FirstPass(t, kind), x);
      FilterCounts(books, Wanted(t, kind), x);
      BothPassesMeanWanted(t, kind, x);
    }
  }

  /** `search_books_in_catalog(term, kind)` over the store's catalog. A blank
      term finds nothing. Otherwise the result is sorted by lower-cased title
      and holds exactly the catalog's books that `Wanted` accepts for the
      stripped term, as many times as the catalog holds them. */
  method SearchBooks(db: Library, term: string, kind: SearchType) returns (matches: seq<Book>)
    ensures Strip(term) == [] ==> matches == []
    ensures Strip(term) != [] ==> multiset(matches) == multiset(Filter(db.books, Wanted(Strip(term), kind)))
    ensures SortedByTitle(matches)
    ensures forall b | b in matches :: b in db.books
  {
    if Strip(term) == [] {
      return [];
    }
    var allBooks := db.books;
    var t := Strip(term);
    var results: seq<Book> := [];
    for i := 0 to |allBooks|
      invariant results == Filter(allBooks[..i], FirstPass(t, kind))
    {
      assert allBooks[..i + 1][..i] == allBooks[..i];
      if Accepts(FirstPass(t, kind), allBooks[i]) {
        results := results + [allBooks[i]];
      }
    }
    assert allBooks[..|allBooks|] == allBooks;
    results := SortByTitle(results);
    matches := [];
    for i := 0 to |results|
      invariant matches == Filter(results[..i], SecondPass(t, kind))
    {
      assert results[..i + 1][..i] == results[..i];
      if Accepts(SecondPass(t, kind), results[i]) {
        matches := matches + [results[i]];
      }
    }
    assert results[..|results|] == results;
    FilterKeepsSorted(results, SecondPass(t, kind));
    TwoPassesFindWanted(allBooks, results, t, kind);
    forall b | b in matches ensures b in db.books {
      assert b in multiset(matches);
    }
  }
}
