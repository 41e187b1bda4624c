/**
 * The `Book` record of the Open Library demo: normalising search-result
 * documents into records, choosing which ISBNs to try for a cover, deciding
 * whether a cover response is an image, and the record's text form.
 * The HTTP calls are parameters: the decoded `docs` list of a search, and a
 * `fetch` function from a URL to the `(status, content)` of its response.
 */
module BookCover {
  import opened Wrappers
  import opened Text
  import opened Decimal

  newtype byte = x: int | 0 <= x < 256

  /** The body of a cover response: an opaque image file. */
  type Cover = seq<byte>

  /** What the model keeps of an HTTP response. */
  datatype Response = Response(status: int, content: seq<byte>)

  /** An element of a document's `ia` array: a JSON string, or any other JSON value. */
  datatype IaEntry = IaString(s: string) | IaOther

  /** One entry of the search response's `docs` list; `None` is a missing key. */
  datatype Doc = Doc(
    isbn: Option<seq<string>>,
    ia: Option<seq<IaEntry>>,
    title: Option<string>,
    authorName: Option<seq<string>>,
    firstPublishYear: Option<int>)

  /** A normalised search result, with the defaults of `Book.__init__`. */
  datatype Book = Book(title: string := "", author: string := "", year: int := 0, isbns: string := "")

  /** The placeholder stored when a document yields no ISBN: an em dash. */
  const NoIsbn: string := "\U{2014}"

  /** The marker of an Internet Archive identifier derived from an ISBN. */
  const IsbnPrefix: string := "isbn_"

  const Separator: string := ", "

  const CoverBase: string := "https://covers.openlibrary.org/b/isbn/"

  const CoverSuffix: string := "-L.jpg"

  // ---------------------------------------------------------------------------
  // Search-result normalisation (Book.get_books)

  /** True of the `ia` entries that carry an ISBN: strings starting with `isbn_`. */
  predicate IsIsbnEntry(e: IaEntry) {
    e.IaString? && StartsWith(e.s, IsbnPrefix)
  }

  /** The ISBNs recovered from an `ia` array: each `isbn_` string without its marker. */
  function IaIsbns(ia: seq<IaEntry>): seq<string>
    decreases |ia|
  {
    if ia == [] then []
    else if IsIsbnEntry(ia[0]) then [ia[0].s[|IsbnPrefix|..]] + IaIsbns(ia[1..])
    else IaIsbns(ia[1..])
  }

  /**
   * The ISBN list of a document: its `isbn` list when present and non-empty,
   * otherwise what its `ia` list yields, otherwise nothing.
   */
  function DerivedIsbns(doc: Doc): seq<string> {
    if doc.isbn.Some? && doc.isbn.value != [] then doc.isbn.value
    else if doc.ia.Some? then IaIsbns(doc.ia.value)
    else []
  }

  /** The `isbns` text of a document: the ISBNs joined by ", ", or the placeholder. */
  function IsbnText(doc: Doc): string {
    var isbns := DerivedIsbns(doc);
    if isbns == [] then NoIsbn else Join(isbns, Separator)
  }

  /** The `Book` built from one search-result document. */
  function Normalize(doc: Doc): Book {
    Book(
      title := doc.title.GetOr(""),
      author := Join(doc.authorName.GetOr([]), Separator),
      year := doc.firstPublishYear.GetOr(0),
      isbns := IsbnText(doc))
  }

  /** The list `get_books` returns for a decoded `docs` list. */
  function NormalizeAll(docs: seq<Doc>): seq<Book> {
    seq(|docs|, i requires 0 <= i < |docs| => Normalize(docs[i]))
  }

  /** `get_books` after the HTTP call: one record per document, in the documents' order. */
  method GetBooks(docs: seq<Doc>) returns (books: seq<Book>)
    ensures |books| == |docs|
    ensures forall i :: 0 <= i < |docs| ==> books[i] == Normalize(docs[i])
  {
    books := [];
    var k := 0;
    while k < |docs|
      invariant 0 <= k <= |docs|
      invariant |books| == k
      invariant forall i :: 0 <= i < k ==> books[i] == Normalize(docs[i])
    {
      var doc := docs[k];
      var book := Normalize(doc);
      books := books + [book];
      k := k + 1;
    }
  }

  /** The `ia` filter keeps order and distributes over concatenation. */
  lemma {:induction false} IaIsbnsAppend(a: seq<IaEntry>, b: seq<IaEntry>)
    ensures IaIsbns(a + b) == IaIsbns(a) + IaIsbns(b)
    decreases |a|
  {
    if a != [] {
      assert (a + b)[0] == a[0];
      assert (a + b)[1..] == a[1..] + b;
      IaIsbnsAppend(a[1..], b);
    } else {
      assert a + b == b;
    }
  }

  /** A single `ia` entry contributes its stripped ISBN when it has the marker, and nothing otherwise. */
  lemma IaIsbnsSingle(e: IaEntry)
    ensures IaIsbns([e]) == if IsIsbnEntry(e) then [e.s[5..]] else []
  {
    assert [e][1..] == [];
  }

  /** Every recovered ISBN comes from a marked `ia` entry, and every marked entry yields one. */
  lemma {:induction false} IaIsbnsMembers(ia: seq<IaEntry>, x: string)
    ensures x in IaIsbns(ia) <==>
      exists k :: 0 <= k < |ia| && IsIsbnEntry(ia[k]) && ia[k].s[5..] == x
    decreases |ia|
  {
    if ia != [] {
      IaIsbnsMembers(ia[1..], x);
      if x in IaIsbns(ia[1..]) {
        var k :| 0 <= k < |ia[1..]| && IsIsbnEntry(ia[1..][k]) && ia[1..][k].s[5..] == x;
        assert ia[k + 1] == ia[1..][k];
      }
      if exists k :: 0 <= k < |ia| && IsIsbnEntry(ia[k]) && ia[k].s[5..] == x {
        var k :| 0 <= k < |ia| && IsIsbnEntry(ia[k]) && ia[k].s[5..] == x;
        if k > 0 {
          assert ia[1..][k - 1] == ia[k];
        }
      }
    }
  }

  /** An `ia` list without marked entries yields no ISBN. */
  lemma {:induction false} IaIsbnsNone(ia: seq<IaEntry>)
    requires forall k :: 0 <= k < |ia| ==> !IsIsbnEntry(ia[k])
    ensures IaIsbns(ia) == []
    decreases |ia|
  {
    if ia != [] {
      IaIsbnsNone(ia[1..]);
    }
  }

  /** A non-empty `isbn` list is used as it is: joined by ", ", a single ISBN with no separator. */
  lemma IsbnsFromIsbnField(doc: Doc)
    requires doc.isbn.Some? && doc.isbn.value != []
    ensures Normalize(doc).isbns == Join(doc.isbn.value, Separator)
    ensures |doc.isbn.value| == 1 ==> Normalize(doc).isbns == doc.isbn.value[0]
    ensures |doc.isbn.value| > 1 ==>
      Normalize(doc).isbns == doc.isbn.value[0] + Separator + Join(doc.isbn.value[1..], Separator)
  {
  }

  /** A search result with `isbn: ["9780316346627"]` gets exactly that ISBN. */
  lemma SingleIsbnExample(doc: Doc)
    requires doc.isbn == Some(["9780316346627"])
    ensures Normalize(doc).isbns == "9780316346627"
  {
  }

  /** Without a usable `isbn` list, the ISBNs are the marked `ia` entries, marker removed, in order. */
  lemma IsbnsFromIa(doc: Doc)
    requires doc.isbn.None? || doc.isbn.value == []
    requires doc.ia.Some?
    ensures DerivedIsbns(doc) == IaIsbns(doc.ia.value)
    ensures |DerivedIsbns(doc)| <= |doc.ia.value|
    ensures DerivedIsbns(doc) != [] ==> Normalize(doc).isbns == Join(IaIsbns(doc.ia.value), Separator)
  {
    IaIsbnsShorter(doc.ia.value);
  }

  /** The `ia` filter never yields more ISBNs than there are entries. */
  lemma {:induction false} IaIsbnsShorter(ia: seq<IaEntry>)
    ensures |IaIsbns(ia)| <= |ia|
    decreases |ia|
  {
    if ia != [] {
      IaIsbnsShorter(ia[1..]);
    }
  }

  /** No `isbn` list, and no `ia` list or no marked entry in it: the record shows the placeholder. */
  lemma IsbnsPlaceholder(doc: Doc)
    requires doc.isbn.None? || doc.isbn.value == []
    requires doc.ia.Some? ==> forall k :: 0 <= k < |doc.ia.value| ==> !IsIsbnEntry(doc.ia.value[k])
    ensures Normalize(doc).isbns == NoIsbn
  {
    if doc.ia.Some? {
      IaIsbnsNone(doc.ia.value);
    }
  }

  /** Missing `title`, `author_name` and `first_publish_year` become "", "" and 0. */
  lemma NormalizeDefaults(doc: Doc)
    ensures doc.title.None? ==> Normalize(doc).title == ""
    ensures doc.authorName.None? ==> Normalize(doc).author == ""
    ensures doc.firstPublishYear.None? ==> Normalize(doc).year == 0
    ensures doc.firstPublishYear.Some? ==> Normalize(doc).year == doc.firstPublishYear.value
    ensures doc.authorName.Some? && |doc.authorName.value| == 1 ==>
      Normalize(doc).author == doc.authorName.value[0]
  {
  }

  // ---------------------------------------------------------------------------
  // Cover lookup (Book.get_book_cover_image)

  /** The cover URL for an ISBN: the large-size variant. */
  function CoverUrl(isbn: string): (url: string)
    ensures |url| == |CoverBase| + |isbn| + |CoverSuffix|
    ensures StartsWith(url, CoverBase)
    ensures url[|CoverBase|..|CoverBase| + |isbn|] == isbn
    ensures url[|CoverBase| + |isbn|..] == CoverSuffix
  {
    CoverBase + isbn + CoverSuffix
  }

  /** Different ISBNs are asked for at different URLs. */
  lemma CoverUrlInjective(a: string, b: string)
    requires CoverUrl(a) == CoverUrl(b)
    ensures a == b
  {
    assert |a| == |b|;
    assert a == CoverUrl(a)[|CoverBase|..|CoverBase| + |a|];
  }

  /**
   * The decision on a cover response: the body, unchanged, when the status
   * is 200 and the body is not empty; no cover in every other case. No
   * content type is looked at.
   */
  function CoverDecision(response: Response): (image: Option<Cover>)
    ensures image.Some? <==> response.status == 200 && |response.content| > 0
    ensures image.Some? ==> image.value == response.content
  {
    if response.status == 200 then
      if |response.content| > 0 then Some(response.content) else None
    else None
  }

  /** `get_book_cover_image(isbn)`, with the GET request given as `fetch`. */
  function GetBookCoverImage(isbn: string, fetch: string -> Response): (image: Option<Cover>)
    ensures image.Some? ==> |image.value| > 0
    ensures image == CoverDecision(fetch(CoverUrl(isbn)))
  {
    CoverDecision(fetch(CoverUrl(isbn)))
  }

  /** The cover lookup `find_book_cover` uses, as a function of the ISBN. */
  function CoverLookup(fetch: string -> Response): string -> Option<Cover> {
    isbn => GetBookCoverImage(isbn, fetch)
  }

  // ---------------------------------------------------------------------------
  // Cover-candidate selection (Book.find_book_cover)

  /** The ISBNs tried for one `isbns` text: the trimmed comma-separated parts, or the text itself. */
  function Candidates(isbns: string): seq<string> {
    if ',' in isbns then StripAll(Split(isbns, ',')) else [isbns]
  }

  /** The ISBNs tried for one book: none when its `isbns` is empty. */
  function CandidatesOf(book: Book): seq<string> {
    if book.isbns == "" then [] else Candidates(book.isbns)
  }

  /** Every ISBN tried, by book order and then by position in the book's list. */
  function AllCandidates(books: seq<Book>): seq<string>
    decreases |books|
  {
    if books == [] then [] else CandidatesOf(books[0]) + AllCandidates(books[1..])
  }

  /** The first successful lookup among `isbns`, in order. */
  function FirstHit(isbns: seq<string>, lookup: string -> Option<Cover>): Option<Cover>
    decreases |isbns|
  {
    if isbns == [] then None
    else if lookup(isbns[0]).Some? then lookup(isbns[0])
    else FirstHit(isbns[1..], lookup)
  }

  /** The cover `find_book_cover` returns for a list of books. */
  function FirstCover(books: seq<Book>, lookup: string -> Option<Cover>): Option<Cover> {
    FirstHit(AllCandidates(books), lookup)
  }

  /** Searching two lists in turn: the first one's hit if it has one, else the second's. */
  lemma {:induction false} FirstHitAppend(a: seq<string>, b: seq<string>, lookup: string -> Option<Cover>)
    ensures FirstHit(a + b, lookup) == if FirstHit(a, lookup).Some? then FirstHit(a, lookup) else FirstHit(b, lookup)
    decreases |a|
  {
    if a != [] {
      assert (a + b)[0] == a[0];
      assert (a + b)[1..] == a[1..] + b;
      FirstHitAppend(a[1..], b, lookup);
    } else {
      assert a + b == b;
    }
  }

  /** No hit exactly when every lookup fails. */
  lemma {:induction false} FirstHitNone(isbns: seq<string>, lookup: string -> Option<Cover>)
    ensures FirstHit(isbns, lookup).None? <==> forall k :: 0 <= k < |isbns| ==> lookup(isbns[k]).None?
    decreases |isbns|
  {
    if isbns != [] {
      FirstHitNone(isbns[1..], lookup);
      assert forall k :: 1 <= k < |isbns| ==> isbns[k] == isbns[1..][k - 1];
    }
  }

  /** A hit is the result of some lookup, and every lookup before it failed. */
  lemma {:induction false} FirstHitFirst(isbns: seq<string>, lookup: string -> Option<Cover>)
    requires FirstHit(isbns, lookup).Some?
    ensures exists k :: (0 <= k < |isbns| && lookup(isbns[k]) == FirstHit(isbns, lookup)
      && forall m :: 0 <= m < k ==> lookup(isbns[m]).None?)
    decreases |isbns|
  {
    if lookup(isbns[0]).None? {
      FirstHitFirst(isbns[1..], lookup);
      var k :| 0 <= k < |isbns[1..]| && lookup(isbns[1..][k]) == FirstHit(isbns[1..], lookup)
        && forall m :: 0 <= m < k ==> lookup(isbns[1..][m]).None?;
      assert lookup(isbns[k + 1]) == FirstHit(isbns, lookup);
      forall m | 0 <= m < k + 1
        ensures lookup(isbns[m]).None?
      {
        if m > 0 {
          assert isbns[m] == isbns[1..][m - 1];
        }
      }
    }
  }

  /** The search over books is the first book's hit if it has one, else the search over the rest. */
  lemma FirstCoverCons(books: seq<Book>, lookup: string -> Option<Cover>)
    requires books != []
    ensures FirstCover(books, lookup) ==
      if FirstHit(CandidatesOf(books[0]), lookup).Some? then FirstHit(CandidatesOf(books[0]), lookup)
      else FirstCover(books[1..], lookup)
  {
    FirstHitAppend(CandidatesOf(books[0]), AllCandidates(books[1..]), lookup);
  }

  /** `find_book_cover` finds nothing exactly when every candidate of every book fails. */
  lemma {:induction false} FirstCoverNone(books: seq<Book>, lookup: string -> Option<Cover>)
    ensures FirstCover(books, lookup).None? <==>
      forall i, j :: 0 <= i < |books| && 0 <= j < |CandidatesOf(books[i])| ==>
        lookup(CandidatesOf(books[i])[j]).None?
    decreases |books|
  {
    if books != [] {
      FirstCoverCons(books, lookup);
      FirstCoverNone(books[1..], lookup);
      FirstHitNone(CandidatesOf(books[0]), lookup);
      assert forall i :: 1 <= i < |books| ==> books[i] == books[1..][i - 1];
    }
  }

  /**
   * A cover found by `find_book_cover` is the lookup of the candidate at
   * book `i`, position `j`, where every candidate of an earlier book and
   * every earlier candidate of book `i` failed.
   */
  lemma {:induction false} FirstCoverFirst(books: seq<Book>, lookup: string -> Option<Cover>)
    requires FirstCover(books, lookup).Some?
    ensures exists i, j :: (0 <= i < |books| && 0 <= j < |CandidatesOf(books[i])|
      && lookup(CandidatesOf(books[i])[j]) == FirstCover(books, lookup)
      && (forall i', j' :: 0 <= i' < i && 0 <= j' < |CandidatesOf(books[i'])| ==>
            lookup(CandidatesOf(books[i'])[j']).None?)
      && (forall j' :: 0 <= j' < j ==> lookup(CandidatesOf(books[i])[j']).None?))
    decreases |books|
  {
    var first := CandidatesOf(books[0]);
    FirstCoverCons(books, lookup);
    if FirstHit(first, lookup).Some? {
      FirstHitFirst(first, lookup);
      var j :| 0 <= j < |first| && lookup(first[j]) == FirstHit(first, lookup)
        && forall m :: 0 <= m < j ==> lookup(first[m]).None?;
      assert lookup(CandidatesOf(books[0])[j]) == FirstCover(books, lookup);
    } else {
      var rest := books[1..];
      FirstHitNone(first, lookup);
      FirstCoverFirst(rest, lookup);
      var i, j :| 0 <= i < |rest| && 0 <= j < |CandidatesOf(rest[i])|
        && lookup(CandidatesOf(rest[i])[j]) == FirstCover(rest, lookup)
        && (forall i', j' :: 0 <= i' < i && 0 <= j' < |CandidatesOf(rest[i'])| ==>
              lookup(CandidatesOf(rest[i'])[j']).None?)
        && (forall j' :: 0 <= j' < j ==> lookup(CandidatesOf(rest[i])[j']).None?);
      assert books[i + 1] == rest[i];
      forall i', j' | 0 <= i' < i + 1 && 0 <= j' < |CandidatesOf(books[i'])|
        ensures lookup(CandidatesOf(books[i'])[j']).None?
      {
        if i' > 0 {
          assert books[i'] == rest[i' - 1];
        }
      }
    }
  }

  /**
   * The loops of `find_book_cover` over the books it got: the first
   * successful lookup, by book order and then by comma position.
   */
  method FindCover(books: seq<Book>, lookup: string -> Option<Cover>) returns (image: Option<Cover>)
    ensures image == FirstCover(books, lookup)
  {
    for i := 0 to |books|
      invariant FirstCover(books, lookup) == FirstCover(books[i..], lookup)
    {
      var book := books[i];
      FirstCoverStep(books, i, lookup);
      if book.isbns != "" {
        var isbns := Candidates(book.isbns);
        assert isbns == CandidatesOf(book);
        for j := 0 to |isbns|
          invariant FirstHit(isbns, lookup) == FirstHit(isbns[j..], lookup)
        {
          assert isbns[j..][1..] == isbns[j + 1..];
          image := lookup(isbns[j]);
          if image.Some? {
            return;
          }
        }
      }
    }
    assert books[|books|..] == [];
    image := None;
  }

  /** One step of the outer loop: book `i`'s hit if it has one, else the search from book `i + 1`. */
  lemma FirstCoverStep(books: seq<Book>, i: nat, lookup: string -> Option<Cover>)
    requires i < |books|
    ensures FirstCover(books[i..], lookup) ==
      if FirstHit(CandidatesOf(books[i]), lookup).Some? then FirstHit(CandidatesOf(books[i]), lookup)
      else FirstCover(books[i + 1..], lookup)
  {
    FirstCoverCons(books[i..], lookup);
    assert books[i..][1..] == books[i + 1..];
  }

  /** `find_book_cover`: normalise the search results, then try their ISBNs for a cover. */
  method FindBookCover(docs: seq<Doc>, fetch: string -> Response) returns (image: Option<Cover>)
    ensures image == FirstCover(NormalizeAll(docs), CoverLookup(fetch))
  {
    var books := GetBooks(docs);
    assert books == NormalizeAll(docs);
    image := FindCover(books, CoverLookup(fetch));
  }

  /** One part of `", ".join(...)` after the first, as `split(",")` sees it: with its leading space. */
  function Spaced(xs: seq<string>): seq<string> {
    seq(|xs|, k requires 0 <= k < |xs| => " " + xs[k])
  }

  /** Joining with ", " is joining with "," after putting a space before every part but the first. */
  lemma {:induction false} JoinSeparator(xs: seq<string>)
    requires |xs| >= 1
    ensures Join(xs, Separator) == Join([xs[0]] + Spaced(xs[1..]), ",")
    decreases |xs|
  {
    if |xs| > 1 {
      JoinSeparator(xs[1..]);
      var tail := Spaced(xs[2..]);
      assert Spaced(xs[1..]) == [" " + xs[1]] + tail;
      assert xs[1..][1..] == xs[2..];
      if |xs| > 2 {
        JoinCons(" " + xs[1], tail, ",");
      }
      JoinCons(xs[0], Spaced(xs[1..]), ",");
    }
  }

  /**
   * The candidates tried for ISBNs joined by ", ": the ISBN itself when
   * there is one, each ISBN stripped of surrounding whitespace when there are
   * several (ISBNs without commas).
   */
  lemma CandidatesOfJoined(xs: seq<string>)
    requires |xs| >= 1
    requires forall k :: 0 <= k < |xs| ==> ',' !in xs[k]
    ensures Candidates(Join(xs, Separator)) == if |xs| == 1 then xs else StripAll(xs)
  {
    if |xs| > 1 {
      var s := Join(xs, Separator);
      var parts := [xs[0]] + Spaced(xs[1..]);
      JoinSeparator(xs);
      SplitSpaced(xs);
      SplitMany(s, ',');
      StripAllSpaced(xs);
    }
  }

  /** Splitting ISBNs joined by ", " on "," gives them back, each after the first with its leading space. */
  lemma SplitSpaced(xs: seq<string>)
    requires |xs| >= 1
    requires forall k :: 0 <= k < |xs| ==> ',' !in xs[k]
    ensures Split(Join([xs[0]] + Spaced(xs[1..]), ","), ',') == [xs[0]] + Spaced(xs[1..])
  {
    var parts := [xs[0]] + Spaced(xs[1..]);
    assert forall k :: 1 <= k < |parts| ==> parts[k] == " " + xs[k];
    assert forall k :: 0 <= k < |parts| ==> ',' !in parts[k];
    SplitJoin(parts, ',');
  }

  /** Stripping the spaced parts gives the same as stripping the ISBNs. */
  lemma StripAllSpaced(xs: seq<string>)
    requires |xs| >= 1
    ensures StripAll([xs[0]] + Spaced(xs[1..])) == StripAll(xs)
  {
    var parts := [xs[0]] + Spaced(xs[1..]);
    forall k | 0 <= k < |xs|
      ensures Strip(parts[k]) == Strip(xs[k])
    {
      if k > 0 {
        assert parts[k] == [' '] + xs[k];
        StripLeadingSpace(' ', xs[k]);
      }
    }
  }

  /**
   * From search result to lookups: a document whose `isbn` list is present,
   * non-empty and comma-free has exactly its ISBNs tried, in order (stripped
   * when there are several), and nothing when that list is `[""]`.
   */
  lemma CandidatesOfDoc(doc: Doc)
    requires doc.isbn.Some? && doc.isbn.value != []
    requires forall k :: 0 <= k < |doc.isbn.value| ==> ',' !in doc.isbn.value[k]
    ensures CandidatesOf(Normalize(doc)) ==
      if doc.isbn.value == [""] then []
      else if |doc.isbn.value| == 1 then doc.isbn.value
      else StripAll(doc.isbn.value)
  {
    var xs := doc.isbn.value;
    CandidatesOfJoined(xs);
    if |xs| > 1 {
      assert Join(xs, Separator) == xs[0] + Separator + Join(xs[1..], Separator);
    }
  }

  /** A record is skipped by the cover search exactly when its ISBN list is the single empty string. */
  lemma SkippedIff(doc: Doc)
    ensures Normalize(doc).isbns == "" <==> DerivedIsbns(doc) == [""]
  {
    var xs := DerivedIsbns(doc);
    if |xs| > 1 {
      assert |Join(xs, Separator)| >= |Separator|;
    }
  }

  /** The placeholder is not empty and has no comma: it is looked up as it is. */
  lemma PlaceholderTriedAsIs(book: Book)
    requires book.isbns == NoIsbn
    ensures CandidatesOf(book) == [NoIsbn]
  {
  }

  // ---------------------------------------------------------------------------
  // Text form (Book.__str__)

  /** `str(book)`: title, an em dash, author, the year in parentheses, then the ISBNs. */
  function BookString(book: Book): string {
    book.title + " \U{2014} " + book.author + " (" + IntToString(book.year) + ") ISBN: " + book.isbns
  }

  /**
   * The text starts with the title, holds the author after " — ", ends
   * with the ISBNs, and the year can be read back from the position after
   * the author.
   */
  lemma BookStringFields(book: Book)
    ensures StartsWith(BookString(book), book.title)
    ensures BookString(book)[|book.title| + 3..|book.title| + 3 + |book.author|] == book.author
    ensures BookString(book)[|BookString(book)| - |book.isbns|..] == book.isbns
    ensures var start := |book.title| + 3 + |book.author| + 2;
      start + |IntToString(book.year)| <= |BookString(book)| &&
      ParseInt(BookString(book)[start..start + |IntToString(book.year)|]) == Some(book.year)
  {
    var start := |book.title| + 3 + |book.author| + 2;
    var s := BookString(book);
    assert s[start..start + |IntToString(book.year)|] == IntToString(book.year);
    ParseIntToString(book.year);
  }
}
