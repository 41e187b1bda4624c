# Book cover lookup and the Car tutorial class, modelled in Dafny

The repository is a small Open Library demo. `Book.get_books` sends a search
query and turns each result document into a `Book` record with a title, an
author, a year and an ISBN text. `Book.find_book_cover` then tries those ISBNs
one by one against the cover service and returns the first cover image it gets.
A second file defines a tutorial `Car` class. That class has a comma-separated
parser, a year check and a one-line description.

This project models that logic without the network. A search response is given
as its decoded `docs` list. A cover request is given as a function `fetch` from
a URL to the `(status, content)` of its response.

Files and modules:

- `wrappers.dfy` (module `Wrappers`): `Option`, with `GetOr` for `dict.get(key, default)`, and `Result` for calls that raise.
- `text.dfy` (module `Text`): the Python string operations the code uses.
  - `str.join` is `Join`; `str.split` on one character is `Split`; `str.strip` is `Strip`; `str.startswith` is `StartsWith`.
  - The whitespace set is that of `str.isspace`.
  - Lemmas cover join/split round trips, number of parts, and what `strip` removes.
- `decimal.dfy` (module `Decimal`): `str(n)` for integers, and the `int(text)` parse that `from_string` performs.
- `book_cover.dfy` (module `BookCover`): the `Book` record and the operations on it.
  - `Book` is a datatype. Apart from the credential loading (see "## Left out"), `Book.__init__` only stores its four arguments, so its defaults are the constructor's defaults: `""`, `""`, `0`, `""`.
  - `GetBooks` is the normalisation loop of `get_books`.
  - `CoverDecision` and `GetBookCoverImage` are `get_book_cover_image`.
  - `FindCover` is the nested loop of `find_book_cover`, and `FindBookCover` is the whole call.
  - `BookString` is `__str__`.
- `car.dfy` (module `Cars`): `Car` as a datatype, with `FromString`, `IsValidYear` and `DisplayInfo`.

The loops of `get_books` and `find_book_cover` are methods with loop invariants.
Each is proved against a specification function:

- `GetBooks` against `Normalize`.
- `FindCover` against `FirstCover`: the first successful lookup in the flattened candidate list.

The first-match property is then proved about `FirstCover`, in two lemmas:

- `FirstCoverNone`: nothing is found exactly when every candidate fails.
- `FirstCoverFirst`: a found cover comes from a candidate whose predecessors all failed.

The cover search checks less than one might expect:

- The cover decision looks only at the status (200) and at a non-empty body. No content type is checked.
- The cover search has no minimum-length filter on the ISBN text.
- The cover search does not skip the `"—"` placeholder. That placeholder has no comma, so it is looked up as an ISBN, untrimmed.

`get_books` defaults to `limit = 5`. The limit only goes into the request, so it is outside the model.

## Model

| member | source | states |
|---|---|---|
| `BookCover.GetBooks` | book_cover.py:51-65 | one record per document: same length, and record `i` is the normalisation of document `i`, in order |
| `BookCover.IsbnsFromIsbnField` | book_cover.py:54-57 | a present, non-empty `isbn` list becomes the record's `isbns`, joined by ", "; a single ISBN gives exactly that string, with no separator |
| `BookCover.SingleIsbnExample` | book_cover.py:54-57 | `isbn: ["9780316346627"]` gives `isbns == "9780316346627"` exactly |
| `BookCover.IsbnsFromIa` | book_cover.py:55-57 | with no usable `isbn` list and an `ia` list present, the ISBNs are those the `ia` filter yields, never more than the `ia` entries, joined by ", " |
| `BookCover.IaIsbnsAppend` | book_cover.py:56 | the `ia` filter keeps order: filtering a concatenation is concatenating the filtered parts |
| `BookCover.IaIsbnsSingle` | book_cover.py:56 | one `ia` entry contributes its text minus the first 5 characters if it is a string starting with `isbn_`, and nothing otherwise |
| `BookCover.IaIsbnsMembers` | book_cover.py:56 | a string is among the recovered ISBNs iff some marked `ia` string, minus its marker, equals it |
| `BookCover.IaIsbnsNone` | book_cover.py:56 | an `ia` list with no marked string yields no ISBN |
| `BookCover.IaIsbnsShorter` | book_cover.py:56 | the `ia` filter never yields more ISBNs than there are entries |
| `BookCover.IsbnsPlaceholder` | book_cover.py:54-57 | no `isbn` list, and no `ia` list or none of its entries marked: `isbns` is the placeholder "—" |
| `BookCover.NormalizeDefaults` | book_cover.py:59-63 | missing title, author list and year become "", "" and 0; a present year is kept; a single author is kept verbatim |
| `BookCover.SkippedIff` | book_cover.py:102 | the cover search skips a record (empty `isbns`) iff its derived ISBN list is exactly `[""]` |
| `BookCover.CoverUrl` | book_cover.py:80 | the cover URL is the fixed base, the ISBN and the `-L.jpg` suffix; the ISBN sits right after the base and is followed by exactly the suffix |
| `BookCover.CoverUrlInjective` | book_cover.py:80 | different ISBNs are requested at different URLs |
| `BookCover.CoverDecision` | book_cover.py:86-95 | a cover is returned iff the status is 200 and the body is non-empty, and it is the body unchanged |
| `BookCover.GetBookCoverImage` | book_cover.py:80-95 | the cover for an ISBN is the decision on the response fetched from its cover URL, and a cover is never empty |
| `BookCover.FirstHitAppend` | book_cover.py:104-107 | searching two candidate lists in turn gives the first list's hit if there is one, else the second's |
| `BookCover.FirstHitNone` | book_cover.py:104-108 | no hit in a candidate list iff every lookup in it fails |
| `BookCover.FirstHitFirst` | book_cover.py:104-107 | a hit is the result of some candidate's lookup, and every earlier candidate failed |
| `BookCover.FirstCoverCons` | book_cover.py:101-108 | the search over books gives the first book's hit if it has one, else the search over the remaining books |
| `BookCover.FirstCoverNone` | book_cover.py:101-108 | `find_book_cover` returns nothing iff every candidate of every book fails |
| `BookCover.FirstCoverFirst` | book_cover.py:101-108 | a found cover is the lookup of candidate `j` of book `i`; every candidate of earlier books failed, and so did every earlier candidate of book `i` |
| `BookCover.FirstCoverStep` | book_cover.py:101-105 | one pass of the outer loop: from book `i` on, the result is book `i`'s hit if it has one, else the search from book `i + 1` |
| `BookCover.FindCover` | book_cover.py:101-108 | the nested loops with early return compute the first successful lookup, by book order and then by comma position |
| `BookCover.FindBookCover` | book_cover.py:98-108 | `find_book_cover` is the first-match search over the normalised search results, with the cover decision as the lookup |
| `BookCover.JoinSeparator` | book_cover.py:57 | joining with ", " equals joining with "," once a space is put before every part but the first |
| `BookCover.SplitSpaced` | book_cover.py:103 | splitting the ", "-joined ISBNs on "," gives the first ISBN and then the others, each with its leading space |
| `BookCover.StripAllSpaced` | book_cover.py:103 | trimming those parts gives the trimmed ISBNs |
| `BookCover.CandidatesOfJoined` | book_cover.py:103 | for comma-free ISBNs joined by ", ", the candidates are the lone ISBN untrimmed, or every ISBN trimmed, in order |
| `BookCover.CandidatesOfDoc` | book_cover.py:54-103 | from document to lookups: a comma-free `isbn` list has exactly its ISBNs tried, in order, stripped when there are several, and nothing when it is `[""]` |
| `BookCover.PlaceholderTriedAsIs` | book_cover.py:102-103 | a record with the placeholder "—" has exactly one candidate, the placeholder itself |
| `BookCover.BookStringFields` | book_cover.py:27 | `str(book)` starts with the title, holds the author after " — ", ends with the ISBNs, and the year can be parsed back from its place after the author |
| `BookCover.IaIsbns` | book_cover.py:56 | definition of the `ia` comprehension; no contract of its own, its properties are `IaIsbnsAppend`, `IaIsbnsSingle`, `IaIsbnsMembers`, `IaIsbnsNone` and `IaIsbnsShorter` |
| `BookCover.DerivedIsbns` | book_cover.py:54-56 | definition of the ISBN list: `isbn` if present and non-empty, else the `ia` filter if `ia` is present, else empty; no contract of its own |
| `BookCover.IsbnText` | book_cover.py:57 | definition of the `isbns` text: the placeholder for an empty list, else the ", " join; no contract of its own |
| `BookCover.Normalize` | book_cover.py:59-63 | definition of the record built from one document; no contract of its own, its properties are the `Isbns…` lemmas, `NormalizeDefaults` and `GetBooks` |
| `BookCover.NormalizeAll` | book_cover.py:53-65 | definition of the whole list `get_books` returns; no contract of its own, `GetBooks` is proved equal to it |
| `BookCover.Candidates` | book_cover.py:103 | definition of the candidate list for an `isbns` text; no contract of its own, its properties are `CandidatesOfJoined` and `PlaceholderTriedAsIs` |
| `BookCover.CandidatesOf` | book_cover.py:102-103 | definition: no candidates for an empty `isbns`, else `Candidates`; no contract of its own |
| `BookCover.AllCandidates` | book_cover.py:101-104 | definition: every candidate tried, book by book; no contract of its own |
| `BookCover.FirstHit` | book_cover.py:104-107 | definition of the inner loop's result; no contract of its own, its properties are `FirstHitAppend`, `FirstHitNone` and `FirstHitFirst` |
| `BookCover.FirstCover` | book_cover.py:101-108 | definition of `find_book_cover`'s result; no contract of its own, its properties are `FirstCoverNone` and `FirstCoverFirst` |
| `BookCover.CoverLookup` | book_cover.py:105 | definition of the lookup `find_book_cover` applies to each candidate; no contract of its own |
| `BookCover.BookString` | book_cover.py:27 | definition of `str(book)`; no contract of its own, its properties are in `BookStringFields` |
| `Cars.IsValidYear` | test.py:30 | definition of `is_valid_year`; no contract of its own, `IsValidYearExamples` states its examples and bounds |
| `Cars.DisplayInfo` | test.py:11 | definition of the printed line; no contract of its own, `DisplayInfoFields` states its fields |
| `Cars.ToCsv` | test.py:18 | definition of the text form `from_string` reads; no contract of its own |
| `Text.Join` | book_cover.py:57 | definition of `sep.join(parts)`; no contract of its own, its properties are `JoinCons`, `SplitJoin` and `JoinSplit` |
| `Text.Strip` | book_cover.py:103 | definition of `s.strip()`; no contract of its own, its properties are `StripSpec`, `StripTrimmed`, `StripLeadingSpace` and `StripIdempotent` |
| `Text.StartsWith` | book_cover.py:56 | definition of `s.startswith(p)`; no contract of its own |
| `Text.IsSpace` | book_cover.py:103 | definition of the `str.isspace()` characters `strip()` removes; no contract of its own |
| `Text.Split` | book_cover.py:103 | `split` never returns an empty list, and no part contains the separator |
| `Text.LStrip` | book_cover.py:103 | `lstrip` never lengthens a string |
| `Text.RStrip` | book_cover.py:103 | `rstrip` never lengthens a string |
| `Text.StripAll` | book_cover.py:103 | definition of the comprehension `[s.strip() for s in ...]`, with no contract of its own; its properties are proved in `BookCover.StripAllSpaced` and `BookCover.CandidatesOfJoined` |
| `Text.LStripSpec` | book_cover.py:103 | `lstrip` removes exactly a whitespace prefix and stops at a non-space |
| `Text.RStripSpec` | book_cover.py:103 | `rstrip` removes exactly a whitespace suffix and stops at a non-space |
| `Text.RStripKeepsHead` | book_cover.py:103 | `rstrip` keeps the first character of a string that starts with a non-space |
| `Text.StripSpec` | book_cover.py:103 | `strip` returns a contiguous slice with no whitespace at either end, and everything it removed is whitespace |
| `Text.StripTrimmed` | book_cover.py:103 | `strip` leaves a string without end whitespace unchanged |
| `Text.StripLeadingSpace` | book_cover.py:103 | a leading whitespace character never survives `strip` |
| `Text.StripIdempotent` | book_cover.py:103 | `strip` is idempotent |
| `Text.JoinCons` | book_cover.py:57 | joining a list with a first element gives that element, the separator, then the join of the rest |
| `Text.SplitCons` | book_cover.py:103 | splitting `x + c + rest` with `c` not in `x` gives `x`, then the parts of `rest` |
| `Text.SplitNoSeparator` | book_cover.py:103 | a string without the separator splits into itself alone |
| `Text.SplitJoin` | test.py:20 | splitting a join undoes it, for parts without the separator |
| `Text.JoinSplit` | book_cover.py:103 | joining the parts of a split with the separator rebuilds the string |
| `Text.SplitCount` | test.py:20 | `split` yields one more part than there are separators |
| `Text.SplitMany` | book_cover.py:103 | the separator occurs in a string iff `split` yields more than one part, which is the `"," in isbns` test |
| `Decimal.DigitChar` | test.py:11 | the character written for a digit value is a decimal digit |
| `Decimal.DigitValue` | test.py:21 | a digit's value is below 10 and is written back as the same digit |
| `Decimal.NatToString` | test.py:11 | `str(n)` of a natural is a non-empty run of digits with no leading zero |
| `Decimal.ParseInt` | test.py:21 | `int(text)` succeeds iff the text, with `int()` whitespace removed at both ends, is an optional sign and at least one digit; the value is that of the digits, negated for "-" |
| `Decimal.DigitsValueOfNatToString` | test.py:21 | the digits `str` writes denote the number written |
| `Decimal.IntToStringUnstripped` | test.py:21 | the text of an integer has no whitespace at either end, so `int()` reads all of it |
| `Decimal.ParseIntSpaces` | test.py:21 | `int()` skips surrounding spaces and newlines and takes a sign, but rejects a U+001C separator that `strip()` would remove, and rejects "", "-" and "1 2" |
| `Decimal.LStripInt` | test.py:21 | skipping leading `int()` whitespace never lengthens the text |
| `Decimal.RStripInt` | test.py:21 | skipping trailing `int()` whitespace never lengthens the text |
| `Decimal.IsIntSpace` | test.py:21 | definition: the whitespace `int()` skips, which is ASCII tab to carriage return, space, and the non-ASCII `str.isspace()` characters; no contract of its own |
| `Decimal.StripInt` | test.py:21 | definition: the text with the `int()` whitespace removed at both ends; no contract of its own |
| `Decimal.IntToString` | test.py:11 | definition of `str(n)`: a minus sign for negative values, then the digits; its properties are in `ParseIntToString` and `IntToStringPlain` |
| `Decimal.ParseIntToString` | test.py:21 | round trip: `int(str(n)) == n` for every integer |
| `Decimal.IntToStringPlain` | test.py:11 | the text of an integer holds only digits and "-", so it has no comma and no space |
| `Cars.FromString` | test.py:15-21 | success iff splitting on "," gives exactly four parts and the third is an integer; any other count is an error carrying that count; on success the first, second and fourth parts are kept verbatim and the year is the third part's value |
| `Cars.FromStringToCsv` | test.py:18-21 | round trip: a car whose text fields have no comma is read back exactly from `make,model,year,color` |
| `Cars.FromStringExample` | test.py:18-21 | `from_string("Toyota,Corolla,2018,Red")` gives `Car("Toyota", "Corolla", 2018, "Red")` |
| `Cars.FromStringCommas` | test.py:20 | `from_string` accepts only texts with exactly three commas |
| `Cars.IsValidYearExamples` | test.py:25-43 | 1999 is a valid year and 1700 is not; the range ends at 1886 and 2050, both included |
| `Cars.DisplayInfoFields` | test.py:9-11 | the printed line is year, color, make and model separated by single spaces; for space-free fields it splits back into those four, and the first parses back to the year |

## Left out

- HTTP: the search request, `raise_for_status` and JSON decoding are not modelled. The model starts from the decoded `docs` list, so transport and parse errors are outside it.
- HTTP: the cover `requests.get` is the parameter `fetch`. The `limit` and query parameters only go into the request, so they are not modelled.
- `BookCover.FindCover`: `fetch` is total, so a cover request that raises is not modelled. In the code such an exception ends `find_book_cover`; the search does not move on to the next candidate.
- `Book.push`, the Pushover notification, is not modelled. It is a network side effect with nothing to state.
- Credential loading in `Book.__init__` (`load_dotenv`, `os.getenv`) is not modelled. It is environment input, so `Book` holds only its four fields.
- The IPython `Image` wrapper is not modelled. A cover is its bytes. An `Image` is always truthy, so `if image:` is `Some?`.
- Every `print` is not modelled. That includes the loop over the books in `get_books` and `display_info`'s output. `DisplayInfo` is the line that would be printed.
- Malformed JSON fields are not modelled: an `isbn` or `author_name` list holding non-strings. The model types them as strings. Python's `join` would raise on them.
- A `title` that is not a string is not modelled. The code stores it as it is and `__str__` prints it with `str()`, without raising. The model types `title` as a string.
- JSON `null` for `ia` or `author_name` is not modelled. The model treats such a field as absent, but the code raises `TypeError` when it iterates or joins `None`.
- `Decimal.ParseInt`: models `int()` only as surrounding whitespace, an optional sign and ASCII digits. Underscores between digits and non-ASCII decimal digits, which Python also accepts, are not modelled. Python's 4300-digit limit on integer/text conversion is not modelled either: there `int()` and `str()` raise `ValueError` on huge values.
- `Text.IsSpace`: follows `str.isspace` as of CPython 3.12. Differences between Unicode versions are not modelled.
