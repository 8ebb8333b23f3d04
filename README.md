# Bookstore edge functions: a Dafny model

This project models the two HTTP edge functions of a small bookstore
service, `books` and `authors`. Each function answers only `GET`. It
authenticates a bearer token against an external identity service, then
dispatches on the `action` query parameter. Each action queries the
external relational store (Authors, Books, Countries) and reshapes the rows
in memory. Three actions run a single query. `getAuthorsWithMoreThan5Books`
runs the authors query and then one count query per author:

- `getBooks`: one page of books ordered by publish date.
- `getBooksWithAuthors`: every book with its author and the author's
  country, ordered by price descending, optionally for one year.
- `getAuthorsWithMoreThan5Books`: each author with its book count, kept
  when the count is at least five.
- `getAverageBookPriceByCountry`: book prices grouped by the authors'
  country, with the mean of each group.

The model is pure except for the grouping step, which the source writes as
a `reduce` that mutates a dictionary. That step is a method with a loop and
invariants, proved against specification functions. The identity service
and the store are parameters:

- the verifier is a function `getUser: string -> AuthReply`;
- the books page query is a function from the requested `PageQuery` to a
  result;
- the per-author book count is a function from author id to an optional
  count;
- every other query result is a given `Result` value.

"The verifier is not consulted" is therefore stated as independence: the
answer is the same whatever the verifier (and the store) would say.

Modules, one per file: `Wrappers` (Option, Result), `Builtins` (the
JavaScript built-ins the handlers rely on: `||` on a string or null,
`indexOf`, first-occurrence `replace`, `filter`, a summing `reduce`),
`Http` (request/response shapes, bearer token, the gate both handlers run
first), `Store` (the country join both endpoints read), `Books`, `Authors`.

Where the code does something other than its names or comments suggest, the model follows the code:

- The token is the header with its FIRST occurrence of `"Bearer "` removed
  WHEREVER it occurs, not the value after a leading prefix. So
  `"Token Bearer abc"` yields `"Token abc"`.
- For an unknown action the authors handler returns no `Response` at all.
  It does not return a 200 with an empty body. `HandleAuthors` returns
  `None` there.
- A per-author count query that comes back without a count does not abort
  the request. The count field is null, `null >= 5` is false, and the
  author is dropped. The model's count is `Option<nat>` for this reason.
- The count filter keeps authors with `>= 5` books, exactly as written,
  despite the action's name.

## Model

| member | source | states |
|---|---|---|
| `Builtins.OrElse` | supabase/functions/books/index.ts:37 | the `or` of a string-or-null with a fallback: a non-empty string is kept, and null or the empty string gives the fallback |
| `Builtins.IndexOf` | supabase/functions/books/index.ts:39 | the result is the first index at or after `from` where the pattern occurs; None means no occurrence there |
| `Builtins.ReplaceFirst` | supabase/functions/books/index.ts:39 | without an occurrence the string comes back unchanged; otherwise only the first occurrence is replaced |
| `Builtins.Filter` | supabase/functions/authors/index.ts:72 | `filter` keeps exactly the elements satisfying the predicate and never grows the sequence |
| `Builtins.FilterMultiset` | supabase/functions/books/index.ts:108-110 | a kept element occurs in the result as often as in the input; a dropped one does not occur |
| `Builtins.FilterConcat` | supabase/functions/books/index.ts:108-110 | filtering distributes over concatenation, so relative order is preserved |
| `Builtins.FilterKeepsOrder` | supabase/functions/books/index.ts:108-110 | any order the input has (such as price descending) survives filtering |
| `Builtins.Sum` | supabase/functions/authors/index.ts:109 | the sum of no prices is 0, and the sum of non-negative prices is non-negative |
| `Builtins.SumConcat` | supabase/functions/authors/index.ts:103-109 | summing a concatenated price list adds the sums of its parts |
| `Store.CountryTitle` | supabase/functions/books/index.ts:120 | `country?.title` is present exactly when the country and its title are both present |
| `Http.BearerToken` | supabase/functions/books/index.ts:37-39 | a header without `"Bearer "` is the token unchanged; otherwise the token is the header with its first occurrence cut out; a missing header counts as "" |
| `Http.TokenOfBearerHeader` | supabase/functions/books/index.ts:39 | a header `"Bearer " + t` yields token `t` |
| `Http.TokenWithoutPrefix` | supabase/functions/books/index.ts:37-39 | a header without `"Bearer "` anywhere is passed to the verifier unchanged |
| `Http.TokenOfMissingHeader` | supabase/functions/books/index.ts:37-42 | a missing or empty header gives the empty token |
| `Http.RemovalRestores` | supabase/functions/books/index.ts:39 | cutting a pattern out at an occurrence shortens the string by its length; putting it back there restores the string |
| `Http.TokenRemovesFirstOccurrence` | supabase/functions/books/index.ts:39 | the token is 7 characters shorter than the header; re-inserting `"Bearer "` at the index `indexOf` finds restores the header |
| `Http.TokenStripsInnerPrefix` | supabase/functions/books/index.ts:39 | `"Token Bearer abc"` yields `"Token abc"`: the first occurrence is removed even when it is not at the start |
| `Http.TokenStripsOnlyOnce` | supabase/functions/books/index.ts:39 | `"Bearer Bearer abc"` yields `"Bearer abc"` |
| `Http.Gate` | supabase/functions/books/index.ts:32-49 | 405 iff the method is not GET; 401 iff GET and (empty token or verifier error/no user); admitted iff GET and authenticated |
| `Http.GateSkipsVerifier` | supabase/functions/books/index.ts:32-42 | for a non-GET request or an empty token the request is rejected, whatever the verifier would answer |
| `Http.GateAsksOnlyAboutToken` | supabase/functions/books/index.ts:44-49 | the verdict depends on the verifier only through its reply for the extracted token |
| `Books.PageQueryOf` | supabase/functions/books/index.ts:56-70 | author filter iff `author_id` given and non-empty; ascending iff `sort` is absent, empty or exactly "asc"; first row `(page-1)*limit`; `limit` rows; defaults page 1, limit 10 |
| `Books.DefaultPageIsFirstTen` | supabase/functions/books/index.ts:58-60 | with no page and no limit, rows [0, 9] are requested |
| `Books.SecondPageOfFive` | supabase/functions/books/index.ts:58-70 | page=2, limit=5 requests rows [5, 9] |
| `Books.PagesAdjoin` | supabase/functions/books/index.ts:60-70 | the end of page p plus one is the start of page p+1 |
| `Books.PagesDisjoint` | supabase/functions/books/index.ts:60-70 | for limit at least 1, an earlier page ends before a later page starts |
| `Books.PagesCoverRows` | supabase/functions/books/index.ts:60-70 | for limit at least 1, each row index n lies on exactly one page, page n/limit + 1 |
| `Books.PageHoldsLimitRows` | supabase/functions/books/index.ts:70 | for limit at least 1, the inclusive range is non-empty and holds exactly `limit` rows |
| `Books.CountryLabel` | supabase/functions/books/index.ts:120 | the country title when present and non-empty, otherwise "Unknown" |
| `Books.FormatBook` | supabase/functions/books/index.ts:112-122 | the book's fields and the author's id and name are copied; the country becomes its label |
| `Books.FilterByYear` | supabase/functions/books/index.ts:108-110 | with no year, every book is kept; with a year, exactly the books whose publish year equals it are kept, each as many times as it occurs, and the list never grows |
| `Books.YearFilterConcat` | supabase/functions/books/index.ts:108-110 | the year filter preserves relative order (it distributes over concatenation) |
| `Books.YearFilterKeepsPriceOrder` | supabase/functions/books/index.ts:102-110 | a price-descending input stays price-descending after the year filter |
| `Books.YearFilterExample` | supabase/functions/books/index.ts:108-110 | asking for 2020 keeps a 2020 book and drops a 2019 book, in either order |
| `Books.Reshape` | supabase/functions/books/index.ts:112-122 | one output per kept book, in the same order |
| `Books.BooksWithAuthors` | supabase/functions/books/index.ts:108-122 | never more views than books; without a year, exactly one view per book, in order |
| `Books.BooksWithAuthorsContents` | supabase/functions/books/index.ts:102-122 | a view is in the answer iff it reshapes a book of the requested year (any book without a year); price-descending order survives |
| `Books.HandleBooks` | supabase/functions/books/index.ts:30-132 | 405/401/404/500 each exactly under their conditions; a 200 carries the page the store returned for `PageQueryOf`, or the filtered and reshaped books |
| `Books.BooksRejectsBeforeVerifier` | supabase/functions/books/index.ts:32-42 | non-GET gives 405 and an empty token gives 401, whatever the verifier or the store would say |
| `Books.UnknownActionIsNotFound` | supabase/functions/books/index.ts:130 | an authenticated request with an unknown action gets 404 "Action not found" |
| `Authors.HasAtLeastFiveBooks` | supabase/functions/authors/index.ts:72 | kept iff the count is present and above 4; a count of exactly 5 is kept |
| `Authors.WithBookCount` | supabase/functions/authors/index.ts:60-67 | an author keeps its id and name and gains the count the store reports for that id |
| `Authors.AttachCounts` | supabase/functions/authors/index.ts:60-69 | one counted author per author, in the same order |
| `Authors.AuthorsWithMoreThan5Books` | supabase/functions/authors/index.ts:60-72 | the result holds exactly the counted authors with a count of at least 5 |
| `Authors.ProlificAuthorsConcat` | supabase/functions/authors/index.ts:72 | kept authors stay in their original order |
| `Authors.ThresholdIsInclusive` | supabase/functions/authors/index.ts:72 | an author with 5 books is kept; one with 4 and one with a null count are dropped |
| `Authors.CountryKeyOf` | supabase/functions/authors/index.ts:96 | the dictionary key is the author's country title, None when the country or its title is missing |
| `Authors.PricesOf` | supabase/functions/authors/index.ts:97 | the author's book prices, empty when the books list is null |
| `Authors.CountryOrderMembers` | supabase/functions/authors/index.ts:97-104 | a country key is in the dictionary iff one of its authors has at least one price |
| `Authors.CountryOrderDistinct` | supabase/functions/authors/index.ts:100-102 | a country's list is created only once, so no key repeats |
| `Authors.CountryPricesNonEmpty` | supabase/functions/authors/index.ts:99-104 | a country's price list is non-empty iff the country is a key; authors without prices add nothing |
| `Authors.CountryPricesConcat` | supabase/functions/authors/index.ts:103 | a country's price list is the concatenation of its authors' prices in author order |
| `Authors.GroupedStep` | supabase/functions/authors/index.ts:96-105 | one reduce step: an author with prices appends them to its country's list, creating the list first if needed; an author without prices changes nothing |
| `Authors.GroupPricesByCountry` | supabase/functions/authors/index.ts:95-106 | the loop builds exactly the specified key order and dictionary |
| `Authors.Mean` | supabase/functions/authors/index.ts:109 | defined iff the list is non-empty; the mean times the length is the sum |
| `Authors.AveragePrices` | supabase/functions/authors/index.ts:108-111 | one entry per key, in key order, holding that key's mean |
| `Authors.AverageBookPriceByCountry` | supabase/functions/authors/index.ts:95-111 | one entry per grouped country, each entry naming the country at its position in first-encounter order |
| `Authors.AverageBookPriceByCountryMeaning` | supabase/functions/authors/index.ts:95-111 | one entry per country in first-encounter order; each entry holds the mean of all that country's prices, over a non-empty list, so it is defined |
| `Authors.AverageExample` | supabase/functions/authors/index.ts:95-111 | authors in "X" with prices [10, 20] and [30] give "X" the average 20 |
| `Authors.HandleAuthors` | supabase/functions/authors/index.ts:22-119 | 405/401/500 each exactly under their conditions; no response iff admitted with an unknown action; a 200 carries the kept authors or the country averages |
| `Authors.AuthorsRejectsBeforeVerifier` | supabase/functions/authors/index.ts:24-41 | non-GET gives 405 and an empty token gives 401, whatever the verifier or the store would say |

## Left out

- Supabase client construction and the environment variables. They are foreign library calls and configuration.
- The query builder's semantics (`from/select/eq/order/range`, joins, count queries). Query results are inputs. `PageQuery` records what `getBooks` asks for (author filter, direction, inclusive range). The store's price-descending order is a hypothesis of the order lemmas.
- `Deno.serve`, the `Request`/`Response` objects, URL parsing, case-insensitive header lookup, the Content-Type header and `JSON.stringify`. These are HTTP and serialisation plumbing. What the runtime does when the authors handler returns nothing is not part of this model.
- The contents of the verified user. They never reach the actions.
- `Promise.all` concurrency in the count fan-out. A count query that rejects instead of resolving (which would abort the whole request) is not modelled; a count that resolves without a value is.
- `new Date(...).getFullYear()`. It is time-zone dependent date parsing, modelled as the given function `yearOf` (None for an unparsable date, which never matches).
- `parseInt`. Numeric parameters arrive already parsed, with None meaning absent or empty. NaN and partial parses of non-numeric text are not modelled.
- Floating point. Prices and averages are reals. `Mean` gives None where JavaScript would compute 0/0, which grouping never produces.
- JavaScript object-key coercion. A missing country and a country with a null title are both the key None, whereas JavaScript uses the distinct keys "undefined" and "null", and merges them with literal titles "undefined"/"null". Integer-like keys, which JavaScript enumerates first, are kept in first-encounter order like all others.
- `GroupPricesByCountry`: a country title naming an inherited object member (`constructor`, `toString`, `valueOf`, `hasOwnProperty`, `__proto__`) makes the source throw when it pushes onto `acc[country]`. The model groups such titles like any other, because it has no prototype chain.
- `PageQueryOf`: page, limit and the range bounds are JavaScript doubles, exact only up to 2^53. The model uses unbounded integers, so rounding of huge pages or limits is not modelled.
- A book whose author join is null, which would make the reshape throw. Join rows always carry an author.
