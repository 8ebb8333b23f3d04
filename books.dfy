/** The books endpoint: after the shared gate, `getBooks` lists one page of
    books ordered by publish date, `getBooksWithAuthors` lists every book
    with its author and the author's country, optionally for one year, and
    any other action is answered with 404. */
module Books {
  import opened Wrappers
  import opened Builtins
  import opened Http
  import opened Store

  /** A row of the Books table as `getBooks` selects it. */
  datatype BookRow = BookRow(bookId: int, title: string, authorId: int, price: real, publishDate: string)

  /** The endpoint's query parameters besides `action`. The numeric ones are
      given already parsed, None standing for absent or empty (both fall back
      to the default); `sort` is the raw string. */
  datatype BooksParams = BooksParams(
    authorId: Option<int>,
    sort: Option<string>,
    page: Option<int>,
    limit: Option<int>,
    year: Option<int>)

  const DefaultPage := 1
  const DefaultLimit := 10
  const DefaultSort := "asc"

  /** What `getBooks` asks the store for: an optional author filter, the
      direction of the publish-date ordering, and the inclusive row range. */
  datatype PageQuery = PageQuery(authorFilter: Option<int>, ascending: bool, first: int, last: int)

  /** First row of a page: `(page - 1) * limit`. */
  function RangeStart(page: int, limit: int): (first: int) {
    (page - 1) * limit
  }

  /** Last row of a page, inclusive: `offset + limit - 1`. */
  function RangeEnd(page: int, limit: int): (last: int) {
    RangeStart(page, limit) + limit - 1
  }

  /** The query `getBooks` builds from its parameters. */
  function PageQueryOf(p: BooksParams): (q: PageQuery)
    ensures q.authorFilter == p.authorId
    ensures q.ascending <==> p.sort.None? || p.sort == Some("") || p.sort == Some("asc")
    ensures q.first == (p.page.GetOr(DefaultPage) - 1) * p.limit.GetOr(DefaultLimit)
    ensures q.last - q.first + 1 == p.limit.GetOr(DefaultLimit)
  {
    var page := p.page.GetOr(DefaultPage);
    var limit := p.limit.GetOr(DefaultLimit);
    PageQuery(p.authorId, OrElse(p.sort, DefaultSort) == "asc", RangeStart(page, limit), RangeEnd(page, limit))
  }

  /** With no page and no limit the first ten rows, [0, 9], are requested. */
  lemma DefaultPageIsFirstTen(p: BooksParams)
    requires p.page.None? && p.limit.None?
    ensures PageQueryOf(p).first == 0 && PageQueryOf(p).last == 9
  {
  }

  /** page=2, limit=5 requests rows [5, 9]. */
  lemma SecondPageOfFive(p: BooksParams)
    requires p.page == Some(2) && p.limit == Some(5)
    ensures PageQueryOf(p).first == 5 && PageQueryOf(p).last == 9
  {
  }

  /** Consecutive pages adjoin: the row after the end of page `page` is the
      start of page `page + 1`. */
  lemma {:induction false} PagesAdjoin(page: int, limit: int)
    ensures RangeEnd(page, limit) + 1 == RangeStart(page + 1, limit)
  {
    assert (page + 1 - 1) * limit == (page - 1) * limit + limit;
  }

  /** For a positive limit, an earlier page ends before a later one starts. */
  lemma {:induction false} PagesDisjoint(p1: int, p2: int, limit: int)
    requires limit >= 1 && p1 < p2
    ensures RangeEnd(p1, limit) < RangeStart(p2, limit)
    decreases p2 - p1
  {
    PagesAdjoin(p2 - 1, limit);
    if p1 < p2 - 1 {
      PagesDisjoint(p1, p2 - 1, limit);
    }
  }

  /** For a positive limit, every row index n >= 0 lies on exactly one page
      numbered from 1, the page n / limit + 1. */
  lemma {:induction false} PagesCoverRows(n: nat, limit: int)
    requires limit >= 1
    ensures RangeStart(n / limit + 1, limit) <= n <= RangeEnd(n / limit + 1, limit)
    ensures forall page :: RangeStart(page, limit) <= n <= RangeEnd(page, limit) ==> page == n / limit + 1
  {
    var q := n / limit;
    assert RangeStart(q + 1, limit) == q * limit;
    assert q * limit <= n < q * limit + limit;
    forall page | RangeStart(page, limit) <= n <= RangeEnd(page, limit)
      ensures page == q + 1
    {
      if page < q + 1 {
        PagesDisjoint(page, q + 1, limit);
      } else if page > q + 1 {
        PagesDisjoint(q + 1, page, limit);
      }
    }
  }

  /** For a positive limit the requested range holds exactly `limit` rows. */
  lemma PageHoldsLimitRows(p: BooksParams)
    requires p.limit.GetOr(DefaultLimit) >= 1
    ensures PageQueryOf(p).first <= PageQueryOf(p).last
    ensures PageQueryOf(p).last - PageQueryOf(p).first + 1 == p.limit.GetOr(DefaultLimit)
  {
  }

  /** The author joined to a book by `getBooksWithAuthors`. */
  datatype AuthorJoin = AuthorJoin(authorId: int, name: string, country: Option<CountryRef>)

  /** A row of the price-ordered books-with-authors query. */
  datatype BookWithAuthor = BookWithAuthor(bookId: int, title: string, price: real, publishDate: string, author: AuthorJoin)

  /** The author part of the reshaped output, with the country flattened to a title. */
  datatype AuthorView = AuthorView(authorId: int, name: string, country: string)

  /** One element of the `getBooksWithAuthors` response. */
  datatype BookView = BookView(bookId: int, title: string, price: real, publishDate: string, author: AuthorView)

  const UnknownCountry := "Unknown"

  /** `country?.title || "Unknown"`: the title when there is a non-empty one. */
  function CountryLabel(country: Option<CountryRef>): (name: string)
    ensures CountryTitle(country).Some? && CountryTitle(country).value != "" ==> name == CountryTitle(country).value
    ensures CountryTitle(country).None? || CountryTitle(country).value == "" ==> name == UnknownCountry
  {
    OrElse(CountryTitle(country), UnknownCountry)
  }

  /** The reshape of one book: its own fields and its author's id and name
      copied, the country replaced by its label. */
  function FormatBook(b: BookWithAuthor): (v: BookView)
    ensures v.bookId == b.bookId && v.title == b.title && v.price == b.price && v.publishDate == b.publishDate
    ensures v.author.authorId == b.author.authorId && v.author.name == b.author.name
    ensures v.author.country == CountryLabel(b.author.country)
  {
    BookView(b.bookId, b.title, b.price, b.publishDate,
      AuthorView(b.author.authorId, b.author.name, CountryLabel(b.author.country)))
  }

  /** The book was published in the requested year, per the date-to-year
      reading `yearOf` (None for a date that does not parse). */
  predicate InYear(b: BookWithAuthor, year: int, yearOf: string -> Option<int>) {
    yearOf(b.publishDate) == Some(year)
  }

  /** The year filter: every book when no year is given, else those of that year. */
  function FilterByYear(books: seq<BookWithAuthor>, year: Option<int>, yearOf: string -> Option<int>): (r: seq<BookWithAuthor>)
    ensures year.None? ==> r == books
    ensures |r| <= |books|
    ensures forall b :: b in r <==> b in books && (year.None? || InYear(b, year.value, yearOf))
    ensures forall b :: multiset(r)[b] == if year.None? || InYear(b, year.value, yearOf) then multiset(books)[b] else 0
  {
    match year
    case None => books
    case Some(y) =>
      FilterMultiset(books, b => InYear(b, y, yearOf));
      Filter(books, b => InYear(b, y, yearOf))
  }

  /** The filter preserves relative order: filtering a concatenation is
      concatenating the filtered parts. */
  lemma YearFilterConcat(a: seq<BookWithAuthor>, b: seq<BookWithAuthor>, year: Option<int>, yearOf: string -> Option<int>)
    ensures FilterByYear(a + b, year, yearOf) == FilterByYear(a, year, yearOf) + FilterByYear(b, year, yearOf)
  {
    if year.Some? {
      FilterConcat(a, b, b => InYear(b, year.value, yearOf));
    }
  }

  /** Price-descending order, as the store returns the joined books. */
  ghost predicate PriceDescending(books: seq<BookWithAuthor>) {
    forall i, j :: 0 <= i < j < |books| ==> books[i].price >= books[j].price
  }

  /** Filtering a price-descending list leaves it price-descending. */
  lemma YearFilterKeepsPriceOrder(books: seq<BookWithAuthor>, year: Option<int>, yearOf: string -> Option<int>)
    requires PriceDescending(books)
    ensures PriceDescending(FilterByYear(books, year, yearOf))
  {
    if year.Some? {
      var before := (x: BookWithAuthor, y: BookWithAuthor) => x.price >= y.price;
      assert OrderedBy(books, before);
      FilterKeepsOrder(books, b => InYear(b, year.value, yearOf), before);
    }
  }

  /** A 2020 book is kept and a 2019 book dropped when asking for 2020. */
  lemma YearFilterExample(b2020: BookWithAuthor, b2019: BookWithAuthor, yearOf: string -> Option<int>)
    requires yearOf(b2020.publishDate) == Some(2020) && yearOf(b2019.publishDate) == Some(2019)
    ensures FilterByYear([b2020, b2019], Some(2020), yearOf) == [b2020]
    ensures FilterByYear([b2019, b2020], Some(2020), yearOf) == [b2020]
  {
    var keep := b => InYear(b, 2020, yearOf);
    assert [b2020, b2019][1..] == [b2019];
    assert [b2019, b2020][1..] == [b2020];
    assert [b2019][1..] == [] && [b2020][1..] == [];
    assert Filter([b2019], keep) == [] + Filter([], keep);
    assert Filter([b2020], keep) == [b2020] + Filter([], keep);
  }

  /** The reshape of a list: one view per book, in the same order. */
  function Reshape(books: seq<BookWithAuthor>): (r: seq<BookView>)
    ensures |r| == |books|
    ensures forall i :: 0 <= i < |books| ==> r[i] == FormatBook(books[i])
  {
    seq(|books|, i requires 0 <= i < |books| => FormatBook(books[i]))
  }

  /** What `getBooksWithAuthors` answers for the store's rows. */
  function BooksWithAuthors(books: seq<BookWithAuthor>, year: Option<int>, yearOf: string -> Option<int>): (r: seq<BookView>)
    ensures |r| <= |books|
    ensures year.None? ==> |r| == |books| && forall i :: 0 <= i < |books| ==> r[i] == FormatBook(books[i])
  {
    Reshape(FilterByYear(books, year, yearOf))
  }

  /** A view is in the answer exactly when it is the reshape of a book of
      the requested year (any book when no year is given), and price order
      survives both the filter and the reshape. */
  lemma {:induction false} BooksWithAuthorsContents(books: seq<BookWithAuthor>, year: Option<int>, yearOf: string -> Option<int>)
    ensures forall v :: v in BooksWithAuthors(books, year, yearOf) <==>
      exists b :: b in books && (year.None? || InYear(b, year.value, yearOf)) && v == FormatBook(b)
    ensures PriceDescending(books) ==>
      forall i, j :: 0 <= i < j < |BooksWithAuthors(books, year, yearOf)| ==>
        BooksWithAuthors(books, year, yearOf)[i].price >= BooksWithAuthors(books, year, yearOf)[j].price
  {
    var kept := FilterByYear(books, year, yearOf);
    var r := BooksWithAuthors(books, year, yearOf);
    forall v ensures v in r <==> exists b :: b in books && (year.None? || InYear(b, year.value, yearOf)) && v == FormatBook(b) {
      if v in r {
        var i :| 0 <= i < |r| && r[i] == v;
        assert kept[i] in kept;
      }
      if exists b :: b in books && (year.None? || InYear(b, year.value, yearOf)) && v == FormatBook(b) {
        var b :| b in books && (year.None? || InYear(b, year.value, yearOf)) && v == FormatBook(b);
        var i :| 0 <= i < |kept| && kept[i] == b;
        assert r[i] == v;
      }
    }
    if PriceDescending(books) {
      YearFilterKeepsPriceOrder(books, year, yearOf);
    }
  }

  /** The books endpoint's payloads. */
  datatype BooksJson = Page(books: seq<BookRow>) | WithAuthors(views: seq<BookView>)

  /** The store as the books endpoint sees it: the page query it runs, and
      the fixed books-with-authors query ordered by price descending. */
  datatype BooksStore = BooksStore(
    listBooks: PageQuery -> Result<seq<BookRow>, string>,
    booksByPriceDesc: Result<seq<BookWithAuthor>, string>)

  const GetBooks := "getBooks"
  const GetBooksWithAuthors := "getBooksWithAuthors"

  /** The books request handler. */
  function HandleBooks(req: Request<BooksParams>, getUser: string -> AuthReply, store: BooksStore,
                       yearOf: string -> Option<int>): (r: Response<BooksJson>)
    ensures r.status == 405 <==> req.verb != "GET"
    ensures r.status == 401 <==> req.verb == "GET" && !Authenticated(req.authorization, getUser)
    ensures r.status == 404 <==>
      && Gate(req.verb, req.authorization, getUser) == Admit
      && req.action != Some(GetBooks) && req.action != Some(GetBooksWithAuthors)
    ensures r.status == 500 <==>
      && Gate(req.verb, req.authorization, getUser) == Admit
      && ((req.action == Some(GetBooks) && store.listBooks(PageQueryOf(req.params)).Failure?)
       || (req.action == Some(GetBooksWithAuthors) && store.booksByPriceDesc.Failure?))
    ensures r.status == 200 && req.action == Some(GetBooks) ==>
      r.body == Json(Page(store.listBooks(PageQueryOf(req.params)).value))
    ensures r.status == 200 && req.action == Some(GetBooksWithAuthors) ==>
      r.body == Json(WithAuthors(BooksWithAuthors(store.booksByPriceDesc.value, req.params.year, yearOf)))
    ensures r.status in {200, 401, 404, 405, 500}
  {
    match Gate(req.verb, req.authorization, getUser)
    case Reject(status, message) => Response(status, Text(message))
    case Admit =>
      if req.action == Some(GetBooks) then
        match store.listBooks(PageQueryOf(req.params))
        case Failure(_) => Response(500, Text("Error fetching books"))
        case Success(books) => Response(200, Json(Page(books)))
      else if req.action == Some(GetBooksWithAuthors) then
        match store.booksByPriceDesc
        case Failure(_) => Response(500, Text("Error fetching books with authors"))
        case Success(books) => Response(200, Json(WithAuthors(BooksWithAuthors(books, req.params.year, yearOf))))
      else
        Response(404, Text("Action not found"))
  }

  /** Before authentication succeeds nothing else is consulted: a non-GET
      request, or one whose token is empty, gets the same answer whatever
      the verifier and the store would say. */
  lemma BooksRejectsBeforeVerifier(req: Request<BooksParams>, v1: string -> AuthReply, v2: string -> AuthReply,
                                   s1: BooksStore, s2: BooksStore, yearOf: string -> Option<int>)
    requires req.verb != "GET" || BearerToken(req.authorization) == ""
    ensures HandleBooks(req, v1, s1, yearOf) == HandleBooks(req, v2, s2, yearOf)
    ensures HandleBooks(req, v1, s1, yearOf).status == (if req.verb != "GET" then 405 else 401)
  {
    GateSkipsVerifier(req.verb, req.authorization, v1, v2);
  }

  /** An unknown action on an authenticated request is answered with 404
      "Action not found", whatever the store holds. */
  lemma UnknownActionIsNotFound(req: Request<BooksParams>, getUser: string -> AuthReply, store: BooksStore,
                                yearOf: string -> Option<int>)
    requires req.verb == "GET" && Authenticated(req.authorization, getUser)
    requires req.action != Some(GetBooks) && req.action != Some(GetBooksWithAuthors)
    ensures HandleBooks(req, getUser, store, yearOf) == Response(404, Text("Action not found"))
  {
  }
}
