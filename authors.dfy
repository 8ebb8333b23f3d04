/** The authors endpoint: after the shared gate,
    `getAuthorsWithMoreThan5Books` attaches each author's book count and
    keeps those with at least five books, `getAverageBookPriceByCountry`
    groups book prices by the authors' country and averages each group, and
    any other action returns no response at all. */
module Authors {
  import opened Wrappers
  import opened Builtins
  import opened Http
  import opened Store

  /** An author as `select("author_id, name")` returns it. */
  datatype AuthorRow = AuthorRow(authorId: int, name: string)

  /** `{ ...author, book_count: count }`; the count is null (None) when the
      count query produced none. */
  datatype CountedAuthor = CountedAuthor(authorId: int, name: string, bookCount: Option<nat>)

  /** The threshold of the book-count filter, compared with `>=`. */
  const MinBooks := 5

  /** One author with the count the store reports for its id. */
  function WithBookCount(a: AuthorRow, bookCount: int -> Option<nat>): (c: CountedAuthor)
    ensures c.authorId == a.authorId && c.name == a.name
    ensures c.bookCount == bookCount(a.authorId)
  {
    CountedAuthor(a.authorId, a.name, bookCount(a.authorId))
  }

  /** The count fan-out: every author, in order, with its count attached. */
  function AttachCounts(authors: seq<AuthorRow>, bookCount: int -> Option<nat>): (r: seq<CountedAuthor>)
    ensures |r| == |authors|
    ensures forall i :: 0 <= i < |authors| ==> r[i] == WithBookCount(authors[i], bookCount)
  {
    seq(|authors|, i requires 0 <= i < |authors| => WithBookCount(authors[i], bookCount))
  }

  /** `author.book_count >= 5`; a null count compares false. */
  predicate HasAtLeastFiveBooks(c: CountedAuthor)
    ensures HasAtLeastFiveBooks(c) <==> c.bookCount.Some? && c.bookCount.value > 4
    ensures c.bookCount == Some(5) ==> HasAtLeastFiveBooks(c)
  {
    c.bookCount.Some? && c.bookCount.value >= MinBooks
  }

  /** What `getAuthorsWithMoreThan5Books` answers for the store's authors. */
  function AuthorsWithMoreThan5Books(authors: seq<AuthorRow>, bookCount: int -> Option<nat>): (r: seq<CountedAuthor>)
    ensures |r| <= |authors|
    ensures forall c :: c in r ==> HasAtLeastFiveBooks(c)
    ensures forall c :: c in r <==>
      exists i :: 0 <= i < |authors| && c == WithBookCount(authors[i], bookCount) && HasAtLeastFiveBooks(c)
  {
    var counted := AttachCounts(authors, bookCount);
    assert forall c :: c in counted <==> exists i :: 0 <= i < |authors| && c == WithBookCount(authors[i], bookCount) by {
      forall c | c in counted ensures exists i :: 0 <= i < |authors| && c == WithBookCount(authors[i], bookCount) {
        var i :| 0 <= i < |counted| && counted[i] == c;
      }
    }
    Filter(counted, HasAtLeastFiveBooks)
  }

  /** The kept authors keep their input order: the answer for a
      concatenation is the concatenation of the answers. */
  lemma ProlificAuthorsConcat(a: seq<AuthorRow>, b: seq<AuthorRow>, bookCount: int -> Option<nat>)
    ensures AuthorsWithMoreThan5Books(a + b, bookCount) == AuthorsWithMoreThan5Books(a, bookCount) + AuthorsWithMoreThan5Books(b, bookCount)
  {
    assert AttachCounts(a + b, bookCount) == AttachCounts(a, bookCount) + AttachCounts(b, bookCount);
    FilterConcat(AttachCounts(a, bookCount), AttachCounts(b, bookCount), HasAtLeastFiveBooks);
  }

  /** The boundary is inclusive: an author with exactly five books is kept,
      one with four is dropped, and so is one whose count is null. */
  lemma ThresholdIsInclusive(five: AuthorRow, four: AuthorRow, unknown: AuthorRow, bookCount: int -> Option<nat>)
    requires bookCount(five.authorId) == Some(5)
    requires bookCount(four.authorId) == Some(4)
    requires bookCount(unknown.authorId) == None
    ensures AuthorsWithMoreThan5Books([four, five, unknown], bookCount) == [WithBookCount(five, bookCount)]
  {
    var counted := AttachCounts([four, five, unknown], bookCount);
    assert counted == [WithBookCount(four, bookCount)] + [WithBookCount(five, bookCount)] + [WithBookCount(unknown, bookCount)];
    FilterConcat([WithBookCount(four, bookCount)] + [WithBookCount(five, bookCount)], [WithBookCount(unknown, bookCount)], HasAtLeastFiveBooks);
    FilterConcat([WithBookCount(four, bookCount)], [WithBookCount(five, bookCount)], HasAtLeastFiveBooks);
  }

  /** An author as the averaging query returns it: its country join and
      the prices of its books (the books relation may be null). */
  datatype AuthorWithBooks = AuthorWithBooks(authorId: int, country: Option<CountryRef>, books: Option<seq<real>>)

  /** The grouping key, `author.country?.title`: None for an author without
      a country title. */
  type CountryKey = Option<string>

  function CountryKeyOf(a: AuthorWithBooks): (k: CountryKey)
    ensures k.Some? <==> a.country.Some? && a.country.value.title.Some?
    ensures k.Some? ==> k.value == a.country.value.title.value
  {
    CountryTitle(a.country)
  }

  /** `author.Books?.map(book => book.price) || []`. */
  function PricesOf(a: AuthorWithBooks): (prices: seq<real>)
    ensures a.books.None? ==> prices == []
    ensures a.books.Some? ==> prices == a.books.value
  {
    match a.books
    case None => []
    case Some(prices) => prices
  }

  /** The author adds at least one price to its country's group. */
  predicate Contributes(a: AuthorWithBooks) {
    |PricesOf(a)| > 0
  }

  /** The countries in the order the grouping first meets a contributing
      author of theirs. */
  function CountryOrder(authors: seq<AuthorWithBooks>): (order: seq<CountryKey>)
    ensures |order| <= |authors|
    decreases |authors|
  {
    if authors == [] then []
    else
      var order := CountryOrder(authors[..|authors| - 1]);
      var last := authors[|authors| - 1];
      if Contributes(last) && CountryKeyOf(last) !in order then order + [CountryKeyOf(last)] else order
  }

  /** All prices of the authors with key `k`, concatenated in author order. */
  function CountryPrices(authors: seq<AuthorWithBooks>, k: CountryKey): (prices: seq<real>)
    decreases |authors|
  {
    if authors == [] then []
    else
      var last := authors[|authors| - 1];
      CountryPrices(authors[..|authors| - 1], k) + (if CountryKeyOf(last) == k then PricesOf(last) else [])
  }

  /** The dictionary the grouping builds: each country in CountryOrder with its prices. */
  function Grouped(authors: seq<AuthorWithBooks>): (groups: map<CountryKey, seq<real>>) {
    map k | k in CountryOrder(authors) :: CountryPrices(authors, k)
  }

  /** A country is in the order exactly when one of its authors has a price. */
  lemma {:induction false} CountryOrderMembers(authors: seq<AuthorWithBooks>, k: CountryKey)
    ensures k in CountryOrder(authors) <==>
      exists i :: 0 <= i < |authors| && CountryKeyOf(authors[i]) == k && Contributes(authors[i])
    decreases |authors|
  {
    if authors != [] {
      var pre := authors[..|authors| - 1];
      CountryOrderMembers(pre, k);
      if exists i :: 0 <= i < |pre| && CountryKeyOf(pre[i]) == k && Contributes(pre[i]) {
        var i :| 0 <= i < |pre| && CountryKeyOf(pre[i]) == k && Contributes(pre[i]);
        assert authors[i] == pre[i];
      }
      if exists i :: 0 <= i < |authors| && CountryKeyOf(authors[i]) == k && Contributes(authors[i]) {
        var i :| 0 <= i < |authors| && CountryKeyOf(authors[i]) == k && Contributes(authors[i]);
        if i < |pre| {
          assert pre[i] == authors[i];
        }
      }
    }
  }

  /** No country appears twice in the order. */
  lemma {:induction false} CountryOrderDistinct(authors: seq<AuthorWithBooks>)
    ensures forall i, j :: 0 <= i < j < |CountryOrder(authors)| ==> CountryOrder(authors)[i] != CountryOrder(authors)[j]
    decreases |authors|
  {
    if authors != [] {
      CountryOrderDistinct(authors[..|authors| - 1]);
    }
  }

  /** A country's price list is non-empty exactly when the country is in
      the order: authors without prices add nothing. */
  lemma {:induction false} CountryPricesNonEmpty(authors: seq<AuthorWithBooks>, k: CountryKey)
    ensures |CountryPrices(authors, k)| > 0 <==> k in CountryOrder(authors)
    decreases |authors|
  {
    if authors != [] {
      CountryPricesNonEmpty(authors[..|authors| - 1], k);
    }
  }

  /** Grouping a concatenation concatenates each country's prices, so a
      country's list is its authors' prices in author order. */
  lemma {:induction false} CountryPricesConcat(a: seq<AuthorWithBooks>, b: seq<AuthorWithBooks>, k: CountryKey)
    ensures CountryPrices(a + b, k) == CountryPrices(a, k) + CountryPrices(b, k)
    decreases |b|
  {
    if b == [] {
      assert a + b == a;
    } else {
      var b' := b[..|b| - 1];
      assert (a + b)[..|a + b| - 1] == a + b';
      assert (a + b)[|a + b| - 1] == b[|b| - 1];
      CountryPricesConcat(a, b', k);
    }
  }

  /** One step of the grouping: an author with prices appends them to its
      country's list, creating the list on first sight; an author without
      prices leaves the dictionary as it was. */
  lemma GroupedStep(pre: seq<AuthorWithBooks>, a: AuthorWithBooks)
    ensures Contributes(a) ==>
      var g := Grouped(pre);
      var k := CountryKeyOf(a);
      Grouped(pre + [a]) == g[k := (if k in g then g[k] else []) + PricesOf(a)]
    ensures !Contributes(a) ==> Grouped(pre + [a]) == Grouped(pre)
  {
    var full := pre + [a];
    assert full[..|full| - 1] == pre;
    var g := Grouped(pre);
    var k := CountryKeyOf(a);
    if Contributes(a) {
      var expected := g[k := (if k in g then g[k] else []) + PricesOf(a)];
      if k !in g {
        CountryPricesNonEmpty(pre, k);
      }
      assert Grouped(full).Keys == expected.Keys;
      forall k' | k' in expected ensures Grouped(full)[k'] == expected[k'] {
      }
    } else {
      assert CountryOrder(full) == CountryOrder(pre);
      forall k' | k' in g ensures CountryPrices(full, k') == g[k'] {
        assert CountryPrices(full, k') == CountryPrices(pre, k') + [];
      }
    }
  }

  /** The grouping `reduce`: one pass over the authors that, for each author
      with prices, creates its country's list on first sight and appends
      the prices to it. */
  method GroupPricesByCountry(authors: seq<AuthorWithBooks>) returns (order: seq<CountryKey>, groups: map<CountryKey, seq<real>>)
    ensures order == CountryOrder(authors)
    ensures groups == Grouped(authors)
  {
    order, groups := [], map[];
    for i := 0 to |authors|
      invariant order == CountryOrder(authors[..i])
      invariant groups == Grouped(authors[..i])
    {
      var pre := authors[..i];
      var a := authors[i];
      assert authors[..i + 1] == pre + [a];
      assert (pre + [a])[..|pre + [a]| - 1] == pre;
      GroupedStep(pre, a);
      var prices := PricesOf(a);
      if |prices| > 0 {
        var k := CountryKeyOf(a);
        if k !in groups {
          groups := groups[k := []];
          order := order + [k];
        }
        groups := groups[k := groups[k] + prices];
      }
    }
    assert authors[..|authors|] == authors;
  }

  /** One element of the averaging response; the average is None where
      JavaScript would compute 0 / 0. */
  datatype CountryAverage = CountryAverage(country: CountryKey, averagePrice: Option<real>)

  /** `prices.reduce((sum, p) => sum + p, 0) / prices.length`. */
  function Mean(prices: seq<real>): (m: Option<real>)
    ensures m.Some? <==> |prices| > 0
    ensures m.Some? ==> m.value * (|prices| as real) == Sum(prices)
  {
    if |prices| == 0 then None else Some(Sum(prices) / (|prices| as real))
  }

  /** `Object.entries(groups).map(...)`: one average per country, in the
      dictionary's key order. */
  function AveragePrices(order: seq<CountryKey>, groups: map<CountryKey, seq<real>>): (r: seq<CountryAverage>)
    requires forall k :: k in order ==> k in groups
    ensures |r| == |order|
    ensures forall i :: 0 <= i < |order| ==> r[i].country == order[i] && r[i].averagePrice == Mean(groups[order[i]])
  {
    seq(|order|, i requires 0 <= i < |order| => CountryAverage(order[i], Mean(groups[order[i]])))
  }

  /** What `getAverageBookPriceByCountry` answers for the store's rows. */
  function AverageBookPriceByCountry(authors: seq<AuthorWithBooks>): (r: seq<CountryAverage>)
    ensures |r| == |CountryOrder(authors)|
    ensures forall i :: 0 <= i < |r| ==> r[i].country == CountryOrder(authors)[i]
  {
    AveragePrices(CountryOrder(authors), Grouped(authors))
  }

  /** The answer has one entry per country of CountryOrder (so each country
      with a priced book exactly once, in first-encounter order), and each
      entry holds the mean of all that country's prices, over a non-empty
      list, so the mean is defined. */
  lemma AverageBookPriceByCountryMeaning(authors: seq<AuthorWithBooks>)
    ensures |AverageBookPriceByCountry(authors)| == |CountryOrder(authors)|
    ensures forall i :: 0 <= i < |CountryOrder(authors)| ==>
      && AverageBookPriceByCountry(authors)[i].country == CountryOrder(authors)[i]
      && |CountryPrices(authors, CountryOrder(authors)[i])| > 0
      && AverageBookPriceByCountry(authors)[i].averagePrice == Mean(CountryPrices(authors, CountryOrder(authors)[i]))
  {
    var order := CountryOrder(authors);
    var groups := Grouped(authors);
    forall i | 0 <= i < |order|
      ensures |CountryPrices(authors, order[i])| > 0
      ensures groups[order[i]] == CountryPrices(authors, order[i])
    {
      assert order[i] in order;
      CountryPricesNonEmpty(authors, order[i]);
    }
  }

  /** Authors in "X" with prices [10, 20] and [30] give "X" the average 20. */
  lemma AverageExample()
    ensures AverageBookPriceByCountry([
      AuthorWithBooks(1, Some(CountryRef(Some("X"))), Some([10.0, 20.0])),
      AuthorWithBooks(2, Some(CountryRef(Some("X"))), Some([30.0]))]) == [CountryAverage(Some("X"), Some(20.0))]
  {
    var a1 := AuthorWithBooks(1, Some(CountryRef(Some("X"))), Some([10.0, 20.0]));
    var a2 := AuthorWithBooks(2, Some(CountryRef(Some("X"))), Some([30.0]));
    var authors := [a1, a2];
    assert authors[..1] == [a1];
    assert [a1][..0] == [];
    assert CountryOrder([a1]) == [Some("X")];
    assert CountryOrder(authors) == [Some("X")];
    assert CountryPrices([a1], Some("X")) == [10.0, 20.0];
    assert CountryPrices(authors, Some("X")) == [10.0, 20.0, 30.0];
    assert [10.0, 20.0, 30.0][..2] == [10.0, 20.0];
    assert [10.0, 20.0][..1] == [10.0];
    assert [10.0][..0] == [];
    assert Sum([10.0, 20.0, 30.0]) == 60.0;
  }

  /** The authors endpoint's payloads. */
  datatype AuthorsJson = Prolific(authors: seq<CountedAuthor>) | Averages(averages: seq<CountryAverage>)

  /** The store as the authors endpoint sees it: the authors list, the
      per-author book count, and the authors joined with country and prices. */
  datatype AuthorsStore = AuthorsStore(
    authors: Result<seq<AuthorRow>, string>,
    bookCount: int -> Option<nat>,
    authorsWithBooks: Result<seq<AuthorWithBooks>, string>)

  const GetAuthorsWithMoreThan5Books := "getAuthorsWithMoreThan5Books"
  const GetAverageBookPriceByCountry := "getAverageBookPriceByCountry"

  /** The authors request handler; None when it returns no Response. */
  function HandleAuthors(req: Request<()>, getUser: string -> AuthReply, store: AuthorsStore): (r: Option<Response<AuthorsJson>>)
    ensures r.Some? && r.value.status == 405 <==> req.verb != "GET"
    ensures r.Some? && r.value.status == 401 <==> req.verb == "GET" && !Authenticated(req.authorization, getUser)
    ensures r.None? <==>
      && Gate(req.verb, req.authorization, getUser) == Admit
      && req.action != Some(GetAuthorsWithMoreThan5Books) && req.action != Some(GetAverageBookPriceByCountry)
    ensures r.Some? && r.value.status == 500 <==>
      && Gate(req.verb, req.authorization, getUser) == Admit
      && ((req.action == Some(GetAuthorsWithMoreThan5Books) && store.authors.Failure?)
       || (req.action == Some(GetAverageBookPriceByCountry) && store.authorsWithBooks.Failure?))
    ensures r.Some? && r.value.status == 200 && req.action == Some(GetAuthorsWithMoreThan5Books) ==>
      r.value.body == Json(Prolific(AuthorsWithMoreThan5Books(store.authors.value, store.bookCount)))
    ensures r.Some? && r.value.status == 200 && req.action == Some(GetAverageBookPriceByCountry) ==>
      r.value.body == Json(Averages(AverageBookPriceByCountry(store.authorsWithBooks.value)))
    ensures r.Some? ==> r.value.status in {200, 401, 405, 500}
  {
    match Gate(req.verb, req.authorization, getUser)
    case Reject(status, message) => Some(Response(status, Text(message)))
    case Admit =>
      if req.action == Some(GetAuthorsWithMoreThan5Books) then
        match store.authors
        case Failure(_) => Some(Response(500, Text("Error fetching authors")))
        case Success(authors) => Some(Response(200, Json(Prolific(AuthorsWithMoreThan5Books(authors, store.bookCount)))))
      else if req.action == Some(GetAverageBookPriceByCountry) then
        match store.authorsWithBooks
        case Failure(_) => Some(Response(500, Text("Error fetching authors")))
        case Success(authors) => Some(Response(200, Json(Averages(AverageBookPriceByCountry(authors)))))
      else
        None
  }

  /** Before authentication succeeds nothing else is consulted: a non-GET
      request, or one whose token is empty, gets the same answer whatever
      the verifier and the store would say. */
  lemma AuthorsRejectsBeforeVerifier(req: Request<()>, v1: string -> AuthReply, v2: string -> AuthReply,
                                     s1: AuthorsStore, s2: AuthorsStore)
    requires req.verb != "GET" || BearerToken(req.authorization) == ""
    ensures HandleAuthors(req, v1, s1) == HandleAuthors(req, v2, s2)
    ensures HandleAuthors(req, v1, s1).Some?
    ensures HandleAuthors(req, v1, s1).value.status == (if req.verb != "GET" then 405 else 401)
  {
    GateSkipsVerifier(req.verb, req.authorization, v1, v2);
  }
}
