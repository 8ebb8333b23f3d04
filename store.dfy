/** Row shapes the relational store returns that both endpoints join in. */
module Store {
  import opened Wrappers

  /** The joined country of an author, `country:country_id (title)`; the
      title itself may be null. */
  datatype CountryRef = CountryRef(title: Option<string>)

  /** `author.country?.title`: None when the author has no country or the
      country has no title. */
  function CountryTitle(country: Option<CountryRef>): (t: Option<string>)
    ensures t.Some? <==> country.Some? && country.value.title.Some?
    ensures t.Some? ==> t == country.value.title
  {
    match country
    case None => None
    case Some(c) => c.title
  }
}
