/** What a scrape found, of whichever kind of tracker, and adding such findings up. */
module ScrapeResults {

  type Hash = string

  datatype Scraped<+E, +S> = Scraped(errors: seq<E>, responses: map<Hash, S>)

  function Plus<E, S>(a: Scraped<E, S>, b: Scraped<E, S>): Scraped<E, S> {
    Scraped(a.errors + b.errors, a.responses + b.responses)
  }

  lemma PlusAssociative<E, S>(a: Scraped<E, S>, b: Scraped<E, S>, c: Scraped<E, S>)
    ensures Plus(Plus(a, b), c) == Plus(a, Plus(b, c))
  {
    assert a.errors + b.errors + c.errors == a.errors + (b.errors + c.errors);
    assert a.responses + b.responses + c.responses == a.responses + (b.responses + c.responses);
  }

  lemma PlusNothing<E, S>(r: Scraped<E, S>)
    ensures Plus(r, Scraped([], map[])) == r && Plus(Scraped([], map[]), r) == r
  {
  }
}
