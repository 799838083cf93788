/** The statistics cards of the Thesis and Research Papers pages. */
module StatsCards {
  import opened Seqs

  /** Total records, featured ones, published ones and the sum of their view counts. */
  datatype Cards = Cards(total: nat, featured: nat, published: nat, views: nat)

  /** The cards, computed over the whole fetched list (not the search result). */
  function CardsOf<T>(items: seq<T>, featured: T -> bool, published: T -> bool, views: T -> nat): (c: Cards)
    ensures c.total == |items|
    ensures c.featured == |Filter(items, featured)| && c.published == |Filter(items, published)|
    ensures c.featured <= c.total && c.published <= c.total
  {
    Cards(|items|, Count(items, featured), Count(items, published), SumBy(items, views))
  }

  /** One record counts once, in featured and published only when it is so, with its own views. */
  lemma CardsOfOne<T>(x: T, featured: T -> bool, published: T -> bool, views: T -> nat)
    ensures CardsOf([x], featured, published, views)
      == Cards(1, if featured(x) then 1 else 0, if published(x) then 1 else 0, views(x))
  {
    assert [x][..0] == [] && [x][1..] == [];
    assert Filter([x], featured) == (if featured(x) then [x] else []) + Filter([], featured);
    assert Filter([x], published) == (if published(x) then [x] else []) + Filter([], published);
    assert SumBy([x], views) == SumBy([], views) + views(x);
  }

  /**
   * The cards of a list are the card-by-card sums of the cards of its parts, so together with `CardsOfOne`
   * they are each record's contribution added up.
   */
  lemma CardsOfAppend<T>(a: seq<T>, b: seq<T>, featured: T -> bool, published: T -> bool, views: T -> nat)
    ensures var c, ca, cb := CardsOf(a + b, featured, published, views),
                             CardsOf(a, featured, published, views), CardsOf(b, featured, published, views);
      && c.total == ca.total + cb.total
      && c.featured == ca.featured + cb.featured
      && c.published == ca.published + cb.published
      && c.views == ca.views + cb.views
  {
    FilterAppend(a, b, featured);
    FilterAppend(a, b, published);
    SumAppend(a, b, views);
  }

  /** Every record's views are part of the total. */
  lemma ViewsCounted<T>(items: seq<T>, featured: T -> bool, published: T -> bool, views: T -> nat, i: nat)
    requires i < |items|
    ensures views(items[i]) <= CardsOf(items, featured, published, views).views
  {
    SumAtLeastEach(items, views, i);
  }
}
