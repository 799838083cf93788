/**
 * The search box of the list pages: a blank term shows everything, any other term keeps
 * the records one of whose texts contains the lowercased (but untrimmed) term.
 */
module Search {
  import opened Optional
  import opened Strings
  import opened Seqs

  /** `text.toLowerCase().includes(term)`. */
  predicate Mentions(text: string, term: string) {
    Contains(Lower(text), term)
  }

  /** `(text && text.toLowerCase().includes(term))` for a text that may be missing or empty. */
  predicate MaybeMentions(text: Option<string>, term: string) {
    text.Some? && text.value != "" && Mentions(text.value, term)
  }

  /** The filter predicate of one search: the page's matcher with the term fixed. */
  function MatchesTerm<T>(matches: (T, string) -> bool, term: string): T -> bool {
    x => matches(x, term)
  }

  /** `searchTerm.trim() === '' ? items : items.filter(x => matches(x, searchTerm.toLowerCase()))`. */
  function SearchBy<T>(items: seq<T>, searchTerm: string, matches: (T, string) -> bool): (r: seq<T>)
    ensures |r| <= |items|
  {
    if IsBlank(searchTerm) then items else Filter(items, MatchesTerm(matches, Lower(searchTerm)))
  }

  /**
   * A record is shown exactly when it is in the list and the term is blank or the record
   * matches the lowercased term, as many times as it is listed; what is shown keeps the
   * list's order.
   */
  lemma SearchBySpec<T>(items: seq<T>, searchTerm: string, matches: (T, string) -> bool, x: T)
    ensures x in SearchBy(items, searchTerm, matches) <==>
      x in items && (IsBlank(searchTerm) || matches(x, Lower(searchTerm)))
    ensures IsSubsequence(SearchBy(items, searchTerm, matches), items)
    ensures multiset(SearchBy(items, searchTerm, matches))[x] ==
      if IsBlank(searchTerm) || matches(x, Lower(searchTerm)) then multiset(items)[x] else 0
  {
    if IsBlank(searchTerm) {
      SubsequenceOfItself(items);
    } else {
      FilterMembers(items, MatchesTerm(matches, Lower(searchTerm)), x);
      FilterIsSubsequence(items, MatchesTerm(matches, Lower(searchTerm)));
      FilterMultiplicity(items, MatchesTerm(matches, Lower(searchTerm)), x);
    }
  }

  lemma {:induction false} SubsequenceOfItself<T>(s: seq<T>)
    ensures IsSubsequence(s, s)
  {
    if |s| > 0 {
      SubsequenceOfItself(s[1..]);
    }
  }

  /** The search box as one plain predicate: everything passes while it is blank. */
  function SearchPass<T>(matches: (T, string) -> bool, searchTerm: string): T -> bool {
    x => IsBlank(searchTerm) || matches(x, Lower(searchTerm))
  }

  /** A search is one plain filter, so it combines with the pages' other filters. */
  lemma SearchByIsFilter<T>(items: seq<T>, searchTerm: string, matches: (T, string) -> bool)
    ensures SearchBy(items, searchTerm, matches) == Filter(items, SearchPass(matches, searchTerm))
  {
    if IsBlank(searchTerm) {
      FilterAll(items, SearchPass(matches, searchTerm));
    } else {
      FilterSame(items, MatchesTerm(matches, Lower(searchTerm)), SearchPass(matches, searchTerm));
    }
  }

  /** A blank term (empty or only white space) leaves the list exactly as fetched. */
  lemma BlankSearchShowsAll<T>(items: seq<T>, searchTerm: string, matches: (T, string) -> bool)
    requires forall i :: 0 <= i < |searchTerm| ==> IsSpace(searchTerm[i])
    ensures SearchBy(items, searchTerm, matches) == items
  {
    BlankIffAllSpace(searchTerm);
  }
}
