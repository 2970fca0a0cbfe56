/**
 * The signed-in user's dashboard (app/dashboard/page-client.tsx): their
 * own restaurants, narrowed by a search over names only.
 */
module DashboardPage {

  import opened Wrappers
  import opened Text
  import opened Seqs
  import opened Restaurants
  import HomePage

  /** The name test for an already lower-cased term. */
  predicate NameMatches(r: Restaurant, needle: string) {
    Includes(Lower(r.name), needle)
  }

  /** The restaurants whose name contains a lower-cased term, in their loaded order. */
  function KeepNameMatching(rs: seq<Restaurant>, needle: string): (r: seq<Restaurant>)
    ensures forall x :: x in r <==> x in rs && NameMatches(x, needle)
  {
    FilterMembers(x => NameMatches(x, needle), rs);
    Filter(x => NameMatches(x, needle), rs)
  }

  /**
   * The filter `handleSearch` computes: a blank term shows everything;
   * otherwise a restaurant is kept when its lower-cased name contains the
   * lower-cased term. Tags and dishes are not looked at.
   */
  function NameFilter(rs: seq<Restaurant>, term: string): (r: seq<Restaurant>)
    ensures Blank(term) ==> r == rs
    ensures !Blank(term) ==> forall x :: x in r <==> x in rs && NameMatches(x, Lower(term))
  {
    if Blank(term) then rs else KeepNameMatching(rs, Lower(term))
  }

  /** The result is an order-preserving sub-list of the user's restaurants. */
  lemma NameFilterKeepsOrder(rs: seq<Restaurant>, term: string)
    ensures Subsequence(NameFilter(rs, term), rs)
  {
    if Blank(term) {
      SubsequenceRefl(rs);
    } else {
      FilterIsSubsequence(x => NameMatches(x, Lower(term)), rs);
    }
  }

  /** A restaurant whose name matches is kept as often as it occurs, any other never. */
  lemma NameFilterCount(rs: seq<Restaurant>, term: string, x: Restaurant)
    requires !Blank(term)
    ensures multiset(NameFilter(rs, term))[x] == if NameMatches(x, Lower(term)) then multiset(rs)[x] else 0
  {
    FilterCount(x => NameMatches(x, Lower(term)), rs, x);
  }

  /** Whatever the dashboard finds by name, the home page's search finds too, in the same order. */
  lemma NameFilterWithinHomeSearch(rs: seq<Restaurant>, term: string)
    ensures Subsequence(NameFilter(rs, term), HomePage.SearchFilter(rs, term))
  {
    if Blank(term) {
      SubsequenceRefl(rs);
    } else {
      FilterMonotone(x => NameMatches(x, Lower(term)), x => HomePage.Matches(x, Lower(term)), rs);
    }
  }

  /** The dashboard's state: the user's restaurants, the visible list and the search box. */
  class Dashboard {
    var restaurants: seq<Restaurant>
    var filteredRestaurants: seq<Restaurant>
    var searchTerm: string

    constructor ()
      ensures restaurants == [] && filteredRestaurants == [] && searchTerm == ""
    {
      restaurants, filteredRestaurants, searchTerm := [], [], "";
    }

    /**
     * `fetchRestaurants` once the query has answered: rows that came back
     * replace both lists as they are (the search is not re-applied); no rows
     * leave everything as it was.
     */
    method FetchRestaurants(data: Option<seq<Restaurant>>)
      modifies this
      ensures searchTerm == old(searchTerm)
      ensures data.None? ==> restaurants == old(restaurants) && filteredRestaurants == old(filteredRestaurants)
      ensures data.Some? ==> restaurants == data.value && filteredRestaurants == data.value
    {
      if data.Some? {
        restaurants := data.value;
        filteredRestaurants := data.value;
      }
    }

    /** `handleSearch`: the raw term is always stored, and the visible list becomes the name filter. */
    method HandleSearch(term: string)
      modifies this
      ensures searchTerm == term
      ensures restaurants == old(restaurants)
      ensures filteredRestaurants == NameFilter(restaurants, term)
    {
      searchTerm := term;
      if Blank(term) {
        filteredRestaurants := restaurants;
        return;
      }
      filteredRestaurants := KeepNameMatching(restaurants, Lower(term));
    }
  }
}
