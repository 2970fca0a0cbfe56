/**
 * The public home page (app/page.tsx): every restaurant, images first,
 * narrowed by a search over names, tags and recommended dishes.
 */
module HomePage {

  import opened Wrappers
  import opened Text
  import opened Seqs
  import opened Restaurants

  /** Some label of a present list contains `needle` once lower-cased; a missing list matches nothing. */
  predicate AnyLabelIncludes(labels: Option<seq<string>>, needle: string) {
    labels.Some? && exists k :: 0 <= k < |labels.value| && Includes(Lower(labels.value[k]), needle)
  }

  /**
   * The search predicate for an already lower-cased term. The empty term
   * matches every restaurant; missing tags and dishes contribute no match,
   * so such a restaurant is matched on its name alone.
   */
  predicate Matches(r: Restaurant, needle: string): (b: bool)
    ensures needle == [] ==> b
    ensures r.tags == None && r.dishes == None ==> (b <==> Includes(Lower(r.name), needle))
  {
    || Includes(Lower(r.name), needle)
    || AnyLabelIncludes(r.tags, needle)
    || AnyLabelIncludes(r.dishes, needle)
  }

  /** The restaurants matching a lower-cased term, in their loaded order. */
  function KeepMatching(rs: seq<Restaurant>, needle: string): (r: seq<Restaurant>)
    ensures forall x :: x in r <==> x in rs && Matches(x, needle)
  {
    FilterMembers(x => Matches(x, needle), rs);
    Filter(x => Matches(x, needle), rs)
  }

  /**
   * The search effect: a blank term shows everything; otherwise the term
   * is lower-cased (not trimmed) and a restaurant is kept when its name,
   * one of its tags or one of its dishes contains it.
   */
  function SearchFilter(rs: seq<Restaurant>, term: string): (r: seq<Restaurant>)
    ensures Blank(term) ==> r == rs
    ensures !Blank(term) ==> forall x :: x in r <==> x in rs && Matches(x, Lower(term))
  {
    if Blank(term) then rs else KeepMatching(rs, Lower(term))
  }

  /** The result is an order-preserving sub-list of the loaded list. */
  lemma SearchFilterKeepsOrder(rs: seq<Restaurant>, term: string)
    ensures Subsequence(SearchFilter(rs, term), rs)
  {
    if !Blank(term) {
      FilterIsSubsequence(x => Matches(x, Lower(term)), rs);
    } else {
      SubsequenceRefl(rs);
    }
  }

  /** A matching restaurant is kept as many times as it was loaded, a non-matching one never. */
  lemma SearchFilterCount(rs: seq<Restaurant>, term: string, x: Restaurant)
    requires !Blank(term)
    ensures multiset(SearchFilter(rs, term))[x] == if Matches(x, Lower(term)) then multiset(rs)[x] else 0
  {
    FilterCount(x => Matches(x, Lower(term)), rs, x);
  }

  /** Terms that differ only in letter case select the same restaurants. */
  lemma SearchIsCaseInsensitive(rs: seq<Restaurant>, t1: string, t2: string)
    requires Lower(t1) == Lower(t2)
    ensures SearchFilter(rs, t1) == SearchFilter(rs, t2)
  {
    BlankUpToCase(t1, t2);
  }

  /**
   * A restaurant is found by any non-blank part of its name, typed in any
   * letter case.
   */
  lemma FoundByPartOfName(rs: seq<Restaurant>, r: Restaurant, part: string, q: string)
    requires r in rs && Includes(r.name, part)
    requires !Blank(q) && Lower(q) == Lower(part)
    ensures r in SearchFilter(rs, q)
  {
    IncludesLowered(r.name, part);
    assert Matches(r, Lower(q));
  }

  /**
   * The term is lower-cased but not trimmed: the same restaurant is not
   * found by its name followed by a space.
   */
  lemma UntrimmedTermTakesPartInMatching(name: string, images: nat)
    requires !Blank(name)
    ensures SearchFilter([Restaurant(name, None, None, images)], name + " ") == []
  {
    var r := Restaurant(name, None, None, images);
    var term := name + " ";
    NotBlankExtended(name, " ");
    NoMatchWhenLonger(r, Lower(term));
  }

  lemma NoMatchWhenLonger(r: Restaurant, needle: string)
    requires r.tags == None && r.dishes == None && |needle| > |r.name|
    ensures KeepMatching([r], needle) == []
  {
    assert [r][1..] == [];
  }

  /** The sort comparator: `bHasImages - aHasImages` with booleans counted as 0 or 1. */
  function Compare(a: Restaurant, b: Restaurant): (c: int)
    ensures c < 0 <==> HasImages(a) && !HasImages(b)
    ensures c > 0 <==> HasImages(b) && !HasImages(a)
  {
    (if HasImages(b) then 1 else 0) - (if HasImages(a) then 1 else 0)
  }

  /**
   * What the stable `Array.prototype.sort` with `Compare` produces: the
   * restaurants with images in their loaded order, then the rest in theirs.
   * It neither loses nor duplicates a restaurant.
   */
  function ImagesFirst(s: seq<Restaurant>): (r: seq<Restaurant>)
    ensures multiset(r) == multiset(s)
    ensures |r| == |s|
  {
    FilterPartition(HasImages, HasNoImages, s);
    var r := Filter(HasImages, s) + Filter(HasNoImages, s);
    assert |multiset(r)| == |multiset(s)|;
    r
  }

  /** Every restaurant with an image precedes every one without: the result is sorted by `Compare`. */
  lemma ImagesFirstIsSorted(s: seq<Restaurant>)
    ensures forall i, j :: 0 <= i < j < |ImagesFirst(s)| ==> Compare(ImagesFirst(s)[i], ImagesFirst(s)[j]) <= 0
  {
    var a, b := Filter(HasImages, s), Filter(HasNoImages, s);
    FilterMembers(HasImages, s);
    FilterMembers(HasNoImages, s);
    var r := a + b;
    forall i, j | 0 <= i < j < |r| ensures Compare(r[i], r[j]) <= 0 {
      if i < |a| { assert r[i] == a[i] && r[i] in a; }
      else { assert r[j] == b[j - |a|] && r[j] in b; assert r[i] == b[i - |a|] && r[i] in b; }
    }
  }

  /** The sort is stable: within each group the loaded order is kept. */
  lemma ImagesFirstIsStable(s: seq<Restaurant>)
    ensures Filter(HasImages, ImagesFirst(s)) == Filter(HasImages, s)
    ensures Filter(HasNoImages, ImagesFirst(s)) == Filter(HasNoImages, s)
  {
    var a, b := Filter(HasImages, s), Filter(HasNoImages, s);
    FilterMembers(HasImages, s);
    FilterMembers(HasNoImages, s);
    FilterConcat(HasImages, a, b);
    FilterConcat(HasNoImages, a, b);
    FilterAll(HasImages, a);
    FilterNone(HasImages, b);
    FilterAll(HasNoImages, b);
    FilterNone(HasNoImages, a);
  }

  /** `data.sort(Compare)` on the fetched array, in place. */
  method SortImagesFirst(a: array<Restaurant>)
    modifies a
    ensures a[..] == ImagesFirst(old(a[..]))
  {
    var withImages: seq<Restaurant> := [];
    var withoutImages: seq<Restaurant> := [];
    var i := 0;
    while i < a.Length
      invariant 0 <= i <= a.Length
      invariant withImages == Filter(HasImages, a[..i])
      invariant withoutImages == Filter(HasNoImages, a[..i])
      invariant a[..] == old(a[..])
    {
      assert a[..i + 1] == a[..i] + [a[i]];
      FilterSnoc(HasImages, a[..i], a[i]);
      FilterSnoc(HasNoImages, a[..i], a[i]);
      if HasImages(a[i]) {
        withImages := withImages + [a[i]];
      } else {
        withoutImages := withoutImages + [a[i]];
      }
      i := i + 1;
    }
    assert a[..] == a[..a.Length];
    ghost var loaded := a[..];
    var sorted := withImages + withoutImages;
    assert |sorted| == a.Length by {
      assert sorted == ImagesFirst(loaded);
    }
    var j := 0;
    while j < a.Length
      invariant 0 <= j <= a.Length
      invariant forall k :: 0 <= k < j ==> a[k] == sorted[k]
    {
      a[j] := sorted[j];
      j := j + 1;
    }
    assert a[..] == sorted;
    assert sorted == ImagesFirst(loaded);
  }

  /** The page's state: the loaded list, the visible list and the search box. */
  class Home {
    var restaurants: seq<Restaurant>
    var filteredRestaurants: seq<Restaurant>
    var searchTerm: string

    /** Once the effect has run, the visible list is the search over the loaded list. */
    ghost predicate Valid()
      reads this
    {
      filteredRestaurants == SearchFilter(restaurants, searchTerm)
    }

    constructor ()
      ensures Valid()
      ensures restaurants == [] && filteredRestaurants == [] && searchTerm == ""
    {
      restaurants, filteredRestaurants, searchTerm := [], [], "";
    }

    /** The effect that re-runs the search whenever the term or the loaded list changes. */
    method SearchEffect()
      modifies this`filteredRestaurants
      ensures restaurants == old(restaurants) && searchTerm == old(searchTerm)
      ensures Valid()
    {
      filteredRestaurants := SearchFilter(restaurants, searchTerm);
    }

    /**
     * `fetchRestaurants` once the query has answered: on an error nothing
     * changes; otherwise the rows are sorted images-first in place, become
     * the loaded list, and the search effect runs over them.
     */
    method FetchRestaurants(error: bool, data: array?<Restaurant>)
      modifies this, data
      ensures searchTerm == old(searchTerm)
      ensures error || data == null ==>
        restaurants == old(restaurants) && filteredRestaurants == old(filteredRestaurants)
      ensures error && data != null ==> data[..] == old(data[..])
      ensures !error && data != null ==>
        && data[..] == ImagesFirst(old(data[..]))
        && restaurants == data[..]
        && Valid()
    {
      if error || data == null {
        return;
      }
      SortImagesFirst(data);
      restaurants := data[..];
      filteredRestaurants := data[..];
      SearchEffect();
    }

    /** Typing in the search box: the term is stored verbatim and the effect re-runs. */
    method SetSearchTerm(term: string)
      modifies this
      ensures searchTerm == term && restaurants == old(restaurants)
      ensures Valid()
    {
      searchTerm := term;
      SearchEffect();
    }
  }
}
