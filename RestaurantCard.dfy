/**
 * The display rules of `components/restaurants/restaurant-card.tsx`: which
 * tags are shown and how many are summarised as "+k more", the one-line
 * preview of the recommended dishes, and the image placeholder.
 */
module RestaurantCard {

  import opened Wrappers
  import opened Text

  /** How many tags the card shows before summarising the rest. */
  const ShownTags: nat := 3
  /** How many dishes the preview names. */
  const PreviewDishes: nat := 2
  const Placeholder: string := "/placeholder-restaurant.jpg"

  /** `s.slice(0, n)`: the first `n` elements, or all of them when there are fewer. */
  function Take<T>(s: seq<T>, n: nat): (r: seq<T>)
    ensures |r| == if |s| <= n then |s| else n
    ensures r == s[..|r|]
  {
    if |s| <= n then s else s[..n]
  }

  /** The tag row: absent, or the tags shown and the "+k more" count when there is one. */
  datatype TagsView = NoTagSection | TagSection(shown: seq<string>, more: Option<nat>)

  /**
   * The tag row for the `tags` prop, which defaults to the empty list when
   * it is not passed.
   */
  function TagsRow(tags: Option<seq<string>>): (v: TagsView)
    ensures v.NoTagSection? <==> tags.GetOr([]) == []
    ensures v.TagSection? ==> |v.shown| <= ShownTags && |v.shown| <= |tags.GetOr([])| && v.shown == tags.GetOr([])[..|v.shown|]
    ensures v.TagSection? ==> |v.shown| == if |tags.GetOr([])| <= ShownTags then |tags.GetOr([])| else ShownTags
    ensures v.TagSection? ==> (v.more.Some? <==> |tags.GetOr([])| > ShownTags)
    ensures v.TagSection? ==> |v.shown| + v.more.GetOr(0) == |tags.GetOr([])|
  {
    var all := tags.GetOr([]);
    if |all| > 0 then
      TagSection(Take(all, ShownTags), if |all| > ShownTags then Some(|all| - ShownTags) else None)
    else NoTagSection
  }

  /** Up to three tags are shown in full; beyond that the first three are shown and the rest counted. */
  lemma TagsRowShowsPrefix(tags: seq<string>)
    requires tags != []
    ensures |tags| <= ShownTags ==> TagsRow(Some(tags)) == TagSection(tags, None)
    ensures |tags| > ShownTags ==> TagsRow(Some(tags)) == TagSection(tags[..ShownTags], Some(|tags| - ShownTags))
  {
  }

  /**
   * The dishes line: the first two dishes joined by `", "`, followed by
   * `" ..."` when there are more than two.
   */
  function DishPreview(dishes: seq<string>): (line: string)
    ensures |dishes| == 0 ==> line == ""
    ensures |dishes| == 1 ==> line == dishes[0]
    ensures |dishes| == 2 ==> line == dishes[0] + ", " + dishes[1]
    ensures |dishes| > 2 ==> line == dishes[0] + ", " + dishes[1] + " ..."
  {
    var two := Take(dishes, PreviewDishes);
    assert |dishes| >= 2 ==> Join(two, ", ") == dishes[0] + ", " + dishes[1] by {
      if |dishes| >= 2 {
        assert two == [dishes[0], dishes[1]];
        assert two[1..] == [dishes[1]];
      }
    }
    Join(two, ", ") + if |dishes| > PreviewDishes then " ..." else ""
  }

  /** `imageUrl || '/placeholder-restaurant.jpg'`. */
  function ImageSource(imageUrl: string): (src: string)
    ensures src != []
    ensures imageUrl != [] ==> src == imageUrl
    ensures imageUrl == [] ==> src == Placeholder
  {
    if imageUrl != [] then imageUrl else Placeholder
  }
}
