/** A restaurant row as loaded, with its images, from the `restaurants` table. */
module Restaurants {

  import opened Wrappers

  /**
   * The columns the search and the ordering look at. `tags` and `dishes`
   * (the `recommended_dishes` column) may be null; `imageCount` is the
   * length of the joined `restaurant_images` array.
   */
  datatype Restaurant = Restaurant(
    name: string,
    tags: Option<seq<string>>,
    dishes: Option<seq<string>>,
    imageCount: nat)

  predicate HasImages(r: Restaurant) {
    r.imageCount > 0
  }

  predicate HasNoImages(r: Restaurant) {
    r.imageCount == 0
  }
}
