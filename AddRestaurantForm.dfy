/**
 * The state logic of `components/restaurants/add-restaurant-form.tsx`:
 * the initial form, the suggestions built from the dishes the user has
 * recommended before, adding a suggestion to the form, and the extension
 * taken from an uploaded file's name.
 */
module AddRestaurantForm {

  import opened Wrappers
  import opened Text
  import opened Seqs

  /** The form's fields as the component holds them (coordinates are still text). */
  datatype FormData = FormData(
    name: string,
    openingTime: string,
    closingTime: string,
    recommendedDishes: seq<string>,
    tags: seq<string>,
    latitude: string,
    longitude: string)

  /** The form before the user has typed anything: every field empty. */
  function InitialForm(): (f: FormData)
    ensures f.name == [] && f.openingTime == [] && f.closingTime == []
    ensures f.recommendedDishes == [] && f.tags == []
    ensures f.latitude == [] && f.longitude == []
  {
    FormData("", "", "", [], [], "", "")
  }

  /**
   * `Array.from(new Set(rows.flatMap(r => r.recommended_dishes)))`: every
   * dish of every fetched restaurant, each once.
   */
  function UniqueDishes(rows: seq<seq<string>>): (r: seq<string>)
    ensures NoDup(r)
    ensures forall d :: d in r <==> exists i :: 0 <= i < |rows| && d in rows[i]
  {
    Dedup(Flatten(rows))
  }

  /** The suggestions keep the order in which each dish was first recommended. */
  lemma UniqueDishesFirstOccurrenceOrder(rows: seq<seq<string>>)
    ensures forall i, j :: 0 <= i < j < |UniqueDishes(rows)| ==>
      IndexOf(Flatten(rows), UniqueDishes(rows)[i]) < IndexOf(Flatten(rows), UniqueDishes(rows)[j])
  {
    DedupFirstOccurrenceOrder(Flatten(rows));
  }

  /**
   * `addDishSuggestion(dish)`: the dish is appended to the recommended
   * dishes unless it is already there; no other field changes.
   */
  function WithDishSuggestion(f: FormData, dish: string): (g: FormData)
    ensures dish in g.recommendedDishes
    ensures dish in f.recommendedDishes ==> g == f
    ensures dish !in f.recommendedDishes ==> g.recommendedDishes == f.recommendedDishes + [dish]
    ensures g.(recommendedDishes := f.recommendedDishes) == f
  {
    if dish !in f.recommendedDishes then f.(recommendedDishes := f.recommendedDishes + [dish]) else f
  }

  /** Suggestions never put a dish into the form twice. */
  lemma SuggestionKeepsNoDup(f: FormData, dish: string)
    requires NoDup(f.recommendedDishes)
    ensures NoDup(WithDishSuggestion(f, dish).recommendedDishes)
  {
    var d := f.recommendedDishes;
    if dish !in d {
      var e := d + [dish];
      forall i, j | 0 <= i < j < |e| ensures e[i] != e[j] {
        if j == |d| { assert e[i] == d[i] && d[i] in d; }
      }
    }
  }

  /** Picking the same suggestion twice has the effect of picking it once. */
  lemma SuggestionIdempotent(f: FormData, dish: string)
    ensures WithDishSuggestion(WithDishSuggestion(f, dish), dish) == WithDishSuggestion(f, dish)
  {
  }

  /**
   * `file.name.split('.').pop()`: the last piece of the name split at its
   * dots, that is the part after the last dot, or the whole name when it
   * has none. It never contains a dot.
   */
  function FileExtension(fileName: string): (ext: string)
    ensures '.' !in ext
    ensures |ext| <= |fileName| && fileName[|fileName| - |ext|..] == ext
    ensures '.' !in fileName ==> ext == fileName
    ensures '.' in fileName ==> |ext| < |fileName| && fileName[|fileName| - |ext| - 1] == '.'
  {
    var parts := Split(fileName, '.');
    SplitLast(fileName, '.');
    assert '.' in fileName ==> parts[|parts| - 1] != fileName;
    parts[|parts| - 1]
  }

  /** The component's state that these handlers touch. */
  class AddRestaurantForm {
    var formData: FormData
    var userDishes: seq<string>

    constructor ()
      ensures formData == InitialForm() && userDishes == []
    {
      formData := InitialForm();
      userDishes := [];
    }

    /**
     * `fetchUserDishes` once the queries have answered: `fetched` holds the
     * `recommended_dishes` of each of the user's restaurants, or `None` when
     * there is no signed-in user or no rows came back, in which case the
     * suggestions are left as they were.
     */
    method LoadUserDishes(fetched: Option<seq<seq<string>>>)
      modifies this`userDishes
      ensures fetched.None? ==> userDishes == old(userDishes)
      ensures fetched.Some? ==> userDishes == UniqueDishes(fetched.value)
    {
      if fetched.Some? {
        var allDishes := Flatten(fetched.value);
        userDishes := Dedup(allDishes);
      }
    }

    method AddDishSuggestion(dish: string)
      modifies this`formData
      ensures formData == WithDishSuggestion(old(formData), dish)
    {
      if dish !in formData.recommendedDishes {
        formData := formData.(recommendedDishes := formData.recommendedDishes + [dish]);
      }
    }
  }
}
