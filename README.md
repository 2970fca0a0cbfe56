# Restaurant tracker: the client-side rules, in Dafny

This project models the small pieces of logic in the restaurant-tracker web
application that can be stated exactly, and proves what they promise:

- the tag / recommended-dish editor (`TagInput`): a pending text buffer and a
  committed list of labels, driven by typing, Enter, comma, Backspace, blur and
  the remove buttons; a class with the component's two pieces of state, whose
  handlers are proved to move the state as pure transitions do, and lemmas that
  no sequence of events ever commits a duplicate, blank or untrimmed label;
- the collection searches: the home page's case-insensitive search over names,
  tags and recommended dishes together with its images-first ordering, sorted in
  place on an array (`HomePage`), and the dashboard's name-only search
  (`DashboardPage`);
- the add-restaurant form (`AddRestaurantForm`): its initial state, the
  suggestions built from the dishes the user recommended before (each once, in
  order of first occurrence), adding a suggestion, and the upload's file
  extension;
- display rules: the restaurant card's tag row, "+k more" count, dish preview
  and image placeholder (`RestaurantCard`); the image viewer's render guard,
  arrows and counter (`ImageViewer`); the input dialog's trim-and-submit step
  and its disabled Add button (`InputDialog`);
- routing decisions: the authentication gate of the middleware (`Middleware`)
  and the redirect chosen by the OAuth callback (`AuthCallback`).

Shared modules hold what the code borrows from JavaScript: `Text` (`trim`,
ASCII `toLowerCase`, `includes`, `startsWith`, `split`, `join`), `Seqs`
(`filter`, `flat`, `Array.from(new Set(...))`, `indexOf`, and order-preserving
sub-lists), `Restaurants` (the restaurant row) and `Wrappers` (an optional
value for `null`/`undefined`).

Strings are sequences of Unicode scalar values (`seq<char>`). `trim` strips exactly
the ECMAScript WhiteSpace and LineTerminator characters. Network calls
(Supabase reads and writes, the session lookup, the code exchange, storage
uploads) are parameters: their results are passed in as values.

Where the application's documented intent and its code disagree, the model
follows the code:

- the home page search lower-cases the term but does not trim it, so spaces
  around a non-blank term take part in matching;
- `removeTag` removes by position, not the first label equal to a given text;
- the editor has no splitting of pasted comma- or newline-separated text: only
  an Enter or comma key press commits, and a typed comma stays in the buffer.

## Model

A few helpers model a single source expression and have no row of their
own, because the rows of the members that use them state their behaviour:
`Seqs.Filter` (`.filter`, stated by `HomePage.KeepMatching`,
`DashboardPage.KeepNameMatching` and `TagInput.RemoveTagStep`) and
`DashboardPage.NameMatches` (the name test of `DashboardPage.NameFilter`).

| member | source | states |
|---|---|---|
| `TagInput.AddTagStep` | components/ui/tag-input.tsx:29-35 | the state changes exactly when the trimmed buffer is not blank and not already a label (exact match); it then becomes the buffer emptied and the trimmed text appended at the end; otherwise nothing changes |
| `TagInput.RemoveTagStep` | components/ui/tag-input.tsx:37-39 | the buffer is kept; an in-range index removes exactly that label and keeps the others in order; any other index changes nothing |
| `TagInput.DropIndexIsRemoval` | components/ui/tag-input.tsx:38 | filtering out position `index` equals cutting out element `index` when it is in range, and is the identity otherwise |
| `TagInput.KeyDownStep` | components/ui/tag-input.tsx:16-23 | Enter and comma act exactly as `addTag`; Backspace on an empty buffer with labels removes the last label; every other key press, and Backspace otherwise, changes nothing |
| `TagInput.BlurStep` | components/ui/tag-input.tsx:25-27 | leaving the field acts exactly as pressing Enter |
| `TagInput.TypeStep` | components/ui/tag-input.tsx:63 | typing sets the buffer to the text verbatim, commas included, and never changes the labels |
| `TagInput.StepKeepsNoDup` | components/ui/tag-input.tsx:31 | no single event turns a duplicate-free label list into one with a duplicate |
| `TagInput.RunKeepsNoDup` | components/ui/tag-input.tsx:16-39 | from duplicate-free labels, any sequence of events keeps them duplicate-free |
| `TagInput.StepKeepsTrimmed` | components/ui/tag-input.tsx:30-32 | no event commits an empty or untrimmed label |
| `TagInput.RunKeepsTrimmed` | components/ui/tag-input.tsx:16-39 | from trimmed non-empty labels, every list reached by any events has only trimmed non-empty labels |
| `TagInput.AddTagIdempotent` | components/ui/tag-input.tsx:31-33 | committing twice in a row has the effect of committing once |
| `TagInput.AddSameLabelTwice` | components/ui/tag-input.tsx:30-32 | entering the same label twice (up to surrounding white space) leaves exactly one occurrence of it |
| `TagInput.AddTagAppendsNewLabel` | components/ui/tag-input.tsx:30-33 | text without surrounding white space that is not yet a label is appended as it is and the buffer is emptied |
| `TagInput.DuplicateTestIsCaseSensitive` | components/ui/tag-input.tsx:31 | `Spicy` is added next to `spicy`: the duplicate test is exact, not case-insensitive |
| `TagInput.TagInput.constructor` | components/ui/tag-input.tsx:13-14 | a new editor has an empty buffer over the labels the parent passes in |
| `TagInput.TagInput.AddTag` | components/ui/tag-input.tsx:29-35 | the new state is `AddTagStep` of the old one |
| `TagInput.TagInput.RemoveTag` | components/ui/tag-input.tsx:37-39 | the new state is `RemoveTagStep` of the old one; only the labels may change |
| `TagInput.TagInput.HandleKeyDown` | components/ui/tag-input.tsx:16-23 | the new state is `KeyDownStep` of the old one |
| `TagInput.TagInput.HandleBlur` | components/ui/tag-input.tsx:25-27 | the new state is `BlurStep` of the old one |
| `TagInput.TagInput.HandleChange` | components/ui/tag-input.tsx:63 | the new state is `TypeStep` of the old one; only the buffer may change |
| `HomePage.SearchFilter` | app/page.tsx:65-90 | a blank term gives the loaded list unchanged; otherwise a restaurant is in the result iff it is loaded and the lower-cased term occurs in its lower-cased name, one of its tags or one of its dishes |
| `HomePage.KeepMatching` | app/page.tsx:72-87 | the kept restaurants are exactly the loaded ones that match |
| `HomePage.SearchFilterKeepsOrder` | app/page.tsx:72 | the result is an order-preserving sub-list of the loaded list |
| `HomePage.SearchFilterCount` | app/page.tsx:72-87 | a matching restaurant is kept as often as it was loaded, a non-matching one never |
| `HomePage.SearchIsCaseInsensitive` | app/page.tsx:66-78 | terms that differ only in letter case give the same result |
| `HomePage.Matches` | app/page.tsx:72-86 | the empty term matches every restaurant; with no tags and no dishes, a restaurant matches iff its lower-cased name contains the term |
| `HomePage.FoundByPartOfName` | app/page.tsx:66-74 | a loaded restaurant is found by any non-blank term that is a part of its name up to letter case |
| `HomePage.UntrimmedTermTakesPartInMatching` | app/page.tsx:71 | the term is not trimmed: a name followed by a space does not find that name |
| `HomePage.Compare` | app/page.tsx:53-57 | the comparator is negative iff only the first has images and positive iff only the second has |
| `HomePage.ImagesFirst` | app/page.tsx:53-57 | the images-first order is a permutation of the fetched rows, of the same length |
| `HomePage.ImagesFirstIsSorted` | app/page.tsx:53-57 | every restaurant with an image precedes every one without |
| `HomePage.ImagesFirstIsStable` | app/page.tsx:53-57 | within each of the two groups the fetched order is kept |
| `HomePage.SortImagesFirst` | app/page.tsx:53-57 | the array, sorted in place, holds the images-first order of its old contents |
| `HomePage.Home.constructor` | app/page.tsx:24-26 | the page starts with empty lists and an empty term, consistent with the search |
| `HomePage.Home.SearchEffect` | app/page.tsx:65-90 | the visible list becomes the search of the loaded list; the loaded list and term are unchanged |
| `HomePage.Home.FetchRestaurants` | app/page.tsx:41-62 | on an error or no data nothing changes, the rows that came back with an error included; otherwise the rows are sorted images-first in place, become the loaded list, and the visible list is the search over them |
| `HomePage.Home.SetSearchTerm` | app/page.tsx:98 | the term is stored verbatim and the visible list is the search over the loaded list |
| `DashboardPage.NameFilter` | app/dashboard/page-client.tsx:54-62 | a blank term gives the whole list; otherwise a restaurant is kept iff the lower-cased term occurs in its lower-cased name |
| `DashboardPage.KeepNameMatching` | app/dashboard/page-client.tsx:59-61 | the kept restaurants are exactly those whose name matches; tags and dishes are not looked at |
| `DashboardPage.NameFilterKeepsOrder` | app/dashboard/page-client.tsx:59-62 | the result is an order-preserving sub-list of the user's restaurants |
| `DashboardPage.NameFilterCount` | app/dashboard/page-client.tsx:59-61 | a restaurant whose name matches is kept as often as it occurs, any other never |
| `DashboardPage.NameFilterWithinHomeSearch` | app/dashboard/page-client.tsx:59-61 | the dashboard's name search finds a sub-list, in order, of what the home page search finds for the same term |
| `DashboardPage.Dashboard.constructor` | app/dashboard/page-client.tsx:27-29 | the dashboard starts with empty lists and an empty term |
| `DashboardPage.Dashboard.FetchRestaurants` | app/dashboard/page-client.tsx:34-44 | rows that came back replace both lists as they are; no rows leave everything unchanged |
| `DashboardPage.Dashboard.HandleSearch` | app/dashboard/page-client.tsx:52-63 | the raw term is always stored, the loaded list is unchanged, and the visible list becomes the name filter of it |
| `AddRestaurantForm.InitialForm` | components/restaurants/add-restaurant-form.tsx:21-29 | every text field of the new form is empty and both lists are empty |
| `AddRestaurantForm.UniqueDishes` | components/restaurants/add-restaurant-form.tsx:42-43 | the suggestions hold no duplicate, and a dish is among them iff some fetched restaurant recommends it |
| `AddRestaurantForm.UniqueDishesFirstOccurrenceOrder` | components/restaurants/add-restaurant-form.tsx:42-43 | the suggestions are in the order of each dish's first occurrence |
| `AddRestaurantForm.WithDishSuggestion` | components/restaurants/add-restaurant-form.tsx:155-162 | afterwards the dish is in the list; an absent dish is appended at the end, a present one changes nothing; no other field changes |
| `AddRestaurantForm.SuggestionKeepsNoDup` | components/restaurants/add-restaurant-form.tsx:156 | adding a suggestion never makes a duplicate-free dish list have a duplicate |
| `AddRestaurantForm.SuggestionIdempotent` | components/restaurants/add-restaurant-form.tsx:155-162 | picking the same suggestion twice has the effect of picking it once |
| `AddRestaurantForm.FileExtension` | components/restaurants/add-restaurant-form.tsx:62 | the extension is a dot-free suffix of the file name: all of it when there is no dot, and otherwise what follows the last dot |
| `AddRestaurantForm.AddRestaurantForm.constructor` | components/restaurants/add-restaurant-form.tsx:20-29 | the form starts as the initial form with no suggestions |
| `AddRestaurantForm.AddRestaurantForm.LoadUserDishes` | components/restaurants/add-restaurant-form.tsx:32-49 | when rows came back the suggestions become their unique dishes; otherwise they stay as they were |
| `AddRestaurantForm.AddRestaurantForm.AddDishSuggestion` | components/restaurants/add-restaurant-form.tsx:155-162 | the new form is `WithDishSuggestion` of the old one |
| `RestaurantCard.TagsRow` | components/restaurants/restaurant-card.tsx:58-71 | no tag row iff the tags (missing means empty) are empty; otherwise the first three tags in order, or all of them when there are fewer, and a "+k more" count present iff there are more than three, the shown tags plus `k` being all of them |
| `RestaurantCard.TagsRowShowsPrefix` | components/restaurants/restaurant-card.tsx:60-69 | up to three tags are all shown with no count; more than three show the first three and count the number of tags minus three |
| `RestaurantCard.DishPreview` | components/restaurants/restaurant-card.tsx:78-79 | the preview is empty, the one dish, two dishes joined by `", "`, or the first two so joined followed by `" ..."` when there are more |
| `RestaurantCard.ImageSource` | components/restaurants/restaurant-card.tsx:38 | a non-empty image URL is used as it is, an empty one falls back to the placeholder `/placeholder-restaurant.jpg`; the source is never empty |
| `ImageViewer.View` | components/ui/image-viewer-modal.tsx:31-73 | nothing renders iff the list is empty or the index is outside it; otherwise the image at the index, previous disabled iff the index is 0, next disabled iff it is the last, and a counter `index + 1`, between one and the number of images, over the number of images |
| `ImageViewer.NextStaysInRange` | components/ui/image-viewer-modal.tsx:31-67 | while next is enabled, the following index renders too, one further on the counter |
| `ImageViewer.PreviousStaysInRange` | components/ui/image-viewer-modal.tsx:31-50 | while previous is enabled, the preceding index renders too, one back on the counter |
| `ImageViewer.SingleImageDisablesBoth` | components/ui/image-viewer-modal.tsx:50-73 | with one image both arrows are disabled and the counter reads 1 of 1 |
| `InputDialog.SubmitStep` | components/ui/input-dialog.tsx:25-32 | a blank value changes nothing; otherwise the trimmed value is submitted, the field is cleared and the dialog closes |
| `InputDialog.DisabledExactlyWhenNoOp` | components/ui/input-dialog.tsx:27-56 | the Add button is disabled exactly when submitting would do nothing |
| `InputDialog.SubmittedValueIsTrimmed` | components/ui/input-dialog.tsx:28 | a submitted value is never empty and has no surrounding white space |
| `InputDialog.InputDialog.constructor` | components/ui/input-dialog.tsx:23 | the field starts empty with nothing submitted |
| `InputDialog.InputDialog.HandleChange` | components/ui/input-dialog.tsx:50 | only the field changes, to the typed text |
| `InputDialog.InputDialog.HandleSubmit` | components/ui/input-dialog.tsx:25-32 | the new state is `SubmitStep` of the old one |
| `Middleware.Decide` | middleware.ts:14-32 | signed in on an `/auth` path: redirect to `/` on the same URL otherwise; signed out on a path that is neither `/auth` nor `/api`: redirect to `/auth/signin` on the same origin with the query equal to `searchParams.set('redirectedFrom', pathname)` of the original one, so `redirectedFrom` reads as the original path; every other request passes through |
| `Middleware.SetParam` | middleware.ts:28 | after `searchParams.set`, exactly one pair carries the key, at the position of its first occurrence or appended at the end when it was absent, with the pairs before it unchanged; reading the key gives the new value, and the pairs with other keys are kept in their order |
| `Middleware.SetThenGet` | middleware.ts:28 | after `searchParams.set`, every other key reads as before |
| `Middleware.RedirectKeepsOriginAndQuery` | middleware.ts:14-30 | a redirect stays on the request's origin and keeps every query pair whose key is not `redirectedFrom`, repeats and order included, so every other key also reads as before |
| `Middleware.NoRedirectLoop` | middleware.ts:15-30 | the target of a redirect passes through for the same session, so the gate cannot loop |
| `Middleware.AuthorsCountsAsAuthPage` | middleware.ts:15-22 | the auth test is a plain prefix test: a signed-in request for `/authors` is sent to `/` |
| `AuthCallback.Resolve` | app/auth/callback/route.ts:22 | `new URL(next, origin)` either throws or leads somewhere; a target that stays on the origin is a path starting with a single slash |
| `AuthCallback.Callback` | app/auth/callback/route.ts:7-26 | a missing or empty code goes to the error page with no exchange; otherwise the code is exchanged; a throwing exchange goes to the error page; otherwise `next` (or `/dashboard` when it is missing or empty) is resolved against the origin, and a reference `new URL` rejects goes to the error page too |
| `AuthCallback.ReturnedErrorIsIgnored` | app/auth/callback/route.ts:19 | an exchange that returns an error redirects exactly like a successful one |
| `AuthCallback.DefaultNextResolves` | app/auth/callback/route.ts:22 | `/dashboard` resolves to itself on the request's origin |
| `AuthCallback.HostReferenceResolvesElsewhere` | app/auth/callback/route.ts:22 | two slashes followed by a host name resolve to a reference to that host |
| `AuthCallback.SchemeRelativeNextLeavesOrigin` | app/auth/callback/route.ts:16-22 | after an exchange that did not throw, a `next` of two slashes and a host name sends the user to that host |
| `AuthCallback.HostlessNextFails` | app/auth/callback/route.ts:16-25 | a `next` made of slashes only names no host: `new URL` throws and the user lands on the error page |
| `AuthCallback.SameSchemeWithoutSlashesStaysOnOrigin` | app/auth/callback/route.ts:22 | the origin's own scheme, a colon and a path without a leading slash resolve to that path on the origin |
| `AuthCallback.SafeNextStaysOnOrigin` | app/auth/callback/route.ts:22 | a `next` with one leading slash, no second slash and no tab or newline resolves to a path on the origin |
| `AuthCallback.CleanPathResolvesToItself` | app/auth/callback/route.ts:22 | such a `next` that does not end in a space or control character resolves to exactly itself |
| `AuthCallback.CallbackSafeNext` | app/auth/callback/route.ts:7-26 | the corrected callback always redirects on the request's origin, with the same error-page and exchange behaviour |
| `AuthCallback.SafeNextAgreesWithCallback` | app/auth/callback/route.ts:22 | for a missing, empty or safe `next` the corrected callback behaves exactly as the code |
| `Text.Trim` | components/ui/tag-input.tsx:30 | `trim` gives nothing iff the text is all white space, and otherwise text starting and ending with a character that is not white space |
| `Text.TrimIsSlice` | components/ui/tag-input.tsx:30 | `trim` only cuts white space, and only from the two ends: the result is a slice of the text with white space before and after it |
| `Text.TrimIdempotent` | components/ui/input-dialog.tsx:28 | trimming trimmed text changes nothing |
| `Text.Lower` | app/page.tsx:71 | `toLowerCase` keeps the length, lowers each character and leaves no capital letter |
| `Text.Includes` | app/page.tsx:74 | the empty text is included in every text, and nothing longer than a text is included in it |
| `Text.IncludesLowered` | app/page.tsx:74 | a slice of a text stays a slice once both are lower-cased |
| `Text.StartsWith` | middleware.ts:15-16 | the empty prefix always matches, and a prefix is a slice of the text |
| `Text.Split` | components/restaurants/add-restaurant-form.tsx:62 | `split` gives at least one piece, and text without the separator is its own single piece |
| `Text.Join` | components/restaurants/restaurant-card.tsx:78 | `join` of no pieces is empty, of one piece is that piece, and otherwise starts with the first piece followed by the separator |
| `Text.JoinSplit` | components/restaurants/add-restaurant-form.tsx:62 | joining the pieces of `split` with the separator gives back the text |
| `Text.SplitPiecesLackSeparator` | components/restaurants/add-restaurant-form.tsx:62 | no piece of `split` contains the separator |
| `Text.SplitLast` | components/restaurants/add-restaurant-form.tsx:62 | the last piece of `split` is a separator-free suffix, shorter than the text iff there was a separator, and then preceded by one |
| `Seqs.Dedup` | components/restaurants/add-restaurant-form.tsx:43 | `Array.from(new Set(s))` has no duplicate and holds exactly the elements of `s` |
| `Seqs.Flatten` | components/restaurants/add-restaurant-form.tsx:42 | `flatMap` over the dish lists holds exactly the elements of some row |
| `RestaurantCard.Take` | components/restaurants/restaurant-card.tsx:60 | `slice(0, n)` is the prefix of length `n`, or the whole list when it is shorter |
| `AuthCallback.NextTarget` | app/auth/callback/route.ts:10-22 | `next` or else `/dashboard`: a missing or empty `next` gives `/dashboard`, any other is used as it is |
| `Seqs.DedupFirstOccurrenceOrder` | components/restaurants/add-restaurant-form.tsx:43 | elements of `Array.from(new Set(s))` come in the order of their first occurrence in `s` |

## Findings

| source | as written | input that shows it | evidently intended | confidence | as-written member | corrected member |
|---|---|---|---|---|---|---|
| app/auth/callback/route.ts:22 | the redirect resolves `next` (or `/dashboard`) with `new URL` against the origin and accepts any `next`; a `next` that names a host of its own, such as two slashes and a host name, replaces the origin | `?code=c&next=//evil.example` with a successful exchange redirects to `evil.example` | after sign-in, redirect only to a path on the application's own origin | medium, not executed | `AuthCallback.SchemeRelativeNextLeavesOrigin` | `AuthCallback.CallbackSafeNext` |

## Left out

- Supabase calls (session lookup, table selects, inserts, storage uploads, public URLs, the code exchange): their results are parameters of the model, and the exchange is one of three outcomes.
- Next.js routing, `router.push`/`refresh`, rendering, layouts, loading pages, `next.config.js` and the middleware's `matcher` pattern: framework configuration and presentation.
- `restaurant-image-upload.tsx`: upload plumbing whose only logic, the file extension, is the one modelled for the form.
- Latitude and longitude parsing and geolocation: floating point and a browser API; the form keeps the coordinates as text.
- The random upload file name and the time formatting of the card: randomness, a clock and a date library.
- The debounced search-parameter syncing of the search input and the clipboard of the share dialog: timers and browser APIs.
- Pasted text with several commas or newlines split into several labels: the editor does not do this, so the model does not either.
- `Text.Lower`: lower-cases ASCII letters only, because full Unicode `toLowerCase` (including characters whose lower case is longer) is not modelled.
- `AuthCallback.Resolve`: the request URL enters only through its scheme, `http` or `https`, passed as a parameter; the model follows the WHATWG URL parser as far as deciding whether the reference stays on the request's origin, leaves it, or is rejected; percent-decoding, internationalised domain names, the syntax of IPv4 and IPv6 addresses, `%` in hosts, dot segments, `file` URLs and the opaque hosts of non-special schemes are not checked, so some references the parser rejects are modelled as leaving the origin, and the path kept on the origin is not normalised.
- Strings: a Dafny `char` is a Unicode scalar value, while a JavaScript string is a sequence of UTF-16 code units, so lengths differ for characters outside the Basic Multilingual Plane (one `char` for an emoji, two code units in JavaScript) and lone surrogates cannot be represented; none of the modelled rules depends on such lengths.
- `AddRestaurantForm.UniqueDishes`: takes every fetched restaurant's dish list as present; a `null` list, which `flatMap` would keep as a `null` element, is not modelled.
- `ImageViewer.View`: an image object is always present, so the second guard on a falsy current image is not modelled.
- `HomePage.Home.FetchRestaurants`: a restaurant row holds only the columns the search and the ordering read (name, tags, dishes, number of images).
- The dialog wiring that passes callbacks the receiving components do not declare: it has no behaviour to model.
