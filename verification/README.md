# Thunder Routes: route ordering, the route form and the route pipeline in Dafny

Thunder Routes is a single-page route planner. The user enters a fixed start, stops in any order and an optional fixed end. This can be done field by field or as one text with one location per line. An external resolver turns each text into a location record. The page then orders the stops with a greedy nearest-neighbour pass that keeps the start first and the end last, and builds a Google Maps directions link for the result.

This project models the logic behind that flow:

- `Types`: the location record (`LocationData`), the route status and the route state (types.ts).
- `RouteOrder`: `optimizeRouteLocations` (utils/geoUtils.ts).
  - The haversine `getDistance` is an abstract parameter `dist` whose result may be NaN.
  - The inner scan is stated once as a recursive function (`ScanFrom`/`Pick`) and once as a declarative selection rule (`IsPick`/`Stuck`), and the two are proved equal.
  - The outer loop is the recursive `Greedy`.
  - The loop-shaped methods `FindNearest` and `OptimizeRouteLocations` follow the source's control flow and are proved equal to the functions.
- `MapsLink`: `generateGoogleMapsUrl`, with JavaScript truthiness for the address and the coordinates.
- `LocationInput`: the handlers of components/LocationInput.tsx as functions from form state to form state. These are `handleInputChange`, `addField`, `removeField`, `toggleMode`, `handleSubmit` and `isSubmitDisabled`.
- `App`: App.tsx's list of texts sent to the resolver, the sequence of route states `handleResolveLocations` sets, the `isLoading` flag passed to the form, and a confirmed `handleReset`.
- `Text` and `Wrappers`: JavaScript's `trim`, `split`, `join` and `filter`, and `Option`/`Result`.

Conventions:

- Which characters `trim` removes is a parameter `ws`, so no Unicode whitespace table is built in.
- The network resolver is a parameter `resolve` that returns the resolved list or the thrown error's optional message.
- `encodeURIComponent` and number-to-text are the parameters `encode` and `numText`.

Where the code's behaviour is surprising, the model follows the code:

- Suppose every remaining intermediate is coordinated and every distance from the current location is NaN. The code's scan then picks nothing and the loop stops, silently dropping those intermediates; no error is raised. `Stuck`, `GreedyVisitsAtMostOnce` and `OptimizeRouteShape` describe the code's behaviour; `OptimizeRoutePermutes` gives the full permutation once NaN is excluded.
- Ties go to the earliest location in the list order. This is because the unvisited `Set` iterates in insertion order and only a strictly smaller distance replaces the current choice.

## Model

| member | source | states |
|---|---|---|
| Text.Trim | components/LocationInput.tsx:67 | `trim` returns no longer text, starting and ending with non-whitespace, and empty exactly when the text is all whitespace |
| Text.TrimIsSlice | components/LocationInput.tsx:18 | the trimmed text is a contiguous slice of the original with only whitespace cut before and after |
| Text.TrimIdempotent | components/LocationInput.tsx:18 | trimming twice equals trimming once |
| Text.SplitJoin | components/LocationInput.tsx:18-22 | splitting a newline-joined list of newline-free strings gives the list back |
| Text.JoinSplit | components/LocationInput.tsx:19-22 | joining the pieces of a split with the separator gives the text back |
| Text.FilterCount | components/LocationInput.tsx:55 | `filter` keeps each passing value as often as it occurs and drops every failing one |
| Text.TrimThenDropEmpty | components/LocationInput.tsx:18 | trimming then dropping empty strings equals dropping blank strings then trimming |
| Text.FilledTextHasFilledLine | components/LocationInput.tsx:58 | when newline counts as whitespace, a non-blank text has a non-blank line |
| RouteOrder.ScanSound | utils/geoUtils.ts:38-53 | from any consistent midpoint of the scan, a returned position obeys the selection rule, and returning none means stuck |
| RouteOrder.PickMatchesRule | utils/geoUtils.ts:38-53 | the scan picks position k if and only if k obeys the selection rule, and picks nothing if and only if nothing is left or all distances are NaN |
| RouteOrder.IsPickUnique | utils/geoUtils.ts:41-53 | at most one position obeys the selection rule |
| RouteOrder.PickWithoutCurrentCoordinates | utils/geoUtils.ts:42-51 | when the current location has no coordinates the first remaining location is chosen |
| RouteOrder.PickFirstUncoordinated | utils/geoUtils.ts:42-51 | otherwise the first remaining location without coordinates is chosen, whatever the distances before it |
| RouteOrder.PickNearest | utils/geoUtils.ts:41-47 | with coordinates everywhere and no NaN, the choice is at the least distance and strictly nearer than every earlier location |
| RouteOrder.FindNearest | utils/geoUtils.ts:38-53 | the loop version of the scan returns the rule's choice, or nothing exactly when stuck |
| RouteOrder.RemoveAt | utils/geoUtils.ts:57 | deleting the visited location leaves one fewer, and exactly that one occurrence goes |
| RouteOrder.GreedyVisitsAtMostOnce | utils/geoUtils.ts:34-62 | for any distance function the visited locations are a sub-multiset of the intermediates: nothing is invented or repeated |
| RouteOrder.GreedyVisitsAll | utils/geoUtils.ts:37-62 | with no NaN distance every intermediate is visited exactly once |
| RouteOrder.OptimizeRouteShape | utils/geoUtils.ts:26-68 | up to two locations come back unchanged; longer routes keep first and last, do not grow, and use each intermediate at most once |
| RouteOrder.OptimizeRoutePermutes | utils/geoUtils.ts:26-68 | with no NaN distance the result is a permutation of the input with the same first and last location |
| RouteOrder.OptimizeRouteLocations | utils/geoUtils.ts:26-68 | the loop version (outer while, inner scan, early break) computes the recursive greedy route |
| RouteOrder.OptimizeRouteOf | utils/geoUtils.ts:27-33 | a route with at least one stop is start, the greedy order of the stops from start, end |
| RouteOrder.NearestNeighbourExample | utils/geoUtils.ts:37-62 | stops A, B, C ranked A, C, B from the start and C, B from A are visited A, C, B |
| RouteOrder.LastStop | utils/geoUtils.ts:37-62 | a single remaining stop at a non-NaN distance is visited |
| RouteOrder.UnresolvedStopFirst | utils/geoUtils.ts:48-51 | a stop without coordinates before a coordinated one is visited first |
| RouteOrder.UnresolvedStopOverridesNearer | utils/geoUtils.ts:48-51 | a stop without coordinates after a coordinated one is still visited first, overriding the distance already compared |
| MapsLink.Segments | utils/geoUtils.ts:75-83 | one path piece per location, in route order |
| MapsLink.MapsUrlPieces | utils/geoUtils.ts:70-86 | an empty route links to the landing page; otherwise the link is the directions prefix followed by slash-separated pieces, one per location, each the encoded address, else the non-zero coordinates, else the encoded typed text |
| MapsLink.ZeroCoordinateFallsThrough | utils/geoUtils.ts:78 | a zero latitude or longitude is falsy, so without an address the typed text is used |
| LocationInput.InputChange | components/LocationInput.tsx:37-41 | the edited stop field takes the value and every other field is unchanged |
| LocationInput.AddField | components/LocationInput.tsx:43-45 | one empty field is appended after the existing ones |
| LocationInput.Without | components/LocationInput.tsx:48 | filtering by index removes exactly the element at an in-range index, and nothing otherwise |
| LocationInput.RemoveField | components/LocationInput.tsx:47-50 | the field is removed and the others keep their order; removing the last field leaves one empty field; the list is never empty |
| LocationInput.RemoveAddedField | components/LocationInput.tsx:43-50 | adding a field and then removing it restores the form |
| LocationInput.Lines | components/LocationInput.tsx:22 | every line taken from the bulk text is non-blank |
| LocationInput.ListToBulk | components/LocationInput.tsx:17-20 | the bulk text becomes the trimmed non-blank fields (start, stops, end) joined by newlines, and the fields stay |
| LocationInput.BulkToList | components/LocationInput.tsx:21-34 | with no line the fields stay; one line sets start and clears end and stops; two or more set start and end from first and last, with the lines between as stops or one empty field |
| LocationInput.ListBulkListRoundTrip | components/LocationInput.tsx:16-35 | trimmed, filled, one-line fields survive a switch to bulk and back |
| LocationInput.BulkListBulkNormalises | components/LocationInput.tsx:16-35 | a switch to list and back rewrites the bulk text as its trimmed non-blank lines |
| LocationInput.Submit | components/LocationInput.tsx:52-65 | no stop sent is blank |
| LocationInput.SubmitFromList | components/LocationInput.tsx:54-56 | from the list view, start and end go as typed and the stops are the filled fields in order, each with its multiplicity |
| LocationInput.SubmitFromBulk | components/LocationInput.tsx:57-64 | from bulk: nothing is sent exactly when there is no line; two or more lines are sent as first, middle, last; one line is sent as start with no stops and an empty end |
| LocationInput.SubmitSurvivesToggle | components/LocationInput.tsx:16-65 | when the bulk text has a line, switching to the list view does not change what a submit sends |
| LocationInput.SubmitDisabled | components/LocationInput.tsx:67 | the button is disabled exactly when loading, or when the active view's start or bulk text is blank |
| LocationInput.EnabledSubmitResolves | components/LocationInput.tsx:52-67 | when trim removes newlines, an enabled button always leads to a resolve call |
| App.ResolutionInputs | App.tsx:23-24 | the resolver gets the start, the stops in order, and the end only when it is not blank; so the last text is the end when it is filled, else the last stop, else the start |
| App.ErrorText | App.tsx:43 | the error text is the error's own message when it has a non-empty one, and otherwise the fixed fallback text, so it is never empty |
| App.HandleResolve | App.tsx:18-46 | the first state shows loading over the old route with no error; on success exactly three states are set, the second optimizing over the old route with no error, the last the ordered resolved route as ready; on failure exactly two, the last an emptied route in the error status with the error text; every state before the last is loading or optimizing (the form's `isLoading`, App.tsx:172) and the last is neither |
| App.FixedEndpoints | App.tsx:22-32 | when the resolver answers one location per text in order, the ordered route starts at the first text sent and ends at the last one |
| App.ReadyRouteIsPermutation | App.tsx:27-37 | with no NaN distance the ready route is a reordering of the resolved locations that keeps the first and last |
| App.SubmittedTextsFilled | App.tsx:18-24 | every text after the start that a form submission sends to the resolver is non-blank |
| App.Reset | App.tsx:67-73 | a confirmed reset empties the route, makes it idle with no error, closes the menu and changes the form key, which restarts the form; an unconfirmed one changes nothing |
| App.ResetStartsOver | App.tsx:11-16 | after a confirmed reset the page equals the freshly loaded page apart from the form key, and submitting is disabled |

## Left out

- `getDistance`: the haversine formula is floating-point trigonometry. It is the parameter `dist`, whose results are compared with JavaScript's rules (NaN is never smaller, every number is smaller than Infinity). The route examples assume only the distance ranking they need.
- services/gemini.ts is not part of this model. Location resolution is the parameter `resolve`, which returns the located records or the thrown error's optional message.
- Rendering, icons, the menu's open button, the help and share dialogs, `window.open`, `window.confirm`, the clipboard and `console.error` are UI side effects. `window.confirm`'s answer is the `confirmed` parameter of `App.Reset`.
- React's asynchronous state scheduling is not modelled. `App.HandleResolve` returns the states the handler sets, in order, as a trace.
- `key={inputKey}` remounting the form is modelled as the form returning to its initial state in `App.Reset`.
- The `onChange` setters of the start, end and bulk text fields are plain field writes and have no member.
- `LocationInput.InputChange`: requires an in-range index. The form only calls it with the index of an existing field; JavaScript would extend the array with holes for a larger index.
- `MapsLink.MapsUrlPieces`: `encodeURIComponent` and the number-to-text conversion are abstract. The lemma assumes neither produces a slash, which the real `encodeURIComponent` ensures by escaping `/`.
- Numbers are reals. There are no NaN or infinite coordinates and no `null` coordinates from JSON; an absent coordinate is `None`.
- A `Set` keyed by object identity is modelled as a sequence with removal by position. Two equal records are distinct entries, which is what reference identity gives.
- No error is raised for an empty scan; the code drops the remaining intermediates, and the model does the same.
- No concrete URL is proved; `MapsLink.MapsUrlPieces` covers every route.
- Whitespace for `trim` is the parameter `ws`. `LocationInput.EnabledSubmitResolves` additionally requires that newline counts as whitespace, which JavaScript's `trim` satisfies.
