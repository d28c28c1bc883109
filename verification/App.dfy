/** The page-level pipeline of App.tsx: which texts go to the location
    resolver, how the route state moves through its statuses while a route
    is resolved and ordered, and what a confirmed reset does. The resolver
    (a network call) is the parameter `resolve`; its failure carries the
    thrown error's `message`, which may be missing. */
module App {
  import opened Wrappers
  import opened Types
  import opened Text
  import opened RouteOrder
  import opened LocationInput

  /** Shown when the thrown error has no message. */
  const FallbackMessage: string :=
    "No se pudieron resolver las ubicaciones. Por favor, verifica tu conexión e inténtalo de nuevo."

  /** The page's state: the route, whether the menu is open, the key that
      remounts the form, and the form's own state. */
  datatype AppState = AppState(route: RouteState, menuOpen: bool, inputKey: nat, form: Form)

  const InitialApp: AppState := AppState(RouteState([], Idle, None), false, 0, InitialForm)

  /** The texts sent to the resolver: start, the stops, and the end only
      when `end.trim()` is not empty. */
  function ResolutionInputs(ws: char -> bool, start: string, stops: seq<string>, end: string): (all: seq<string>)
    ensures |all| == 1 + |stops| + (if Blank(ws, end) then 0 else 1)
    ensures all[0] == start && all[1..1 + |stops|] == stops
    ensures all[|all| - 1] == if !Blank(ws, end) then end else if |stops| > 0 then stops[|stops| - 1] else start
  {
    [start] + stops + (if Trim(ws, end) != "" then [end] else [])
  }

  /** The form's `isLoading`: a resolution is under way. */
  predicate Busy(status: RouteStatus)
  {
    status == Loading || status == Optimizing
  }

  /** `error.message || FallbackMessage`. */
  function ErrorText(message: Option<string>): (r: string)
    ensures r != ""
    ensures message.Some? && message.value != "" ==> r == message.value
    ensures !(message.Some? && message.value != "") ==> r == FallbackMessage
  {
    if message.Some? && message.value != "" then message.value else FallbackMessage
  }

  /** `handleResolveLocations`: the route states it sets, in order. The
      first clears the error and shows the loading status over the old
      route; on success an optimising state follows, then the ordered route;
      on failure the error state. */
  function HandleResolve(dist: (real, real, real, real) -> Distance, ws: char -> bool, prev: RouteState,
                         start: string, stops: seq<string>, end: string,
                         resolve: seq<string> -> Result<seq<Location>, Option<string>>): (trace: seq<RouteState>)
    ensures 2 <= |trace| <= 3
    ensures trace[0] == RouteState(prev.locations, Loading, None)
    ensures Busy(trace[0].status) && Busy(trace[|trace| - 2].status)
    ensures resolve(ResolutionInputs(ws, start, stops, end)).Ok? <==> |trace| == 3
    ensures |trace| == 3 ==> trace[1] == RouteState(prev.locations, Optimizing, None)
    ensures !Busy(trace[|trace| - 1].status)
    ensures var answer := resolve(ResolutionInputs(ws, start, stops, end));
            answer.Ok? ==> trace[|trace| - 1] == RouteState(OptimizeRoute(dist, answer.value), Ready, None)
    ensures var answer := resolve(ResolutionInputs(ws, start, stops, end));
            answer.Err? ==> trace[|trace| - 1] == RouteState([], Error, Some(ErrorText(answer.error)))
  {
    var loading := prev.(status := Loading, errorMessage := None);
    match resolve(ResolutionInputs(ws, start, stops, end))
    case Ok(resolved) =>
      var optimizing := loading.(status := Optimizing);
      [loading, optimizing, RouteState(OptimizeRoute(dist, resolved), Ready, None)]
    case Err(message) =>
      [loading, RouteState([], Error, Some(ErrorText(message)))]
  }

  /** The resolver answered one location per text, in the order given. */
  predicate AnswersInOrder(texts: seq<string>, resolved: seq<Location>)
  {
    |resolved| == |texts| && forall i | 0 <= i < |texts| :: resolved[i].originalInput == texts[i]
  }

  /** When the resolver answers one location per text, in order, the
      ordered route starts at the first text and ends at the last; by
      `ResolutionInputs`, that is the start, and the end when it is filled,
      else the last stop, else the start. */
  lemma FixedEndpoints(dist: (real, real, real, real) -> Distance, texts: seq<string>, resolved: seq<Location>)
    requires |texts| > 0
    requires AnswersInOrder(texts, resolved)
    ensures var r := OptimizeRoute(dist, resolved);
            && |r| > 0
            && r[0].originalInput == texts[0]
            && r[|r| - 1].originalInput == texts[|texts| - 1]
  {
    OptimizeRouteShape(dist, resolved);
  }

  /** On success, with no NaN distance, the route shown is a reordering of
      the resolved locations that keeps the first and the last. */
  lemma ReadyRouteIsPermutation(dist: (real, real, real, real) -> Distance, ws: char -> bool, prev: RouteState,
                                start: string, stops: seq<string>, end: string,
                                resolve: seq<string> -> Result<seq<Location>, Option<string>>)
    requires NeverNaN(dist)
    requires resolve(ResolutionInputs(ws, start, stops, end)).Ok?
    ensures var trace := HandleResolve(dist, ws, prev, start, stops, end, resolve);
            var resolved := resolve(ResolutionInputs(ws, start, stops, end)).value;
            var shown := trace[|trace| - 1].locations;
            && trace[|trace| - 1].status == Ready
            && multiset(shown) == multiset(resolved)
            && (|resolved| > 0 ==> shown[0] == resolved[0] && shown[|shown| - 1] == resolved[|resolved| - 1])
  {
    OptimizeRoutePermutes(dist, resolve(ResolutionInputs(ws, start, stops, end)).value);
  }

  /** Whatever the form submits, every text after the start that goes to
      the resolver is filled. */
  lemma SubmittedTextsFilled(ws: char -> bool, f: Form)
    requires Submit(ws, f).Some?
    ensures var s := Submit(ws, f).value;
            var all := ResolutionInputs(ws, s.start, s.stops, s.end);
            forall i | 1 <= i < |all| :: !Blank(ws, all[i])
  {
    var s := Submit(ws, f).value;
    var all := ResolutionInputs(ws, s.start, s.stops, s.end);
    forall i | 1 <= i < |all| ensures !Blank(ws, all[i]) {
      if i <= |s.stops| {
        assert all[i] == all[1..1 + |s.stops|][i - 1];
      }
    }
  }

  /** `handleReset`: when confirmed, the route is emptied and idle, the menu
      closes, and the form key changes, so the form starts over; when not
      confirmed, nothing changes. */
  function Reset(app: AppState, confirmed: bool): (r: AppState)
    ensures !confirmed ==> r == app
    ensures confirmed ==>
              && r.route.locations == [] && r.route.status == Idle && r.route.errorMessage.None?
              && r.inputKey == app.inputKey + 1 && r.inputKey != app.inputKey
              && !r.menuOpen
              && r.form == InitialForm
  {
    if confirmed then
      AppState(RouteState([], Idle, None), false, app.inputKey + 1, InitialForm)
    else app
  }

  /** After a confirmed reset the page is the freshly loaded page, except
      for the form key, and the submit button is disabled until a start is
      typed. */
  lemma ResetStartsOver(ws: char -> bool, app: AppState)
    ensures Reset(app, true) == InitialApp.(inputKey := app.inputKey + 1)
    ensures SubmitDisabled(ws, Busy(Reset(app, true).route.status), Reset(app, true).form)
  {
  }
}
