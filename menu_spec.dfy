/** What the three mapping operations compute, stated as folds over the
    menu-then-submenu walk (see `Menus.Traversal`). Each fold recurses on the
    last step, so the loops in `MapMenus` keep "result so far == fold of the
    steps walked so far" as their invariant. */
module MenuSpec {
  import opened Wrappers
  import opened Menus

  /** The first local route whose path equals `url` (the table lookup by
      `find`), or None. */
  function FindRoute(local: seq<LocalRoute>, url: string): (r: Option<LocalRoute>)
    ensures r.Some? ==> r.value in local && r.value.path == url
    ensures r.None? <==> forall k :: 0 <= k < |local| ==> local[k].path != url
  {
    if local == [] then None
    else if local[0].path == url then Some(local[0])
    else
      var r := FindRoute(local[1..], url);
      assert forall k :: 1 <= k < |local| ==> local[k] == local[1..][k - 1];
      r
  }

  /** Some entry already produced has path `url` (the duplicate check, which
      looks at redirects and local routes alike). */
  predicate HasPath(routes: seq<RouteEntry>, url: string) {
    exists i :: 0 <= i < |routes| && routes[i].Path() == url
  }

  /** The submenu of `v` has a local route. */
  predicate Matched(local: seq<LocalRoute>, v: Visit) {
    FindRoute(local, v.submenu.url).Some?
  }

  /** The entries after handling one step, given the entries so far: nothing
      for an unmatched submenu; otherwise a redirect from the owning menu's url
      to the matched route, unless some entry already has that path, followed
      by the matched route itself. */
  function Step(routes: seq<RouteEntry>, local: seq<LocalRoute>, v: Visit): (r: seq<RouteEntry>)
    ensures routes <= r && |r| <= |routes| + 2
    ensures FindRoute(local, v.submenu.url).None? ==> r == routes
    ensures FindRoute(local, v.submenu.url).Some? ==>
      r != [] && r[|r| - 1] == Leaf(FindRoute(local, v.submenu.url).value)
  {
    match FindRoute(local, v.submenu.url)
    case None => routes
    case Some(r) =>
      (if HasPath(routes, v.menu.url) then routes else routes + [Redirect(v.menu.url, r.path)])
      + [Leaf(r)]
  }

  /** `Step` on a step whose submenu's route is `route` (or None), given whether
      an entry with the menu's url is present. */
  lemma StepCases(routes: seq<RouteEntry>, local: seq<LocalRoute>, v: Visit)
    ensures FindRoute(local, v.submenu.url).Some? && HasPath(routes, v.menu.url) ==>
      Step(routes, local, v) == routes + [Leaf(FindRoute(local, v.submenu.url).value)]
    ensures FindRoute(local, v.submenu.url).Some? && !HasPath(routes, v.menu.url) ==>
      Step(routes, local, v) == routes
        + [Redirect(v.menu.url, FindRoute(local, v.submenu.url).value.path)]
        + [Leaf(FindRoute(local, v.submenu.url).value)]
  {
  }

  /** The route list produced for the steps `vs`. */
  function BuildRoutes(vs: seq<Visit>, local: seq<LocalRoute>): (r: seq<RouteEntry>)
    ensures |r| <= 2 * |vs|
  {
    if vs == [] then []
    else Step(BuildRoutes(vs[..|vs| - 1], local), local, vs[|vs| - 1])
  }

  /** One more step of the walk is one more `Step`. */
  lemma BuildRoutesSnoc(vs: seq<Visit>, local: seq<LocalRoute>, v: Visit)
    ensures BuildRoutes(vs + [v], local) == Step(BuildRoutes(vs, local), local, v)
  {
    assert (vs + [v])[..|vs|] == vs;
  }

  /** The submenu of the first step whose submenu has a local route, or None. */
  function FirstMatched(vs: seq<Visit>, local: seq<LocalRoute>): (r: Option<Submenu>)
    ensures r.Some? ==> FindRoute(local, r.value.url).Some?
    ensures r.None? <==> forall k :: 0 <= k < |vs| ==> !Matched(local, vs[k])
  {
    if vs == [] then None
    else
      var f := FirstMatched(vs[..|vs| - 1], local);
      if f.Some? then f
      else if Matched(local, vs[|vs| - 1]) then Some(vs[|vs| - 1].submenu)
      else None
  }

  /** One more step remembers its submenu exactly when nothing was remembered
      before and the submenu matched. */
  lemma FirstMatchedSnoc(vs: seq<Visit>, local: seq<LocalRoute>, v: Visit)
    ensures FirstMatched(vs + [v], local) ==
      if FirstMatched(vs, local).Some? then FirstMatched(vs, local)
      else if Matched(local, v) then Some(v.submenu) else None
  {
    assert (vs + [v])[..|vs|] == vs;
  }

  /** The local routes of the matched steps, in walk order. */
  function MatchedRoutes(vs: seq<Visit>, local: seq<LocalRoute>): seq<LocalRoute> {
    if vs == [] then []
    else
      MatchedRoutes(vs[..|vs| - 1], local)
      + match FindRoute(local, vs[|vs| - 1].submenu.url)
        case Some(r) => [r]
        case None => []
  }

  /** The local routes among `routes`, in order. */
  function Leaves(routes: seq<RouteEntry>): seq<LocalRoute> {
    if routes == [] then []
    else
      Leaves(routes[..|routes| - 1])
      + match routes[|routes| - 1]
        case Leaf(r) => [r]
        case Redirect(_, _) => []
  }

  /** How many entries of `routes` are redirects. */
  function RedirectCount(routes: seq<RouteEntry>): nat {
    if routes == [] then 0
    else RedirectCount(routes[..|routes| - 1]) + if routes[|routes| - 1].Redirect? then 1 else 0
  }

  /** How many matched steps find no entry with their menu's url among the
      entries produced before them, counted over the walk rather than the output. */
  function OpenerCount(vs: seq<Visit>, local: seq<LocalRoute>): nat {
    if vs == [] then 0
    else
      var init := vs[..|vs| - 1];
      var v := vs[|vs| - 1];
      OpenerCount(init, local)
      + if Matched(local, v) && !HasPath(BuildRoutes(init, local), v.menu.url) then 1 else 0
  }

  /** The submenu of the first step whose submenu url is `path`, or None. */
  function MenuForPath(vs: seq<Visit>, path: string): (r: Option<Submenu>)
    ensures r.Some? ==> r.value.url == path
    ensures r.None? <==> forall k :: 0 <= k < |vs| ==> vs[k].submenu.url != path
  {
    if vs == [] then None
    else
      var f := MenuForPath(vs[..|vs| - 1], path);
      if f.Some? then f
      else if vs[|vs| - 1].submenu.url == path then Some(vs[|vs| - 1].submenu)
      else None
  }

  /** One more step finds its submenu exactly when nothing was found before
      and its url is `path`. */
  lemma MenuForPathSnoc(vs: seq<Visit>, path: string, v: Visit)
    ensures MenuForPath(vs + [v], path) ==
      if MenuForPath(vs, path).Some? then MenuForPath(vs, path)
      else if v.submenu.url == path then Some(v.submenu) else None
  {
    assert (vs + [v])[..|vs|] == vs;
  }

  /** The breadcrumb pair of one step: owning menu, then submenu. */
  function VisitCrumbs(v: Visit): seq<Breadcrumb> {
    [Breadcrumb(v.menu.name, v.menu.url), Breadcrumb(v.submenu.name, v.submenu.url)]
  }

  /** The breadcrumb trail for `path`: one pair per step whose submenu url is `path`. */
  function Crumbs(vs: seq<Visit>, path: string): seq<Breadcrumb> {
    if vs == [] then []
    else
      Crumbs(vs[..|vs| - 1], path)
      + if vs[|vs| - 1].submenu.url == path then VisitCrumbs(vs[|vs| - 1]) else []
  }

  /** One more step adds its pair exactly when its url is `path`. */
  lemma CrumbsSnoc(vs: seq<Visit>, path: string, v: Visit)
    ensures Crumbs(vs + [v], path) ==
      Crumbs(vs, path) + if v.submenu.url == path then VisitCrumbs(v) else []
  {
    assert (vs + [v])[..|vs|] == vs;
  }

  /** How many steps have submenu url `path`. */
  function MatchCount(vs: seq<Visit>, path: string): nat {
    if vs == [] then 0
    else MatchCount(vs[..|vs| - 1], path) + if vs[|vs| - 1].submenu.url == path then 1 else 0
  }
}
