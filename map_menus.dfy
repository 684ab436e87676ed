/** The three operations of packages/utils/src/map-menus.ts as loops, each
    proved against its fold in `MenuSpec`. */
module MapMenus {
  import opened Wrappers
  import opened Menus
  import opened MenuSpec

  /** The module's state: `firstMenu`, shared by every call of
      `MapMenusToRoutes` and never reset. */
  class MenuRouter {
    var firstMenu: Option<Submenu>

    /** Module load: `firstMenu` starts out null. */
    constructor ()
      ensures firstMenu == None
    {
      firstMenu := None;
    }

    /** Walks the menus and their submenus in order; for each submenu with a
        local route, pushes a redirect from the owning menu's url (unless an
        entry with that path is already there) and then the route. Remembers
        the first matched submenu, only while nothing is remembered yet.
        The local route table is the caller's `local`. */
    method MapMenusToRoutes(menus: seq<Menu>, local: seq<LocalRoute>) returns (routes: seq<RouteEntry>)
      modifies this
      ensures routes == BuildRoutes(Traversal(menus), local)
      ensures firstMenu ==
        if old(firstMenu).Some? then old(firstMenu) else FirstMatched(Traversal(menus), local)
    {
      routes := [];
      ghost var start := firstMenu;
      ghost var walked: seq<Visit> := [];
      var i := 0;
      while i < |menus|
        invariant 0 <= i <= |menus|
        invariant walked == Traversal(menus[..i])
        invariant routes == BuildRoutes(walked, local)
        invariant firstMenu == if start.Some? then start else FirstMatched(walked, local)
      {
        var menu := menus[i];
        ghost var done := walked;
        var j := 0;
        assert done + MenuVisits(menu)[..j] == done;
        while j < |menu.children|
          invariant 0 <= j <= |menu.children|
          invariant walked == done + MenuVisits(menu)[..j]
          invariant routes == BuildRoutes(walked, local)
          invariant firstMenu == if start.Some? then start else FirstMatched(walked, local)
        {
          var submenu := menu.children[j];
          StepCases(routes, local, Visit(menu, submenu));
          BuildRoutesSnoc(walked, local, Visit(menu, submenu));
          FirstMatchedSnoc(walked, local, Visit(menu, submenu));
          var route := FindRoute(local, submenu.url);
          if route.Some? {
            if !HasPath(routes, menu.url) {
              routes := routes + [Redirect(menu.url, route.value.path)];
            }
            routes := routes + [Leaf(route.value)];
          }
          if firstMenu.None? && route.Some? {
            firstMenu := Some(submenu);
          }
          WalkOneMore(done, menu, j);
          walked := walked + [Visit(menu, submenu)];
          j := j + 1;
        }
        assert MenuVisits(menu)[..j] == MenuVisits(menu);
        TraversalStep(menus, i);
        i := i + 1;
      }
      assert menus[..i] == menus;
    }
  }

  /** Walking child `j` of `m` after the steps `done`. */
  lemma WalkOneMore(done: seq<Visit>, m: Menu, j: int)
    requires 0 <= j < |m.children|
    ensures done + MenuVisits(m)[..j + 1] == done + MenuVisits(m)[..j] + [Visit(m, m.children[j])]
  {
    VisitsStep(m, j);
  }

  /** The first submenu, in walk order, whose url is `path`; None when there is none. */
  method MapPathToMenu(path: string, menus: seq<Menu>) returns (r: Option<Submenu>)
    ensures r == MenuForPath(Traversal(menus), path)
  {
    ghost var walked: seq<Visit> := [];
    var i := 0;
    while i < |menus|
      invariant 0 <= i <= |menus|
      invariant walked == Traversal(menus[..i])
      invariant MenuForPath(walked, path) == None
    {
      var menu := menus[i];
      ghost var done := walked;
      var j := 0;
      assert done + MenuVisits(menu)[..j] == done;
      while j < |menu.children|
        invariant 0 <= j <= |menu.children|
        invariant walked == done + MenuVisits(menu)[..j]
        invariant MenuForPath(walked, path) == None
      {
        var submenu := menu.children[j];
        MenuForPathSnoc(walked, path, Visit(menu, submenu));
        WalkOneMore(done, menu, j);
        if submenu.url == path {
          TraversalSplit(menus, i, j);
          MenuForPathExtend(walked + [Visit(menu, submenu)],
            MenuVisits(menu)[j + 1..] + Traversal(menus[i + 1..]), path);
          return Some(submenu);
        }
        walked := walked + [Visit(menu, submenu)];
        j := j + 1;
      }
      assert MenuVisits(menu)[..j] == MenuVisits(menu);
      TraversalStep(menus, i);
      i := i + 1;
    }
    assert menus[..i] == menus;
    return None;
  }

  /** The walk, cut just after child `j` of menu `i`. */
  lemma TraversalSplit(menus: seq<Menu>, i: int, j: int)
    requires 0 <= i < |menus| && 0 <= j < |menus[i].children|
    ensures Traversal(menus) ==
      Traversal(menus[..i]) + MenuVisits(menus[i])[..j + 1]
      + (MenuVisits(menus[i])[j + 1..] + Traversal(menus[i + 1..]))
  {
    assert menus == menus[..i + 1] + menus[i + 1..];
    TraversalAppend(menus[..i + 1], menus[i + 1..]);
    TraversalStep(menus, i);
    assert MenuVisits(menus[i]) == MenuVisits(menus[i])[..j + 1] + MenuVisits(menus[i])[j + 1..];
  }

  /** Once a step with url `path` has been walked, later steps do not change the answer. */
  lemma {:induction false} MenuForPathExtend(a: seq<Visit>, b: seq<Visit>, path: string)
    requires MenuForPath(a, path).Some?
    ensures MenuForPath(a + b, path) == MenuForPath(a, path)
    decreases |b|
  {
    if b != [] {
      var c := a + b;
      assert c[..|c| - 1] == a + b[..|b| - 1];
      MenuForPathExtend(a, b[..|b| - 1], path);
    } else {
      assert a + b == a;
    }
  }

  /** The breadcrumb trail for `path`: for every submenu whose url is `path`,
      its owning menu's name and url then its own, in walk order. */
  method MapPathToBreadcrumb(path: string, menus: seq<Menu>) returns (crumbs: seq<Breadcrumb>)
    ensures crumbs == Crumbs(Traversal(menus), path)
  {
    crumbs := [];
    ghost var walked: seq<Visit> := [];
    var i := 0;
    while i < |menus|
      invariant 0 <= i <= |menus|
      invariant walked == Traversal(menus[..i])
      invariant crumbs == Crumbs(walked, path)
    {
      var menu := menus[i];
      ghost var done := walked;
      var j := 0;
      assert done + MenuVisits(menu)[..j] == done;
      while j < |menu.children|
        invariant 0 <= j <= |menu.children|
        invariant walked == done + MenuVisits(menu)[..j]
        invariant crumbs == Crumbs(walked, path)
      {
        var submenu := menu.children[j];
        if submenu.url == path {
          crumbs := crumbs + [Breadcrumb(menu.name, menu.url)];
          crumbs := crumbs + [Breadcrumb(submenu.name, submenu.url)];
        }
        CrumbsSnoc(walked, path, Visit(menu, submenu));
        WalkOneMore(done, menu, j);
        walked := walked + [Visit(menu, submenu)];
        j := j + 1;
      }
      assert MenuVisits(menu)[..j] == MenuVisits(menu);
      TraversalStep(menus, i);
      i := i + 1;
    }
    assert menus[..i] == menus;
  }
}
