/** What the route list and the remembered first menu satisfy, for every walk
    `vs` and every local route table `local`. */
module RouteLemmas {
  import opened Wrappers
  import opened Menus
  import opened MenuSpec

  /** The table lookup picks the earliest route with the wanted path. */
  lemma {:induction false} FindRouteFirst(local: seq<LocalRoute>, url: string)
    requires FindRoute(local, url).Some?
    ensures exists k :: (0 <= k < |local| && local[k] == FindRoute(local, url).value
      && forall j :: 0 <= j < k ==> local[j].path != url)
  {
    if local[0].path != url {
      FindRouteFirst(local[1..], url);
      var k :| 0 <= k < |local[1..]| && local[1..][k] == FindRoute(local[1..], url).value
        && forall j :: 0 <= j < k ==> local[1..][j].path != url;
      assert local[k + 1] == local[1..][k];
      assert forall j :: 1 <= j < k + 1 ==> local[j] == local[1..][j - 1];
    } else {
      assert local[0] == FindRoute(local, url).value;
    }
  }

  /** Handling one step only appends. */
  lemma StepExtends(routes: seq<RouteEntry>, local: seq<LocalRoute>, v: Visit)
    ensures routes <= Step(routes, local, v)
  {
  }

  /** The route list for a prefix of the walk is a prefix of the whole list:
      entries are pushed in walk order and never revised. */
  lemma {:induction false} BuildRoutesPrefix(vs: seq<Visit>, local: seq<LocalRoute>, n: int)
    requires 0 <= n <= |vs|
    ensures BuildRoutes(vs[..n], local) <= BuildRoutes(vs, local)
    decreases |vs| - n
  {
    if n < |vs| {
      var init := vs[..|vs| - 1];
      assert init[..n] == vs[..n];
      BuildRoutesPrefix(init, local, n);
      StepExtends(BuildRoutes(init, local), local, vs[|vs| - 1]);
    } else {
      assert vs[..n] == vs;
    }
  }

  /** A submenu without a local route contributes no entry, wherever it stands
      in the walk, and cannot become the first menu. */
  lemma {:induction false} UnmatchedContributesNothing(a: seq<Visit>, v: Visit, b: seq<Visit>, local: seq<LocalRoute>)
    requires !Matched(local, v)
    ensures BuildRoutes(a + [v] + b, local) == BuildRoutes(a + b, local)
    ensures FirstMatched(a + [v] + b, local) == FirstMatched(a + b, local)
    decreases |b|
  {
    if b == [] {
      assert a + [v] + b == a + [v];
      assert a + b == a;
      BuildRoutesSnoc(a, local, v);
      FirstMatchedSnoc(a, local, v);
    } else {
      var b', x := b[..|b| - 1], b[|b| - 1];
      assert a + [v] + b == (a + [v] + b') + [x];
      assert a + b == (a + b') + [x];
      UnmatchedContributesNothing(a, v, b', local);
      BuildRoutesSnoc(a + [v] + b', local, x);
      BuildRoutesSnoc(a + b', local, x);
      FirstMatchedSnoc(a + [v] + b', local, x);
      FirstMatchedSnoc(a + b', local, x);
    }
  }

  /** The route list is empty exactly when no submenu has a local route, and
      exactly when there is no first matched submenu (so `firstMenu` is left as
      it was). */
  lemma {:induction false} EmptyIffNoMatch(vs: seq<Visit>, local: seq<LocalRoute>)
    ensures BuildRoutes(vs, local) == [] <==> forall k :: 0 <= k < |vs| ==> !Matched(local, vs[k])
    ensures BuildRoutes(vs, local) == [] <==> FirstMatched(vs, local) == None
  {
    if vs != [] {
      var init := vs[..|vs| - 1];
      EmptyIffNoMatch(init, local);
      assert forall k :: 0 <= k < |init| ==> init[k] == vs[k];
      StepExtends(BuildRoutes(init, local), local, vs[|vs| - 1]);
    }
  }

  /** The local routes in the list, in order, are exactly the routes found for
      the matched submenus, in walk order. */
  lemma {:induction false} LeavesInOrder(vs: seq<Visit>, local: seq<LocalRoute>)
    ensures Leaves(BuildRoutes(vs, local)) == MatchedRoutes(vs, local)
  {
    if vs != [] {
      var init := vs[..|vs| - 1];
      var v := vs[|vs| - 1];
      var before := BuildRoutes(init, local);
      LeavesInOrder(init, local);
      match FindRoute(local, v.submenu.url)
      case None =>
      case Some(r) =>
        if HasPath(before, v.menu.url) {
          LeavesAppend(before, [Leaf(r)]);
          assert Leaves([Leaf(r)]) == [r] by { assert [Leaf(r)][..0] == []; }
        } else {
          LeavesAppend(before, [Redirect(v.menu.url, r.path), Leaf(r)]);
          assert [Redirect(v.menu.url, r.path), Leaf(r)][..1] == [Redirect(v.menu.url, r.path)];
          assert [Redirect(v.menu.url, r.path)][..0] == [];
        }
    }
  }

  lemma {:induction false} LeavesAppend(a: seq<RouteEntry>, b: seq<RouteEntry>)
    ensures Leaves(a + b) == Leaves(a) + Leaves(b)
    decreases |b|
  {
    if b == [] {
      assert a + b == a;
    } else {
      var c := a + b;
      assert c[..|c| - 1] == a + b[..|b| - 1];
      LeavesAppend(a, b[..|b| - 1]);
    }
  }

  /** Every entry is a local route or a redirect. */
  lemma {:induction false} EntryCount(routes: seq<RouteEntry>)
    ensures |routes| == |Leaves(routes)| + RedirectCount(routes)
  {
    if routes != [] {
      EntryCount(routes[..|routes| - 1]);
    }
  }

  /** The redirects in the list are one per matched submenu that found no
      entry with its menu's url before it. */
  lemma {:induction false} RedirectsAreOpeners(vs: seq<Visit>, local: seq<LocalRoute>)
    ensures RedirectCount(BuildRoutes(vs, local)) == OpenerCount(vs, local)
  {
    if vs != [] {
      var init := vs[..|vs| - 1];
      var v := vs[|vs| - 1];
      var before := BuildRoutes(init, local);
      RedirectsAreOpeners(init, local);
      StepCases(before, local, v);
      match FindRoute(local, v.submenu.url)
      case None =>
      case Some(r) =>
        if HasPath(before, v.menu.url) {
          assert (before + [Leaf(r)])[..|before|] == before;
        } else {
          var withRedirect := before + [Redirect(v.menu.url, r.path)];
          assert (withRedirect + [Leaf(r)])[..|withRedirect|] == withRedirect;
          assert withRedirect[..|before|] == before;
        }
    }
  }

  /** The list holds one entry per matched submenu plus one redirect per
      matched submenu that found no entry with its menu's url before it. */
  lemma RouteCount(vs: seq<Visit>, local: seq<LocalRoute>)
    ensures |BuildRoutes(vs, local)| == |MatchedRoutes(vs, local)| + OpenerCount(vs, local)
  {
    LeavesInOrder(vs, local);
    EntryCount(BuildRoutes(vs, local));
    RedirectsAreOpeners(vs, local);
  }

  /** Every local route in the list comes from the table and was found for a
      submenu of the walk whose url is its path. */
  lemma {:induction false} LeafFromTable(vs: seq<Visit>, local: seq<LocalRoute>, i: int)
    requires 0 <= i < |BuildRoutes(vs, local)| && BuildRoutes(vs, local)[i].Leaf?
    ensures BuildRoutes(vs, local)[i].route in local
    ensures exists k :: (0 <= k < |vs| && vs[k].submenu.url == BuildRoutes(vs, local)[i].route.path
      && FindRoute(local, vs[k].submenu.url) == Some(BuildRoutes(vs, local)[i].route))
  {
    var init := vs[..|vs| - 1];
    var v := vs[|vs| - 1];
    var before := BuildRoutes(init, local);
    StepExtends(before, local, v);
    if i < |before| {
      LeafFromTable(init, local, i);
      var k :| 0 <= k < |init| && init[k].submenu.url == before[i].route.path
        && FindRoute(local, init[k].submenu.url) == Some(before[i].route);
      assert vs[k] == init[k];
    } else {
      assert FindRoute(local, v.submenu.url) == Some(BuildRoutes(vs, local)[i].route);
    }
  }

  /** Once a submenu has matched, some entry has its owning menu's url as path. */
  lemma MenuUrlPresent(vs: seq<Visit>, local: seq<LocalRoute>, k: int)
    requires 0 <= k < |vs| && Matched(local, vs[k])
    ensures HasPath(BuildRoutes(vs, local), vs[k].menu.url)
  {
    var upTo := vs[..k + 1];
    assert upTo[..k] == vs[..k];
    var before := BuildRoutes(vs[..k], local);
    var after := BuildRoutes(upTo, local);
    var u := vs[k].menu.url;
    if HasPath(before, u) {
      var i :| 0 <= i < |before| && before[i].Path() == u;
      StepExtends(before, local, vs[k]);
      assert after[i] == before[i];
    } else {
      assert after[|before|].Path() == u;
    }
    BuildRoutesPrefix(vs, local, k + 1);
    var i :| 0 <= i < |after| && after[i].Path() == u;
    assert BuildRoutes(vs, local)[i] == after[i];
  }

  /** The converse of `RedirectOrigin`: a matched submenu whose menu's url is
      not yet the path of any entry pushes, right there, the redirect from that
      url to its route, and then the route. */
  lemma RedirectAtOpener(vs: seq<Visit>, local: seq<LocalRoute>, k: int)
    requires 0 <= k < |vs| && Matched(local, vs[k])
    requires !HasPath(BuildRoutes(vs[..k], local), vs[k].menu.url)
    ensures |BuildRoutes(vs[..k], local)| + 1 < |BuildRoutes(vs, local)|
    ensures BuildRoutes(vs, local)[|BuildRoutes(vs[..k], local)|]
      == Redirect(vs[k].menu.url, FindRoute(local, vs[k].submenu.url).value.path)
    ensures BuildRoutes(vs, local)[|BuildRoutes(vs[..k], local)| + 1]
      == Leaf(FindRoute(local, vs[k].submenu.url).value)
  {
    var upTo := vs[..k + 1];
    assert upTo[..k] == vs[..k];
    BuildRoutesPrefix(vs, local, k + 1);
  }

  /** No two redirects share a path. */
  lemma {:induction false} RedirectsUnique(vs: seq<Visit>, local: seq<LocalRoute>, i: int, j: int)
    requires 0 <= i < j < |BuildRoutes(vs, local)|
    requires BuildRoutes(vs, local)[i].Redirect? && BuildRoutes(vs, local)[j].Redirect?
    ensures BuildRoutes(vs, local)[i].path != BuildRoutes(vs, local)[j].path
  {
    var init := vs[..|vs| - 1];
    var before := BuildRoutes(init, local);
    StepExtends(before, local, vs[|vs| - 1]);
    if j < |before| {
      RedirectsUnique(init, local, i, j);
    } else {
      assert before[i].Path() == BuildRoutes(vs, local)[i].path;
    }
  }

  /** Step `k` is the first matched one among the submenus of menus whose url
      is the url of step `k`'s menu. */
  predicate OpensMenu(vs: seq<Visit>, local: seq<LocalRoute>, k: int)
    requires 0 <= k < |vs|
  {
    Matched(local, vs[k])
    && forall j :: 0 <= j < k && vs[j].menu.url == vs[k].menu.url ==> !Matched(local, vs[j])
  }

  /** A redirect is pushed by the first matched submenu of its menu, targets
      that submenu's route, and is immediately followed by that route. */
  lemma {:induction false} RedirectOrigin(vs: seq<Visit>, local: seq<LocalRoute>, i: int)
    requires 0 <= i < |BuildRoutes(vs, local)| && BuildRoutes(vs, local)[i].Redirect?
    ensures i + 1 < |BuildRoutes(vs, local)|
    ensures exists k :: (0 <= k < |vs| && OpensMenu(vs, local, k)
      && vs[k].menu.url == BuildRoutes(vs, local)[i].path
      && BuildRoutes(vs, local)[i].target == FindRoute(local, vs[k].submenu.url).value.path
      && BuildRoutes(vs, local)[i + 1] == Leaf(FindRoute(local, vs[k].submenu.url).value))
  {
    var out := BuildRoutes(vs, local);
    var n := |vs| - 1;
    var init := vs[..n];
    var v := vs[n];
    var before := BuildRoutes(init, local);
    StepExtends(before, local, v);
    assert forall j :: 0 <= j < n ==> init[j] == vs[j];
    if i + 1 < |before| {
      RedirectOrigin(init, local, i);
      var k :| 0 <= k < |init| && OpensMenu(init, local, k)
        && init[k].menu.url == before[i].path
        && before[i].target == FindRoute(local, init[k].submenu.url).value.path
        && before[i + 1] == Leaf(FindRoute(local, init[k].submenu.url).value);
      assert OpensMenu(vs, local, k);
    } else if i < |before| {
      RedirectOrigin(init, local, i);
    } else {
      assert !HasPath(before, v.menu.url);
      forall j | 0 <= j < n && vs[j].menu.url == v.menu.url
        ensures !Matched(local, vs[j])
      {
        if Matched(local, vs[j]) {
          MenuUrlPresent(init, local, j);
        }
      }
      assert OpensMenu(vs, local, n);
    }
  }

  /** The remembered submenu is the first one in walk order with a local route. */
  lemma {:induction false} FirstMatchedFirst(vs: seq<Visit>, local: seq<LocalRoute>)
    requires FirstMatched(vs, local).Some?
    ensures exists k :: (0 <= k < |vs| && vs[k].submenu == FirstMatched(vs, local).value
      && Matched(local, vs[k]) && forall j :: 0 <= j < k ==> !Matched(local, vs[j]))
  {
    var init := vs[..|vs| - 1];
    assert forall j :: 0 <= j < |init| ==> init[j] == vs[j];
    if FirstMatched(init, local).Some? {
      FirstMatchedFirst(init, local);
    } else {
      assert vs[|vs| - 1].submenu == FirstMatched(vs, local).value;
    }
  }

  /** Every local route in the list for a menu tree is declared for some
      submenu of that tree. */
  lemma LeafFromMenus(menus: seq<Menu>, local: seq<LocalRoute>, i: int)
    requires 0 <= i < |BuildRoutes(Traversal(menus), local)|
    requires BuildRoutes(Traversal(menus), local)[i].Leaf?
    ensures exists m, s :: (m in menus && s in m.children
      && s.url == BuildRoutes(Traversal(menus), local)[i].route.path)
  {
    var vs := Traversal(menus);
    LeafFromTable(vs, local, i);
    var k :| 0 <= k < |vs| && vs[k].submenu.url == BuildRoutes(vs, local)[i].route.path
      && FindRoute(local, vs[k].submenu.url) == Some(BuildRoutes(vs, local)[i].route);
    TraversalMembers(menus, vs[k]);
    var mi :| 0 <= mi < |menus| && vs[k].menu == menus[mi] && vs[k].submenu in menus[mi].children;
    assert menus[mi] in menus;
  }

  /** The route of the first matched submenu is the first local route in the list. */
  lemma {:induction false} FirstMatchedRouteFirst(vs: seq<Visit>, local: seq<LocalRoute>)
    requires FirstMatched(vs, local).Some?
    ensures Leaves(BuildRoutes(vs, local)) != []
    ensures Leaves(BuildRoutes(vs, local))[0] == FindRoute(local, FirstMatched(vs, local).value.url).value
  {
    var init := vs[..|vs| - 1];
    LeavesInOrder(vs, local);
    LeavesInOrder(init, local);
    assert MatchedRoutes(init, local) <= MatchedRoutes(vs, local);
    if FirstMatched(init, local).Some? {
      FirstMatchedRouteFirst(init, local);
    } else {
      EmptyIffNoMatch(init, local);
    }
  }

  /** The two-submenu menu "/system" with both routes declared: a redirect to
      the first route, then both routes; "Users" is the first menu. */
  lemma SystemMenuExample()
    ensures
      var users := Submenu("/system/user", "Users");
      var roles := Submenu("/system/role", "Roles");
      var menus := [Menu("/system", "System", [users, roles])];
      var userRoute := LocalRoute("/system/user", Component("user"));
      var roleRoute := LocalRoute("/system/role", Component("role"));
      var local := [userRoute, roleRoute];
      BuildRoutes(Traversal(menus), local)
        == [Redirect("/system", "/system/user"), Leaf(userRoute), Leaf(roleRoute)]
      && FirstMatched(Traversal(menus), local) == Some(users)
  {
    var users := Submenu("/system/user", "Users");
    var roles := Submenu("/system/role", "Roles");
    var system := Menu("/system", "System", [users, roles]);
    var menus := [system];
    var userRoute := LocalRoute("/system/user", Component("user"));
    var roleRoute := LocalRoute("/system/role", Component("role"));
    var local := [userRoute, roleRoute];
    var vs := Traversal(menus);
    assert menus[..0] == [];
    assert MenuVisits(system) == [Visit(system, users), Visit(system, roles)];
    assert vs == Traversal(menus[..0]) + MenuVisits(system);
    assert vs == [Visit(system, users), Visit(system, roles)];
    assert vs[..1] == [Visit(system, users)];
    assert vs[..1][..0] == [];
    assert FindRoute(local, "/system/user") == Some(userRoute);
    assert FindRoute(local, "/system/role") == Some(roleRoute);
    assert BuildRoutes(vs[..1][..0], local) == [];
    assert !HasPath([], "/system");
    var first := BuildRoutes(vs[..1], local);
    assert first == [Redirect("/system", "/system/user"), Leaf(userRoute)];
    assert first[0].Path() == "/system";
  }
}
