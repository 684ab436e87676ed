/** The data that the menu-to-route mapping works on: the menu tree a user is
    granted, the table of locally declared routes, and what is produced from them. */
module Menus {

  /** A second-level menu entry; its url is what a local route must match. */
  datatype Submenu = Submenu(url: string, name: string)

  /** A top-level menu group with its submenus in display order. */
  datatype Menu = Menu(url: string, name: string, children: seq<Submenu>)

  /** The renderable unit a route points at; its contents play no part here. */
  datatype Component = Component(id: string)

  /** One locally declared route. */
  datatype LocalRoute = LocalRoute(path: string, component: Component)

  /** An entry of the produced route list: a synthetic redirect from a top-level
      menu's url, or a local route pushed unchanged. */
  datatype RouteEntry =
    | Redirect(path: string, target: string)
    | Leaf(route: LocalRoute)
  {
    /** The `path` field every entry has, the one the duplicate check looks at. */
    function Path(): string {
      match this
      case Redirect(p, _) => p
      case Leaf(r) => r.path
    }
  }

  /** One item of the breadcrumb trail. */
  datatype Breadcrumb = Breadcrumb(name: string, path: string)

  /** One step of the nested menu-then-submenu walk: the submenu and the menu owning it. */
  datatype Visit = Visit(menu: Menu, submenu: Submenu)

  /** The steps of the walk over one menu's children, in order. */
  function MenuVisits(m: Menu): seq<Visit> {
    seq(|m.children|, k requires 0 <= k < |m.children| => Visit(m, m.children[k]))
  }

  /** The steps of the nested walk over all menus, in order. */
  function Traversal(menus: seq<Menu>): seq<Visit> {
    if menus == [] then []
    else Traversal(menus[..|menus| - 1]) + MenuVisits(menus[|menus| - 1])
  }

  lemma {:induction false} TraversalAppend(a: seq<Menu>, b: seq<Menu>)
    ensures Traversal(a + b) == Traversal(a) + Traversal(b)
    decreases |b|
  {
    if b == [] {
      assert a + b == a;
    } else {
      var c := a + b;
      assert c[..|c| - 1] == a + b[..|b| - 1];
      assert c[|c| - 1] == b[|b| - 1];
      TraversalAppend(a, b[..|b| - 1]);
    }
  }

  /** Walking one more menu appends that menu's steps. */
  lemma TraversalStep(menus: seq<Menu>, i: int)
    requires 0 <= i < |menus|
    ensures Traversal(menus[..i + 1]) == Traversal(menus[..i]) + MenuVisits(menus[i])
  {
    assert menus[..i + 1][..i] == menus[..i];
  }

  /** Walking one more child appends that child's step. */
  lemma VisitsStep(m: Menu, j: int)
    requires 0 <= j < |m.children|
    ensures MenuVisits(m)[..j + 1] == MenuVisits(m)[..j] + [Visit(m, m.children[j])]
  {
  }

  /** The walk meets exactly the pairs (menu, one of its children) of the input. */
  lemma {:induction false} TraversalMembers(menus: seq<Menu>, v: Visit)
    ensures v in Traversal(menus) <==>
      exists i :: 0 <= i < |menus| && v.menu == menus[i] && v.submenu in menus[i].children
  {
    if menus != [] {
      var init := menus[..|menus| - 1];
      var m := menus[|menus| - 1];
      TraversalMembers(init, v);
      assert v in MenuVisits(m) <==> v.menu == m && v.submenu in m.children by {
        if v.menu == m && v.submenu in m.children {
          var j :| 0 <= j < |m.children| && m.children[j] == v.submenu;
          assert MenuVisits(m)[j] == v;
        }
      }
      if exists i :: 0 <= i < |menus| && v.menu == menus[i] && v.submenu in menus[i].children {
        var i :| 0 <= i < |menus| && v.menu == menus[i] && v.submenu in menus[i].children;
        if i < |init| {
          assert init[i] == menus[i];
        }
      }
      if v in Traversal(init) {
        var i :| 0 <= i < |init| && v.menu == init[i] && v.submenu in init[i].children;
        assert menus[i] == init[i];
      }
    }
  }
}
