/** What the lookup of a path's submenu and its breadcrumb trail satisfy, for
    every walk `vs` and every `path`. */
module PathLemmas {
  import opened Wrappers
  import opened Menus
  import opened MenuSpec

  /** The submenu found for `path` is the first one in walk order with that url. */
  lemma {:induction false} MenuForPathFirst(vs: seq<Visit>, path: string)
    requires MenuForPath(vs, path).Some?
    ensures exists k :: (0 <= k < |vs| && vs[k].submenu == MenuForPath(vs, path).value
      && forall j :: 0 <= j < k ==> vs[j].submenu.url != path)
  {
    var init := vs[..|vs| - 1];
    assert forall j :: 0 <= j < |init| ==> init[j] == vs[j];
    if MenuForPath(init, path).Some? {
      MenuForPathFirst(init, path);
    } else {
      assert vs[|vs| - 1].submenu == MenuForPath(vs, path).value;
    }
  }

  /** Two breadcrumb items per submenu whose url is `path`. */
  lemma {:induction false} CrumbsLength(vs: seq<Visit>, path: string)
    ensures |Crumbs(vs, path)| == 2 * MatchCount(vs, path)
  {
    if vs != [] {
      CrumbsLength(vs[..|vs| - 1], path);
    }
  }

  /** Counting matches finds none exactly when no submenu has url `path`. */
  lemma {:induction false} MatchCountZero(vs: seq<Visit>, path: string)
    ensures MatchCount(vs, path) == 0 <==> forall k :: 0 <= k < |vs| ==> vs[k].submenu.url != path
  {
    if vs != [] {
      var init := vs[..|vs| - 1];
      MatchCountZero(init, path);
      assert forall j :: 0 <= j < |init| ==> init[j] == vs[j];
    }
  }

  /** The trail is empty exactly when no submenu has url `path`. */
  lemma CrumbsEmpty(vs: seq<Visit>, path: string)
    ensures Crumbs(vs, path) == [] <==> forall k :: 0 <= k < |vs| ==> vs[k].submenu.url != path
  {
    CrumbsLength(vs, path);
    MatchCountZero(vs, path);
  }

  /** The trail for a prefix of the walk is a prefix of the whole trail. */
  lemma {:induction false} CrumbsPrefix(vs: seq<Visit>, path: string, n: int)
    requires 0 <= n <= |vs|
    ensures Crumbs(vs[..n], path) <= Crumbs(vs, path)
    decreases |vs| - n
  {
    if n < |vs| {
      var init := vs[..|vs| - 1];
      assert init[..n] == vs[..n];
      CrumbsPrefix(init, path, n);
    } else {
      assert vs[..n] == vs;
    }
  }

  /** A submenu with url `path` that follows `c` others with that url owns the
      pair at positions 2c and 2c+1: its menu's name and url, then its own. */
  lemma CrumbsPair(vs: seq<Visit>, path: string, k: int)
    requires 0 <= k < |vs| && vs[k].submenu.url == path
    ensures 2 * MatchCount(vs[..k], path) + 1 < |Crumbs(vs, path)|
    ensures Crumbs(vs, path)[2 * MatchCount(vs[..k], path)]
      == Breadcrumb(vs[k].menu.name, vs[k].menu.url)
    ensures Crumbs(vs, path)[2 * MatchCount(vs[..k], path) + 1]
      == Breadcrumb(vs[k].submenu.name, vs[k].submenu.url)
  {
    var upTo := vs[..k + 1];
    assert upTo[..k] == vs[..k];
    CrumbsLength(vs[..k], path);
    CrumbsPrefix(vs, path, k + 1);
    var c := MatchCount(vs[..k], path);
    assert Crumbs(upTo, path) == Crumbs(vs[..k], path) + VisitCrumbs(vs[k]);
    assert Crumbs(upTo, path)[2 * c] == Crumbs(vs, path)[2 * c];
    assert Crumbs(upTo, path)[2 * c + 1] == Crumbs(vs, path)[2 * c + 1];
  }

  /** The trail's first pair is built from the submenu that the lookup of
      `path` returns, and its second item has `path` as path. */
  lemma CrumbsAgreeWithMenu(vs: seq<Visit>, path: string)
    requires MenuForPath(vs, path).Some?
    ensures |Crumbs(vs, path)| >= 2
    ensures Crumbs(vs, path)[1]
      == Breadcrumb(MenuForPath(vs, path).value.name, MenuForPath(vs, path).value.url)
    ensures Crumbs(vs, path)[1].path == path
  {
    MenuForPathFirst(vs, path);
    var k :| 0 <= k < |vs| && vs[k].submenu == MenuForPath(vs, path).value
      && forall j :: 0 <= j < k ==> vs[j].submenu.url != path;
    assert forall j :: 0 <= j < k ==> vs[..k][j] == vs[j];
    MatchCountZero(vs[..k], path);
    CrumbsPair(vs, path, k);
  }
}
