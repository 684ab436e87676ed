# Menu-to-route mapping of the CMS admin console

This project models `packages/utils/src/map-menus.ts` in Dafny. After a user logs in, the server sends a menu tree: top-level menus, each with a url, a name and ordered submenus. The file turns that tree into what the router and the page chrome need:

- `mapMenusToRoutes` walks every menu and then its submenus, in order. For each submenu it looks up the first locally declared route whose path equals the submenu's url. When it finds one, it first pushes a redirect from the owning menu's url to that route, unless an entry with that path is already in the list. Then it pushes the route itself. The module-level `firstMenu` remembers the first matched submenu. It is set only while it is still null and is never reset between calls.
- `mapPathToMenu` returns the first submenu, in walk order, whose url is the given path, or nothing.
- `mapPathToBreadcrumb` returns the pair (menu name/url, submenu name/url) for every submenu whose url is the path, in walk order.

Layout:

- `option.dfy` (`Wrappers`): `Option`.
- `menus.dfy` (`Menus`): menus, submenus, local routes, route entries and breadcrumbs. `Traversal` is the menu-then-submenu walk, as a sequence of `Visit(menu, submenu)`.
- `menu_spec.dfy` (`MenuSpec`): each operation's result as a fold over the walk (`BuildRoutes`, `FirstMatched`, `MenuForPath`, `Crumbs`), plus the local-route lookup `FindRoute`.
- `map_menus.dfy` (`MapMenus`): the three operations as nested loops. Each one is proved equal to its fold. Class `MenuRouter` holds the `firstMenu` state.
- `route_lemmas.dfy` (`RouteLemmas`) and `path_lemmas.dfy` (`PathLemmas`): properties of the folds.

The local route table is an explicit parameter, `local`. The source builds it from the bundler's module glob. A route's component is an opaque `Component`.

Two properties one might expect of this code do not hold; the model states what does:

- The duplicate check looks at every entry, local routes included. So a menu gets no redirect when a local route with the menu's own url was pushed earlier. "Exactly one redirect per menu" therefore does not hold in general. What holds is that no two redirects share a path (`RedirectsUnique`), and that every menu with a matched child has some entry with its url (`MenuUrlPresent`).
- A breadcrumb trail does not always have exactly two items. It has two only when exactly one submenu carries the path; in general it has two per such submenu (`CrumbsLength`).

## Model

| member | source | states |
|---|---|---|
| `MapMenus.MenuRouter.constructor` | packages/utils/src/map-menus.ts:17 | `firstMenu` starts out absent |
| `MapMenus.MenuRouter.MapMenusToRoutes` | packages/utils/src/map-menus.ts:18-42 | the returned list is the route fold of the walk and does not depend on `firstMenu`; `firstMenu` keeps a value it already had, and otherwise becomes the first matched submenu of this call (absent if none matched) |
| `MapMenus.MapPathToMenu` | packages/utils/src/map-menus.ts:50-58 | the early-return nested search returns exactly the first submenu of the walk whose url is the path |
| `MapMenus.MenuForPathExtend` | packages/utils/src/map-menus.ts:53-54 | once a submenu with the path has been found, the submenus after it cannot change the answer, which is why returning early is sound |
| `MapMenus.MapPathToBreadcrumb` | packages/utils/src/map-menus.ts:65-78 | the pushed items are exactly the breadcrumb fold of the walk for the path |
| `Menus.TraversalMembers` | packages/utils/src/map-menus.ts:24-25 | the walk meets exactly the pairs (menu of the input, one of its children) |
| `MenuSpec.FindRoute` | packages/utils/src/map-menus.ts:26 | a found route is in the table and has the submenu's url as path; nothing is found exactly when no route of the table has that path |
| `MenuSpec.Step` | packages/utils/src/map-menus.ts:26-36 | one submenu only appends to the list, at most two entries; an unmatched submenu appends nothing; a matched one ends the list with its route (the redirect is pushed only when `HasPath`, the scan of line 30 over every entry, finds no entry with the menu's url) |
| `MenuSpec.BuildRoutes` | packages/utils/src/map-menus.ts:23-41 | the list for the walk, one `Step` per submenu in walk order, holds at most two entries per submenu |
| `MenuSpec.FirstMatched` | packages/utils/src/map-menus.ts:37 | a remembered submenu has a local route; there is none exactly when no submenu of the walk has one |
| `MenuSpec.MenuForPath` | packages/utils/src/map-menus.ts:50-58 | a returned submenu has the path as url; the result is absent exactly when no submenu has that url |
| `RouteLemmas.FindRouteFirst` | packages/utils/src/map-menus.ts:26 | the lookup returns the earliest route of the table with the wanted path |
| `RouteLemmas.BuildRoutesPrefix` | packages/utils/src/map-menus.ts:23-41 | the list for a prefix of the walk is a prefix of the whole list: entries come out in walk order and are never revised |
| `RouteLemmas.UnmatchedContributesNothing` | packages/utils/src/map-menus.ts:26-37 | removing a submenu that has no local route, from anywhere in the walk, changes neither the list nor the first menu |
| `RouteLemmas.EmptyIffNoMatch` | packages/utils/src/map-menus.ts:23-41 | the list is empty exactly when no submenu (an empty menu list included) has a local route, and exactly when there is no first matched submenu, so `firstMenu` is then left unchanged |
| `RouteLemmas.LeavesInOrder` | packages/utils/src/map-menus.ts:24-36 | the local routes in the list are exactly the routes found for the matched submenus, in walk order |
| `RouteLemmas.RouteCount` | packages/utils/src/map-menus.ts:23-41 | the length of the list is the number of matched submenus plus the number of matched submenus that found no entry with their menu's url before them (counted over the walk, not the output) |
| `RouteLemmas.RedirectsAreOpeners` | packages/utils/src/map-menus.ts:30-32 | the redirects in the list are exactly one per matched submenu that found no entry with its menu's url before it |
| `RouteLemmas.LeafFromTable` | packages/utils/src/map-menus.ts:26-35 | every local route in the list belongs to the table, and it is the route found for some submenu whose url is its path |
| `RouteLemmas.LeafFromMenus` | packages/utils/src/map-menus.ts:24-35 | every local route in the list has as path the url of some submenu of some input menu |
| `RouteLemmas.MenuUrlPresent` | packages/utils/src/map-menus.ts:30-32 | for each matched submenu, some entry of the list has the url of its owning menu as path |
| `RouteLemmas.RedirectAtOpener` | packages/utils/src/map-menus.ts:30-35 | a matched submenu whose menu's url is not yet the path of any entry pushes, at that position, the redirect from that url to its route's path, immediately followed by the route |
| `RouteLemmas.RedirectsUnique` | packages/utils/src/map-menus.ts:30-32 | no two redirects of the list share a path |
| `RouteLemmas.RedirectOrigin` | packages/utils/src/map-menus.ts:26-35 | a redirect comes from the first matched submenu among the menus with its url; its target is that submenu's route path, and that route is the very next entry |
| `RouteLemmas.FirstMatchedFirst` | packages/utils/src/map-menus.ts:37 | the first matched submenu is matched, and no submenu before it in the walk is |
| `RouteLemmas.FirstMatchedRouteFirst` | packages/utils/src/map-menus.ts:35-37 | the route of the first matched submenu is the first local route in the list |
| `RouteLemmas.SystemMenuExample` | packages/utils/src/map-menus.ts:18-42 | the menu "/system" with routes for "/system/user" and "/system/role" gives a redirect to "/system/user", then both routes, and "Users" becomes the first menu |
| `PathLemmas.MenuForPathFirst` | packages/utils/src/map-menus.ts:50-58 | the submenu found for a path is the first one in walk order with that url |
| `PathLemmas.CrumbsLength` | packages/utils/src/map-menus.ts:65-78 | the trail has two items per submenu whose url is the path |
| `PathLemmas.CrumbsEmpty` | packages/utils/src/map-menus.ts:65-78 | the trail is empty exactly when no submenu has the path as url |
| `PathLemmas.CrumbsPrefix` | packages/utils/src/map-menus.ts:69-76 | the trail for a prefix of the walk is a prefix of the whole trail |
| `PathLemmas.CrumbsPair` | packages/utils/src/map-menus.ts:71-73 | the submenu with the path that has c earlier such submenus owns positions 2c and 2c+1: first its menu's name and url, then its own |
| `PathLemmas.CrumbsAgreeWithMenu` | packages/utils/src/map-menus.ts:53-73 | when a submenu has the path, the second item of the trail is built from the submenu that `mapPathToMenu` returns, and its path is the path |

## Left out

- The discovery of local routes (`loadLoaclRoutes`, packages/utils/src/map-menus.ts:3-15). It uses the bundler's module glob, so the table is a parameter in that module order.
- The component each route points at. It is opaque and plays no part in matching.
- The untyped input. The source takes `any[]`, and a menu without `children` makes it throw. In the model every menu has a children sequence.
- The two lookups done with `Array.prototype.find` (the route table lookup and the duplicate check). They are library calls, so they are the functions `FindRoute` and `HasPath` rather than loops.
- The callers: the login store's actions, the cached session reload, the router's `addRoute` and the navigation guard. They are network, browser storage and router glue around these functions.
- Date formatting, the bootstrapping, the type declarations and the lint configuration. They hold no logic of this component.
