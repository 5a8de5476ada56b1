/** The routing decisions of `src/App.jsx`: the page id the sidebar highlights for a
    path and the path it navigates to for a page id, the route table, the keyboard
    shortcuts with their focus guard, and the protected-route branch. */
module App {
  import opened Wrappers
  import opened Json
  import opened Text
  import AuthContext

  // ---------------------------------------------------------------------------
  // Page ids and paths

  /** `getCurrentPage()`: `/` is the dashboard, any other path loses its first
      character. */
  function CurrentPage(path: string): (page: string)
    ensures path == "/" ==> page == "dashboard"
    ensures path != "/" && path != [] ==> [path[0]] + page == path
    ensures path == [] ==> page == []
  {
    if path == "/" then "dashboard" else if path == [] then [] else path[1..]
  }

  /** The sidebar's `onNavigate(page)`: the dashboard lives at `/`, every other page at
      `/` followed by its id. */
  function NavigatePath(page: string): (path: string)
    ensures |path| >= 1 && path[0] == '/'
    ensures page != "dashboard" ==> path[1..] == page
  {
    if page == "dashboard" then "/" else "/" + page
  }

  /** Navigating to a page makes that page the current one, for every non-empty id. */
  lemma CurrentPageOfNavigate(page: string)
    requires page != ""
    ensures CurrentPage(NavigatePath(page)) == page
  {
  }

  /** The other direction: a path that starts with `/` comes back from its page id,
      except `/dashboard`, whose id leads to `/`. */
  lemma NavigateOfCurrentPage(path: string)
    requires |path| >= 1 && path[0] == '/'
    ensures NavigatePath(CurrentPage(path)) == (if path == "/dashboard" then "/" else path)
  {
    if path != "/" {
      assert path == [path[0]] + path[1..];
    }
  }

  // ---------------------------------------------------------------------------
  // Routes

  datatype Screen = Dashboard | HealthScreen | FitnessScreen | GoalsScreen | CalendarScreen
                  | AIAnalysisScreen | ProfileScreen | APITestScreen | RedirectHome

  /** The two texts are equal once ASCII letters are lower-cased: how a route pattern
      without the `caseSensitive` flag compares its (ASCII) characters. */
  predicate SameIgnoringCase(a: string, b: string) {
    |a| == |b| && forall j :: 0 <= j < |a| ==> LowerChar(a[j]) == LowerChar(b[j])
  }

  /** The path without its trailing slashes, which route matching ignores. */
  function DropTrailingSlashes(s: string): (r: string)
    ensures |r| <= |s| && r == s[..|r|]
    ensures r == [] || r[|r| - 1] != '/'
    ensures forall j :: |r| <= j < |s| ==> s[j] == '/'
  {
    if s != [] && s[|s| - 1] == '/' then DropTrailingSlashes(s[..|s| - 1]) else s
  }

  /** What the pattern `route` matches: `route` up to ASCII case, then any number of
      slashes. */
  predicate MatchesRoute(route: string, path: string) {
    |route| <= |path| && SameIgnoringCase(path[..|route|], route)
    && forall j :: |route| <= j < |path| ==> path[j] == '/'
  }

  /** The screen of a path without trailing slashes, for the seven routes other
      than `/`. */
  function ScreenOf(t: string): Screen {
    if SameIgnoringCase(t, "/health") then HealthScreen
    else if SameIgnoringCase(t, "/fitness") then FitnessScreen
    else if SameIgnoringCase(t, "/goals") then GoalsScreen
    else if SameIgnoringCase(t, "/calendar") then CalendarScreen
    else if SameIgnoringCase(t, "/ai-analysis") then AIAnalysisScreen
    else if SameIgnoringCase(t, "/profile") then ProfileScreen
    else if SameIgnoringCase(t, "/api-test") then APITestScreen
    else RedirectHome
  }

  /** The `<Routes>` of the main layout; any unlisted path redirects to `/`.  A path of
      slashes only is `/`. */
  function Route(path: string): (s: Screen)
  {
    var t := DropTrailingSlashes(path);
    if path != [] && t == [] then Dashboard else ScreenOf(t)
  }

  const RoutedPaths: seq<string> :=
    ["/", "/health", "/fitness", "/goals", "/calendar", "/ai-analysis", "/profile", "/api-test"]

  /** The screens of the listed routes, in order. */
  const RoutedScreens: seq<Screen> := [Dashboard, HealthScreen, FitnessScreen, GoalsScreen,
                                       CalendarScreen, AIAnalysisScreen, ProfileScreen, APITestScreen]

  /** A path reaches the screen of the i-th route exactly when that route's pattern
      matches it: the same letters in any ASCII case, then any trailing slashes. */
  lemma RouteMatches(path: string, i: nat)
    requires i < |RoutedPaths|
    ensures Route(path) == RoutedScreens[i] <==> MatchesRoute(RoutedPaths[i], path)
  {
    var r := RoutedPaths[i];
    var t := DropTrailingSlashes(path);
    if i == 0 {
      RootMatches(path);
    } else {
      RoutedPathShape(i);
      if MatchesRoute(r, path) {
        DropOfMatch(r, path);
      }
      ScreenOfRouted(t, i);
      if Route(path) == RoutedScreens[i] {
        assert SameIgnoringCase(path[..|t|], r);
      }
    }
  }

  /** The pattern `/` matches exactly the paths made of slashes only. */
  lemma RootMatches(path: string)
    ensures Route(path) == Dashboard <==> MatchesRoute("/", path)
  {
    var t := DropTrailingSlashes(path);
    if path != [] && t == [] {
      assert LowerChar(path[..1][0]) == LowerChar("/"[0]);
    }
    if MatchesRoute("/", path) {
      assert LowerChar(path[0]) == '/';
      assert path[0] == '/';
    }
    assert ScreenOf(t) != Dashboard;
  }

  /** The listed routes other than `/` end in a character other than a slash. */
  lemma RoutedPathShape(i: nat)
    requires 0 < i < |RoutedPaths|
    ensures var r := RoutedPaths[i]; r != [] && r[|r| - 1] != '/'
  {
  }

  /** Where a pattern that does not end in a slash matches, the matched letters are the
      path without its trailing slashes. */
  lemma DropOfMatch(r: string, path: string)
    requires r != [] && r[|r| - 1] != '/'
    requires MatchesRoute(r, path)
    ensures DropTrailingSlashes(path) == path[..|r|]
  {
    var t := DropTrailingSlashes(path);
    assert LowerChar(path[..|r|][|r| - 1]) == LowerChar(r[|r| - 1]);
    assert path[|r| - 1] != '/';
  }

  /** `ScreenOf` gives the i-th screen exactly for the i-th route in any ASCII case. */
  lemma ScreenOfRouted(t: string, i: nat)
    requires 0 < i < |RoutedPaths|
    ensures ScreenOf(t) == RoutedScreens[i] <==> SameIgnoringCase(t, RoutedPaths[i])
  {
    if i == 2 || i == 6 {
      RoutesApart(t, "/fitness", "/profile");
    } else if i == 4 || i == 7 {
      RoutesApart(t, "/calendar", "/api-test");
    }
  }

  /** Two routes of the same length that differ in their second letter cannot both
      match. */
  lemma RoutesApart(t: string, a: string, b: string)
    requires |a| >= 2 && |b| >= 2 && LowerChar(a[1]) != LowerChar(b[1])
    ensures !(SameIgnoringCase(t, a) && SameIgnoringCase(t, b))
  {
    if |t| >= 2 {
      assert LowerChar(t[1]) == LowerChar(a[1]) || LowerChar(t[1]) != LowerChar(a[1]);
    }
  }

  /** A path redirects home exactly when no pattern of the table matches it, and
      different routes show different screens. */
  lemma RouteTable(path: string)
    ensures Route(path) == RedirectHome <==>
      forall i :: 0 <= i < |RoutedPaths| ==> !MatchesRoute(RoutedPaths[i], path)
    ensures forall i, j :: 0 <= i < j < |RoutedPaths| ==> Route(RoutedPaths[i]) != Route(RoutedPaths[j])
  {
    RouteMatchesAll(path);
    ScreenInTable(path);
    RedirectIffNone(Route(path), path);
    RoutesDistinct();
  }

  lemma RouteMatchesAll(path: string)
    ensures forall i :: 0 <= i < |RoutedPaths| ==> (Route(path) == RoutedScreens[i] <==> MatchesRoute(RoutedPaths[i], path))
  {
    forall i | 0 <= i < |RoutedPaths|
      ensures Route(path) == RoutedScreens[i] <==> MatchesRoute(RoutedPaths[i], path)
    {
      RouteMatches(path, i);
    }
  }

  lemma RoutesDistinct()
    ensures forall i, j :: 0 <= i < j < |RoutedPaths| ==> Route(RoutedPaths[i]) != Route(RoutedPaths[j])
  {
    forall i, j | 0 <= i < j < |RoutedPaths|
      ensures Route(RoutedPaths[i]) != Route(RoutedPaths[j])
    {
      RoutedPathScreen(i);
      RoutedPathScreen(j);
    }
  }

  /** A screen that is the i-th exactly when the i-th pattern matches is the redirect
      exactly when no pattern matches. */
  lemma RedirectIffNone(s: Screen, path: string)
    requires forall i :: 0 <= i < |RoutedPaths| ==> (s == RoutedScreens[i] <==> MatchesRoute(RoutedPaths[i], path))
    requires s == RedirectHome || s in RoutedScreens
    ensures s == RedirectHome <==> forall i :: 0 <= i < |RoutedPaths| ==> !MatchesRoute(RoutedPaths[i], path)
  {
    if s != RedirectHome {
      var i :| 0 <= i < |RoutedScreens| && s == RoutedScreens[i];
      assert MatchesRoute(RoutedPaths[i], path);
    } else {
      assert RedirectHome !in RoutedScreens;
    }
  }

  /** Every path shows a listed screen or redirects. */
  lemma ScreenInTable(path: string)
    ensures Route(path) == RedirectHome || Route(path) in RoutedScreens
  {
  }

  /** The i-th route shows the i-th screen. */
  lemma RoutedPathScreen(i: nat)
    requires i < |RoutedPaths|
    ensures Route(RoutedPaths[i]) == RoutedScreens[i] && RoutedScreens[i] != RedirectHome
  {
    var r := RoutedPaths[i];
    assert r[..|r|] == r;
    RouteMatches(r, i);
  }

  /** A sidebar menu entry; `name` holds its `label`, a word Dafny reserves. */
  datatype MenuItem = MenuItem(id: string, name: string, icon: string)

  /** The sidebar's `menuItems`. */
  const MenuItems: seq<MenuItem> := [
    MenuItem("dashboard", "Dashboard", "\U{1F4CA}"),
    MenuItem("health", "Health", "\U{2764}\U{FE0F}"),
    MenuItem("fitness", "Fitness", "\U{1F4AA}"),
    MenuItem("goals", "Goals", "\U{1F3AF}"),
    MenuItem("calendar", "Calendar", "\U{1F4C5}"),
    MenuItem("ai-analysis", "AI Analysis", "\U{1F916}"),
    MenuItem("profile", "Profile", "\U{1F464}"),
    MenuItem("api-test", "API Test", "\U{1F9EA}")
  ]

  /** The k-th sidebar entry leads to the k-th route, a path with a screen of its own,
      and once there the sidebar highlights that same entry. */
  lemma MenuItemsRouted()
    ensures forall i :: 0 <= i < |MenuItems| ==> NavigatePath(MenuItems[i].id) == RoutedPaths[i]
    ensures forall i :: 0 <= i < |MenuItems| ==> Route(NavigatePath(MenuItems[i].id)) != RedirectHome
    ensures forall i :: 0 <= i < |MenuItems| ==> CurrentPage(NavigatePath(MenuItems[i].id)) == MenuItems[i].id
  {
    forall i | 0 <= i < |MenuItems|
      ensures NavigatePath(MenuItems[i].id) == RoutedPaths[i]
      ensures Route(RoutedPaths[i]) != RedirectHome
    {
      MenuItemPath(i);
      RoutedPathScreen(i);
    }
    forall i | 0 <= i < |MenuItems|
      ensures CurrentPage(NavigatePath(MenuItems[i].id)) == MenuItems[i].id
    {
      CurrentPageOfNavigate(MenuItems[i].id);
    }
  }

  lemma MenuItemPath(i: nat)
    requires i < |MenuItems|
    ensures NavigatePath(MenuItems[i].id) == RoutedPaths[i]
  {
    var id := MenuItems[i].id;
    if i == 0 {
      assert id == "dashboard";
    } else if i == 1 {
      assert id == "health";
      assert "/" + id == "/health";
    } else if i == 2 {
      assert id == "fitness";
      assert "/" + id == "/fitness";
    } else if i == 3 {
      assert id == "goals";
      assert "/" + id == "/goals";
    } else if i == 4 {
      assert id == "calendar";
      assert "/" + id == "/calendar";
    } else if i == 5 {
      assert id == "ai-analysis";
      assert "/" + id == "/ai-analysis";
    } else if i == 6 {
      assert id == "profile";
      assert "/" + id == "/profile";
    } else {
      assert i == 7 && id == "api-test";
      assert "/" + id == "/api-test";
    }
  }

  // ---------------------------------------------------------------------------
  // Keyboard shortcuts

  /** `shortcuts[e.key]`: the digits 1 to 8 name the eight pages. */
  function Shortcut(key: string): (r: Option<string>)
    ensures r.Some? ==> r.value in RoutedPaths
  {
    if key == "1" then Some("/")
    else if key == "2" then Some("/health")
    else if key == "3" then Some("/fitness")
    else if key == "4" then Some("/goals")
    else if key == "5" then Some("/calendar")
    else if key == "6" then Some("/ai-analysis")
    else if key == "7" then Some("/profile")
    else if key == "8" then Some("/api-test")
    else None
  }

  const ShortcutKeys: seq<string> := ["1", "2", "3", "4", "5", "6", "7", "8"]

  /** Key `k`, the k-th digit, leads to the k-th route; every other key leads nowhere. */
  lemma ShortcutTable(key: string)
    ensures forall i :: 0 <= i < |ShortcutKeys| ==> Shortcut(ShortcutKeys[i]) == Some(RoutedPaths[i])
    ensures Shortcut(key).Some? <==> key in ShortcutKeys
  {
  }

  /** The element that has focus when the key goes down. */
  datatype Focus = Focus(tagName: string, isContentEditable: bool)

  datatype KeyEvent = KeyEvent(key: string, altKey: bool)

  predicate Typing(focus: Focus) {
    focus.tagName == "INPUT" || focus.tagName == "TEXTAREA" || focus.tagName == "SELECT"
    || focus.isContentEditable
  }

  /** `handleKeyPress(e)`: the path navigated to, or `None` when the key is ignored. */
  function HandleKeyPress(focus: Focus, e: KeyEvent, user: Json): (r: Option<string>)
  {
    if Typing(focus) then None
    else if e.altKey && !Truthy(user) then None
    else Shortcut(e.key)
  }

  /** No shortcut fires while the user is typing into a field, or with Alt held and no
      one signed in; otherwise the key acts exactly as the shortcut table says. */
  lemma KeyPressGuard(focus: Focus, e: KeyEvent, user: Json)
    ensures HandleKeyPress(focus, e, user).Some? ==> !Typing(focus) && (e.altKey ==> Truthy(user))
    ensures !Typing(focus) && (e.altKey ==> Truthy(user)) ==> HandleKeyPress(focus, e, user) == Shortcut(e.key)
    ensures HandleKeyPress(focus, e, user).Some? ==> e.key in ShortcutKeys
  {
    ShortcutTable(e.key);
  }

  // ---------------------------------------------------------------------------
  // ProtectedRoute

  datatype Guarded = ShowLoading | RedirectToAuth | ShowChildren

  /** `ProtectedRoute`: a spinner while loading, otherwise the sign-in page without a
      user and the protected layout with one. */
  function ProtectedRoute(loading: bool, user: Json): (r: Guarded)
    ensures r == ShowLoading <==> loading
    ensures r == ShowChildren <==> !loading && Truthy(user)
    ensures r == RedirectToAuth <==> !loading && !Truthy(user)
  {
    if loading then ShowLoading else if !Truthy(user) then RedirectToAuth else ShowChildren
  }

  /** The signed-out state, a JSON `null`, is sent to the sign-in page; a signed-in user
      object sees the layout. */
  lemma ProtectedRouteUsers(fields: seq<Field>)
    ensures ProtectedRoute(false, JNull) == RedirectToAuth
    ensures ProtectedRoute(false, JObj(fields)) == ShowChildren
  {
  }

  /** The provider's `loading` is always false, so the protected layout never shows
      its spinner: it shows the layout exactly when the held user is truthy. */
  lemma ProviderNeverLoading(p: AuthContext.AuthProvider)
    ensures ProtectedRoute(p.loading, p.user) != ShowLoading
    ensures ProtectedRoute(p.loading, p.user) == ShowChildren <==> Truthy(p.user)
  {
  }
}
