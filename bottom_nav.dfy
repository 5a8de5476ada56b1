/** The mobile navigation bar of `src/components/layout/BottomNav.jsx`: its item table,
    the item it highlights for the current path, and what a tap on an item does. */
module BottomNav {
  import opened Wrappers

  /** A bar item; the logout item has no path and an action instead.  `name` holds the
      item's `label`, a word Dafny reserves. */
  datatype NavItem = NavItem(id: string, name: string, icon: string, path: Option<string>, action: Option<string>)

  /** `navItems`. */
  const NavItems: seq<NavItem> := [
    NavItem("history", "History", "\U{1F552}", Some("/"), None),
    NavItem("health", "Health", "\U{2764}\U{FE0F}", Some("/health"), None),
    NavItem("fitness", "Fitness", "\U{1F9ED}", Some("/fitness"), None),
    NavItem("goals", "Goals", "\U{1F4BE}", Some("/goals"), None),
    NavItem("calendar", "Calendar", "\U{1F4C5}", Some("/calendar"), None),
    NavItem("ai-analysis", "Ai-Analysis", "\U{1F4A1}", Some("/ai-analysis"), None),
    NavItem("profile", "Profile", "\U{1F464}", Some("/profile"), None),
    NavItem("logout", "Logout", "\U{1F6AA}", None, Some("logout"))
  ]

  /** `getActiveId()`: the id of the item for the current path, `""` for a path no item
      has. */
  function ActiveId(path: string): (id: string)
  {
    if path == "/" then "history"
    else if path == "/health" then "health"
    else if path == "/fitness" then "fitness"
    else if path == "/goals" then "goals"
    else if path == "/calendar" then "calendar"
    else if path == "/ai-analysis" then "ai-analysis"
    else if path == "/profile" then "profile"
    else ""
  }

  /** An item is highlighted exactly when the current path is its own path: the path of
      every item with one leads back to that item, the logout item is never
      highlighted, and a path no item has (such as `/api-test`) highlights none. */
  lemma ActiveIdMatchesItems(path: string)
    ensures forall i :: 0 <= i < |NavItems| ==> (ActiveId(path) == NavItems[i].id <==> NavItems[i].path == Some(path))
    ensures (forall i :: 0 <= i < |NavItems| ==> NavItems[i].path != Some(path)) ==> ActiveId(path) == ""
  {
    var k := if path == "/" then 0 else if path == "/health" then 1 else if path == "/fitness" then 2
      else if path == "/goals" then 3 else if path == "/calendar" then 4
      else if path == "/ai-analysis" then 5 else if path == "/profile" then 6 else 7;
    assert ActiveId(path) != "" ==> NavItems[k].path == Some(path);
  }

  /** The item table itself: only the logout item lacks a path, and it alone carries the
      logout action. */
  lemma NavItemsShape()
    ensures forall i :: 0 <= i < |NavItems| ==>
      (NavItems[i].path.None? <==> NavItems[i].id == "logout")
      && (NavItems[i].action == Some("logout") <==> NavItems[i].path.None?)
    ensures ActiveId("/") == "history" && ActiveId("/api-test") == ""
  {
  }

  datatype Tap = NavigateTo(path: string) | ConfirmLogout

  /** The click handler: the logout item asks for confirmation, every other item
      navigates to its path. */
  function OnTap(item: NavItem): (t: Tap)
    requires item in NavItems
    ensures t == ConfirmLogout <==> item.action == Some("logout")
    ensures t.NavigateTo? ==> item.path == Some(t.path) && ActiveId(t.path) == item.id
  {
    if item.action == Some("logout") then ConfirmLogout else NavigateTo(item.path.value)
  }
}
