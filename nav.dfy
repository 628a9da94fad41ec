/**
  The navigation visibility gate (`inject_nav` in app.py): which menu entries
  a viewer sees. The query hands over the visible items in `position` order;
  an item with an empty role list is shown to everyone, any other item only
  to a viewer whose role name is one of the comma-separated, white-space
  stripped names in its list.
*/
module Nav {
  import opened Common
  import opened Text
  import opened Query
  import opened Store

  /** What the template receives for one shown item. */
  datatype NavEntry = NavEntry(title: string, endpoint: string)

  /**
    The viewer's role name: present only for a signed-in viewer with a role.
    (In the source this is `current_user.role.name`, or `None`.)
  */
  function RoleName(v: Viewer): (r: Option<string>)
    ensures r.Some? <==> v.SignedIn? && v.role.Some?
    ensures r.Some? ==> r.value == v.role.value.name
  {
    if v.SignedIn? && v.role.Some? then Some(v.role.value.name) else None
  }

  /** The role name is truthy in Python: present and not the empty string. */
  predicate HasRoleName(rn: Option<string>) {
    rn.Some? && rn.value != ""
  }

  /** `[r.strip() for r in rolesAllowed.split(',')]`. */
  function RoleTokens(rolesAllowed: string): (r: seq<string>)
    ensures |r| == |Split(rolesAllowed, ',')|
    ensures forall i :: 0 <= i < |r| ==> r[i] == Strip(Split(rolesAllowed, ',')[i])
  {
    var parts := Split(rolesAllowed, ',');
    seq(|parts|, i requires 0 <= i < |parts| => Strip(parts[i]))
  }

  /** The final value of the `allowed` flag for one item. */
  predicate Allowed(it: NavItem, rn: Option<string>) {
    it.rolesAllowed == "" || (HasRoleName(rn) && rn.value in RoleTokens(it.rolesAllowed))
  }

  function IsVisible(it: NavItem): bool { it.visible }

  /**
    `NavItem.query.filter_by(visible=True).order_by(NavItem.position)`: the
    visible rows, each as often as in the table, sorted by position.
  */
  function VisibleByPosition(rows: seq<NavItem>): seq<NavItem> {
    SortBy(Filter(rows, IsVisible), PositionLe)
  }

  /** The query gives the visible rows, each as often as stored, sorted by position. */
  lemma VisibleByPositionSpec(rows: seq<NavItem>)
    ensures SortedBy(VisibleByPosition(rows), PositionLe)
    ensures forall x :: multiset(VisibleByPosition(rows))[x] == if x.visible then multiset(rows)[x] else 0
  {
    assert TotalPreorder(PositionLe);
  }

  /** The items of `items` that `rn` is allowed to see, in their order. */
  function Shown(items: seq<NavItem>, rn: Option<string>): seq<NavItem>
    decreases |items|
  {
    if items == [] then []
    else
      var last := items[|items| - 1];
      Shown(items[..|items| - 1], rn) + if Allowed(last, rn) then [last] else []
  }

  /** Each allowed item is kept as often as it occurs, every other item dropped. */
  lemma {:induction false} ShownCount(items: seq<NavItem>, rn: Option<string>)
    ensures forall x :: multiset(Shown(items, rn))[x] == if Allowed(x, rn) then multiset(items)[x] else 0
    decreases |items|
  {
    if items != [] {
      var init := items[..|items| - 1];
      var last := items[|items| - 1];
      assert items == init + [last];
      ShownCount(init, rn);
    }
  }

  /** Only the title and endpoint of each item reach the template. */
  function Entries(items: seq<NavItem>): (r: seq<NavEntry>)
    ensures |r| == |items|
    decreases |items|
  {
    if items == [] then []
    else
      var last := items[|items| - 1];
      Entries(items[..|items| - 1]) + [NavEntry(last.title, last.endpoint)]
  }

  /** The entry at each index carries the title and endpoint of the item at that index. */
  lemma {:induction false} EntriesAt(items: seq<NavItem>, i: nat)
    requires i < |items|
    ensures Entries(items)[i] == NavEntry(items[i].title, items[i].endpoint)
    decreases |items|
  {
    if i < |items| - 1 {
      EntriesAt(items[..|items| - 1], i);
    }
  }

  lemma EntriesSnoc(items: seq<NavItem>, x: NavItem)
    ensures Entries(items + [x]) == Entries(items) + [NavEntry(x.title, x.endpoint)]
  {
    assert (items + [x])[..|items|] == items;
  }

  /** The items a viewer sees, in the order the menu lists them. */
  function ShownItems(rows: seq<NavItem>, v: Viewer): seq<NavItem> {
    Shown(VisibleByPosition(rows), RoleName(v))
  }

  /**
    The loop of `inject_nav` over the queried items, setting and clearing the
    `allowed` flag and appending the title and endpoint of each allowed item.
  */
  method BuildMenu(items: seq<NavItem>, v: Viewer) returns (navItems: seq<NavEntry>)
    ensures navItems == Entries(Shown(items, RoleName(v)))
  {
    navItems := [];
    var i := 0;
    while i < |items|
      invariant 0 <= i <= |items|
      invariant navItems == Entries(Shown(items[..i], RoleName(v)))
    {
      var it := items[i];
      var allowed := true;
      var roleName := RoleName(v);
      if it.rolesAllowed != "" && HasRoleName(roleName) {
        allowed := roleName.value in RoleTokens(it.rolesAllowed);
      }
      if it.rolesAllowed != "" && !HasRoleName(roleName) {
        allowed := false;
      }
      assert allowed == Allowed(it, roleName);
      InjectStep(items, i, roleName);
      if allowed {
        navItems := navItems + [NavEntry(it.title, it.endpoint)];
      }
      i := i + 1;
    }
    assert items[..i] == items;
  }

  /** `inject_nav`: the query for the visible items by position, then the loop. */
  method InjectNav(rows: seq<NavItem>, v: Viewer) returns (navItems: seq<NavEntry>)
    ensures navItems == Entries(ShownItems(rows, v))
  {
    navItems := BuildMenu(VisibleByPosition(rows), v);
  }

  /** One more turn of the loop appends the item's entry exactly when the item is allowed. */
  lemma InjectStep(items: seq<NavItem>, i: nat, rn: Option<string>)
    requires i < |items|
    ensures Entries(Shown(items[..i + 1], rn)) ==
      Entries(Shown(items[..i], rn)) + if Allowed(items[i], rn) then [NavEntry(items[i].title, items[i].endpoint)] else []
  {
    ShownStep(items, i, rn);
    var before := Shown(items[..i], rn);
    if Allowed(items[i], rn) {
      EntriesSnoc(before, items[i]);
    } else {
      assert before + [] == before;
    }
  }

  /** One more item of the loop: the item is appended exactly when it is allowed. */
  lemma ShownStep(items: seq<NavItem>, i: nat, rn: Option<string>)
    requires i < |items|
    ensures Shown(items[..i + 1], rn) == Shown(items[..i], rn) + if Allowed(items[i], rn) then [items[i]] else []
  {
    assert items[..i + 1][..i] == items[..i];
  }

  // ---------------------------------------------------------------------
  // What the gate guarantees
  // ---------------------------------------------------------------------

  /** Filtering keeps the order of what it keeps. */
  lemma {:induction false} ShownSorted(items: seq<NavItem>, rn: Option<string>)
    requires SortedBy(items, PositionLe)
    ensures SortedBy(Shown(items, rn), PositionLe)
    decreases |items|
  {
    if items != [] {
      var init := items[..|items| - 1];
      var last := items[|items| - 1];
      ShownSorted(init, rn);
      var front := Shown(init, rn);
      if Allowed(last, rn) {
        var r := front + [last];
        forall i, j | 0 <= i < j < |r| ensures PositionLe(r[i], r[j]) {
          if j == |r| - 1 {
            ShownCount(init, rn);
            assert r[i] in multiset(front);
            var k :| 0 <= k < |init| && init[k] == r[i];
            assert items[k] == r[i];
          } else {
            assert r[i] == front[i] && r[j] == front[j];
          }
        }
      }
    }
  }

  /**
    The menu is the visible items the viewer may see, each as often as it is
    stored, ordered by ascending position, each reduced to title and endpoint.
  */
  lemma MenuIsOrderedVisibleAllowed(rows: seq<NavItem>, v: Viewer)
    ensures SortedBy(ShownItems(rows, v), PositionLe)
    ensures forall x :: multiset(ShownItems(rows, v))[x] == (if x.visible && Allowed(x, RoleName(v)) then multiset(rows)[x] else 0)
    ensures forall i :: 0 <= i < |ShownItems(rows, v)| ==>
      Entries(ShownItems(rows, v))[i] == NavEntry(ShownItems(rows, v)[i].title, ShownItems(rows, v)[i].endpoint)
  {
    forall i | 0 <= i < |ShownItems(rows, v)|
      ensures Entries(ShownItems(rows, v))[i] == NavEntry(ShownItems(rows, v)[i].title, ShownItems(rows, v)[i].endpoint)
    {
      EntriesAt(ShownItems(rows, v), i);
    }
    ShownSorted(VisibleByPosition(rows), RoleName(v));
    ShownCount(VisibleByPosition(rows), RoleName(v));
  }

  /** A visible item with an empty role list is in every viewer's menu, anonymous ones included. */
  lemma UnrestrictedShownToEveryone(rows: seq<NavItem>, v: Viewer, x: NavItem)
    requires x in rows && x.visible && x.rolesAllowed == ""
    ensures x in ShownItems(rows, v)
    ensures NavEntry(x.title, x.endpoint) in Entries(ShownItems(rows, v))
  {
    ShownItemsMember(rows, v, x);
    var s := ShownItems(rows, v);
    var i :| 0 <= i < |s| && s[i] == x;
    EntriesAt(s, i);
  }

  /**
    A viewer without a role name (anonymous, signed in without a role, or with
    an empty role name) sees no restricted item at all.
  */
  lemma RestrictedHiddenWithoutRoleName(rows: seq<NavItem>, v: Viewer)
    requires !HasRoleName(RoleName(v))
    ensures forall x :: x in ShownItems(rows, v) ==> x.rolesAllowed == ""
  {
    forall x | x in ShownItems(rows, v) ensures x.rolesAllowed == "" {
      ShownItemsMember(rows, v, x);
    }
  }

  /** Every viewer that is not signed in with a role lacks a role name. */
  lemma NoRoleNameWhenAnonymousOrRoleless(v: Viewer)
    requires v.Anonymous? || v.role.None? || v.role.value.name == ""
    ensures !HasRoleName(RoleName(v))
  {
  }

  /** Membership in the menu: stored, visible and allowed. */
  lemma ShownItemsMember(rows: seq<NavItem>, v: Viewer, x: NavItem)
    ensures x in ShownItems(rows, v) <==> x in rows && x.visible && Allowed(x, RoleName(v))
  {
    var vis := VisibleByPosition(rows);
    var s := ShownItems(rows, v);
    VisibleByPositionSpec(rows);
    ShownCount(vis, RoleName(v));
    assert x in s <==> x in multiset(s);
    assert x in vis <==> x in multiset(vis);
    assert x in rows <==> x in multiset(rows);
  }

  /**
    Over the nav table's query result, an item is in a viewer's menu exactly
    when it is stored, visible and allowed for that viewer.
  */
  lemma StoredItemShownIff(table: map<int, NavItem>, rows: seq<NavItem>, v: Viewer, x: NavItem)
    requires QueryOf(rows, table)
    ensures x in ShownItems(rows, v) <==> x in table.Values && x.visible && Allowed(x, RoleName(v))
  {
    QueryOfOnce(rows, table);
    ShownItemsMember(rows, v, x);
  }

  /** A name is among the stripped pieces exactly when some piece strips to it. */
  lemma ListedIff(name: string, rolesAllowed: string)
    ensures name in RoleTokens(rolesAllowed) <==>
      exists i :: 0 <= i < |Split(rolesAllowed, ',')| && Strip(Split(rolesAllowed, ',')[i]) == name
  {
    var tokens := RoleTokens(rolesAllowed);
    if name in tokens {
      var i :| 0 <= i < |tokens| && tokens[i] == name;
      assert Strip(Split(rolesAllowed, ',')[i]) == name;
    }
  }

  /**
    With a role name present, a visible restricted item is in the menu exactly
    when one of the comma-separated pieces of its role list, stripped of
    white space, equals the role name.
  */
  lemma RestrictedShownIff(rows: seq<NavItem>, v: Viewer, x: NavItem)
    requires x in rows && x.visible && x.rolesAllowed != ""
    requires HasRoleName(RoleName(v))
    ensures x in ShownItems(rows, v) <==>
      exists i :: 0 <= i < |Split(x.rolesAllowed, ',')| && Strip(Split(x.rolesAllowed, ',')[i]) == v.role.value.name
  {
    ShownItemsMember(rows, v, x);
    ListedIff(v.role.value.name, x.rolesAllowed);
  }

  /**
    Stray pieces never match: a role name with white space at either end is
    never among the pieces, because every piece is stripped (and an empty or
    all-white-space piece strips to the empty string, which is no role name).
  */
  lemma PaddedRoleNameNeverListed(rolesAllowed: string, name: string)
    requires name != [] && (IsSpace(name[0]) || IsSpace(name[|name| - 1]))
    ensures name !in RoleTokens(rolesAllowed)
  {
  }

  /** The menu of a viewer whose role name is padded holds only unrestricted items. */
  lemma PaddedRoleNameSeesOnlyUnrestricted(rows: seq<NavItem>, v: Viewer)
    requires v.SignedIn? && v.role.Some? && v.role.value.name != []
    requires IsSpace(v.role.value.name[0]) || IsSpace(v.role.value.name[|v.role.value.name| - 1])
    ensures forall x :: x in ShownItems(rows, v) ==> x.rolesAllowed == ""
  {
    forall x | x in ShownItems(rows, v) ensures x.rolesAllowed == "" {
      ShownItemsMember(rows, v, x);
      PaddedRoleNameNeverListed(x.rolesAllowed, v.role.value.name);
    }
  }

  /** The role list "Admin" holds exactly the one name "Admin". */
  lemma AdminOnlyTokens()
    ensures RoleTokens("Admin") == ["Admin"]
  {
    SplitWithoutSep("Admin", ',');
    assert [] + "Admin" + [] == "Admin";
    StripRemovesPadding([], "Admin", []);
  }

  /**
    An item restricted to "Admin" is hidden from a viewer whose role is "User"
    and from an anonymous viewer, and shown to a viewer whose role is "Admin".
  */
  lemma AdminOnlyItemExample(rows: seq<NavItem>, x: NavItem, uid: int, rid: int)
    requires x in rows && x.visible && x.rolesAllowed == "Admin"
    ensures x !in ShownItems(rows, SignedIn(uid, Some(Role(rid, "User"))))
    ensures x !in ShownItems(rows, Anonymous)
    ensures x in ShownItems(rows, SignedIn(uid, Some(Role(rid, "Admin"))))
  {
    var user, anon, admin := SignedIn(uid, Some(Role(rid, "User"))), Anonymous, SignedIn(uid, Some(Role(rid, "Admin")));
    assert !Allowed(x, RoleName(user)) by {
      AdminOnlyTokens();
      assert "User"[0] != "Admin"[0];
    }
    assert !Allowed(x, RoleName(anon));
    assert Allowed(x, RoleName(admin)) by {
      AdminOnlyTokens();
    }
    ShownItemsMember(rows, user, x);
    ShownItemsMember(rows, anon, x);
    ShownItemsMember(rows, admin, x);
  }
}
