/**
  The admin blueprint of admin.py: the `admin_required` gate, the user and
  nav-item listings, and the handlers that create, edit and delete users
  and nav items. Every handler sits behind `login_required` and then
  `admin_required`, in that order; the handlers change the database object
  in place.
*/
module Admin {
  import opened Common
  import opened Text
  import opened Query
  import opened Store
  import App
  import Nav

  /** The role name the gate accepts, compared exactly. */
  const AdminRoleName: string := "Admin"

  /** The password hash a user created by an admin starts with, until the rehash script runs. */
  const PlaceholderHash: string := "placeholder"

  /** A signed-in viewer whose role is loaded and is named exactly "Admin". */
  predicate IsAdmin(v: Viewer) {
    v.SignedIn? && v.role.Some? && v.role.value.name == AdminRoleName
  }

  /**
    `login_required` followed by `admin_required`: `None` lets the handler run,
    which happens exactly for admins; an anonymous viewer is sent to the login
    page and any other signed-in viewer to the index page.
  */
  function AdminGate(v: Viewer): (r: Option<Response>)
    ensures r.None? <==> IsAdmin(v)
    ensures v.Anonymous? ==> r == Some(Redirect(Login))
    ensures v.SignedIn? && !IsAdmin(v) ==> r == Some(Redirect(Index))
  {
    match LoginRequired(v)
    case Some(refusal) => Some(refusal)
    case None => if IsAdmin(v) then None else Some(Redirect(Index))
  }

  /**
    A signed-in viewer without the admin role is not locked out of the site:
    the gate sends them to the index page, which sends them on to the dashboard.
  */
  lemma RefusedViewerReachesDashboard(v: Viewer)
    requires v.SignedIn? && !IsAdmin(v)
    ensures AdminGate(v) == Some(Redirect(Index))
    ensures App.IndexTarget(v) == Dashboard
  {
  }

  /** The role name must be "Admin" exactly: no other capitalisation and no padding. */
  lemma AdminNameIsExact(uid: int, rid: int)
    ensures !IsAdmin(SignedIn(uid, Some(Role(rid, "admin"))))
    ensures !IsAdmin(SignedIn(uid, Some(Role(rid, "Admin "))))
    ensures IsAdmin(SignedIn(uid, Some(Role(rid, "Admin"))))
  {
    assert "admin"[0] != "Admin"[0];
  }

  // ---------------------------------------------------------------------
  // Listings
  // ---------------------------------------------------------------------

  /** `ORDER BY username`. */
  function UsernameLe(a: User, b: User): bool {
    LexLe(a.username, b.username)
  }

  lemma UsernameLeIsTotalPreorder()
    ensures TotalPreorder(UsernameLe)
  {
    forall a: User, b: User ensures UsernameLe(a, b) || UsernameLe(b, a) {
      LexLeTotal(a.username, b.username);
    }
    forall a: User, b: User, c: User | UsernameLe(a, b) && UsernameLe(b, c) ensures UsernameLe(a, c) {
      LexLeTransitive(a.username, b.username, c.username);
    }
  }

  /** `list_users`: for an admin, the queried user rows, ordered by username. */
  function ListUsers(v: Viewer, rows: seq<User>): (r: Listing<User>)
    ensures r.Listed? <==> IsAdmin(v)
    ensures r.Refused? ==> Some(r.response) == AdminGate(v)
    ensures r.Listed? ==> SortedBy(r.rows, UsernameLe) && multiset(r.rows) == multiset(rows)
  {
    match AdminGate(v)
    case Some(refusal) => Refused(refusal)
    case None => UsernameLeIsTotalPreorder(); Listed(SortBy(rows, UsernameLe))
  }

  /** `list_nav`: for an admin, the queried nav items, hidden ones included, ordered by position. */
  function ListNav(v: Viewer, rows: seq<NavItem>): (r: Listing<NavItem>)
    ensures r.Listed? <==> IsAdmin(v)
    ensures r.Refused? ==> Some(r.response) == AdminGate(v)
    ensures r.Listed? ==> SortedBy(r.rows, PositionLe) && multiset(r.rows) == multiset(rows)
  {
    match AdminGate(v)
    case Some(refusal) => Refused(refusal)
    case None => assert TotalPreorder(PositionLe); Listed(SortBy(rows, PositionLe))
  }

  /** Over the users table's query result, an admin sees each stored user exactly once and nothing else. */
  lemma ListUsersShowsTable(v: Viewer, table: map<int, User>, rows: seq<User>)
    requires IsAdmin(v) && QueryOf(rows, table)
    ensures ListUsers(v, rows).Listed?
    ensures forall k :: k in table ==> multiset(ListUsers(v, rows).rows)[table[k]] == 1
    ensures forall x :: x in ListUsers(v, rows).rows <==> x in table.Values
  {
    QueryOfOnce(rows, table);
    var listed := ListUsers(v, rows).rows;
    forall x ensures x in listed <==> x in rows {
      assert x in listed <==> x in multiset(listed);
      assert x in rows <==> x in multiset(rows);
    }
  }

  /** Over the nav table's query result, an admin sees each stored item exactly once, hidden ones included. */
  lemma ListNavShowsTable(v: Viewer, table: map<int, NavItem>, rows: seq<NavItem>)
    requires IsAdmin(v) && QueryOf(rows, table)
    ensures ListNav(v, rows).Listed?
    ensures forall k :: k in table ==> multiset(ListNav(v, rows).rows)[table[k]] == 1
    ensures forall x :: x in ListNav(v, rows).rows <==> x in table.Values
  {
    QueryOfOnce(rows, table);
    var listed := ListNav(v, rows).rows;
    forall x ensures x in listed <==> x in rows {
      assert x in listed <==> x in multiset(listed);
      assert x in rows <==> x in multiset(rows);
    }
  }

  // ---------------------------------------------------------------------
  // Users
  // ---------------------------------------------------------------------

  /** A `UserForm` that validated; `roleId` is the chosen role, coerced to an integer. */
  datatype UserForm = UserForm(username: string, email: string, roleId: int)

  /** The row `new_user` adds: the form's fields, the placeholder hash, and the chosen role. */
  function CreatedUser(id: int, f: UserForm): (u: User)
    ensures u.id == id
    ensures u.username == f.username && u.email == f.email && u.roleId == Some(f.roleId)
    ensures u.passwordHash == Some(PlaceholderHash)
  {
    User(id, f.username, f.email, Some(PlaceholderHash), Some(f.roleId))
  }

  /** `edit_user`'s change: username, email and role from the form; id and password hash kept. */
  function EditedUser(u: User, f: UserForm): (r: User)
    ensures r.id == u.id && r.passwordHash == u.passwordHash
    ensures r.username == f.username && r.email == f.email && r.roleId == Some(f.roleId)
  {
    u.(username := f.username, email := f.email, roleId := Some(f.roleId))
  }

  /** Saving the same form twice leaves the user as saving it once. */
  lemma EditUserIdempotent(u: User, f: UserForm)
    ensures EditedUser(EditedUser(u, f), f) == EditedUser(u, f)
  {
  }

  /**
    `new_user`. `form` is `None` when the request is a GET or the form did not
    validate; then the form is shown again and nothing is stored. Otherwise a
    user is added under a fresh id and the admin is sent to the user list.
  */
  method NewUser(db: Database, v: Viewer, form: Option<UserForm>) returns (resp: Response)
    requires db.Valid()
    modifies db`users, db`nextUserId
    ensures db.Valid()
    ensures AdminGate(v).Some? ==> resp == AdminGate(v).value && unchanged(db)
    ensures AdminGate(v).None? && form.None? ==> resp == ShowForm && unchanged(db)
    ensures AdminGate(v).None? && form.Some? ==>
      && resp == Redirect(UserList)
      && old(db.nextUserId) !in old(db.users)
      && db.users == old(db.users)[old(db.nextUserId) := CreatedUser(old(db.nextUserId), form.value)]
      && db.nextUserId == old(db.nextUserId) + 1
  {
    var gate := AdminGate(v);
    if gate.Some? {
      return gate.value;
    }
    if form.None? {
      return ShowForm;
    }
    var id := db.nextUserId;
    db.users := db.users[id := CreatedUser(id, form.value)];
    db.nextUserId := id + 1;
    return Redirect(UserList);
  }

  /**
    `edit_user`: after the gate, a missing user is a 404 whatever the form
    holds; a form that did not validate is shown again; otherwise only that
    user's username, email and role change.
  */
  method EditUser(db: Database, v: Viewer, userId: int, form: Option<UserForm>) returns (resp: Response)
    requires db.Valid()
    modifies db`users
    ensures db.Valid()
    ensures AdminGate(v).Some? ==> resp == AdminGate(v).value && unchanged(db)
    ensures AdminGate(v).None? && userId !in old(db.users) ==> resp == NotFound && unchanged(db)
    ensures AdminGate(v).None? && userId in old(db.users) && form.None? ==> resp == ShowForm && unchanged(db)
    ensures AdminGate(v).None? && userId in old(db.users) && form.Some? ==>
      && resp == Redirect(UserList)
      && db.users == old(db.users)[userId := EditedUser(old(db.users)[userId], form.value)]
  {
    var gate := AdminGate(v);
    if gate.Some? {
      return gate.value;
    }
    if userId !in db.users {
      return NotFound;
    }
    var user := db.users[userId];
    if form.None? {
      return ShowForm;
    }
    db.users := db.users[userId := EditedUser(user, form.value)];
    return Redirect(UserList);
  }

  /** `delete_user`: after the gate, a missing user is a 404; otherwise that row is removed. */
  method DeleteUser(db: Database, v: Viewer, userId: int) returns (resp: Response)
    requires db.Valid()
    modifies db`users
    ensures db.Valid()
    ensures AdminGate(v).Some? ==> resp == AdminGate(v).value && unchanged(db)
    ensures AdminGate(v).None? && userId !in old(db.users) ==> resp == NotFound && unchanged(db)
    ensures AdminGate(v).None? && userId in old(db.users) ==>
      resp == Redirect(UserList) && db.users == old(db.users) - {userId}
  {
    var gate := AdminGate(v);
    if gate.Some? {
      return gate.value;
    }
    if userId !in db.users {
      return NotFound;
    }
    db.users := db.users - {userId};
    return Redirect(UserList);
  }

  // ---------------------------------------------------------------------
  // Nav items
  // ---------------------------------------------------------------------

  /**
    The fields of a POST to `new_nav` or `edit_nav`, as `request.form.get`
    returns them: `position`, `roles_allowed` and `visible` may be absent.
  */
  datatype NavPost = NavPost(
    title: string,
    endpoint: string,
    position: Option<int>,
    rolesAllowed: Option<string>,
    visible: Option<string>)

  /** Python's `bool(request.form.get('visible'))`: present and non-empty. */
  predicate Checked(box: Option<string>) {
    box.Some? && box.value != ""
  }

  /**
    The nav item a POST describes: a missing position is 0, missing roles
    mean "everyone", and the item is visible exactly when the box came in ticked.
  */
  function PostedNav(id: int, p: NavPost): (n: NavItem)
    ensures n.id == id && n.title == p.title && n.endpoint == p.endpoint
    ensures n.position == (if p.position.Some? then p.position.value else 0)
    ensures n.rolesAllowed == (if p.rolesAllowed.Some? then p.rolesAllowed.value else "")
    ensures n.visible <==> p.visible.Some? && p.visible.value != ""
  {
    NavItem(id, p.title, p.endpoint, p.position.GetOr(0), p.rolesAllowed.GetOr(""), Checked(p.visible))
  }

  /**
    `new_nav`: `post` is `None` for a GET, which shows the form; a POST adds
    the item under a fresh id and goes to the nav list.
  */
  method NewNav(db: Database, v: Viewer, post: Option<NavPost>) returns (resp: Response)
    requires db.Valid()
    modifies db`navItems, db`nextNavId
    ensures db.Valid()
    ensures AdminGate(v).Some? ==> resp == AdminGate(v).value && unchanged(db)
    ensures AdminGate(v).None? && post.None? ==> resp == ShowForm && unchanged(db)
    ensures AdminGate(v).None? && post.Some? ==>
      && resp == Redirect(NavList)
      && old(db.nextNavId) !in old(db.navItems)
      && db.navItems == old(db.navItems)[old(db.nextNavId) := PostedNav(old(db.nextNavId), post.value)]
      && db.nextNavId == old(db.nextNavId) + 1
  {
    var gate := AdminGate(v);
    if gate.Some? {
      return gate.value;
    }
    if post.None? {
      return ShowForm;
    }
    var id := db.nextNavId;
    db.navItems := db.navItems[id := PostedNav(id, post.value)];
    db.nextNavId := id + 1;
    return Redirect(NavList);
  }

  /**
    `edit_nav`: after the gate, a missing item is a 404; a GET shows the form;
    a POST overwrites all five editable fields, with the same defaults as
    `new_nav`, and keeps the id.
  */
  method EditNav(db: Database, v: Viewer, navId: int, post: Option<NavPost>) returns (resp: Response)
    requires db.Valid()
    modifies db`navItems
    ensures db.Valid()
    ensures AdminGate(v).Some? ==> resp == AdminGate(v).value && unchanged(db)
    ensures AdminGate(v).None? && navId !in old(db.navItems) ==> resp == NotFound && unchanged(db)
    ensures AdminGate(v).None? && navId in old(db.navItems) && post.None? ==> resp == ShowForm && unchanged(db)
    ensures AdminGate(v).None? && navId in old(db.navItems) && post.Some? ==>
      resp == Redirect(NavList) && db.navItems == old(db.navItems)[navId := PostedNav(navId, post.value)]
  {
    var gate := AdminGate(v);
    if gate.Some? {
      return gate.value;
    }
    if navId !in db.navItems {
      return NotFound;
    }
    if post.None? {
      return ShowForm;
    }
    db.navItems := db.navItems[navId := PostedNav(navId, post.value)];
    return Redirect(NavList);
  }

  /** `delete_nav`: after the gate, a missing item is a 404; otherwise that row is removed. */
  method DeleteNav(db: Database, v: Viewer, navId: int) returns (resp: Response)
    requires db.Valid()
    modifies db`navItems
    ensures db.Valid()
    ensures AdminGate(v).Some? ==> resp == AdminGate(v).value && unchanged(db)
    ensures AdminGate(v).None? && navId !in old(db.navItems) ==> resp == NotFound && unchanged(db)
    ensures AdminGate(v).None? && navId in old(db.navItems) ==>
      resp == Redirect(NavList) && db.navItems == old(db.navItems) - {navId}
  {
    var gate := AdminGate(v);
    if gate.Some? {
      return gate.value;
    }
    if navId !in db.navItems {
      return NotFound;
    }
    db.navItems := db.navItems - {navId};
    return Redirect(NavList);
  }

  /**
    A nav item posted with the box ticked and no `roles_allowed` field appears,
    once stored, in every viewer's menu.
  */
  lemma PostedUnrestrictedReachesEveryMenu(rows: seq<NavItem>, v: Viewer, id: int, p: NavPost)
    requires PostedNav(id, p) in rows
    requires p.rolesAllowed.None? && Checked(p.visible)
    ensures PostedNav(id, p) in Nav.ShownItems(rows, v)
    ensures Nav.NavEntry(p.title, p.endpoint) in Nav.Entries(Nav.ShownItems(rows, v))
  {
    Nav.UnrestrictedShownToEveryone(rows, v, PostedNav(id, p));
  }

  /**
    What `new_nav` stores reaches the menu: if the nav table is the old one with
    the posted item added under its new id (the state `NewNav` ends in) and
    `rows` is that table's query result, an item posted with the box ticked and
    an empty or missing `roles_allowed` is in every viewer's menu.
  */
  lemma NewNavReachesEveryMenu(old_table: map<int, NavItem>, id: int, p: NavPost, rows: seq<NavItem>, v: Viewer)
    requires QueryOf(rows, old_table[id := PostedNav(id, p)])
    requires p.rolesAllowed.GetOr("") == "" && Checked(p.visible)
    ensures PostedNav(id, p) in Nav.ShownItems(rows, v)
    ensures Nav.NavEntry(p.title, p.endpoint) in Nav.Entries(Nav.ShownItems(rows, v))
  {
    var table := old_table[id := PostedNav(id, p)];
    QueryOfOnce(rows, table);
    assert table[id] in table.Values;
    Nav.UnrestrictedShownToEveryone(rows, v, PostedNav(id, p));
  }

  /** A nav item posted without the box ticked appears in no viewer's menu. */
  lemma PostedUncheckedInNoMenu(rows: seq<NavItem>, v: Viewer, id: int, p: NavPost)
    requires !Checked(p.visible)
    ensures PostedNav(id, p) !in Nav.ShownItems(rows, v)
  {
    Nav.ShownItemsMember(rows, v, PostedNav(id, p));
  }
}
