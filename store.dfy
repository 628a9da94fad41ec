/**
  The application's entities, the request context and the database.

  The database is one object holding one id-keyed table per entity that the
  core changes. Each table is a `map` from primary key to row; a counter per
  table stands for the way the database assigns a new primary key, and the
  model only relies on the new key not being in the table. Reading a table
  as a query result (`Model.query.all()`) is a call into the database layer
  and appears in the model as a parameter `rows: seq<...>`; `QueryOf` says
  when such a parameter is what the query returns for a table.
*/
module Store {
  import opened Common

  /** A role; nav items name roles by `name`, users point to one by id. */
  datatype Role = Role(id: int, name: string)

  /** A user account; `passwordHash` and `roleId` are nullable columns. */
  datatype User = User(id: int, username: string, email: string, passwordHash: Option<string>, roleId: Option<int>)

  /**
    A navigation entry: `rolesAllowed` is a comma-separated list of role
    names, and the empty string means "everyone".
  */
  datatype NavItem = NavItem(id: int, title: string, endpoint: string, position: int, rolesAllowed: string, visible: bool)

  /**
    A bookkeeping record. `amount` is exact (a decimal column), `recordedAt` a
    timestamp as a count of seconds, `createdBy` the id of the user who made it.
  */
  datatype Record = Record(
    id: int,
    category: string,
    subcategory: Option<string>,
    amount: real,
    description: Option<string>,
    recordedAt: int,
    createdBy: int)

  /** flask_login's `current_user`, with the user's role already loaded. */
  datatype Viewer = Anonymous | SignedIn(userId: int, role: Option<Role>)

  /** The pages a handler can redirect to. */
  datatype Page = Index | Login | Dashboard | UserList | NavList | RecordList

  /** What a handler answers, stripped of rendering and serialisation. */
  datatype Response =
    | Redirect(to: Page)
    | NotFound                                   // `get_or_404` found no row
    | ShowForm                                   // GET, or a form that did not validate
    | JsonError(status: nat, message: string)
    | UploadOk(inserted: nat)

  /** A listing page: the rows, or the response of the gate that refused it. */
  datatype Listing<T> = Listed(rows: seq<T>) | Refused(response: Response)

  /**
    flask_login's `login_required`: an anonymous viewer is sent to the login
    page and the handler does not run (`None` lets it run).
  */
  function LoginRequired(v: Viewer): (r: Option<Response>)
    ensures r.None? <==> v.SignedIn?
    ensures r.Some? ==> r.value == Redirect(Login)
  {
    if v.SignedIn? then None else Some(Redirect(Login))
  }

  /** `ORDER BY position`. */
  function PositionLe(a: NavItem, b: NavItem): bool {
    a.position <= b.position
  }

  /** `ORDER BY recorded_at DESC`: newer records first. */
  function NewerOrSame(a: Record, b: Record): bool {
    a.recordedAt >= b.recordedAt
  }

  /** Every row is stored under its own id, and every id is below the table's next id. */
  ghost predicate Keyed<T>(table: map<int, T>, id: T -> int, next: int) {
    forall k :: k in table ==> id(table[k]) == k && k < next
  }

  /** `rows` is what `Model.query.all()` returns for `table`: each stored row once, in some order. */
  predicate QueryOf<T(==)>(rows: seq<T>, table: map<int, T>) {
    multiset(rows) == multiset(table.Values)
  }

  /** A query result holds each stored row exactly once, and nothing that is not stored. */
  lemma QueryOfOnce<T>(rows: seq<T>, table: map<int, T>)
    requires QueryOf(rows, table)
    ensures forall k :: k in table ==> multiset(rows)[table[k]] == 1
    ensures forall x :: x in rows <==> x in table.Values
  {
    forall k | k in table ensures multiset(rows)[table[k]] == 1 {
      assert table[k] in table.Values;
    }
    forall x ensures x in rows <==> x in table.Values {
      assert x in rows <==> x in multiset(rows);
    }
  }

  function UserId(u: User): int { u.id }
  function NavId(n: NavItem): int { n.id }
  function RecordId(r: Record): int { r.id }

  /** The tables the core reads and writes (SQLAlchemy's `db.session` over them). */
  class Database {
    var users: map<int, User>
    var navItems: map<int, NavItem>
    var records: map<int, Record>
    var nextUserId: int
    var nextNavId: int
    var nextRecordId: int

    ghost predicate Valid()
      reads this
    {
      && Keyed(users, UserId, nextUserId)
      && Keyed(navItems, NavId, nextNavId)
      && Keyed(records, RecordId, nextRecordId)
    }

    /** A database created from nothing: empty tables whose ids start at 1. */
    constructor ()
      ensures Valid()
      ensures users == map[] && navItems == map[] && records == map[]
      ensures nextUserId == 1 && nextNavId == 1 && nextRecordId == 1
    {
      users, navItems, records := map[], map[], map[];
      nextUserId, nextNavId, nextRecordId := 1, 1, 1;
    }
  }
}
