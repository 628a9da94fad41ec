# Bookkeeping web application: a verified model of its core

The application is a small Flask site for bookkeeping records. Signed-in users
add, edit, delete and bulk-import records (a category, an optional
subcategory, an amount, an optional description, a timestamp and the id of
the user who created it). Admins manage users and navigation entries. The
navigation menu is filtered per viewer by role name. Three JSON endpoints
report on the records: summary statistics, totals per category, and the fifty
newest records. A maintenance routine hashes any password still stored in
plain text.

This project models that core in Dafny and proves properties of the model.

- **`common.dfy`** (`Common`): `Option`, `Min`, and small facts about sets and maps.
- **`text.dfy`** (`Text`): Python's `str.strip`, `str.split` with a one-character separator, `str.startswith` and code-point string order. The lemmas cover strip's effect, both halves of the split/join round trip, and the order being a total order.
- **`query.dfy`** (`Query`): the SQL the handlers issue: `WHERE` (`Filter`), `ORDER BY` (a stable `SortBy`, proved to give a sorted permutation) and `LIMIT` (`Take`).
- **`store.dfy`** (`Store`):
  - The entities: role, user, nav item, record.
  - The viewer (`current_user` with its role).
  - The handlers' responses.
  - `login_required`.
  - The `Database` class: one id-keyed `map` per table the core changes, plus a next-id counter per table that stands in for the auto-increment key.
- **`nav.dfy`** (`Nav`): `inject_nav`, the menu filter. It is an imperative loop with the source's `allowed` flag, proved equal to a specification. Lemmas state what the menu holds: order, multiplicity, who sees which item, and how stray white space in role lists behaves.
- **`app.dfy`** (`App`): the `index` redirect and the three reporting endpoints. They are proved against sums, distinct-category sets and the sort order. Per-category values add up to the overall total, and a worked example is included.
- **`admin.dfy`** (`Admin`): the gate (`login_required`, then `admin_required`), the user and nav listings, and the six admin handlers. The handlers are methods that change the `Database` in place.
- **`records.dfy`** (`Records`): the record listing and the add, edit and delete handlers. It also covers the CSV upload loop, which inserts one record per row and counts the rows.
- **`dbutils.dfy`** (`DbUtils`): `ensure_passwords_hashed`. A loop hashes every stored password that needs it and counts the changes, and the routine commits only when something changed. The hash function is a parameter.

How the model stands in for the source:

- **Queries.** A handler that reads a table (`Model.query...all()`) takes the rows the database returns as a parameter `rows: seq<...>`. The `ORDER BY`, `WHERE` and `LIMIT` are applied by the model.
- **Form input.** A form that did not validate, or a GET request, is `None`. A validated form is a datatype carrying its fields.
- **Amounts** are exact `real` numbers, so the statistics are exact.
- **Timestamps** are integers that compare like the `recorded_at` column.

## Model

| member | source | states |
|---|---|---|
| Text.Strip | app.py:113 | `r.strip()`: the result is no longer than the input, and it neither starts nor ends with white space (Python's `str.isspace` set) |
| Text.IsSpace | app.py:113 | the characters `str.isspace` accepts, the set `strip()` removes from both ends |
| Text.StripRemovesPadding | app.py:113 | a name padded with white space on either side strips back to the name |
| Text.StripIdempotent | app.py:113 | stripping twice is stripping once |
| Text.Split | app.py:113 | `split(',')` gives at least one piece, and no piece contains a comma; empty pieces are kept |
| Text.JoinSplit | app.py:113 | joining the pieces of `split(',')` with commas gives back the role list |
| Text.SplitJoin | app.py:113 | a non-empty list of comma-free names, joined and split, is that list again |
| Text.StartsWith | db_utils.py:16 | `str.startswith`: the string is at least as long as the prefix and begins with it |
| Text.LexLe | admin.py:23 | the code-point (binary) string order that `ORDER BY username` sorts by, assuming binary collation |
| Text.LexLeTotal | admin.py:23 | the string order behind `ORDER BY username` relates every pair |
| Text.LexLeTransitive | admin.py:23 | that order is transitive |
| Text.LexLeAntisymmetric | admin.py:23 | two usernames ordered both ways are equal |
| Query.SortBy | admin.py:76 | `ORDER BY`: the result is a permutation of the rows, sorted by the key whenever the key is a total preorder |
| Query.InsertSorted | admin.py:76 | inserting a row into a sorted result keeps it sorted |
| Query.Filter | app.py:108 | `filter_by`: each row that passes occurs as often as in the table; every other row is gone |
| Query.Take | app.py:100 | `LIMIT n`: the first `min(n, count)` rows |
| Query.SortedPrefixComesFirst | app.py:100 | in a sorted result, every row inside a `LIMIT` cut ranks at or before every row after it |
| Store.LoginRequired | records.py:10 | `login_required`: the handler runs exactly for a signed-in viewer; anyone else is sent to the login page |
| Store.PositionLe | app.py:108 | the `ORDER BY position` key (also admin.py:76): by position, smallest first |
| Store.NewerOrSame | app.py:100 | the `ORDER BY recorded_at DESC` key (also records.py:12): the newer record comes first |
| Store.Database.constructor | db_utils.py:4-7 | `init_db` on a database that does not exist yet: empty tables whose ids start at 1 |
| Store.QueryOf | app.py:64 | `Model.query.all()` returns each row of the table once, in some order (the hypothesis that ties a `rows` parameter to a table) |
| Store.QueryOfOnce | app.py:64 | such a result holds each stored row exactly once and nothing that is not stored |
| Nav.RoleName | app.py:111 | the role name exists exactly for a signed-in viewer with a role, and it is that role's name |
| Nav.HasRoleName | app.py:112 | `role_name` is truthy (tested at app.py:112 and app.py:114): present and not the empty string |
| Nav.RoleTokens | app.py:113 | the role list's comma-separated pieces, each stripped, in order |
| Nav.VisibleByPosition | app.py:108 | `filter_by(visible=True).order_by(NavItem.position)` over the queried rows |
| Nav.IsVisible | app.py:108 | the `visible=True` condition of the query |
| Nav.VisibleByPositionSpec | app.py:108 | the query keeps the visible rows, each as often as it occurs in `rows`, ordered by position |
| Nav.Allowed | app.py:110-115 | the final value of the `allowed` flag: the role list is empty, or the viewer has a non-empty role name that is among its stripped pieces |
| Nav.Shown | app.py:109-116 | the items the `allowed` flag lets through, in query order |
| Nav.ShownItems | app.py:108-116 | the query followed by that filter: the items a viewer's menu lists |
| Nav.Entries | app.py:117 | `{'title': ..., 'endpoint': ...}` for each item, in order |
| Nav.ShownCount | app.py:109-117 | the loop keeps each allowed item as often as it occurs and drops every other item |
| Nav.BuildMenu | app.py:109-117 | the loop with the `allowed` flag returns exactly the title and endpoint of each item allowed for the viewer, in query order |
| Nav.InjectNav | app.py:104-117 | the menu is the title and endpoint of each visible item the viewer is allowed to see, in position order |
| Nav.ShownSorted | app.py:108-117 | filtering keeps the position order |
| Nav.EntriesAt | app.py:117 | entry `i` of the menu is the title and endpoint of item `i` |
| Nav.MenuIsOrderedVisibleAllowed | app.py:108-117 | the menu is sorted by position and holds each visible, allowed item as often as the query returns it, reduced to title and endpoint |
| Nav.ShownItemsMember | app.py:108-117 | an item is in the menu if and only if it is among the queried rows, visible and allowed for the viewer |
| Nav.StoredItemShownIff | app.py:108-117 | over the nav table's query result, an item is in the menu if and only if it is stored, visible and allowed for the viewer |
| Nav.UnrestrictedShownToEveryone | app.py:110 | a visible item with an empty role list is in every viewer's menu, anonymous viewers included |
| Nav.RestrictedHiddenWithoutRoleName | app.py:114-115 | a viewer without a role name sees no restricted item |
| Nav.NoRoleNameWhenAnonymousOrRoleless | app.py:111 | anonymous viewers, viewers without a role and viewers whose role name is empty have no role name |
| Nav.ListedIff | app.py:113 | a name is in the stripped pieces if and only if some piece strips to it |
| Nav.RestrictedShownIff | app.py:112-113 | for a viewer with a role name, a visible restricted item is shown if and only if some stripped piece of its list equals that name |
| Nav.PaddedRoleNameNeverListed | app.py:113 | a role name with white space at an end never matches, because every piece is stripped |
| Nav.PaddedRoleNameSeesOnlyUnrestricted | app.py:112-113 | so a viewer with such a role name sees only unrestricted items |
| Nav.AdminOnlyTokens | app.py:113 | the list "Admin" holds exactly the name "Admin" |
| Nav.AdminOnlyItemExample | app.py:108-117 | an item for "Admin" is hidden from a "User" viewer and from anonymous viewers, and shown to an "Admin" viewer |
| App.IndexTarget | app.py:29-35 | `index` sends a viewer to the dashboard if and only if they are signed in, and otherwise to the login page |
| App.Total | app.py:78 | `df['amount'].sum()`: the sum of the amounts |
| App.CategorySet | app.py:79 | the distinct category values that `nunique()` counts |
| App.ApiStats | app.py:62-81 | no records: all four fields are zero. Otherwise: the count, the sum of amounts, the number of distinct categories, and a mean that times the count gives the sum |
| App.TotalAppend | app.py:78 | the sum over two runs of rows is the sum of their sums |
| App.TotalPermutation | app.py:78 | the sum does not depend on the order the rows come in |
| App.StatsIgnoreOrder | app.py:64-81 | the same rows in any order give the same statistics |
| App.GroupKeys | app.py:91 | the keys of `groupby('category')`, built by inserting each record's category |
| App.CategorySum | app.py:91 | the `sum()` of one group: the amounts of the records in that category |
| App.CategorySums | app.py:91-95 | `grouped['amount'].tolist()`: one sum per group key, as many values as keys |
| App.InsertKey | app.py:91 | adding a category to the group keys gives the old keys plus that category |
| App.InsertKeyAscending | app.py:91 | adding a category keeps the keys strictly ascending |
| App.GroupKeysSpec | app.py:91 | `groupby('category')` keys are strictly ascending (so distinct) and are exactly the categories present |
| App.CategorySumsAt | app.py:91-95 | `values[i]` is the sum of the amounts in `categories[i]` |
| App.CategorySumsAddUp | app.py:91-95 | over distinct keys that cover every category, the per-key sums add up to the overall sum |
| App.ApiChartData | app.py:83-96 | no records: two empty lists. Otherwise the two lists have the same length |
| App.ChartDataSpec | app.py:83-96 | the categories are strictly ascending and are exactly those present. Each value is its category's sum, and the values add up to the stats' `total_value` |
| App.ApiRecordsList | app.py:98-101 | at most 50 records (exactly `min(50, n)`), newest first, each a queried record and none more often than the query returns it |
| App.RecordsListKeepsNewest | app.py:100 | no record left out of the list is newer than a record in it |
| App.FoodAndRentExample | app.py:62-96 | food 10 + food 5 + rent 100: stats (3, 115, 2, 115/3) and chart data (["food", "rent"], [15, 100]) |
| Admin.IsAdmin | admin.py:12 | the viewer passes `admin_required`: signed in, with a role, whose name is exactly "Admin" |
| Admin.UsernameLe | admin.py:23 | the `ORDER BY username` key, by code-point order |
| Admin.AdminGate | admin.py:9-16 | the handler runs exactly for a signed-in viewer whose role is named "Admin". Anonymous viewers go to login (`login_required` runs first); other signed-in viewers go to index |
| Admin.RefusedViewerReachesDashboard | admin.py:12-14 | a refused viewer who is signed in is sent to index, which sends them to the dashboard |
| Admin.AdminNameIsExact | admin.py:12 | "admin" and "Admin " are refused; only "Admin" passes |
| Admin.UsernameLeIsTotalPreorder | admin.py:23 | ordering users by username is a total preorder |
| Admin.ListUsers | admin.py:19-24 | admins get the queried users, each as often as the query returns it, sorted by username; everyone else gets the gate's redirect |
| Admin.ListUsersShowsTable | admin.py:19-24 | over the users table's query result, an admin sees each stored user exactly once and nothing else |
| Admin.ListNav | admin.py:72-77 | admins get the queried nav items, hidden ones included, each as often as the query returns it, sorted by position; everyone else gets the gate's redirect |
| Admin.ListNavShowsTable | admin.py:72-77 | over the nav table's query result, an admin sees each stored item exactly once, hidden ones included |
| Admin.CreatedUser | admin.py:33-38 | the new user takes the form's username, email and role, and the password hash "placeholder" |
| Admin.EditedUser | admin.py:53-55 | the edit sets username, email and role; the id and password hash are kept |
| Admin.EditUserIdempotent | admin.py:53-55 | documentation, not a promise of the source: saving the same form twice equals saving it once |
| Admin.NewUser | admin.py:26-43 | refused: the gate's answer and nothing changes. GET or an invalid form: the form and nothing changes. Otherwise a user is added under an unused id and the admin goes to the user list |
| Admin.EditUser | admin.py:45-59 | after the gate, a missing id is a 404 whatever the form. An invalid form changes nothing. Otherwise only that user is replaced by its edit |
| Admin.DeleteUser | admin.py:61-69 | after the gate, a missing id is a 404; otherwise exactly that row is removed |
| Admin.PostedNav | admin.py:85-91 | a missing position is 0 and a missing role list is "". The item is visible exactly when the box was sent non-empty |
| Admin.Checked | admin.py:89 | `bool(request.form.get('visible'))` (also admin.py:108): the box was sent with non-empty text |
| Admin.NewNav | admin.py:79-96 | after the gate, a GET shows the form; a POST adds the item under an unused id |
| Admin.EditNav | admin.py:98-112 | after the gate, a missing id is a 404 and a GET changes nothing. A POST rewrites all five fields with `new_nav`'s defaults and keeps the id |
| Admin.DeleteNav | admin.py:114-122 | after the gate, a missing id is a 404; otherwise exactly that row is removed |
| Admin.PostedUnrestrictedReachesEveryMenu | admin.py:88-89 | an item posted with the box ticked and no role list is, once it is among the queried rows, in every viewer's menu |
| Admin.NewNavReachesEveryMenu | admin.py:85-93 | after `new_nav` stores an item posted with the box ticked and an empty or missing role list, the table's query result puts it in every viewer's menu |
| Admin.PostedUncheckedInNoMenu | admin.py:89 | an item posted without the box ticked ends up in no menu |
| Records.ListRecords | records.py:9-13 | a signed-in viewer gets the queried records, each as often as the query returns it, newest first; anyone else is sent to login |
| Records.ListRecordsShowsTable | records.py:9-13 | over the records table's query result, a signed-in viewer sees each stored record exactly once and nothing else |
| Records.CreatedRecord | records.py:20-27 | the new record takes the form's five fields and belongs to the signed-in user |
| Records.EditedRecord | records.py:40-44 | the edit sets the five content fields; the id and owner are kept |
| Records.EditMatchesCreate | records.py:40-44 | documentation, not a promise of the source: an edited record is what creating the same form under the same id for the same owner would give |
| Records.NewRecord | records.py:15-32 | anonymous: redirect and no change. GET or an invalid form: no change. Otherwise the record is added under an unused id, owned by the viewer |
| Records.EditRecord | records.py:34-48 | a missing id is a 404 and an invalid form changes nothing. Otherwise only that record's content changes |
| Records.DeleteRecord | records.py:50-57 | a missing id is a 404; otherwise exactly that row is removed |
| Records.NoFile | records.py:62-63 | Werkzeug's `not f`: no file part, or one without a file name |
| Records.FromCsvRow | records.py:71-78 | a CSV row becomes a record owned by the uploader. A missing subcategory column gives no subcategory; a missing description column gives "" |
| Records.Imported | records.py:70-80 | the records the loop adds, row `i` under id `next + i`, owned by the uploader |
| Records.ImportedKeys | records.py:70-80 | an upload uses the ids from the next id on, one per row, and no other |
| Records.ImportedAt | records.py:70-80 | row `i` of the file becomes the record with id `next + i` |
| Records.UploadCsv | records.py:59-83 | no file, or a file part without a name: 400 "no file uploaded" and no change. Otherwise the loop adds one record per row, in file order, and reports how many it added |
| Records.UploadAddsOneRecordPerRow | records.py:70-83 | every uploaded record belongs to the uploader, and the table grows by exactly the reported count without overwriting a stored record |
| DbUtils.NeedsHash | db_utils.py:15-16 | `ph = u.password_hash or ''` then `ph and not ph.startswith('pbkdf2:')` |
| DbUtils.RehashUser | db_utils.py:15-17 | a password that is present, non-empty and not already a `pbkdf2:` hash is replaced by its hash; nothing else about the user changes |
| DbUtils.Rehashed | db_utils.py:14-17 | the users table after the loop: each user passed through `RehashUser` |
| DbUtils.RehashCount | db_utils.py:13-18 | the final `changed`: the number of users whose password needs hashing |
| DbUtils.NeedyIds | db_utils.py:16 | the ids of the users the `if` selects for hashing |
| DbUtils.HashPlaintextPasswords | db_utils.py:12-18 | the loop over the users ends with every user rehashed, and the count is the number of users that needed it |
| DbUtils.EnsurePasswordsHashed | db_utils.py:9-21 | the routine leaves the table rehashed, keeps ids consistent, and returns the number of users that needed hashing. The commit happens only when that number is not zero |
| DbUtils.RehashCountBounded | db_utils.py:13-18 | the count never exceeds the number of users |
| DbUtils.NoCountNoChange | db_utils.py:19-21 | a zero count means the table is unchanged, which is why skipping the commit is safe |
| DbUtils.SecondRunIsNoOp | db_utils.py:16-17 | if every hash begins with `pbkdf2:`, a second run counts nothing and changes nothing |
| DbUtils.ChangesAreTheCountedOnes | db_utils.py:14-18 | with such a hash, a user changes if and only if they were counted |
| DbUtils.ScryptHashesAreHashedAgain | db_utils.py:16 | if every hash begins with `scrypt:` (Werkzeug's default from 3.0 on), the users needing a hash after a run are the same as before, so every run rehashes them and reports the same count |
| DbUtils.AdminCreatedUserGetsHashed | admin.py:36 | the placeholder password of an admin-created user counts as plain text, and the routine hashes it |

## Left out

- Rendering, flash messages, URL building and HTTP status codes other than the upload's 400 are not modelled. Responses are reduced to `Response` values.
- Sessions and logins (auth.py) are not modelled. The signed-in viewer and the role loaded with it come in as a `Viewer` parameter.
- The validation logic of WTForms is not modelled: `DataRequired`, `Email`, the `SelectField` choices and the decimal and date parsing. A form that fails validation is `None`, and a valid form carries its fields already typed.
- The `position` of a nav item is taken as an integer. The raw form string that SQLite coerces, or stores as text when it is not numeric, is not modelled.
- A `title` or `endpoint` that is missing from the POST (Python `None`) is not modelled. Neither is a `NULL` role list, which Python would also treat as unrestricted.
- The surrounding `try`/`except Exception` of `inject_nav` is not modelled: nothing in the modelled loop can raise. On a database error it would return an empty menu.
- Floating point is not modelled. The `float(...)` conversions, pandas' float sums and means, and NaN for empty CSV cells are replaced by exact arithmetic on `real`.
- CSV parsing (`pd.read_csv`, `pd.to_datetime`) is not modelled. The upload receives the rows already parsed, with optional columns as `Option`.
- Transactions are not modelled. Each handler's changes take place at its single commit. A failure part-way through an upload is not modelled, so neither is which rows would remain pending.
- `generate_password_hash` is a function parameter `hash`. Its random salt and its PBKDF2 computation are not modelled. The idempotence lemma assumes only that each hash starts with `pbkdf2:`, as Werkzeug's default did before 3.0. `DbUtils.ScryptHashesAreHashedAgain` covers the `scrypt:` default of later versions.
- Query results are not derived from the tables. A handler takes `rows` as a parameter, and nothing forces it to be the table's contents. The `...ShowsTable` lemmas, `Nav.StoredItemShownIff` and `Admin.NewNavReachesEveryMenu` take `Store.QueryOf` (each stored row once) as a hypothesis.
- `init_db` on an existing database is not modelled. `db.create_all()` keeps the rows and ids already stored, and the constructor models only a database created from nothing.
- Store.Database: the `next...Id` counters abstract how the database picks a new primary key. SQLite without `AUTOINCREMENT` may reuse the largest id after its row is deleted, and the engine is set in config, which is not part of this model. The handlers' contracts promise only that a new id is not in the table at insert time.
- DbUtils.HashPlaintextPasswords: the model iterates the users in an arbitrary order, not in the query's. The result does not depend on the order.
- String order in `ORDER BY` is assumed to be SQLite's default binary collation, which is code-point order (`Text.LexLe`). Another engine or a configured collation would order usernames differently, and the engine is set in config, which is not part of this model.
- Categories are assumed non-null: `Record.category` is a plain string. pandas' `groupby` and `nunique` drop null keys while `sum()` still counts their amounts. A null category, for example from an empty CSV cell, would make the chart values fall short of `total_value`, and that case is not modelled.
- App.ApiRecordsList: ties on `recorded_at` are not fixed by SQL. The model breaks them stably, and the contract says nothing about which of the tied records fall inside the limit.
- Cascades when a user or record is deleted (the foreign keys of models.py) are not modelled. models.py is not part of this model.
- The `charts` page and the time series of analysis.py are not modelled. They are Plotly and pandas resampling.
- `records_to_df` and `to_dict` are not modelled. The model computes on the record fields directly.
- The reporting endpoints have no `login_required` in app.py. The model follows the code and takes them as open to every viewer.
