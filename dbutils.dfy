/**
  The maintenance routine of db_utils.py: `ensure_passwords_hashed` walks
  over every user and replaces a stored password that is not yet a
  Werkzeug PBKDF2 hash by the hash of it. The hash function is a parameter:
  `generate_password_hash` salts at random, so the model assumes nothing
  about it except where a lemma says so.
*/
module DbUtils {
  import opened Common
  import opened Text
  import opened Store
  import Admin

  /** The method tag Werkzeug puts in front of a PBKDF2 hash. */
  const HashPrefix: string := "pbkdf2:"

  /**
    `ph = u.password_hash or ''` followed by `ph and not ph.startswith('pbkdf2:')`:
    a stored value that is present, non-empty and not already a PBKDF2 hash.
  */
  predicate NeedsHash(ph: Option<string>) {
    var p := ph.GetOr("");
    p != "" && !StartsWith(p, HashPrefix)
  }

  /** One user after the routine: a password needing it is hashed; nothing else changes. */
  function RehashUser(u: User, hash: string -> string): (r: User)
    ensures r.id == u.id && r.username == u.username && r.email == u.email && r.roleId == u.roleId
    ensures NeedsHash(u.passwordHash) ==> r.passwordHash == Some(hash(u.passwordHash.value))
    ensures !NeedsHash(u.passwordHash) ==> r == u
  {
    if NeedsHash(u.passwordHash) then u.(passwordHash := Some(hash(u.passwordHash.value))) else u
  }

  /** The users table after the routine. */
  function Rehashed(users: map<int, User>, hash: string -> string): map<int, User> {
    map k | k in users :: RehashUser(users[k], hash)
  }

  /** The ids of the users whose password needs hashing. */
  function NeedyIds(users: map<int, User>): set<int> {
    set k | k in users && NeedsHash(users[k].passwordHash)
  }

  /** How many users the routine changes, the number it returns. */
  function RehashCount(users: map<int, User>): nat {
    |NeedyIds(users)|
  }

  /** The table part-way through the loop: the users in `done` are handled, the rest not yet. */
  ghost function PartlyRehashed(users: map<int, User>, done: set<int>, hash: string -> string): map<int, User> {
    map k | k in users :: if k in done then RehashUser(users[k], hash) else users[k]
  }

  /**
    Handling one more user rewrites that user's row when its password needs
    hashing, and otherwise leaves the table as it was.
  */
  lemma PartlyRehashedStep(users: map<int, User>, done: set<int>, hash: string -> string, k: int)
    requires k in users && k !in done
    ensures NeedsHash(users[k].passwordHash) ==>
      PartlyRehashed(users, done + {k}, hash) == PartlyRehashed(users, done, hash)[k := RehashUser(users[k], hash)]
    ensures !NeedsHash(users[k].passwordHash) ==>
      PartlyRehashed(users, done + {k}, hash) == PartlyRehashed(users, done, hash)
    ensures PartlyRehashed(users, done, hash)[k] == users[k]
  {
  }

  /** Handling every user is the whole routine. */
  lemma PartlyRehashedAll(users: map<int, User>, hash: string -> string)
    ensures PartlyRehashed(users, users.Keys, hash) == Rehashed(users, hash)
  {
  }

  /** Rehashing keeps every row under its own id. */
  lemma RehashedKeyed(users: map<int, User>, hash: string -> string, next: int)
    requires Keyed(users, UserId, next)
    ensures Keyed(Rehashed(users, hash), UserId, next)
  {
  }

  /** The count of handled users needing a hash goes up by one exactly when the next one needs it. */
  lemma CountStep(users: map<int, User>, done: set<int>, k: int)
    requires k in users && k !in done
    ensures |NeedyIds(users) * (done + {k})| ==
      |NeedyIds(users) * done| + (if NeedsHash(users[k].passwordHash) then 1 else 0)
  {
    if NeedsHash(users[k].passwordHash) {
      assert NeedyIds(users) * (done + {k}) == NeedyIds(users) * done + {k};
    } else {
      assert NeedyIds(users) * (done + {k}) == NeedyIds(users) * done;
    }
  }

  /**
    The loop of `ensure_passwords_hashed` over the users the query returns:
    each password that needs it is hashed in the session's copy of the rows,
    and the changes are counted.
  */
  method HashPlaintextPasswords(users: map<int, User>, hash: string -> string) returns (session: map<int, User>, changed: nat)
    ensures session == Rehashed(users, hash)
    ensures changed == RehashCount(users)
  {
    session := users;
    var todo := users.Keys;
    ghost var done: set<int> := {};
    changed := 0;
    while todo != {}
      invariant todo !! done && todo + done == users.Keys
      invariant session == PartlyRehashed(users, done, hash)
      invariant changed == |NeedyIds(users) * done|
      decreases |todo|
    {
      NonEmptyHasMember(todo);
      var k :| k in todo;
      var u := session[k];
      PartlyRehashedStep(users, done, hash, k);
      CountStep(users, done, k);
      var ph := u.passwordHash.GetOr("");
      if ph != "" && !StartsWith(ph, HashPrefix) {
        session := session[k := u.(passwordHash := Some(hash(ph)))];
        changed := changed + 1;
      }
      MoveMember(todo, done, k);
      todo := todo - {k};
      done := done + {k};
    }
    PartlyRehashedAll(users, hash);
    assert NeedyIds(users) * done == NeedyIds(users);
  }

  /**
    `ensure_passwords_hashed`: the loop above, then the commit, which happens
    only when something changed; it returns the number of users changed.
  */
  method EnsurePasswordsHashed(db: Database, hash: string -> string) returns (changed: nat)
    requires db.Valid()
    modifies db`users
    ensures db.Valid()
    ensures db.users == Rehashed(old(db.users), hash)
    ensures changed == RehashCount(old(db.users))
  {
    var session;
    session, changed := HashPlaintextPasswords(db.users, hash);
    if changed != 0 {
      RehashedKeyed(db.users, hash, db.nextUserId);
      db.users := session;
    } else {
      NoCountNoChange(db.users, hash);
    }
  }

  /** A subset is no larger than the set it is drawn from. */
  lemma {:induction false} SubsetSize(a: set<int>, b: set<int>)
    requires a <= b
    ensures |a| <= |b|
    decreases |b|
  {
    if b != {} {
      NonEmptyHasMember(b);
      var x :| x in b;
      SubsetSize(a - {x}, b - {x});
    }
  }

  /** The routine never reports more changes than there are users. */
  lemma RehashCountBounded(users: map<int, User>)
    ensures RehashCount(users) <= |users|
  {
    SubsetSize(NeedyIds(users), users.Keys);
  }

  /** Reporting no change means the table is left exactly as it was. */
  lemma NoCountNoChange(users: map<int, User>, hash: string -> string)
    requires RehashCount(users) == 0
    ensures Rehashed(users, hash) == users
  {
    assert NeedyIds(users) == {};
    forall k | k in users ensures Rehashed(users, hash)[k] == users[k] {
      assert k !in NeedyIds(users);
    }
    assert Rehashed(users, hash).Keys == users.Keys;
  }

  /**
    When the hash function always produces a PBKDF2-tagged value, as Werkzeug's
    default method did before Werkzeug 3.0, a second run finds nothing to do
    and changes nothing.
  */
  lemma SecondRunIsNoOp(users: map<int, User>, hash: string -> string)
    requires forall s :: StartsWith(hash(s), HashPrefix)
    ensures RehashCount(Rehashed(users, hash)) == 0
    ensures Rehashed(Rehashed(users, hash), hash) == Rehashed(users, hash)
  {
    var once := Rehashed(users, hash);
    forall k | k in once ensures !NeedsHash(once[k].passwordHash) {
      if NeedsHash(users[k].passwordHash) {
        assert once[k].passwordHash == Some(hash(users[k].passwordHash.value));
      }
    }
    assert NeedyIds(once) == {};
    NoCountNoChange(once, hash);
  }

  /**
    Only users counted as needing a hash can change, and, under a hash that
    tags its output, every one of them does.
  */
  lemma ChangesAreTheCountedOnes(users: map<int, User>, hash: string -> string, k: int)
    requires k in users
    requires forall s :: StartsWith(hash(s), HashPrefix)
    ensures Rehashed(users, hash)[k] != users[k] <==> k in NeedyIds(users)
  {
    if k in NeedyIds(users) {
      var p := users[k].passwordHash.value;
      assert StartsWith(hash(p), HashPrefix);
    }
  }

  /**
    Under a hash that tags its output `scrypt:` (Werkzeug's default from 3.0
    on), the `pbkdf2:` test never recognises a fresh hash: after a run, the
    users needing a hash are the same users as before, so every later run
    hashes them again and reports the same count.
  */
  lemma ScryptHashesAreHashedAgain(users: map<int, User>, hash: string -> string)
    requires forall s :: StartsWith(hash(s), "scrypt:")
    ensures NeedyIds(Rehashed(users, hash)) == NeedyIds(users)
    ensures RehashCount(Rehashed(users, hash)) == RehashCount(users)
  {
    var once := Rehashed(users, hash);
    forall k | k in users ensures NeedsHash(once[k].passwordHash) == NeedsHash(users[k].passwordHash) {
      if NeedsHash(users[k].passwordHash) {
        var h := hash(users[k].passwordHash.value);
        assert StartsWith(h, "scrypt:");
        assert h[0] == 's' && HashPrefix[0] == 'p';
      }
    }
  }

  /**
    A user an admin created carries the placeholder password, which the
    routine treats as plaintext and hashes.
  */
  lemma AdminCreatedUserGetsHashed(id: int, f: Admin.UserForm, hash: string -> string)
    ensures NeedsHash(Admin.CreatedUser(id, f).passwordHash)
    ensures RehashUser(Admin.CreatedUser(id, f), hash).passwordHash == Some(hash(Admin.PlaceholderHash))
  {
    assert Admin.PlaceholderHash[1] != HashPrefix[1];
  }
}
