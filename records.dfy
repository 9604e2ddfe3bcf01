/**
 * The vault's records as the browser stores them (JSON objects in localStorage), the three
 * persisted maps taken together, the snapshot that is exported and merged, and the invariants
 * a consistent store keeps.
 */
module Records {
  import opened Wrappers
  import opened Text

  /**
   * A registered account. `role` is "admin" or "user" for accounts made by registration; an
   * account imported from a snapshot may carry anything, and a missing role is the empty string.
   */
  datatype User = User(
    email: string,
    name: string,
    passwordHash: string,
    passwordSalt: string,
    createdAt: string,
    teams: seq<string>,
    role: string,
    status: string)

  /** A stored credential; `createdAt` is only set when the entry is first created. */
  datatype PasswordEntry = PasswordEntry(
    id: string,
    title: string,
    username: string,
    password: string,
    url: string,
    notes: string,
    createdAt: Option<string>,
    updatedAt: string,
    teamId: Option<string>)

  /** A team member; `role` is "admin" for the creator and "member" for those who joined. */
  datatype Member = Member(email: string, name: string, role: string)

  /**
   * A team. `members` and `passwords` may be missing in a team read from a snapshot file; the
   * team-creation path always sets both.
   */
  datatype Team = Team(
    id: string,
    name: string,
    inviteCode: string,
    createdBy: string,
    createdAt: string,
    members: Option<seq<Member>>,
    passwords: Option<seq<PasswordEntry>>)

  /** The public profile kept for the logged-in user: no hash, no salt, no status. */
  datatype SessionUser = SessionUser(
    email: string,
    name: string,
    createdAt: string,
    teams: seq<string>,
    role: string)

  /**
   * The three persisted maps: users by lower-cased email, personal password lists by
   * lower-cased owner email, teams by id.
   */
  datatype Db = Db(
    users: map<string, User>,
    passwords: map<string, seq<PasswordEntry>>,
    teams: map<string, Team>)

  /** An incoming snapshot as parsed from a file: each of the three parts may be missing. */
  datatype Snapshot = Snapshot(
    users: Option<map<string, User>>,
    passwords: Option<map<string, seq<PasswordEntry>>>,
    teams: Option<map<string, Team>>)

  /** The id by which password lists are deduplicated. */
  function EntryId(p: PasswordEntry): string {
    p.id
  }

  /** The lower-cased email by which member lists are deduplicated. */
  function MemberKey(m: Member): string {
    ToLower(m.email)
  }

  /** The keys present in a list: JavaScript's `new Set(list.map(key))`. */
  function KeySet<T(==)>(xs: seq<T>, key: T -> string): set<string> {
    set x | x in xs :: key(x)
  }

  /** The list stored under `k`, or the empty list when there is none: `map[k] || []`. */
  function ListAt(m: map<string, seq<PasswordEntry>>, k: string): seq<PasswordEntry> {
    if k in m then m[k] else []
  }

  /** No two elements of the list share a key. */
  predicate UniqueKeys<T>(xs: seq<T>, key: T -> string) {
    forall i, j :: 0 <= i < j < |xs| ==> key(xs[i]) != key(xs[j])
  }

  /** `m.email.toLowerCase() === email.toLowerCase()`. */
  predicate SameEmail(a: string, b: string) {
    ToLower(a) == ToLower(b)
  }

  /** A team stored under key `k` is consistent: its id is `k`, and its lists are duplicate-free. */
  predicate TeamOk(k: string, t: Team) {
    && t.id == k
    && t.members.Some?
    && UniqueKeys(t.members.value, MemberKey)
    && (t.passwords.Some? ==> UniqueKeys(t.passwords.value, EntryId))
  }

  predicate UsersOk(users: map<string, User>) {
    forall k :: k in users ==> ToLower(users[k].email) == k
  }

  predicate PasswordsOk(passwords: map<string, seq<PasswordEntry>>) {
    forall k :: k in passwords ==> UniqueKeys(passwords[k], EntryId)
  }

  predicate TeamsOk(teams: map<string, Team>) {
    forall k :: k in teams ==> TeamOk(k, teams[k])
  }

  /**
   * The store's invariant: users keyed by their lower-cased email, ids unique within each
   * password list, members unique by lower-cased email, every team keyed by its own id.
   */
  predicate DbOk(db: Db) {
    UsersOk(db.users) && PasswordsOk(db.passwords) && TeamsOk(db.teams)
  }

  /** A snapshot that a consistent store would export. */
  predicate SnapshotOk(data: Snapshot) {
    && (data.users.Some? ==> UsersOk(data.users.value))
    && (data.passwords.Some? ==> PasswordsOk(data.passwords.value))
    && (data.teams.Some? ==> TeamsOk(data.teams.value))
  }
}
