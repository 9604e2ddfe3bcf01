/**
 * The record store of js/storage.js: three maps persisted under the localStorage keys
 * `pm_users`, `pm_passwords` and `pm_teams`, the logged-in user under `pm_current_user`, and
 * the master key in sessionStorage. Each key is a field of `Store`; a missing key is `None`.
 */
module Storage {
  import opened Wrappers
  import opened Text
  import opened Records

  // ----- Pure operations on the stored values -----

  /** `users[email.toLowerCase()] || null`. */
  function LookupUser(users: map<string, User>, email: string): (r: Option<User>)
    ensures r.Some? <==> ToLower(email) in users
    ensures r.Some? ==> r.value == users[ToLower(email)]
  {
    if ToLower(email) in users then Some(users[ToLower(email)]) else None
  }

  /** `users[user.email.toLowerCase()] = user`. */
  function PutUser(users: map<string, User>, user: User): (r: map<string, User>)
    ensures r.Keys == users.Keys + {ToLower(user.email)}
    ensures r[ToLower(user.email)] == user
    ensures forall k :: k in users && k != ToLower(user.email) ==> r[k] == users[k]
  {
    users[ToLower(user.email) := user]
  }

  /** A saved user is found under every casing of its email; other lookups are unaffected. */
  lemma LookupAfterPut(users: map<string, User>, user: User, email: string)
    ensures LookupUser(PutUser(users, user), email)
      == if SameEmail(email, user.email) then Some(user) else LookupUser(users, email)
  {
  }

  /** Saving a user keeps every user keyed by its own lower-cased email. */
  lemma PutUserKeepsUsersOk(users: map<string, User>, user: User)
    requires UsersOk(users)
    ensures UsersOk(PutUser(users, user))
  {
    ToLowerIdempotent(user.email);
  }

  /** Some entry of the list has this id. */
  predicate HasId(l: seq<PasswordEntry>, id: string) {
    exists j :: 0 <= j < |l| && l[j].id == id
  }

  /** `findIndex(p => p.id === id)`: the first index with that id, or -1. */
  function FindIndex(l: seq<PasswordEntry>, id: string): (r: int)
    ensures -1 <= r < |l|
    ensures r >= 0 ==> l[r].id == id && forall j :: 0 <= j < r ==> l[j].id != id
    ensures r < 0 <==> !HasId(l, id)
  {
    if l == [] then -1
    else if l[0].id == id then 0
    else
      var k := FindIndex(l[1..], id);
      assert forall j :: 1 <= j < |l| ==> l[j] == l[1..][j - 1];
      if k < 0 then -1 else k + 1
  }

  /**
   * The update-or-append of `savePassword` and `saveTeamPassword`: the first entry with the same
   * id is replaced in place, otherwise the entry is appended.
   */
  function Upsert(l: seq<PasswordEntry>, entry: PasswordEntry): (r: seq<PasswordEntry>)
    ensures |r| == if HasId(l, entry.id) then |l| else |l| + 1
    ensures !HasId(l, entry.id) ==> r == l + [entry]
    ensures forall j :: 0 <= j < |l| && l[j].id != entry.id ==> r[j] == l[j]
    ensures forall j :: 0 <= j < |l| ==> r[j] == l[j] || r[j] == entry
    ensures HasId(l, entry.id) ==> r == l[FindIndex(l, entry.id) := entry]
    ensures entry in r
  {
    var i := FindIndex(l, entry.id);
    if i >= 0 then l[i := entry] else l + [entry]
  }

  /** `filter(p => p.id !== id)`. */
  function RemoveId(l: seq<PasswordEntry>, id: string): (r: seq<PasswordEntry>)
    ensures forall p :: p in r <==> p in l && p.id != id
    ensures |r| <= |l|
  {
    if l == [] then [] else (if l[0].id == id then [] else [l[0]]) + RemoveId(l[1..], id)
  }

  /** The filter keeps the order: it distributes over concatenation. */
  lemma {:induction false} RemoveIdAppend(a: seq<PasswordEntry>, b: seq<PasswordEntry>, id: string)
    ensures RemoveId(a + b, id) == RemoveId(a, id) + RemoveId(b, id)
  {
    if a != [] {
      var head := if a[0].id == id then [] else [a[0]];
      assert (a + b)[0] == a[0] && (a + b)[1..] == a[1..] + b;
      assert RemoveId(a + b, id) == head + RemoveId(a[1..] + b, id);
      RemoveIdAppend(a[1..], b, id);
      assert RemoveId(a, id) == head + RemoveId(a[1..], id);
    } else {
      assert a + b == b;
    }
  }

  /** Deleting an id that is absent changes nothing. */
  lemma {:induction false} RemoveAbsentId(l: seq<PasswordEntry>, id: string)
    requires !HasId(l, id)
    ensures RemoveId(l, id) == l
  {
    if l != [] {
      assert forall j :: 0 <= j < |l[1..]| ==> l[1..][j] == l[j + 1];
      RemoveAbsentId(l[1..], id);
    }
  }

  /** Filtering keeps ids unique. */
  lemma {:induction false} RemoveIdKeepsUnique(l: seq<PasswordEntry>, id: string)
    requires UniqueKeys(l, EntryId)
    ensures UniqueKeys(RemoveId(l, id), EntryId)
  {
    if l != [] {
      RemoveIdKeepsUnique(l[1..], id);
      var rest := RemoveId(l[1..], id);
      forall p | p in rest ensures p.id != l[0].id {
        var j :| 0 <= j < |l[1..]| && l[1..][j] == p;
        assert l[j + 1] == p;
      }
    }
  }

  /** Updating or appending by id keeps ids unique. */
  lemma UpsertKeepsUnique(l: seq<PasswordEntry>, entry: PasswordEntry)
    requires UniqueKeys(l, EntryId)
    ensures UniqueKeys(Upsert(l, entry), EntryId)
  {
  }

  /** Deleting an entry that was just saved into a list without its id restores the list. */
  lemma DeleteUndoesAppend(l: seq<PasswordEntry>, entry: PasswordEntry)
    requires !HasId(l, entry.id)
    ensures RemoveId(Upsert(l, entry), entry.id) == l
  {
    RemoveIdAppend(l, [entry], entry.id);
    RemoveAbsentId(l, entry.id);
    assert [entry][1..] == [];
  }

  /** `savePassword` on the personal map: upsert into the list under the lower-cased owner. */
  function SavePasswordIn(passwords: map<string, seq<PasswordEntry>>, email: string, entry: PasswordEntry): (r: map<string, seq<PasswordEntry>>)
    ensures r.Keys == passwords.Keys + {ToLower(email)}
    ensures entry in r[ToLower(email)]
    ensures forall k :: k in passwords && k != ToLower(email) ==> r[k] == passwords[k]
  {
    passwords[ToLower(email) := Upsert(ListAt(passwords, ToLower(email)), entry)]
  }

  /** `deletePassword` on the personal map: filter the list under the lower-cased owner. */
  function DeletePasswordIn(passwords: map<string, seq<PasswordEntry>>, email: string, id: string): (r: map<string, seq<PasswordEntry>>)
    ensures r.Keys == passwords.Keys + {ToLower(email)}
    ensures forall p :: p in r[ToLower(email)] <==> p in ListAt(passwords, ToLower(email)) && p.id != id
    ensures forall k :: k in passwords && k != ToLower(email) ==> r[k] == passwords[k]
  {
    passwords[ToLower(email) := RemoveId(ListAt(passwords, ToLower(email)), id)]
  }

  /**
   * Saving a password touches only the owner's list: it grows by one exactly when the id was
   * new, and every other owner's list is unchanged.
   */
  lemma SavePasswordLocal(passwords: map<string, seq<PasswordEntry>>, email: string, entry: PasswordEntry)
    ensures var r := SavePasswordIn(passwords, email, entry);
      && r.Keys == passwords.Keys + {ToLower(email)}
      && (forall k :: k in passwords && k != ToLower(email) ==> r[k] == passwords[k])
      && |r[ToLower(email)]| == |ListAt(passwords, ToLower(email))| + (if HasId(ListAt(passwords, ToLower(email)), entry.id) then 0 else 1)
  {
  }

  /**
   * Deleting a password touches only the owner's list, which keeps exactly the entries with
   * other ids; an unknown owner gets an empty list.
   */
  lemma DeletePasswordLocal(passwords: map<string, seq<PasswordEntry>>, email: string, id: string)
    ensures var r := DeletePasswordIn(passwords, email, id);
      && r.Keys == passwords.Keys + {ToLower(email)}
      && (forall k :: k in passwords && k != ToLower(email) ==> r[k] == passwords[k])
      && (forall p :: p in r[ToLower(email)] <==> p in ListAt(passwords, ToLower(email)) && p.id != id)
      && (ToLower(email) !in passwords ==> r[ToLower(email)] == [])
  {
  }

  /** Both personal-password operations keep ids unique within every list. */
  lemma PasswordOpsKeepPasswordsOk(passwords: map<string, seq<PasswordEntry>>, email: string, entry: PasswordEntry, id: string)
    requires PasswordsOk(passwords)
    ensures PasswordsOk(SavePasswordIn(passwords, email, entry))
    ensures PasswordsOk(DeletePasswordIn(passwords, email, id))
  {
    UpsertKeepsUnique(ListAt(passwords, ToLower(email)), entry);
    RemoveIdKeepsUnique(ListAt(passwords, ToLower(email)), id);
  }

  /** `t.members.some(m => m.email.toLowerCase() === email.toLowerCase())`. */
  predicate IsMember(members: seq<Member>, email: string) {
    exists m :: m in members && SameEmail(m.email, email)
  }

  /** `ts` lists the teams stored under the distinct keys `ks`, one element per key, in that order. */
  predicate KeysListed(teams: map<string, Team>, ks: seq<string>, ts: seq<Team>) {
    && |ks| == |ts|
    && (forall i :: 0 <= i < |ks| ==> ks[i] in teams && ts[i] == teams[ks[i]])
    && (forall i, j :: 0 <= i < j < |ks| ==> ks[i] != ks[j])
  }

  /** `ts` holds, once each, exactly the teams with a member list that lists the email. */
  predicate ListsMatching(teams: map<string, Team>, email: string, ks: seq<string>, ts: seq<Team>) {
    && KeysListed(teams, ks, ts)
    && forall k :: k in teams ==> (k in ks <==> teams[k].members.Some? && IsMember(teams[k].members.value, email))
  }

  /** The scan of `getUserTeams` with the keys in `todo` still to visit. */
  predicate MatchingSoFar(teams: map<string, Team>, email: string, todo: set<string>, ks: seq<string>, ts: seq<Team>) {
    && KeysListed(teams, ks, ts)
    && (forall i :: 0 <= i < |ks| ==> ks[i] !in todo)
    && forall k :: k in teams && k !in todo ==> (k in ks <==> teams[k].members.Some? && IsMember(teams[k].members.value, email))
  }

  /** Visiting one more key, and listing its team when it matches, keeps the scan's invariant. */
  lemma MatchingStep(teams: map<string, Team>, email: string, todo: set<string>, ks: seq<string>, ts: seq<Team>, k: string)
    requires MatchingSoFar(teams, email, todo, ks, ts) && k in todo && k in teams && teams[k].members.Some?
    ensures var m := IsMember(teams[k].members.value, email);
      MatchingSoFar(teams, email, todo - {k}, if m then ks + [k] else ks, if m then ts + [teams[k]] else ts)
  {
  }

  /** A list of the matching teams, once per key, holds exactly the matching teams. */
  lemma MatchingTeams(teams: map<string, Team>, email: string, ks: seq<string>, ts: seq<Team>)
    requires MatchingSoFar(teams, email, {}, ks, ts)
    ensures ListsMatching(teams, email, ks, ts)
    ensures forall t :: t in ts <==> t in teams.Values && t.members.Some? && IsMember(t.members.value, email)
  {
    forall t | t in teams.Values && t.members.Some? && IsMember(t.members.value, email) ensures t in ts {
      var k :| k in teams && teams[k] == t;
      var i :| 0 <= i < |ks| && ks[i] == k;
    }
  }

  /** The team with one more upserted password, creating its list when it has none. */
  function WithTeamPassword(t: Team, entry: PasswordEntry): (r: Team)
    ensures r.passwords.Some? && entry in r.passwords.value
    ensures var l, ps := t.passwords.GetOr([]), r.passwords.value;
      && |ps| == (if HasId(l, entry.id) then |l| else |l| + 1)
      && (!HasId(l, entry.id) ==> ps == l + [entry])
      && (forall j :: 0 <= j < |l| && l[j].id != entry.id ==> ps[j] == l[j])
      && (forall j :: 0 <= j < |l| ==> ps[j] == l[j] || ps[j] == entry)
      && (HasId(l, entry.id) ==> ps == l[FindIndex(l, entry.id) := entry])
    ensures r.(passwords := t.passwords) == t
  {
    t.(passwords := Some(Upsert(t.passwords.GetOr([]), entry)))
  }

  /** The team with an id filtered out of its password list. */
  function WithoutTeamPassword(t: Team, id: string): (r: Team)
    requires t.passwords.Some?
    ensures r.passwords.Some? && forall p :: p in r.passwords.value <==> p in t.passwords.value && p.id != id
    ensures r.(passwords := t.passwords) == t
  {
    t.(passwords := Some(RemoveId(t.passwords.value, id)))
  }

  /** Saving a team keyed by its own id keeps every team consistent. */
  lemma PutTeamKeepsTeamsOk(teams: map<string, Team>, t: Team)
    requires TeamsOk(teams) && TeamOk(t.id, t)
    ensures TeamsOk(teams[t.id := t])
  {
  }

  /** Upserting or filtering a consistent team's passwords keeps it consistent. */
  lemma TeamPasswordOpsKeepTeamOk(k: string, t: Team, entry: PasswordEntry, id: string)
    requires TeamOk(k, t)
    ensures TeamOk(k, WithTeamPassword(t, entry))
    ensures t.passwords.Some? ==> TeamOk(k, WithoutTeamPassword(t, id))
  {
    UpsertKeepsUnique(t.passwords.GetOr([]), entry);
    if t.passwords.Some? {
      RemoveIdKeepsUnique(t.passwords.value, id);
    }
  }

  // ----- The store -----

  class Store {
    /** `pm_users`: users by lower-cased email. */
    var users: Option<map<string, User>>
    /** `pm_passwords`: personal password lists by lower-cased owner email. */
    var passwords: Option<map<string, seq<PasswordEntry>>>
    /** `pm_teams`: teams by id. */
    var teams: Option<map<string, Team>>
    /** `pm_current_user`: the public profile of the logged-in user. */
    var currentUser: Option<SessionUser>
    /** `pm_master_key` in sessionStorage. */
    var masterKey: Option<string>

    /** A browser with nothing stored yet. */
    constructor()
      ensures users.None? && passwords.None? && teams.None?
      ensures currentUser.None? && masterKey.None?
    {
      users := None;
      passwords := None;
      teams := None;
      currentUser := None;
      masterKey := None;
    }

    /** `getUsers()`: the stored map, or `{}`. */
    function Users(): map<string, User>
      reads this
    {
      users.GetOr(map[])
    }

    function Passwords(): map<string, seq<PasswordEntry>>
      reads this
    {
      passwords.GetOr(map[])
    }

    /** `getTeams()`: the stored map, or `{}`. */
    function Teams(): map<string, Team>
      reads this
    {
      teams.GetOr(map[])
    }

    /** The three maps as the rest of the vault reads them. */
    function Db(): Records.Db
      reads this
    {
      Records.Db(Users(), Passwords(), Teams())
    }

    /** `init()`: each missing map is created empty; present maps are kept. */
    method Init()
      modifies this
      ensures users.Some? && passwords.Some? && teams.Some?
      ensures Db() == old(Db())
      ensures currentUser == old(currentUser) && masterKey == old(masterKey)
    {
      if users.None? {
        users := Some(map[]);
      }
      if passwords.None? {
        passwords := Some(map[]);
      }
      if teams.None? {
        teams := Some(map[]);
      }
    }

    /** `getUser(email)`. */
    function GetUser(email: string): (r: Option<User>)
      reads this
      ensures r.Some? <==> ToLower(email) in Users()
      ensures r.Some? ==> r.value == Users()[ToLower(email)]
    {
      LookupUser(Users(), email)
    }

    /** `saveUser(user)`: stored under the lower-cased email, replacing any previous record. */
    method SaveUser(user: User)
      modifies this
      ensures users == Some(PutUser(old(Users()), user))
      ensures GetUser(user.email) == Some(user)
      ensures passwords == old(passwords) && teams == old(teams)
      ensures currentUser == old(currentUser) && masterKey == old(masterKey)
    {
      users := Some(PutUser(Users(), user));
    }

    /** `getUserPasswords(email)`: the owner's list, or `[]`. */
    function GetUserPasswords(email: string): (r: seq<PasswordEntry>)
      reads this
      ensures ToLower(email) in Passwords() ==> r == Passwords()[ToLower(email)]
      ensures ToLower(email) !in Passwords() ==> r == []
    {
      ListAt(Passwords(), ToLower(email))
    }

    /** `savePassword(email, entry)`. */
    method SavePassword(email: string, entry: PasswordEntry)
      modifies this
      ensures passwords == Some(SavePasswordIn(old(Passwords()), email, entry))
      ensures entry in GetUserPasswords(email)
      ensures users == old(users) && teams == old(teams)
      ensures currentUser == old(currentUser) && masterKey == old(masterKey)
    {
      passwords := Some(SavePasswordIn(Passwords(), email, entry));
    }

    /** `deletePassword(email, id)`: never fails, even for an unknown id or owner. */
    method DeletePassword(email: string, id: string)
      modifies this
      ensures passwords == Some(DeletePasswordIn(old(Passwords()), email, id))
      ensures forall p :: p in GetUserPasswords(email) ==> p.id != id
      ensures users == old(users) && teams == old(teams)
      ensures currentUser == old(currentUser) && masterKey == old(masterKey)
    {
      passwords := Some(DeletePasswordIn(Passwords(), email, id));
    }

    /** `getTeam(id)`. */
    function GetTeam(id: string): (r: Option<Team>)
      reads this
      ensures r.Some? <==> id in Teams()
      ensures r.Some? ==> r.value == Teams()[id]
    {
      if id in Teams() then Some(Teams()[id]) else None
    }

    /**
     * `getTeamByInviteCode(code)`: a team whose code equals `code` exactly, or None when there
     * is none. The teams are visited in some order of their keys.
     */
    method GetTeamByInviteCode(code: string) returns (r: Option<Team>)
      ensures r.Some? ==> r.value.inviteCode == code && r.value in Teams().Values
      ensures r.None? <==> forall k :: k in Teams() ==> Teams()[k].inviteCode != code
    {
      var all := Teams();
      var todo := all.Keys;
      while todo != {}
        invariant todo <= all.Keys
        invariant forall k :: k in all && k !in todo ==> all[k].inviteCode != code
        decreases todo
      {
        var k :| k in todo;
        if all[k].inviteCode == code {
          return Some(all[k]);
        }
        todo := todo - {k};
      }
      return None;
    }

    /** `saveTeam(team)`: stored under its own id. */
    method SaveTeam(team: Team)
      modifies this
      ensures teams == Some(old(Teams())[team.id := team])
      ensures GetTeam(team.id) == Some(team)
      ensures users == old(users) && passwords == old(passwords)
      ensures currentUser == old(currentUser) && masterKey == old(masterKey)
    {
      teams := Some(Teams()[team.id := team]);
    }

    /**
     * `getUserTeams(email)`: the teams listing the email among their members, compared
     * case-insensitively. A team without a member list makes the filter throw.
     */
    method GetUserTeams(email: string) returns (r: Result<seq<Team>, string>)
      ensures r.Err? <==> exists k :: k in Teams() && Teams()[k].members.None?
      ensures r.Ok? ==> forall t :: t in r.value <==>
        t in Teams().Values && t.members.Some? && IsMember(t.members.value, email)
      ensures r.Ok? ==> exists ks :: ListsMatching(Teams(), email, ks, r.value)
    {
      var all := Teams();
      var todo := all.Keys;
      var found: seq<Team> := [];
      ghost var ks: seq<string> := [];
      while todo != {}
        invariant todo <= all.Keys
        invariant forall k :: k in all && k !in todo ==> all[k].members.Some?
        invariant MatchingSoFar(all, email, todo, ks, found)
        decreases todo
      {
        var k :| k in todo;
        var t := all[k];
        if t.members.None? {
          assert k in Teams() && Teams()[k].members.None?;
          return Err("TypeError");
        }
        MatchingStep(all, email, todo, ks, found, k);
        if IsMember(t.members.value, email) {
          found := found + [t];
          ks := ks + [k];
        }
        todo := todo - {k};
      }
      MatchingTeams(all, email, ks, found);
      assert all == Teams() && ListsMatching(Teams(), email, ks, found);
      return Ok(found);
    }

    /** `getTeamPasswords(id)`: the team's list, or `[]` when the team or its list is missing. */
    function GetTeamPasswords(id: string): (r: seq<PasswordEntry>)
      reads this
      ensures id in Teams() && Teams()[id].passwords.Some? ==> r == Teams()[id].passwords.value
      ensures id !in Teams() || Teams()[id].passwords.None? ==> r == []
    {
      if id in Teams() then Teams()[id].passwords.GetOr([]) else []
    }

    /**
     * `saveTeamPassword(id, entry)`: false with no change when the team is missing; otherwise the
     * entry is upserted into its list and the team is saved under the id it carries.
     */
    method SaveTeamPassword(id: string, entry: PasswordEntry) returns (ok: bool)
      modifies this
      ensures ok <==> id in old(Teams())
      ensures !ok ==> teams == old(teams)
      ensures ok ==> teams == Some(old(Teams())[old(Teams())[id].id := WithTeamPassword(old(Teams())[id], entry)])
      ensures users == old(users) && passwords == old(passwords)
      ensures currentUser == old(currentUser) && masterKey == old(masterKey)
    {
      var team := GetTeam(id);
      if team.None? {
        return false;
      }
      SaveTeam(WithTeamPassword(team.value, entry));
      return true;
    }

    /**
     * `deleteTeamPassword(id, passwordId)`: false with no change when the team or its list is
     * missing; otherwise the id is filtered out and the team saved under the id it carries.
     */
    method DeleteTeamPassword(id: string, passwordId: string) returns (ok: bool)
      modifies this
      ensures ok <==> id in old(Teams()) && old(Teams())[id].passwords.Some?
      ensures !ok ==> teams == old(teams)
      ensures ok ==> teams == Some(old(Teams())[old(Teams())[id].id := WithoutTeamPassword(old(Teams())[id], passwordId)])
      ensures users == old(users) && passwords == old(passwords)
      ensures currentUser == old(currentUser) && masterKey == old(masterKey)
    {
      var team := GetTeam(id);
      if team.None? || team.value.passwords.None? {
        return false;
      }
      SaveTeam(WithoutTeamPassword(team.value, passwordId));
      return true;
    }

    /** `setCurrentUser(user, masterKey)`. */
    method SetCurrentUser(user: SessionUser, key: string)
      modifies this
      ensures currentUser == Some(user) && masterKey == Some(key)
      ensures users == old(users) && passwords == old(passwords) && teams == old(teams)
    {
      currentUser := Some(user);
      masterKey := Some(key);
    }

    /** `clearSession()`: both the logged-in user and the master key are removed. */
    method ClearSession()
      modifies this
      ensures currentUser.None? && masterKey.None?
      ensures users == old(users) && passwords == old(passwords) && teams == old(teams)
    {
      currentUser := None;
      masterKey := None;
    }
  }
}
