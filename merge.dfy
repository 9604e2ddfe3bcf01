/**
 * What `App.mergeDatabase` (js/app.js) computes, as functions over the three persisted maps, and
 * the properties of that result: users are overwritten whole, personal and team passwords are
 * unioned by id with the local copy winning, members are unioned by lower-cased email, unknown
 * teams are inserted verbatim, and nothing already stored is removed or altered.
 */
module Merge {
  import opened Wrappers
  import opened Text
  import opened Records

  /**
   * The elements of `incoming`, in their order, whose key is not in `seen`. The set is the one
   * computed before the loop, so two incoming elements with the same new key are both kept.
   */
  function Fresh<T(==,!new)>(incoming: seq<T>, key: T -> string, seen: set<string>): (r: seq<T>)
    ensures |r| <= |incoming|
    ensures forall x :: x in r <==> x in incoming && key(x) !in seen
  {
    if incoming == [] then []
    else
      var n := |incoming| - 1;
      assert incoming == incoming[..n] + [incoming[n]];
      Fresh(incoming[..n], key, seen) + (if key(incoming[n]) in seen then [] else [incoming[n]])
  }

  /** A list after a merge: the local list, then the incoming elements whose key it lacks. */
  function AppendFresh<T(==,!new)>(local: seq<T>, incoming: seq<T>, key: T -> string): (r: seq<T>)
    ensures |local| <= |r| && r[..|local|] == local
    ensures forall x :: x in r[|local|..] <==> x in incoming && key(x) !in KeySet(local, key)
    ensures forall x :: x in r && key(x) in KeySet(local, key) ==> x in local
  {
    var r := local + Fresh(incoming, key, KeySet(local, key));
    assert r[|local|..] == Fresh(incoming, key, KeySet(local, key));
    r
  }

  /** Filtering keeps the incoming order: filtering a concatenation filters each part. */
  lemma {:induction false} FreshAppend<T(!new)>(a: seq<T>, b: seq<T>, key: T -> string, seen: set<string>)
    ensures Fresh(a + b, key, seen) == Fresh(a, key, seen) + Fresh(b, key, seen)
  {
    if b == [] {
      assert a + b == a;
    } else {
      var n := |b| - 1;
      assert (a + b)[..|a + b| - 1] == a + b[..n];
      assert (a + b)[|a + b| - 1] == b[n];
      FreshAppend(a, b[..n], key, seen);
    }
  }

  /** A list with no elements is empty. */
  lemma NothingIsEmpty<T>(xs: seq<T>)
    ensures (forall x :: x !in xs) ==> xs == []
  {
    if xs != [] {
      assert xs[0] in xs;
    }
  }

  /** Merging the same incoming list a second time appends nothing. */
  lemma AppendFreshIdempotent<T(!new)>(local: seq<T>, incoming: seq<T>, key: T -> string)
    ensures AppendFresh(AppendFresh(local, incoming, key), incoming, key) == AppendFresh(local, incoming, key)
  {
    var m := AppendFresh(local, incoming, key);
    forall x | x in incoming ensures key(x) in KeySet(m, key) {
      if key(x) !in KeySet(local, key) {
        assert x in m[|local|..];
        assert x in m;
      } else {
        var y :| y in local && key(y) == key(x);
        assert y == m[..|local|][IndexOf(local, y)];
      }
    }
    NothingIsEmpty(Fresh(incoming, key, KeySet(m, key)));
    assert m + [] == m;
  }

  /** Some index at which `x` occurs in `xs`. */
  function IndexOf<T(==,!new)>(xs: seq<T>, x: T): (i: nat)
    requires x in xs
    ensures i < |xs| && xs[i] == x
  {
    if xs[0] == x then 0 else 1 + IndexOf(xs[1..], x)
  }

  /** Merging a list into itself changes nothing. */
  lemma AppendFreshSelf<T(!new)>(xs: seq<T>, key: T -> string)
    ensures AppendFresh(xs, xs, key) == xs
  {
    NothingIsEmpty(Fresh(xs, key, KeySet(xs, key)));
    assert xs + [] == xs;
  }

  /** Filtering a duplicate-free list gives a duplicate-free list. */
  lemma {:induction false} FreshUnique<T(!new)>(incoming: seq<T>, key: T -> string, seen: set<string>)
    requires UniqueKeys(incoming, key)
    ensures UniqueKeys(Fresh(incoming, key, seen), key)
  {
    if incoming != [] {
      var n := |incoming| - 1;
      var init := incoming[..n];
      assert UniqueKeys(init, key);
      FreshUnique(init, key, seen);
      var f := Fresh(init, key, seen);
      forall x | x in f ensures key(x) != key(incoming[n]) {
        var i := IndexOf(init, x);
        assert incoming[i] == x;
      }
    }
  }

  /** Merging a duplicate-free incoming list into a duplicate-free local list keeps it duplicate-free. */
  lemma AppendFreshUnique<T(!new)>(local: seq<T>, incoming: seq<T>, key: T -> string)
    requires UniqueKeys(local, key) && UniqueKeys(incoming, key)
    ensures UniqueKeys(AppendFresh(local, incoming, key), key)
  {
    var f := Fresh(incoming, key, KeySet(local, key));
    FreshUnique(incoming, key, KeySet(local, key));
    var r := local + f;
    forall i, j | 0 <= i < j < |r| ensures key(r[i]) != key(r[j]) {
      if j >= |local| && i < |local| {
        assert r[j] == f[j - |local|] && r[j] in f;
        assert key(r[i]) in KeySet(local, key);
      } else if i >= |local| {
        assert r[i] == f[i - |local|] && r[j] == f[j - |local|];
      }
    }
  }

  /** The personal password map once the owners in `done` have been merged. */
  function MergePasswordsOver(local: map<string, seq<PasswordEntry>>, incoming: map<string, seq<PasswordEntry>>, done: set<string>): (r: map<string, seq<PasswordEntry>>)
    requires done <= incoming.Keys
    ensures r.Keys == local.Keys + done
  {
    map k | k in local.Keys + done ::
      if k in done then AppendFresh(ListAt(local, k), incoming[k], EntryId) else local[k]
  }

  /** The personal password map after the merge loop of js/app.js:677-691. */
  function MergePasswords(local: map<string, seq<PasswordEntry>>, incoming: map<string, seq<PasswordEntry>>): (r: map<string, seq<PasswordEntry>>)
    ensures r.Keys == local.Keys + incoming.Keys
  {
    MergePasswordsOver(local, incoming, incoming.Keys)
  }

  /** Why a merge throws: `members` missing on one side of an existing team. */
  datatype MergeError = TeamWithoutMembers

  /** Both member lists exist, so `.members.map` and `for .. of .members` do not throw. */
  predicate CanMergeTeam(local: Team, incoming: Team) {
    local.members.Some? && incoming.members.Some?
  }

  /**
   * An existing team after an incoming copy is merged into it: new members appended by
   * lower-cased email, a missing password list replaced by `[]`, new passwords appended by id.
   */
  function MergedTeam(local: Team, incoming: Team): (r: Team)
    requires CanMergeTeam(local, incoming)
    ensures r.id == local.id && r.name == local.name && r.inviteCode == local.inviteCode
    ensures r.createdBy == local.createdBy && r.createdAt == local.createdAt
    ensures r.members.Some? && r.passwords.Some?
  {
    local.(members := Some(AppendFresh(local.members.value, incoming.members.value, MemberKey)),
           passwords := Some(AppendFresh(local.passwords.GetOr([]), incoming.passwords.GetOr([]), EntryId)))
  }

  /** Some team present on both sides lacks its member list, so the team loop throws. */
  predicate TeamsMergeFails(local: map<string, Team>, incoming: map<string, Team>) {
    exists k :: k in incoming && k in local && !CanMergeTeam(local[k], incoming[k])
  }

  /** The team map once the ids in `done` have been merged. */
  function MergeTeamsOver(local: map<string, Team>, incoming: map<string, Team>, done: set<string>): (r: map<string, Team>)
    requires done <= incoming.Keys
    requires forall k :: k in done && k in local ==> CanMergeTeam(local[k], incoming[k])
    ensures r.Keys == local.Keys + done
  {
    map k | k in local.Keys + done ::
      if k !in done then local[k]
      else if k in local then MergedTeam(local[k], incoming[k])
      else incoming[k]
  }

  /** The team map after the merge loop of js/app.js:693-715, or the error it throws. */
  function MergeTeams(local: map<string, Team>, incoming: map<string, Team>): (r: Result<map<string, Team>, MergeError>)
    ensures r.Err? <==> TeamsMergeFails(local, incoming)
    ensures r.Ok? ==> r.value.Keys == local.Keys + incoming.Keys
  {
    if TeamsMergeFails(local, incoming) then Err(TeamWithoutMembers)
    else Ok(MergeTeamsOver(local, incoming, incoming.Keys))
  }

  /** The team map after the team loop: the merged map, or the stored one when the loop throws. */
  function TeamsAfter(local: map<string, Team>, incoming: map<string, Team>): (r: map<string, Team>)
    ensures TeamsMergeFails(local, incoming) ==> r == local
  {
    match MergeTeams(local, incoming)
    case Ok(t) => t
    case Err(_) => local
  }

  /** The persisted maps after a merge, and whether it threw. */
  datatype MergeResult = MergeResult(db: Db, outcome: Outcome<MergeError>)

  /**
   * `mergeDatabase`: users are written first, then passwords, then teams; an error in the team
   * loop leaves the team map as it was but keeps the two writes already made.
   */
  function Merge(db: Db, data: Snapshot): (r: MergeResult)
    ensures r.outcome.Fail? <==> data.teams.Some? && TeamsMergeFails(db.teams, data.teams.value)
    ensures r.outcome.Fail? ==> r.outcome.error == TeamWithoutMembers && r.db.teams == db.teams
  {
    var users := if data.users.Some? then db.users + data.users.value else db.users;
    var passwords := if data.passwords.Some? then MergePasswords(db.passwords, data.passwords.value) else db.passwords;
    var teams := if data.teams.Some? then TeamsAfter(db.teams, data.teams.value) else db.teams;
    var fails := data.teams.Some? && TeamsMergeFails(db.teams, data.teams.value);
    MergeResult(Db(users, passwords, teams), if fails then Fail(TeamWithoutMembers) else Pass)
  }

  // ----- Properties of one merge -----

  /** The user and password maps gain exactly the incoming keys, and so does the team map when the merge does not throw. */
  lemma MergeKeys(db: Db, data: Snapshot)
    ensures var r := Merge(db, data);
      && r.db.users.Keys == db.users.Keys + (if data.users.Some? then data.users.value.Keys else {})
      && r.db.passwords.Keys == db.passwords.Keys + (if data.passwords.Some? then data.passwords.value.Keys else {})
      && (r.outcome.Pass? ==> r.db.teams.Keys == db.teams.Keys + (if data.teams.Some? then data.teams.value.Keys else {}))
  {
  }

  /** Every incoming user record replaces the stored one whole; other users are untouched. */
  lemma MergeOverwritesUsers(db: Db, data: Snapshot)
    ensures var r := Merge(db, data).db;
      && (data.users.Some? ==> forall e :: e in data.users.value ==> e in r.users && r.users[e] == data.users.value[e])
      && (forall e :: (data.users.None? || e !in data.users.value) ==> (e in r.users <==> e in db.users))
      && (forall e :: e in db.users && (data.users.None? || e !in data.users.value) ==> r.users[e] == db.users[e])
  {
  }

  /**
   * Personal passwords: every stored list keeps its entries at the same positions, and an
   * incoming entry is appended exactly when its id was absent from the owner's stored list.
   */
  lemma MergeKeepsPasswords(db: Db, data: Snapshot)
    ensures var r := Merge(db, data).db;
      && db.passwords.Keys <= r.passwords.Keys
      && (forall e :: e in db.passwords ==> |db.passwords[e]| <= |r.passwords[e]| && r.passwords[e][..|db.passwords[e]|] == db.passwords[e])
      && (data.passwords.Some? ==> forall e :: e in data.passwords.value ==>
            && e in r.passwords
            && r.passwords[e] == AppendFresh(ListAt(db.passwords, e), data.passwords.value[e], EntryId)
            && (forall p :: p in r.passwords[e][|ListAt(db.passwords, e)|..] <==>
                  p in data.passwords.value[e] && p.id !in KeySet(ListAt(db.passwords, e), EntryId)))
      && (forall e :: e in db.passwords && (data.passwords.None? || e !in data.passwords.value) ==> r.passwords[e] == db.passwords[e])
  {
    var r := Merge(db, data).db;
    if data.passwords.Some? {
      forall e | e in data.passwords.value
        ensures forall p :: p in r.passwords[e][|ListAt(db.passwords, e)|..] <==>
                  p in data.passwords.value[e] && p.id !in KeySet(ListAt(db.passwords, e), EntryId)
      {
        var l := ListAt(db.passwords, e);
        assert r.passwords[e] == AppendFresh(l, data.passwords.value[e], EntryId);
        forall p ensures p in r.passwords[e][|l|..] <==> p in data.passwords.value[e] && EntryId(p) !in KeySet(l, EntryId) {
        }
      }
    }
  }

  /** An incoming team whose id is unknown locally is inserted verbatim, members and passwords included. */
  lemma MergeInsertsNewTeams(db: Db, data: Snapshot)
    requires Merge(db, data).outcome.Pass?
    ensures data.teams.Some? ==> forall k :: k in data.teams.value && k !in db.teams ==>
      k in Merge(db, data).db.teams && Merge(db, data).db.teams[k] == data.teams.value[k]
  {
  }

  /**
   * Every stored team survives with its id, name, invite code, creator and creation time; its
   * existing members and passwords keep their positions and contents; an incoming member is
   * appended only if no stored member has its lower-cased email, and an incoming password only
   * if no stored one has its id.
   */
  lemma MergeKeepsTeams(db: Db, data: Snapshot)
    ensures var r := Merge(db, data).db;
      forall k :: k in db.teams ==>
        && k in r.teams
        && var (t, u) := (db.teams[k], r.teams[k]);
        && u.id == t.id && u.name == t.name && u.inviteCode == t.inviteCode
        && u.createdBy == t.createdBy && u.createdAt == t.createdAt
        && (t.members.Some? ==>
              && u.members.Some?
              && |t.members.value| <= |u.members.value|
              && u.members.value[..|t.members.value|] == t.members.value)
        && (t.passwords.Some? ==>
              && u.passwords.Some?
              && |t.passwords.value| <= |u.passwords.value|
              && u.passwords.value[..|t.passwords.value|] == t.passwords.value)
        && (u != t ==>
              && data.teams.Some?
              && k in data.teams.value
              && u == MergedTeam(t, data.teams.value[k]))
  {
  }

  /** The merge throws exactly when a team present on both sides lacks `members`; users and passwords are written anyway, teams not at all. */
  lemma MergeFailureIsPartial(db: Db, data: Snapshot)
    ensures var m := Merge(db, data);
      && (m.outcome.Fail? <==> data.teams.Some? && TeamsMergeFails(db.teams, data.teams.value))
      && (m.outcome.Fail? ==>
            && m.db.teams == db.teams
            && m.db.users == (if data.users.Some? then db.users + data.users.value else db.users)
            && m.db.passwords == (if data.passwords.Some? then MergePasswords(db.passwords, data.passwords.value) else db.passwords))
  {
  }

  // ----- Merging twice -----

  lemma MergePasswordsIdempotent(local: map<string, seq<PasswordEntry>>, incoming: map<string, seq<PasswordEntry>>)
    ensures MergePasswords(MergePasswords(local, incoming), incoming) == MergePasswords(local, incoming)
  {
    var once := MergePasswords(local, incoming);
    var twice := MergePasswords(once, incoming);
    forall k | k in twice ensures twice[k] == once[k] {
      if k in incoming {
        AppendFreshIdempotent(ListAt(local, k), incoming[k], EntryId);
      }
    }
  }

  /** Merging an incoming team into an already merged team changes nothing. */
  lemma MergedTeamIdempotent(local: Team, incoming: Team)
    requires CanMergeTeam(local, incoming)
    ensures CanMergeTeam(MergedTeam(local, incoming), incoming)
    ensures MergedTeam(MergedTeam(local, incoming), incoming) == MergedTeam(local, incoming)
  {
    AppendFreshIdempotent(local.members.value, incoming.members.value, MemberKey);
    AppendFreshIdempotent(local.passwords.GetOr([]), incoming.passwords.GetOr([]), EntryId);
  }

  /** A team with both lists present is unchanged by merging it into itself. */
  lemma MergedTeamSelf(t: Team)
    requires t.members.Some? && t.passwords.Some?
    ensures MergedTeam(t, t) == t
  {
    AppendFreshSelf(t.members.value, MemberKey);
    AppendFreshSelf(t.passwords.value, EntryId);
  }

  /** Merging `incoming` into `t` again leaves it as it is (or throws). */
  predicate TeamFixed(t: Team, incoming: Team) {
    CanMergeTeam(t, incoming) ==> MergedTeam(t, incoming) == t
  }

  /** Every incoming team is stored and would be left as it is by merging it again. */
  predicate TeamsFixed(teams: map<string, Team>, incoming: map<string, Team>) {
    forall k :: k in incoming ==> k in teams && TeamFixed(teams[k], incoming[k])
  }

  /** A team map in which every incoming team is already merged is left as it is. */
  lemma MergeTeamsOfFixed(teams: map<string, Team>, incoming: map<string, Team>)
    requires TeamsFixed(teams, incoming)
    ensures TeamsAfter(teams, incoming) == teams
  {
    if !TeamsMergeFails(teams, incoming) {
      var r := MergeTeamsOver(teams, incoming, incoming.Keys);
      forall k | k in r ensures r[k] == teams[k] {
        if k in incoming {
          assert CanMergeTeam(teams[k], incoming[k]);
        }
      }
    }
  }

  /** After a successful team merge, every team that was already stored is fixed. */
  lemma MergeTeamsFixesStored(teams: map<string, Team>, incoming: map<string, Team>)
    requires !TeamsMergeFails(teams, incoming)
    ensures var r := TeamsAfter(teams, incoming);
      forall k :: k in incoming ==> k in r && (k in teams ==> TeamFixed(r[k], incoming[k]))
  {
    var r := TeamsAfter(teams, incoming);
    forall k | k in incoming ensures k in r && (k in teams ==> TeamFixed(r[k], incoming[k])) {
      if k in teams {
        MergedTeamIdempotent(teams[k], incoming[k]);
      }
    }
  }

  /** The team loop run twice with the same incoming teams, each carrying a password list, is run once. */
  lemma TeamsAfterIdempotent(teams: map<string, Team>, incoming: map<string, Team>)
    requires forall k :: k in incoming ==> incoming[k].passwords.Some?
    ensures TeamsAfter(TeamsAfter(teams, incoming), incoming) == TeamsAfter(teams, incoming)
  {
    if !TeamsMergeFails(teams, incoming) {
      var once := TeamsAfter(teams, incoming);
      MergeTeamsFixesStored(teams, incoming);
      forall k | k in incoming ensures k in once && TeamFixed(once[k], incoming[k]) {
        if k !in teams && incoming[k].members.Some? {
          assert once[k] == incoming[k];
          MergedTeamSelf(incoming[k]);
        }
      }
      MergeTeamsOfFixed(once, incoming);
    }
  }

  /** A third run of the team loop with the same incoming teams changes nothing. */
  lemma TeamsAfterStabilizes(teams: map<string, Team>, incoming: map<string, Team>)
    ensures var twice := TeamsAfter(TeamsAfter(teams, incoming), incoming);
      TeamsAfter(twice, incoming) == twice
  {
    var once := TeamsAfter(teams, incoming);
    if !TeamsMergeFails(once, incoming) {
      assert !TeamsMergeFails(teams, incoming);
      assert incoming.Keys <= once.Keys;
      MergeTeamsFixesStored(once, incoming);
      MergeTeamsOfFixed(TeamsAfter(once, incoming), incoming);
    }
  }

  /**
   * Importing the same snapshot twice leaves the three maps as the first import left them,
   * provided every incoming team carries a password list.
   */
  lemma MergeIdempotent(db: Db, data: Snapshot)
    requires data.teams.Some? ==> forall k :: k in data.teams.value ==> data.teams.value[k].passwords.Some?
    ensures Merge(Merge(db, data).db, data).db == Merge(db, data).db
  {
    var once := Merge(db, data).db;
    var twice := Merge(once, data).db;
    if data.passwords.Some? {
      MergePasswordsIdempotent(db.passwords, data.passwords.value);
    }
    if data.teams.Some? {
      TeamsAfterIdempotent(db.teams, data.teams.value);
    }
    assert twice.users == once.users;
  }

  /** When every incoming team carries a member list, a second import throws exactly when the first did. */
  lemma MergeOutcomeRepeats(db: Db, data: Snapshot)
    requires data.teams.Some? ==> forall k :: k in data.teams.value ==> data.teams.value[k].members.Some?
    ensures Merge(Merge(db, data).db, data).outcome == Merge(db, data).outcome
  {
    if data.teams.Some? && !TeamsMergeFails(db.teams, data.teams.value) {
      var incoming := data.teams.value;
      var once := TeamsAfter(db.teams, incoming);
      forall k | k in incoming && k in once ensures CanMergeTeam(once[k], incoming[k]) {
        if k in db.teams {
          assert once[k] == MergedTeam(db.teams[k], incoming[k]);
        }
      }
    }
  }

  /** A new team imported without a member list is inserted, and importing it again throws. */
  lemma SecondMergeOfMemberlessTeamThrows()
    ensures
      var t := Team("t1", "Ops", "ABCD1234", "a@b.co", "2024", None, Some([]));
      var data := Snapshot(None, None, Some(map["t1" := t]));
      var once := Merge(Db(map[], map[], map[]), data);
      && once.outcome.Pass?
      && Merge(once.db, data).outcome == Fail(TeamWithoutMembers)
      && Merge(once.db, data).db == once.db
  {
    var t := Team("t1", "Ops", "ABCD1234", "a@b.co", "2024", None, Some([]));
    var data := Snapshot(None, None, Some(map["t1" := t]));
    assert !TeamsMergeFails(map[], map["t1" := t]);
    var once := Merge(Db(map[], map[], map[]), data).db;
    assert once.teams == map["t1" := t];
    assert "t1" in once.teams && !CanMergeTeam(once.teams["t1"], t);
  }

  /**
   * Without that proviso the second import may still change something (see
   * `SecondMergeAddsPasswordList`), but a third import never does.
   */
  lemma MergeStabilizes(db: Db, data: Snapshot)
    ensures var twice := Merge(Merge(db, data).db, data).db;
      Merge(twice, data).db == twice
  {
    var twice := Merge(Merge(db, data).db, data).db;
    var thrice := Merge(twice, data).db;
    if data.users.Some? {
      assert thrice.users == twice.users + data.users.value;
    }
    assert thrice.users == twice.users;
    if data.passwords.Some? {
      MergePasswordsIdempotent(Merge(db, data).db.passwords, data.passwords.value);
    }
    assert thrice.passwords == twice.passwords;
    if data.teams.Some? {
      TeamsAfterStabilizes(db.teams, data.teams.value);
    }
    assert thrice.teams == twice.teams;
  }

  /** A team imported without a password list is stored as is; the next import of it adds `passwords: []`. */
  lemma SecondMergeAddsPasswordList()
    ensures
      var t := Team("t1", "Ops", "ABCD1234", "a@b.co", "2024", Some([]), None);
      var data := Snapshot(None, None, Some(map["t1" := t]));
      var once := Merge(Db(map[], map[], map[]), data).db;
      && once.teams["t1"].passwords == None
      && Merge(once, data).db.teams["t1"].passwords == Some([])
  {
    var t := Team("t1", "Ops", "ABCD1234", "a@b.co", "2024", Some([]), None);
    var data := Snapshot(None, None, Some(map["t1" := t]));
    var once := Merge(Db(map[], map[], map[]), data).db;
    assert !TeamsMergeFails(map[], map["t1" := t]);
    assert once.teams == map["t1" := t];
    assert !TeamsMergeFails(once.teams, map["t1" := t]);
  }

  // ----- The store invariant -----

  /** A consistent store merged with a consistent snapshot does not throw and stays consistent. */
  lemma MergePreservesDbOk(db: Db, data: Snapshot)
    requires DbOk(db) && SnapshotOk(data)
    ensures Merge(db, data).outcome.Pass?
    ensures DbOk(Merge(db, data).db)
  {
    if data.passwords.Some? {
      MergePasswordsKeepOk(db.passwords, data.passwords.value);
    }
    if data.teams.Some? {
      TeamsAfterKeepOk(db.teams, data.teams.value);
    }
  }

  /** Merging two password maps with unique ids per list keeps ids unique per list. */
  lemma MergePasswordsKeepOk(local: map<string, seq<PasswordEntry>>, incoming: map<string, seq<PasswordEntry>>)
    requires PasswordsOk(local) && PasswordsOk(incoming)
    ensures PasswordsOk(MergePasswords(local, incoming))
  {
    var r := MergePasswords(local, incoming);
    forall k | k in r ensures UniqueKeys(r[k], EntryId) {
      if k in incoming {
        AppendFreshUnique(ListAt(local, k), incoming[k], EntryId);
      }
    }
  }

  /** Merging two consistent team maps does not throw and keeps the team map consistent. */
  lemma TeamsAfterKeepOk(local: map<string, Team>, incoming: map<string, Team>)
    requires TeamsOk(local) && TeamsOk(incoming)
    ensures !TeamsMergeFails(local, incoming)
    ensures TeamsOk(TeamsAfter(local, incoming))
  {
    var r := TeamsAfter(local, incoming);
    assert !TeamsMergeFails(local, incoming);
    forall k | k in r ensures TeamOk(k, r[k]) {
      if k in incoming && k in local {
        var (t, i) := (local[k], incoming[k]);
        AppendFreshUnique(t.members.value, i.members.value, MemberKey);
        AppendFreshUnique(t.passwords.GetOr([]), i.passwords.GetOr([]), EntryId);
      }
    }
  }

  /**
   * The store invariant needs the snapshot's: two incoming members with the same lower-cased
   * email are both appended, because the email set is computed before the loop.
   */
  lemma DuplicateIncomingMembersBothAppended()
    ensures
      var (a, c1, c2) := (Member("a", "A", "admin"), Member("c", "C", "member"), Member("C", "C", "member"));
      && AppendFresh([a], [c1, c2], MemberKey) == [a, c1, c2]
      && !UniqueKeys([a, c1, c2], MemberKey)
  {
    var (a, c1, c2) := (Member("a", "A", "admin"), Member("c", "C", "member"), Member("C", "C", "member"));
    assert MemberKey(a) == "a" && MemberKey(c1) == "c" && MemberKey(c2) == "c";
    assert KeySet([a], MemberKey) == {"a"};
    assert [c1, c2][..1] == [c1];
    assert [c1][..0] == [];
    assert Fresh([c1], MemberKey, {"a"}) == [c1];
    assert [a, c1, c2][1] == c1 && [a, c1, c2][2] == c2;
  }

  /**
   * The exchange scenario: the local store holds `id1` (edited) and `id3`; the snapshot holds
   * `id1` and `id2`; the result keeps the local `id1` and `id3` and appends the snapshot's `id2`.
   */
  lemma LocalCopyWinsScenario(id1Local: PasswordEntry, id3: PasswordEntry, id1Incoming: PasswordEntry, id2: PasswordEntry)
    requires id1Local.id == "id1" && id3.id == "id3" && id1Incoming.id == "id1" && id2.id == "id2"
    ensures AppendFresh([id1Local, id3], [id1Incoming, id2], EntryId) == [id1Local, id3, id2]
  {
    var seen := KeySet([id1Local, id3], EntryId);
    assert EntryId(id1Local) in seen;
    assert "id2" !in seen;
    assert [id1Incoming, id2][..1] == [id1Incoming];
    assert [id1Incoming][..0] == [];
    assert Fresh([id1Incoming], EntryId, seen) == [];
  }
}
