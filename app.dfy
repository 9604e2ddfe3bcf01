/**
 * The record-level logic of js/app.js: `mergeDatabase`, which imports a snapshot into the store
 * with nested loops that append to lists in place, and the team records made by
 * `handleCreateTeam` and changed by `handleJoinTeam`. Each method is proved against the pure
 * definitions of module Merge or against the shape of the record it writes.
 */
module App {
  import opened Wrappers
  import opened Text
  import opened Records
  import opened Merge
  import opened Storage
  import opened Crypto

  // ----- mergeDatabase -----

  /**
   * The inner loop of the merge: the set of keys is built from `local` first, then every
   * incoming element whose key is not in that set is pushed.
   */
  method AppendMissing<T(==,!new)>(local: seq<T>, incoming: seq<T>, key: T -> string) returns (r: seq<T>)
    ensures r == AppendFresh(local, incoming, key)
  {
    var seen := KeySet(local, key);
    r := local;
    var i := 0;
    while i < |incoming|
      invariant 0 <= i <= |incoming|
      invariant r == local + Fresh(incoming[..i], key, seen)
    {
      AppendMissingStep(local, incoming, i, key, seen);
      if key(incoming[i]) !in seen {
        r := r + [incoming[i]];
      }
      i := i + 1;
    }
    assert incoming[..|incoming|] == incoming;
  }

  /** One turn of the inner loop: pushing the element, or not, extends the filtered prefix. */
  lemma AppendMissingStep<T(!new)>(local: seq<T>, incoming: seq<T>, i: nat, key: T -> string, seen: set<string>)
    requires i < |incoming|
    ensures local + Fresh(incoming[..i + 1], key, seen)
      == (local + Fresh(incoming[..i], key, seen)) + (if key(incoming[i]) in seen then [] else [incoming[i]])
  {
    assert incoming[..i + 1][..i] == incoming[..i];
  }

  /** One more owner merged into the personal password map. */
  lemma MergePasswordsOverStep(local: map<string, seq<PasswordEntry>>, incoming: map<string, seq<PasswordEntry>>, done: set<string>, k: string)
    requires done <= incoming.Keys && k in incoming && k !in done
    ensures ListAt(MergePasswordsOver(local, incoming, done), k) == ListAt(local, k)
    ensures MergePasswordsOver(local, incoming, done + {k})
      == MergePasswordsOver(local, incoming, done)[k := AppendFresh(ListAt(local, k), incoming[k], EntryId)]
  {
    var before := MergePasswordsOver(local, incoming, done);
    var after := MergePasswordsOver(local, incoming, done + {k});
    var stepped := before[k := AppendFresh(ListAt(local, k), incoming[k], EntryId)];
    assert after.Keys == stepped.Keys;
    forall j | j in after ensures after[j] == stepped[j] {
      if j != k {
        assert j in done <==> j in done + {k};
      }
    }
  }

  /** One more team merged into the team map. */
  lemma MergeTeamsOverStep(local: map<string, Team>, incoming: map<string, Team>, done: set<string>, k: string)
    requires done <= incoming.Keys && k in incoming && k !in done
    requires forall j :: j in done + {k} && j in local ==> CanMergeTeam(local[j], incoming[j])
    ensures k in MergeTeamsOver(local, incoming, done) <==> k in local
    ensures k in local ==> MergeTeamsOver(local, incoming, done)[k] == local[k]
    ensures MergeTeamsOver(local, incoming, done + {k})
      == MergeTeamsOver(local, incoming, done)[k := if k in local then MergedTeam(local[k], incoming[k]) else incoming[k]]
  {
    var before := MergeTeamsOver(local, incoming, done);
    var after := MergeTeamsOver(local, incoming, done + {k});
    var stepped := before[k := if k in local then MergedTeam(local[k], incoming[k]) else incoming[k]];
    assert after.Keys == stepped.Keys;
    forall j | j in after ensures after[j] == stepped[j] {
      if j != k {
        assert j in done <==> j in done + {k};
      }
    }
  }

  /**
   * The body of the team loop for a team present on both sides whose member lists exist: new
   * members appended by lower-cased email, a missing password list made `[]`, new passwords
   * appended by id.
   */
  method MergeExistingTeam(local: Team, incoming: Team) returns (r: Team)
    requires CanMergeTeam(local, incoming)
    ensures r == MergedTeam(local, incoming)
  {
    var members := AppendMissing(local.members.value, incoming.members.value, MemberKey);
    var passwords := local.passwords.GetOr([]);
    passwords := AppendMissing(passwords, incoming.passwords.GetOr([]), EntryId);
    r := local.(members := Some(members), passwords := Some(passwords));
  }

  /** The password loop of `mergeDatabase`: owner by owner, missing entries appended by id. */
  method MergePasswordMaps(local: map<string, seq<PasswordEntry>>, incoming: map<string, seq<PasswordEntry>>)
    returns (r: map<string, seq<PasswordEntry>>)
    ensures r == MergePasswords(local, incoming)
  {
    r := local;
    var todo := incoming.Keys;
    while todo != {}
      invariant todo <= incoming.Keys
      invariant r == MergePasswordsOver(local, incoming, incoming.Keys - todo)
      decreases todo
    {
      var email :| email in todo;
      MergePasswordsOverStep(local, incoming, incoming.Keys - todo, email);
      var list := AppendMissing(ListAt(r, email), incoming[email], EntryId);
      r := r[email := list];
      assert incoming.Keys - (todo - {email}) == (incoming.Keys - todo) + {email};
      todo := todo - {email};
    }
    assert incoming.Keys - todo == incoming.Keys;
  }

  /**
   * The team loop of `mergeDatabase`: a team already stored gets the incoming members and
   * passwords appended, an unknown team is inserted as it comes; a missing member list on either
   * side of a stored team throws.
   */
  method MergeTeamMaps(local: map<string, Team>, incoming: map<string, Team>)
    returns (r: Result<map<string, Team>, MergeError>)
    ensures r == MergeTeams(local, incoming)
  {
    var teams := local;
    var todo := incoming.Keys;
    while todo != {}
      invariant todo <= incoming.Keys
      invariant forall k :: k in incoming && k !in todo && k in local ==> CanMergeTeam(local[k], incoming[k])
      invariant teams == MergeTeamsOver(local, incoming, incoming.Keys - todo)
      decreases todo
    {
      var id :| id in todo;
      var done := incoming.Keys - todo;
      assert done + {id} == incoming.Keys - (todo - {id});
      if id in teams {
        var team := teams[id];
        if team.members.None? || incoming[id].members.None? {
          assert id in local && !CanMergeTeam(local[id], incoming[id]);
          return Err(TeamWithoutMembers);
        }
        MergeTeamsOverStep(local, incoming, done, id);
        var merged := MergeExistingTeam(team, incoming[id]);
        teams := teams[id := merged];
      } else {
        MergeTeamsOverStep(local, incoming, done, id);
        teams := teams[id := incoming[id]];
      }
      todo := todo - {id};
    }
    assert incoming.Keys - todo == incoming.Keys;
    return Ok(teams);
  }

  /**
   * `mergeDatabase(data)`: users, then personal passwords, then teams, each read from the store,
   * merged and written back. When the team loop throws, the team map is not written; the user
   * and password writes already made stay.
   */
  method MergeDatabase(store: Store, data: Snapshot) returns (outcome: Outcome<MergeError>)
    modifies store
    ensures MergeResult(store.Db(), outcome) == Merge.Merge(old(store.Db()), data)
    ensures store.currentUser == old(store.currentUser) && store.masterKey == old(store.masterKey)
  {
    if data.users.Some? {
      store.users := Some(store.Users() + data.users.value);
    }
    if data.passwords.Some? {
      var merged := MergePasswordMaps(store.Passwords(), data.passwords.value);
      store.passwords := Some(merged);
    }
    if data.teams.Some? {
      var merged := MergeTeamMaps(store.Teams(), data.teams.value);
      if merged.Err? {
        return Fail(merged.error);
      }
      store.teams := Some(merged.value);
    }
    return Pass;
  }

  // ----- handleJoinTeam / handleCreateTeam -----

  /** Why joining a team is refused, or the TypeError a team without members raises. */
  datatype JoinError = InvalidInviteCode | AlreadyMember | TeamWithoutMemberList

  /** The invite code as looked up: trimmed and upper-cased. */
  function NormalizeCode(input: string): (r: string)
    ensures |r| <= |input|
    ensures r == [] <==> forall k :: 0 <= k < |input| ==> IsSpace(input[k])
    ensures |r| == |Trim(input)| && forall k :: 0 <= k < |r| ==> r[k] == UpperChar(Trim(input)[k])
  {
    ToUpper(Trim(input))
  }

  /** The normalized code is the input without its surrounding whitespace, upper-cased. */
  lemma NormalizeCodeSlice(input: string)
    ensures exists i, j :: UpperSlice(input, i, j, NormalizeCode(input))
  {
    var t := Trim(input);
    var i, j :| OnlySpaceOutside(input, i, j) && t == input[i..j];
    assert UpperSlice(input, i, j, NormalizeCode(input));
  }

  /** `r` is `s[i..j]` upper-cased, and `s` holds only whitespace outside `i..j`. */
  predicate UpperSlice(s: string, i: int, j: int, r: string) {
    && OnlySpaceOutside(s, i, j)
    && |r| == j - i
    && forall k :: 0 <= k < j - i ==> r[k] == UpperChar(s[i + k])
  }

  /** The team after `user` joins: one member appended with role "member". */
  function Joined(t: Team, user: SessionUser): (r: Team)
    requires t.members.Some?
    ensures r.members.Some? && |r.members.value| == |t.members.value| + 1
    ensures r.members.value[..|t.members.value|] == t.members.value
    ensures r.members.value[|t.members.value|] == Member(user.email, user.name, "member")
    ensures r.(members := t.members) == t
  {
    t.(members := Some(t.members.value + [Member(user.email, user.name, "member")]))
  }

  /** After joining, the user is a member, so a second join with the same code is refused. */
  lemma JoinedIsMember(t: Team, user: SessionUser)
    requires t.members.Some?
    ensures IsMember(Joined(t, user).members.value, user.email)
  {
    var m := Member(user.email, user.name, "member");
    assert m in Joined(t, user).members.value;
  }

  /** Joining a consistent team as a non-member keeps its member emails unique. */
  lemma JoinedKeepsTeamOk(k: string, t: Team, user: SessionUser)
    requires TeamOk(k, t) && !IsMember(t.members.value, user.email)
    ensures TeamOk(k, Joined(t, user))
  {
    var ms := Joined(t, user).members.value;
    var n := |t.members.value|;
    forall i, j | 0 <= i < j < |ms| ensures MemberKey(ms[i]) != MemberKey(ms[j]) {
      if j == n {
        assert ms[i] == t.members.value[i];
        assert ms[i] in t.members.value;
      } else {
        assert ms[i] == t.members.value[i] && ms[j] == t.members.value[j];
      }
    }
  }

  /**
   * The team-record part of `handleJoinTeam`: look the normalized code up, refuse an unknown code
   * or an existing member (emails compared case-insensitively), otherwise append the user and
   * save the team.
   */
  method JoinTeam(store: Store, user: SessionUser, input: string) returns (r: Result<Team, JoinError>)
    modifies store
    ensures r == Err(InvalidInviteCode) <==> forall k :: k in old(store.Teams()) ==> old(store.Teams())[k].inviteCode != NormalizeCode(input)
    ensures r.Err? ==> store.teams == old(store.teams)
    ensures r == Err(AlreadyMember) ==>
      exists t :: (t in old(store.Teams()).Values && t.inviteCode == NormalizeCode(input)
        && t.members.Some? && IsMember(t.members.value, user.email))
    ensures r.Ok? ==>
      exists t :: (t in old(store.Teams()).Values && t.inviteCode == NormalizeCode(input)
        && t.members.Some? && !IsMember(t.members.value, user.email) && r.value == Joined(t, user))
    ensures r == Err(TeamWithoutMemberList) ==>
      exists t :: (t in old(store.Teams()).Values && t.inviteCode == NormalizeCode(input) && t.members.None?)
    ensures (exists k :: k in old(store.Teams()) && old(store.Teams())[k].inviteCode == NormalizeCode(input))
      && (forall k :: k in old(store.Teams()) && old(store.Teams())[k].inviteCode == NormalizeCode(input) ==>
            old(store.Teams())[k].members.Some? && !IsMember(old(store.Teams())[k].members.value, user.email))
      ==> r.Ok?
    ensures r.Ok? ==> store.teams == Some(old(store.Teams())[r.value.id := r.value])
    ensures store.users == old(store.users) && store.passwords == old(store.passwords)
    ensures store.currentUser == old(store.currentUser) && store.masterKey == old(store.masterKey)
  {
    ghost var teams := store.Teams();
    var code := NormalizeCode(input);
    var found := store.GetTeamByInviteCode(code);
    assert store.Teams() == teams;
    if found.None? {
      assert forall k :: k in teams ==> teams[k].inviteCode != code;
      return Err(InvalidInviteCode);
    }
    var team := found.value;
    assert team in teams.Values && team.inviteCode == code;
    ghost var owner :| owner in teams && teams[owner] == team;
    assert teams[owner].inviteCode == code;
    if team.members.None? {
      return Err(TeamWithoutMemberList);
    }
    if IsMember(team.members.value, user.email) {
      return Err(AlreadyMember);
    }
    var joined := Joined(team, user);
    store.SaveTeam(joined);
    r := Ok(joined);
  }

  datatype CreateError = EmptyTeamName

  /** The record `handleCreateTeam` builds: the creator as sole admin, no passwords yet. */
  function NewTeam(id: string, name: string, inviteCode: string, user: SessionUser, now: string): (r: Team)
    ensures TeamOk(id, r)
    ensures r.members == Some([Member(user.email, user.name, "admin")])
    ensures r.passwords == Some([])
  {
    Team(id, name, inviteCode, user.email, now, Some([Member(user.email, user.name, "admin")]), Some([]))
  }

  /**
   * The team-record part of `handleCreateTeam`: a name that trims to nothing is refused;
   * otherwise a team with a fresh invite code is saved. The id, the clock and the random
   * values are inputs.
   */
  method CreateTeam(store: Store, user: SessionUser, input: string, id: string, now: string, random: seq<Uint32>)
    returns (r: Result<Team, CreateError>)
    requires |random| >= 8
    modifies store
    ensures r.Err? <==> Trim(input) == ""
    ensures r.Err? ==> store.teams == old(store.teams)
    ensures r.Ok? ==> r.value.name == Trim(input) && r.value.id == id && r.value.createdBy == user.email
    ensures r.Ok? ==> r.value.createdAt == now
    ensures r.Ok? ==> r.value.members == Some([Member(user.email, user.name, "admin")]) && r.value.passwords == Some([])
    ensures r.Ok? ==> (|r.value.inviteCode| == 8
      && forall i :: 0 <= i < 8 ==> IsAsciiUpper(r.value.inviteCode[i]) || IsAsciiDigit(r.value.inviteCode[i]))
    ensures r.Ok? ==> InviteCodeOf(r.value.inviteCode, random)
    ensures r.Ok? ==> store.teams == Some(old(store.Teams())[id := r.value])
    ensures store.users == old(store.users) && store.passwords == old(store.passwords)
    ensures store.currentUser == old(store.currentUser) && store.masterKey == old(store.masterKey)
  {
    var name := Trim(input);
    if name == "" {
      return Err(EmptyTeamName);
    }
    var code := GenerateInviteCode(random);
    var team := NewTeam(id, name, code, user, now);
    store.SaveTeam(team);
    return Ok(team);
  }
}
