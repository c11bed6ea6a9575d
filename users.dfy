/** The users service (src/users/users.service.ts): role resolution from the
    identity provider's group claims over the role directory, and the user
    table with its upsert, lookups and photo updates. The role directory is a
    sequence in the database's row order; the user table is keyed by user id. */
module Users {
  import opened Wrappers
  import opened UserModel

  /** The name of the fallback role. */
  const DefaultRoleName: string := "user"

  /** A row of the role table. */
  datatype RoleRow = RoleRow(id: string, name: string, weight: int, oauthGroupName: Option<string>)

  /** A row of the user table (creation and update timestamps left out). */
  datatype UserRow = UserRow(
    id: string,
    email: string,
    firstName: string,
    lastName: string,
    roleId: string,
    photoFilename: Option<string>)

  datatype ServiceError =
    | DefaultRoleMissing        // no group matched and no role is named "user"
    | UnknownRole(roleId: string) // the upsert names a role id the role table lacks
    | UserNotFound(id: string)    // an update of a user id the table lacks
    | RoleNotLoaded(id: string)   // a user row mapped without its role relation
    | EmailTaken(email: string)   // the upsert would give a second row the same email

  /** Whether the role's group mapping is among the claimed groups (the `in`
      filter of the role query); a role without a mapping matches nothing, and
      neither does an empty claim list. */
  function MatchesGroups(role: RoleRow, groups: seq<string>): (b: bool)
    ensures b ==> role.oauthGroupName.Some?
    ensures groups == [] ==> !b
    ensures role.oauthGroupName.Some? ==> (b <==> exists i :: 0 <= i < |groups| && groups[i] == role.oauthGroupName.value)
  {
    role.oauthGroupName.Some? && role.oauthGroupName.value in groups
  }

  /** The id and name of a role row, as returned to callers. */
  function AsRole(row: RoleRow): (r: Role)
    ensures r.id == row.id && r.name == row.name
  {
    Role(row.id, row.name)
  }

  /** The roles whose group mapping is claimed, in directory order. */
  function MatchingRoles(roles: seq<RoleRow>, groups: seq<string>): (r: seq<RoleRow>)
    ensures |r| <= |roles|
    ensures forall x :: x in r ==> x in roles && MatchesGroups(x, groups)
  {
    if roles == [] then []
    else
      var n := |roles| - 1;
      assert roles == roles[..n] + [roles[n]];
      MatchingRoles(roles[..n], groups) + (if MatchesGroups(roles[n], groups) then [roles[n]] else [])
  }

  /** Every claimed role is kept by the query. */
  lemma {:induction false} MatchingRolesComplete(roles: seq<RoleRow>, groups: seq<string>)
    ensures forall x :: x in roles && MatchesGroups(x, groups) ==> x in MatchingRoles(roles, groups)
  {
    if roles != [] {
      var n := |roles| - 1;
      assert roles == roles[..n] + [roles[n]];
      MatchingRolesComplete(roles[..n], groups);
    }
  }

  /** Reduction of a non-empty list keeping the running maximum by weight,
      replaced only by a strictly heavier role. */
  function Heaviest(s: seq<RoleRow>): (r: RoleRow)
    requires s != []
    ensures r in s
    ensures forall j :: 0 <= j < |s| ==> s[j].weight <= r.weight
  {
    if |s| == 1 then s[0]
    else
      var best := Heaviest(s[..|s| - 1]);
      if s[|s| - 1].weight > best.weight then s[|s| - 1] else best
  }

  /** The first role satisfying `p`, in directory order: a lookup on a unique
      column returns the one row that has the value. */
  function FindRole(roles: seq<RoleRow>, p: RoleRow -> bool): (r: Option<RoleRow>)
    ensures r.None? <==> forall x :: x in roles ==> !p(x)
    ensures r.Some? ==> r.value in roles && p(r.value)
  {
    if roles == [] then None
    else if p(roles[0]) then Some(roles[0])
    else FindRole(roles[1..], p)
  }

  /** The role with the given name. */
  function RoleNamed(roles: seq<RoleRow>, name: string): (r: Option<RoleRow>)
    ensures r.None? <==> forall x :: x in roles ==> x.name != name
    ensures r.Some? ==> r.value in roles && r.value.name == name
  {
    FindRole(roles, (x: RoleRow) => x.name == name)
  }

  /** The role with the given id, as the primary-key lookup behind a role relation. */
  function RoleById(roles: seq<RoleRow>, id: string): (r: Option<RoleRow>)
    ensures r.None? <==> forall x :: x in roles ==> x.id != id
    ensures r.Some? ==> r.value in roles && r.value.id == id
  {
    FindRole(roles, (x: RoleRow) => x.id == id)
  }

  /** The role for a set of group claims (absent claims count as none): the
      heaviest matching role, or else the role named "user", or else an error. */
  function GetRoleFromGroups(roles: seq<RoleRow>, groups: Option<seq<string>>): (r: Result<Role, ServiceError>)
    ensures r.Err? ==> r.error == DefaultRoleMissing
    ensures r.Err? <==>
              forall x :: x in roles ==> !MatchesGroups(x, groups.GetOr([])) && x.name != DefaultRoleName
    ensures r.Ok? ==> exists x :: x in roles && r.value == AsRole(x)
    ensures (forall x :: x in roles ==> !MatchesGroups(x, groups.GetOr([]))) && r.Ok? ==>
              r.value.name == DefaultRoleName
    ensures (exists x :: x in roles && MatchesGroups(x, groups.GetOr([]))) ==>
              && r.Ok?
              && exists x :: x in roles && MatchesGroups(x, groups.GetOr([])) && r.value == AsRole(x) &&
                   forall y :: y in roles && MatchesGroups(y, groups.GetOr([])) ==> y.weight <= x.weight
  {
    var matched := MatchingRoles(roles, groups.GetOr([]));
    MatchingRolesComplete(roles, groups.GetOr([]));
    if matched == [] then
      match RoleNamed(roles, DefaultRoleName)
      case Some(role) => Ok(AsRole(role))
      case None => Err(DefaultRoleMissing)
    else
      var best := Heaviest(matched);
      assert best in matched;
      Ok(AsRole(best))
  }

  /** Tie-breaking: among the matching roles the resolved one is the FIRST in
      directory order of greatest weight, at index `k`. */
  lemma {:induction false} ResolvedRoleIsFirstHeaviest(roles: seq<RoleRow>, groups: seq<string>) returns (k: nat)
    requires exists x :: x in roles && MatchesGroups(x, groups)
    ensures k < |roles| && MatchesGroups(roles[k], groups)
    ensures GetRoleFromGroups(roles, Some(groups)) == Ok(AsRole(roles[k]))
    ensures forall j :: 0 <= j < |roles| && MatchesGroups(roles[j], groups) ==> roles[j].weight <= roles[k].weight
    ensures forall j :: 0 <= j < k && MatchesGroups(roles[j], groups) ==> roles[j].weight < roles[k].weight
  {
    MatchingRolesComplete(roles, groups);
    k := FirstHeaviestMatch(roles, groups);
  }

  /** Where the reduction's result lies in the directory: at index `k`, a
      matching role no lighter than any match and heavier than every earlier one. */
  ghost predicate FirstHeaviestAt(roles: seq<RoleRow>, groups: seq<string>, k: nat)
    requires MatchingRoles(roles, groups) != []
  {
    && k < |roles| && MatchesGroups(roles[k], groups)
    && Heaviest(MatchingRoles(roles, groups)) == roles[k]
    && (forall j :: 0 <= j < |roles| && MatchesGroups(roles[j], groups) ==> roles[j].weight <= roles[k].weight)
    && (forall j :: 0 <= j < k && MatchesGroups(roles[j], groups) ==> roles[j].weight < roles[k].weight)
  }

  /** The index of the reduction's result within the directory, by induction on
      the directory with its last role split off. */
  lemma {:induction false} FirstHeaviestMatch(roles: seq<RoleRow>, groups: seq<string>) returns (k: nat)
    requires MatchingRoles(roles, groups) != []
    ensures FirstHeaviestAt(roles, groups, k)
    decreases |roles|, 1
  {
    var n := |roles| - 1;
    if !MatchesGroups(roles[n], groups) {
      k := LastRoleUnmatched(roles, groups);
    } else if MatchingRoles(roles[..n], groups) == [] {
      k := n;
      LastRoleOnlyMatch(roles, groups);
    } else {
      k := LastRoleMatched(roles, groups);
    }
  }

  lemma {:induction false} LastRoleUnmatched(roles: seq<RoleRow>, groups: seq<string>) returns (k: nat)
    requires MatchingRoles(roles, groups) != []
    requires !MatchesGroups(roles[|roles| - 1], groups)
    ensures FirstHeaviestAt(roles, groups, k)
    decreases |roles|, 0
  {
    var n := |roles| - 1;
    var prefix := roles[..n];
    var before := MatchingRoles(prefix, groups);
    assert before + [] == before;
    assert MatchingRoles(roles, groups) == before;
    k := FirstHeaviestMatch(prefix, groups);
    assert roles[k] == prefix[k];
    forall j | 0 <= j < |roles| && MatchesGroups(roles[j], groups)
      ensures j < n && roles[j] == prefix[j]
    {
    }
  }

  lemma LastRoleOnlyMatch(roles: seq<RoleRow>, groups: seq<string>)
    requires roles != [] && MatchesGroups(roles[|roles| - 1], groups)
    requires MatchingRoles(roles[..|roles| - 1], groups) == []
    ensures FirstHeaviestAt(roles, groups, |roles| - 1)
  {
    var n := |roles| - 1;
    var prefix := roles[..n];
    assert [] + [roles[n]] == [roles[n]];
    assert MatchingRoles(roles, groups) == [roles[n]];
    MatchingRolesComplete(prefix, groups);
    forall j | 0 <= j < n
      ensures !MatchesGroups(roles[j], groups)
    {
      assert roles[j] == prefix[j];
    }
  }

  lemma {:induction false} LastRoleMatched(roles: seq<RoleRow>, groups: seq<string>) returns (k: nat)
    requires roles != [] && MatchesGroups(roles[|roles| - 1], groups)
    requires MatchingRoles(roles[..|roles| - 1], groups) != []
    ensures FirstHeaviestAt(roles, groups, k)
    decreases |roles|, 0
  {
    var n := |roles| - 1;
    var k' := FirstHeaviestMatch(roles[..n], groups);
    if roles[n].weight > roles[k'].weight {
      k := n;
      LastRoleHeavier(roles, groups, k');
    } else {
      k := k';
      LastRoleNotHeavier(roles, groups, k');
    }
  }

  lemma LastRoleHeavier(roles: seq<RoleRow>, groups: seq<string>, k': nat)
    requires roles != [] && MatchesGroups(roles[|roles| - 1], groups)
    requires MatchingRoles(roles[..|roles| - 1], groups) != []
    requires FirstHeaviestAt(roles[..|roles| - 1], groups, k')
    requires roles[|roles| - 1].weight > roles[k'].weight
    ensures FirstHeaviestAt(roles, groups, |roles| - 1)
  {
    var n := |roles| - 1;
    var prefix := roles[..n];
    var before := MatchingRoles(prefix, groups);
    assert MatchingRoles(roles, groups) == before + [roles[n]];
    HeaviestSnoc(before, roles[n]);
    forall j | 0 <= j < n && MatchesGroups(roles[j], groups)
      ensures roles[j].weight < roles[n].weight
    {
      assert roles[j] == prefix[j];
    }
  }

  lemma LastRoleNotHeavier(roles: seq<RoleRow>, groups: seq<string>, k': nat)
    requires roles != [] && MatchesGroups(roles[|roles| - 1], groups)
    requires MatchingRoles(roles[..|roles| - 1], groups) != []
    requires FirstHeaviestAt(roles[..|roles| - 1], groups, k')
    requires roles[|roles| - 1].weight <= roles[k'].weight
    ensures FirstHeaviestAt(roles, groups, k')
  {
    var n := |roles| - 1;
    var prefix := roles[..n];
    var before := MatchingRoles(prefix, groups);
    assert MatchingRoles(roles, groups) == before + [roles[n]];
    HeaviestSnoc(before, roles[n]);
    forall j | 0 <= j < n && MatchesGroups(roles[j], groups)
      ensures roles[j].weight <= roles[k'].weight
    {
      assert roles[j] == prefix[j];
    }
  }

  /** Extending the reduced list by one role compares it with the running maximum. */
  lemma HeaviestSnoc(s: seq<RoleRow>, x: RoleRow)
    requires s != []
    ensures Heaviest(s + [x]) == if x.weight > Heaviest(s).weight then x else Heaviest(s)
  {
    assert (s + [x])[..|s|] == s;
  }

  /** The email column an upsert under `id` writes: the given email, or else the
      stored one on update and `''` on create. */
  function StoredEmail(users: map<string, UserRow>, id: string, email: Option<string>): (e: string)
    ensures email.Some? ==> e == email.value
    ensures email.None? && id in users ==> e == users[id].email
    ensures email.None? && id !in users ==> e == ""
  {
    if email.Some? then email.value else if id in users then users[id].email else ""
  }

  /** Whether a row other than `id` already holds `email`. */
  predicate EmailHeldByOther(users: map<string, UserRow>, id: string, email: string) {
    exists other :: other in users && other != id && users[other].email == email
  }

  /** No two rows of the table share an email (the unique index on `email`). */
  predicate EmailsUnique(users: map<string, UserRow>) {
    forall a, b :: a in users && b in users && users[a].email == users[b].email ==> a == b
  }

  /** Writing a row under `id` keeps the emails unique exactly when no other row
      holds its email. */
  lemma {:induction false} UpsertKeepsEmailsUnique(users: map<string, UserRow>, id: string, row: UserRow)
    requires EmailsUnique(users)
    ensures EmailsUnique(users[id := row]) <==> !EmailHeldByOther(users, id, row.email)
  {
    var m := users[id := row];
    if EmailHeldByOther(users, id, row.email) {
      var other :| other in users && other != id && users[other].email == row.email;
      assert other in m && id in m && m[other].email == m[id].email && other != id;
    } else {
      forall a, b | a in m && b in m && m[a].email == m[b].email
        ensures a == b
      {
        if a != id && b != id {
          assert users[a].email == users[b].email;
        }
      }
    }
  }

  /** The row an upsert of `data` under `id` leaves in the table: on creation the
      missing text fields become empty and there is no photo; on update the
      given text fields and the role overwrite the row, a missing text field
      leaves its column as it was, and the id and photo are kept. */
  function Upserted(users: map<string, UserRow>, id: string, data: UserProfileData): (r: UserRow)
    requires id in users ==> users[id].id == id
    ensures r.id == id && r.roleId == data.role.id
    ensures r.email == StoredEmail(users, id, data.email)
    ensures id !in users ==>
              && r.email == data.email.GetOr("")
              && r.firstName == data.firstName.GetOr("")
              && r.lastName == data.lastName.GetOr("")
              && r.photoFilename.None?
    ensures id in users ==>
              && r.email == (if data.email.Some? then data.email.value else users[id].email)
              && r.firstName == (if data.firstName.Some? then data.firstName.value else users[id].firstName)
              && r.lastName == (if data.lastName.Some? then data.lastName.value else users[id].lastName)
              && r.photoFilename == users[id].photoFilename
  {
    if id in users then
      var row := users[id];
      row.(email := data.email.GetOr(row.email),
           firstName := data.firstName.GetOr(row.firstName),
           lastName := data.lastName.GetOr(row.lastName),
           roleId := data.role.id)
    else
      UserRow(id, data.email.GetOr(""), data.firstName.GetOr(""), data.lastName.GetOr(""), data.role.id, None)
  }

  /** The profile of a row joined with its role: the photo is dropped and the
      role is reduced to its id and name. */
  function MapUserToUserProfile(row: UserRow, role: RoleRow): (p: UserProfile)
    ensures p.id == row.id && p.email == row.email
    ensures p.firstName == row.firstName && p.lastName == row.lastName
    ensures p.role == AsRole(role)
  {
    UserProfile(row.id, row.email, row.firstName, row.lastName, Role(role.id, role.name))
  }

  /** `getUserById` as written: the query loads the row without its role, and the
      mapping then dereferences the missing role, which throws for every stored user. */
  function GetUserByIdAsWritten(users: map<string, UserRow>, id: string): (r: Result<Option<UserProfile>, ServiceError>)
    ensures id !in users <==> r == Ok(None)
    ensures id in users <==> r == Err(RoleNotLoaded(id))
  {
    if id !in users then Ok(None) else Err(RoleNotLoaded(id))
  }

  class UsersService {
    /** The role table, read-only to the service. */
    const roles: seq<RoleRow>
    /** The user table, keyed by user id. */
    var users: map<string, UserRow>

    /** Each row is stored under its own id, its role exists (foreign key), and
        no two rows share an email (unique index). */
    ghost predicate Valid()
      reads this
    {
      && (forall id :: id in users ==> users[id].id == id && RoleById(roles, users[id].roleId).Some?)
      && EmailsUnique(users)
    }

    constructor (roles: seq<RoleRow>, users: map<string, UserRow>)
      requires forall id :: id in users ==> users[id].id == id && RoleById(roles, users[id].roleId).Some?
      requires EmailsUnique(users)
      ensures Valid() && this.roles == roles && this.users == users
    {
      this.roles := roles;
      this.users := users;
    }

    /** The profile of the stored row for `id`, with its role loaded. */
    function ProfileOf(id: string): (p: UserProfile)
      reads this
      requires Valid() && id in users
      ensures p.id == id && p.role.id == users[id].roleId
    {
      MapUserToUserProfile(users[id], RoleById(roles, users[id].roleId).value)
    }

    /** Upsert of `data` under `id`; a role id absent from the role table, or an
        email another row already holds, is refused and leaves the table unchanged. */
    method CreateOrUpdateUser(id: string, data: UserProfileData) returns (r: Result<UserProfile, ServiceError>)
      requires Valid()
      modifies this
      ensures Valid()
      ensures RoleById(roles, data.role.id).None? ==>
                r == Err(UnknownRole(data.role.id)) && users == old(users)
      ensures RoleById(roles, data.role.id).Some? && EmailHeldByOther(old(users), id, StoredEmail(old(users), id, data.email)) ==>
                r == Err(EmailTaken(StoredEmail(old(users), id, data.email))) && users == old(users)
      ensures RoleById(roles, data.role.id).Some? && !EmailHeldByOther(old(users), id, StoredEmail(old(users), id, data.email)) ==>
                && users == old(users)[id := Upserted(old(users), id, data)]
                && r == Ok(ProfileOf(id))
                && r.value.role == AsRole(RoleById(roles, data.role.id).value)
    {
      var role := RoleById(roles, data.role.id);
      if role.None? {
        return Err(UnknownRole(data.role.id));
      }
      var row := Upserted(users, id, data);
      if other :| other in users && other != id && users[other].email == row.email {
        return Err(EmailTaken(row.email));
      }
      UpsertKeepsEmailsUnique(users, id, row);
      users := users[id := row];
      r := Ok(MapUserToUserProfile(users[id], role.value));
    }

    /** The profile of user `id`, or `None` when the table has no such user. */
    function GetUserById(id: string): (r: Option<UserProfile>)
      reads this
      requires Valid()
      ensures r.None? <==> id !in users
      ensures r.Some? ==> r.value == ProfileOf(id)
    {
      if id in users then Some(ProfileOf(id)) else None
    }

    /** The profile of the user with that email, or `None` when no user has it. */
    method GetUserByEmail(email: string) returns (r: Option<UserProfile>)
      requires Valid()
      ensures r.None? <==> forall id :: id in users ==> users[id].email != email
      ensures r.Some? ==> r.value.id in users && users[r.value.id].email == email &&
                          r.value == ProfileOf(r.value.id)
      ensures r.Some? ==> forall id :: id in users && users[id].email == email ==> id == r.value.id
    {
      if id :| id in users && users[id].email == email {
        r := Some(ProfileOf(id));
      } else {
        r := None;
      }
    }

    /** Sets the photo of user `id` and nothing else; an unknown id is an error. */
    method UpdateUserPhoto(id: string, photoFilename: string) returns (r: Result<UserProfile, ServiceError>)
      requires Valid()
      modifies this
      ensures Valid()
      ensures id !in old(users) ==> r == Err(UserNotFound(id)) && users == old(users)
      ensures id in old(users) ==>
                && users == old(users)[id := old(users)[id].(photoFilename := Some(photoFilename))]
                && r == Ok(ProfileOf(id))
    {
      if id !in users {
        return Err(UserNotFound(id));
      }
      users := users[id := users[id].(photoFilename := Some(photoFilename))];
      r := Ok(ProfileOf(id));
    }

    /** Clears the photo of user `id` and nothing else; an unknown id is an error. */
    method DeleteUserPhoto(id: string) returns (r: Result<UserProfile, ServiceError>)
      requires Valid()
      modifies this
      ensures Valid()
      ensures id !in old(users) ==> r == Err(UserNotFound(id)) && users == old(users)
      ensures id in old(users) ==>
                && users == old(users)[id := old(users)[id].(photoFilename := None)]
                && r == Ok(ProfileOf(id))
    {
      if id !in users {
        return Err(UserNotFound(id));
      }
      users := users[id := users[id].(photoFilename := None)];
      r := Ok(ProfileOf(id));
    }
  }

  /** Absent group claims resolve exactly like an empty claim list. */
  lemma AbsentGroupsMatchNothing(roles: seq<RoleRow>)
    ensures MatchingRoles(roles, []) == []
    ensures GetRoleFromGroups(roles, None) == GetRoleFromGroups(roles, Some([]))
  {
  }

  /** A role resolved from groups always exists in the role table, so the upsert
      that follows never hits the foreign-key error. */
  lemma ResolvedRoleExists(roles: seq<RoleRow>, groups: Option<seq<string>>)
    requires GetRoleFromGroups(roles, groups).Ok?
    ensures RoleById(roles, GetRoleFromGroups(roles, groups).value.id).Some?
  {
    var x :| x in roles && GetRoleFromGroups(roles, groups).value == AsRole(x);
  }

  /** The seeded role table names its fallback "USER" and maps no groups; under
      exact name comparison every group-based resolution over it fails. */
  lemma SeededRolesLackDefault(ids: seq<string>, groups: Option<seq<string>>)
    requires |ids| == 3
    ensures GetRoleFromGroups([RoleRow(ids[0], "USER", 10, None), RoleRow(ids[1], "MODERATOR", 50, None),
                               RoleRow(ids[2], "ADMIN", 100, None)], groups) == Err(DefaultRoleMissing)
  {
  }

  /** The discrepancy in `getUserById`: for a stored user the as-written query
      fails while the corrected one returns the profile. */
  lemma GetUserByIdFinding(service: UsersService, id: string)
    requires service.Valid() && id in service.users
    ensures GetUserByIdAsWritten(service.users, id).Err?
    ensures service.GetUserById(id) == Some(service.ProfileOf(id))
  {
  }
}
