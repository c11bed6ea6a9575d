# Session and user core of the badges API, in Dafny

A model of the NestJS auth service's session and user logic. It covers four
source files:

- **Refresh-token store** (`src/auth/refresh-token.service.ts`): the in-memory backend. A `RefreshTokenService` class holds the `memory` map from opaque token to `{user, exp}`. `Issue`, `Rotate`, `Revoke`, `Get` and the `Cleanup` sweep update that map in place. The clock is a `now` parameter (seconds). The random token is supplied by the caller. `REFRESH_TTL_DAYS` is a constant of the object, `None` when unset or empty.
- **Users service** (`src/users/users.service.ts`):
  - role resolution from group claims (`GetRoleFromGroups`) as pure functions over the role table, a sequence in database row order;
  - a `UsersService` class whose `users` map is the user table keyed by id, with the upsert, the two lookups and the photo updates.
- **Auth service** (`src/auth/auth.service.ts`): role choice and upsert in `AuthService.ValidateOAuthUser`, and `Login`. JWT signing is a function parameter of `Login`.
- **Authentik strategy** (`src/auth/strategies/authentik.strategy.ts`): how the profile is built from the userinfo claims, including JavaScript's `split(' ')` / `join(' ')` on `given_name`.

Files: `wrappers.dfy` (Option, Result), `user_model.dfy` (records of `src/users/user.model.ts`), `refresh_tokens.dfy`, `users.dfy`, `auth.dfy`, `authentik.dfy`.

Modelling choices:

- A role is resolved as the source resolves it. The reduce keeps the running maximum and replaces it only on a strictly greater weight. So on ties the earliest matching role in table order wins (`ResolvedRoleIsFirstHeaviest`).
- Tokens are not assumed unique. `Issue` overwrites an existing entry under the same token, as `Map.set` does.
- Rotation is the sequence get, revoke, issue, as in the source. It is not atomic against concurrent rotations.
- Missing text fields in the upsert follow Prisma's rules:
  - on create a missing email, first name or last name becomes `''`;
  - on update a missing (`undefined`) field leaves its column unchanged;
  - a given field, even `''`, overwrites.
- Three database failures become `Err` values:
  - `prisma.user.update` on an unknown id throws, so it is `UserNotFound`;
  - an upsert whose role id is not in the role table violates the foreign key behind `roleId`/`include: { role: true }`, so it is `UnknownRole` and the table is unchanged;
  - `email` is a unique column (`findUnique({ where: { email } })` needs one), so an upsert whose email is held by another row is `EmailTaken` and the table is unchanged. When both of the last two apply the model reports `UnknownRole`; which of the two the database reports first is not modelled.
- The user table keeps three invariants (`UsersService.Valid`): each row sits under its own id, its role exists, and no two rows share an email.
- Role names are compared exactly. The seed script creates `USER`, while the lookup asks for `user`, so over the seeded table alone the fallback is missing (`SeededRolesLackDefault`). Case-insensitive database collation is not modelled.
- The source reads the clock separately in `issue` (line 43), in `get` (line 78) and in `cleanup` (line 88). The model uses one `now` per public operation: `Issue` passes its `now` to `Cleanup`, and `Rotate` passes the same `now` to `Get`, `Issue` and `Cleanup`. So a token cannot expire between the read and the reissue of one rotation.

## Model

| member | source | states |
|---|---|---|
| `RefreshTokens.TtlSeconds` | src/auth/refresh-token.service.ts:36-39 | the lifetime is max(1, days) days in seconds: never below 86400, a whole number of days, 604800 when unset |
| `RefreshTokens.Live` | src/auth/refresh-token.service.ts:87-92 | the sweep keeps exactly the entries with `exp > now`, unchanged, and drops every entry with `exp <= now` |
| `RefreshTokens.Lookup` | src/auth/refresh-token.service.ts:76-83 | a read reports a record iff the token is present and `now < exp` (`exp == now` is expired), and then it is the stored record |
| `RefreshTokens.LiveIdempotent` | src/auth/refresh-token.service.ts:87-92 | sweeping again, at the same or a later time, is the same as sweeping once at the later time |
| `RefreshTokens.RefreshTokenService.constructor` | src/auth/refresh-token.service.ts:16 | a new service starts with an empty table |
| `RefreshTokens.RefreshTokenService.Issue` | src/auth/refresh-token.service.ts:41-53 | returns the token with `exp = now + ttl`; the table maps the token to `{user, exp}`; no entry with `exp <= now` remains; other live entries are unchanged |
| `RefreshTokens.RefreshTokenService.Rotate` | src/auth/refresh-token.service.ts:55-61 | succeeds iff the old token is live; then it returns the new token, a fresh `exp` and the user stored at issue time, the old token is gone and the new one maps to that user; on failure only the old token's entry is removed |
| `RefreshTokens.RefreshTokenService.Revoke` | src/auth/refresh-token.service.ts:63-69 | removes exactly that key; an absent key is a no-op |
| `RefreshTokens.RefreshTokenService.Get` | src/auth/refresh-token.service.ts:71-85 | returns the record iff live; an expired entry is deleted and only it; an unknown token leaves the table unchanged |
| `RefreshTokens.RefreshTokenService.Cleanup` | src/auth/refresh-token.service.ts:87-92 | the loop that deletes while walking the table leaves exactly the live entries |
| `RefreshTokens.RotationLifecycle` | src/auth/refresh-token.service.ts:41-69 | issue then rotate returns the same user under the new token; a second rotate of the old token fails; after a (repeated) revoke, rotating the new token fails |
| `RefreshTokens.PassiveExpiry` | src/auth/refresh-token.service.ts:76-82 | a token rotated at or after its expiry fails, although never revoked, and the read removes it |
| `Users.MatchesGroups` | src/users/users.service.ts:11 | the `in` filter: a role matches only through its group mapping being among the claims, so an unmapped role or an empty claim list matches nothing |
| `Users.AsRole` | src/users/users.service.ts:24 | a resolved role carries only the row's id and name |
| `Users.MatchingRoles` | src/users/users.service.ts:10-12 | the query returns only roles whose group mapping is among the claims, so a role without a mapping never matches |
| `Users.MatchingRolesComplete` | src/users/users.service.ts:10-12 | every role whose group mapping is among the claims is returned by the query |
| `Users.Heaviest` | src/users/users.service.ts:21-23 | the reduce returns one of its roles, of weight at least every other's |
| `Users.FindRole` | src/users/users.service.ts:14 | the lookup on a unique column finds a row satisfying the condition, and finds none only when no row does |
| `Users.RoleNamed` | src/users/users.service.ts:14 | the lookup by name finds a role with exactly that name, and finds none only when no role has it |
| `Users.RoleById` | src/users/users.service.ts:44 | the role relation of a user row: a role with that id, none only when no role has it |
| `Users.GetRoleFromGroups` | src/users/users.service.ts:9-25 | absent claims count as none; with a match the result is a matching role of maximal weight; with no match it is the role named `user`; it fails iff nothing matches and no role is named `user` |
| `Users.ResolvedRoleIsFirstHeaviest` | src/users/users.service.ts:21-24 | with at least one match the result is the role at some index `k` that matches, weighs at least every match, and outweighs every earlier match (earliest wins ties) |
| `Users.FirstHeaviestMatch` | src/users/users.service.ts:21-23 | the reduce's result is the first matching role of maximal weight in table order |
| `Users.HeaviestSnoc` | src/users/users.service.ts:22 | one more reduce step replaces the running maximum only with a strictly heavier role |
| `Users.StoredEmail` | src/users/users.service.ts:31-39 | the email column after an upsert: the given email, else the stored one on update and `''` on create |
| `Users.UpsertKeepsEmailsUnique` | src/users/users.service.ts:29-45 | writing a row keeps emails unique exactly when no other row already holds its email, which is when the unique index accepts the upsert |
| `Users.Upserted` | src/users/users.service.ts:29-45 | its email is `StoredEmail`; create: the given id and role, missing texts `''`, no photo; update: id and photo kept, role and given texts overwritten, missing texts kept |
| `Users.MapUserToUserProfile` | src/users/users.service.ts:87-99 | the profile copies id, email and names and carries only the role's id and name |
| `Users.GetUserByIdAsWritten` | src/users/users.service.ts:50-55 | as written, the lookup fails for every stored user and gives `undefined` only for a missing one |
| `Users.UsersService.constructor` | src/users/users.service.ts:7 | the service starts over a given role table and a consistent user table |
| `Users.UsersService.ProfileOf` | src/users/users.service.ts:44-47 | the profile of a stored row has its id and its role's id |
| `Users.UsersService.CreateOrUpdateUser` | src/users/users.service.ts:27-48 | the table gains or updates exactly the row `Upserted` gives under `id`, and the result is that row's profile; an unknown role id, or an email another row holds, changes nothing and fails; emails stay unique |
| `Users.UsersService.GetUserById` | src/users/users.service.ts:50-55 | `None` iff the id is absent, otherwise the stored row's profile with its role |
| `Users.UsersService.GetUserByEmail` | src/users/users.service.ts:57-63 | `None` iff no row has that email, otherwise the profile of the one row with that email |
| `Users.UsersService.UpdateUserPhoto` | src/users/users.service.ts:65-74 | sets only the photo of an existing user; an unknown id fails and changes nothing |
| `Users.UsersService.DeleteUserPhoto` | src/users/users.service.ts:76-85 | clears only the photo of an existing user; an unknown id fails and changes nothing |
| `Users.AbsentGroupsMatchNothing` | src/users/users.service.ts:11 | absent claims resolve like an empty list, which matches no role |
| `Users.ResolvedRoleExists` | src/users/users.service.ts:9-25 | a role resolved from groups is always in the role table, so the upsert after it cannot fail on the role |
| `Users.SeededRolesLackDefault` | src/users/users.service.ts:14 | over the seeded table (`USER`, `MODERATOR`, `ADMIN`, no group mappings) every resolution fails under exact name comparison |
| `Users.GetUserByIdFinding` | src/users/users.service.ts:50-55 | for a stored user the as-written lookup fails while the corrected one returns its profile |
| `Auth.ChooseRole` | src/auth/auth.service.ts:19 | an explicit role is used unchanged, without consulting the groups; otherwise the role is resolved from the groups and its failure propagates |
| `Auth.UpsertData` | src/auth/auth.service.ts:14-20 | id, email and names are copied verbatim from the profile into the upserted record, with the chosen role |
| `Auth.Login` | src/auth/auth.service.ts:27-32 | returns the same user together with the signature of that user |
| `Auth.AuthService.constructor` | src/auth/auth.service.ts:8-11 | the service works on the given users service |
| `Auth.AuthService.ValidateOAuthUser` | src/auth/auth.service.ts:13-25 | a role failure changes nothing; otherwise the result and table are those of the upsert of the copied profile; an email held by another row fails and changes nothing; on success the table holds `profile.id`; without an explicit role it succeeds iff the group resolution does and no other row holds the email |
| `Authentik.Split` | src/auth/strategies/authentik.strategy.ts:47 | `split(' ')` yields at least one piece and no piece contains a space |
| `Authentik.Join` | src/auth/strategies/authentik.strategy.ts:53 | `join(' ')`: no pieces give `''`; a single piece joins to itself; with more pieces the first is a prefix followed by a space |
| `Authentik.NameWords` | src/auth/strategies/authentik.strategy.ts:47 | the words of `given_name`: none iff it is missing or empty, otherwise space-free pieces that re-join to it |
| `Authentik.FirstSpace` | src/auth/strategies/authentik.strategy.ts:47 | the position of the first space, or the length when there is none |
| `Authentik.JoinSplit` | src/auth/strategies/authentik.strategy.ts:47-53 | `join(' ')` after `split(' ')` gives back the string |
| `Authentik.SplitJoin` | src/auth/strategies/authentik.strategy.ts:47-53 | `split(' ')` after `join(' ')` of space-free pieces gives back the pieces |
| `Authentik.SplitSpaceFree` | src/auth/strategies/authentik.strategy.ts:47 | a space-free prefix is glued to the first piece of what follows it |
| `Authentik.SplitAtFirstSpace` | src/auth/strategies/authentik.strategy.ts:47-53 | the first piece is the text before the first space; the rest re-join to the text after it; one piece iff there is no space |
| `Authentik.ProfileFromUserInfo` | src/auth/strategies/authentik.strategy.ts:47-56 | id from `sub`, email from `email`; first name is the text before the first space; with a space `firstName + ' ' + lastName == given_name`, without one the last name is empty; missing or empty `given_name` gives empty names; missing groups become `[]`; no role |
| `Authentik.StrategyRoleFromGroups` | src/auth/strategies/authentik.strategy.ts:54-55 | logins through the strategy always take their role from the group claims |

## Findings

| source | as written | input that shows it | evidently intended | confidence | as-written member | corrected member |
|---|---|---|---|---|---|---|
| src/users/users.service.ts:50-55 | `getUserById` queries without `include: { role: true }`, and the mapper then reads `user.role.id` (line 95) from the missing relation | any id present in the user table | return the stored user's profile with its role, as `getUserByEmail` does | high (not executed) | `Users.GetUserByIdAsWritten` | `Users.UsersService.GetUserById` |

## Left out

- The Redis backend of the refresh-token store: an external client with its `refresh:` key prefix, JSON serialisation and native expiry. Only the in-memory map is modelled.
- Concurrency. Operations are sequential. `Rotate` is get, revoke, issue as in the source, so nothing here claims at most one successful rotation under concurrent calls.
- `REFRESH_TTL_DAYS` values that are not whole numbers. A non-numeric value gives NaN and a fractional one a fractional lifetime. The setting is an optional integer here.
- The clock, `randomUUID` and JWT signing: they are parameters. `Login`'s `sign` is a pure function of the user, so two logins of the same user give the same token here; the JWT library also stamps the signing time, which is not modelled. The userinfo HTTP fetch, passport and the callback `done` of the strategy are not modelled.
- The timestamps `createdAt`/`updatedAt` of user rows, and the HTTP controllers, file storage, Prisma wiring and module wiring.
- Local password verification. No verification code exists in these source files; only the `UserProfileWithPassword` type does.
- Database collation. Role names (the `name: 'user'` lookup) and group claims (the `oauthGroupName` `in` filter, `MatchesGroups`) are compared exactly.
- Database constraints other than the three above. The Prisma schema is not part of this model; email uniqueness is taken from the `findUnique` lookup on `email`.
- `src/auth/refresh-token.model.ts` declares a `{userId, role, exp}` record that the service does not use. The service stores `{user, exp}`, and that is what is modelled.
