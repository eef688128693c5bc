# Kibol-Alert club service, modelled in Dafny

Kibol-Alert is a directory of football fan clubs. It stores clubs, directed
relations between clubs, club chants and fans. This project models its club
service as a state machine. The service creates, edits and deletes clubs,
chants and relations, and projects clubs into view models. The database
context supplies the store's well-formedness rules.

- `models.dfy` holds the entities (`Club`, `Chant`, `ClubRelation`, `User`),
  the request bodies, the view models (`ClubVM` and its parts) and the
  response envelope. The envelope is `Success(data)` or `Error(message)`. An
  `Outcome` adds the exceptions that escape a call unhandled.
- `database.dfy` (module `Database`) holds the immutable `Store`. Clubs and
  chants are maps keyed by identity ids, each with its identity counter.
  Relation rows are a sequence in table order. Users are a map keyed by their
  string id. `WellFormed` gathers the context's rules: identity keys, the
  composite relation key, the relation foreign keys on both sides, and the
  user-to-club foreign key. The module also defines the navigation sets
  (`RelationsWith`, `InRelationsWith`, `Fans`) and the hard-delete rules
  (`RemoveClub`).
- `club_service.dfy` (module `ClubService`) holds one pure transition
  `(Store, request) -> (Store, response)` per service method, plus the read
  projections.
- `club_service_properties.dfy` (module `ClubServiceProperties`) holds the
  lemmas that relate several calls.

Modelling choices:

- Each mutating call is one request scope. A change that is saved becomes the
  new store. A change that is only staged is dropped when the scope ends.
- The listing query has no ORDER BY. Active clubs are listed by ascending id.
  A chant list is also in ascending id order. Relation rows keep table order,
  so the "first" row that `DeleteRelation` finds is the first in table order.
  Fans are shown as a set.
- `Skip` and `Take` follow LINQ: a negative skip skips nothing, and a take of
  zero or less takes nothing.
- Coordinates are an opaque type. They are only ever copied.
- The entity classes are not part of this model. The context file maps no
  `Chant` relationship, and the model assumes there is no conventional
  foreign key from `Chant.ClubId` to `Club` either. So `WellFormed` has no
  chant foreign key, and `AddChant` can store a chant whose club does not
  exist.
- `EditClub` tests each field only for null
  (Kibol-Alert/Services/ClubService.cs:57-66). An empty string, or a zero
  coordinate, still overwrites the stored value.

## Model

| member | source | states |
|---|---|---|
| ClubService.AddClub | Kibol-Alert/Services/ClubService.cs:19-32 | Adds exactly one club, under a fresh id, with the request's Name, League and LogoUri. City and coordinates are null and IsDeleted is false. Every existing club is unchanged. There is no duplicate-name check. Always returns Success(true). |
| ClubService.DeleteClub | Kibol-Alert/Services/ClubService.cs:35-46 | An absent id gives "Klubu nie znaleziono!" and leaves the store unchanged. A present id gets only IsDeleted set. Its other fields, other clubs, chants, relations and users are unchanged. |
| ClubService.EditClub | Kibol-Alert/Services/ClubService.cs:49-72 | An absent id gives the not-found error and no change. Otherwise each of Name, League, LogoUri, Longitude and Latitude becomes the request's value when that value is non-null, and keeps its old value when it is null. City, IsDeleted, other clubs, chants and relations are unchanged. |
| ClubService.AddChant | Kibol-Alert/Services/ClubService.cs:75-85 | Adds exactly one chant, under a fresh id, with the request's ClubId and Lyrics. It succeeds whether or not the club exists. Existing chants, clubs and relations are unchanged. |
| ClubService.EditChant | Kibol-Alert/Services/ClubService.cs:87-99 | An absent id gives "Przyśpiewki nie znaleziono!" and no change. Otherwise Lyrics is replaced even by null, ClubId is kept, and every other chant is unchanged. |
| ClubService.DeleteChant | Kibol-Alert/Services/ClubService.cs:101-111 | As written: an absent id gives the not-found error. A present id reports Success(true), yet the store is unchanged and the chant is still in it. |
| ClubService.DeleteChantSaved | Kibol-Alert/Services/ClubService.cs:101-111 | Corrected: a present chant is removed and nothing else changes. An absent id gives the not-found error and no change. |
| ClubService.AddRelation | Kibol-Alert/Services/ClubService.cs:113-135 | The call returns if and only if: the clubs differ, neither the triple nor its mirror is stored yet, and both clubs exist. Then the relation set gains exactly (A,B,r) and (B,A,r). Otherwise an exception escapes and neither row is stored. A self relation is exactly the identity-conflict case. |
| ClubService.FirstRowOf | Kibol-Alert/Services/ClubService.cs:139-143 | Finds the first row in table order whose FirstClubId is the id, or reports that no row has it. |
| ClubService.DeleteRelation | Kibol-Alert/Services/ClubService.cs:137-148 | Fails with "Relacji nie znaleziono!" and no change if and only if no row has FirstClubId equal to the id. Otherwise exactly one such row is removed from the set, and the row count drops by one. |
| ClubService.IncomingViews | Kibol-Alert/Services/ClubService.cs:175-180 | Lists (FirstClub.Id, FirstClub.Name, Relation) for each row entering the club whose first club exists, and nothing else. The list is empty when no row enters the club. |
| ClubService.ChantViews | Kibol-Alert/Services/ClubService.cs:169-173 | Lists (Id, Lyrics) for exactly the chants whose ClubId is the club, in ascending id. |
| ClubService.FanViews | Kibol-Alert/Services/ClubService.cs:182-186 | A member view is in the set if and only if it is (Id, UserName) of a user whose ClubId is the club. |
| ClubService.ClubView | Kibol-Alert/Services/ClubService.cs:159-168 | The view carries the club's id and stored columns. |
| ClubService.ClubViewContents | Kibol-Alert/Services/ClubService.cs:159-187 | A club's view lists each of its incoming relations as the counterpart club, each chant it owns, and each of its fans, and nothing else. |
| ClubService.GetClubAsWritten | Kibol-Alert/Services/ClubService.cs:150-190 | As written: a missing or soft-deleted id throws a null reference. Otherwise it returns the club's view. |
| ClubService.GetClub | Kibol-Alert/Services/ClubService.cs:150-190 | Corrected: succeeds if and only if the club exists and is not soft-deleted. Otherwise it returns the not-found error. |
| ClubService.Page | Kibol-Alert/Services/ClubService.cs:196-197 | A page is at most `take` long, and its i-th element is element skip+i of the input. |
| ClubService.GetClubs | Kibol-Alert/Services/ClubService.cs:192-231 | Always succeeds, with at most `take` views. Each view is the projection of an active club. The ids are strictly ascending. |
| Database.ActiveClubIds | Kibol-Alert/Services/ClubService.cs:195 | Lists exactly the ids of the clubs that are not soft-deleted, in ascending order. |
| Database.ChantIds | Kibol-Alert/Services/ClubService.cs:169 | Lists exactly the ids of the chants whose ClubId is the club, in ascending order. |
| Database.RelationsWith | Kibol-Alert/Database/Kibol_AlertContext.cs:45-50 | A club's RelationsWith is exactly the rows whose FirstClubId is its id. |
| Database.InRelationsWith | Kibol-Alert/Database/Kibol_AlertContext.cs:52-56 | A club's InRelationsWith is exactly the rows whose SecondClubId is its id. |
| Database.Fans | Kibol-Alert/Database/Kibol_AlertContext.cs:26-39 | A club's Fans are exactly the users whose ClubId is its id. |
| Database.WellFormed | Kibol-Alert/Database/Kibol_AlertContext.cs:22-56 | The store keeps the context's keys and foreign keys. In a well-formed store, the next identity id of clubs and of chants is not yet taken. |
| Database.RelationRowsAreASet | Kibol-Alert/Database/Kibol_AlertContext.cs:41-43 | The composite key (FirstClubId, SecondClubId, Relation) makes the relation table a set: it has as many rows as distinct relations. |
| Database.MirroredNavigations | Kibol-Alert/Database/Kibol_AlertContext.cs:45-56 | When every row is stored with its mirror, a club's InRelationsWith is exactly the mirrors of its RelationsWith. |
| Database.RemoveClub | Kibol-Alert/Database/Kibol_AlertContext.cs:26-56 | A hard delete is refused (Restrict) if and only if a relation leaves the club. Otherwise it removes only that club and cascades the rows entering it. It sets its fans' ClubId to null and leaves chants alone. The store stays well-formed. |
| ClubServiceProperties.AddClubThenGetClub | Kibol-Alert/Services/ClubService.cs:19-32 | GetClub finds a club just added, with the request's Name, League and LogoUri, and with no relations or fans. |
| ClubServiceProperties.DeleteClubIdempotent | Kibol-Alert/Services/ClubService.cs:35-46 | Deleting a club twice gives the same store and response as deleting it once. |
| ClubServiceProperties.DeleteClubHidesClub | Kibol-Alert/Services/ClubService.cs:35-46 | After a soft delete, GetClub reports not found and no GetClubs page lists the club. The club's chants are still stored. |
| ClubServiceProperties.EditClubEmptyRequest | Kibol-Alert/Services/ClubService.cs:57-66 | An edit with every field null leaves the store unchanged and succeeds. |
| ClubServiceProperties.EditClubIdempotent | Kibol-Alert/Services/ClubService.cs:49-72 | Applying the same edit twice equals applying it once. |
| ClubServiceProperties.EditClubThenGetClub | Kibol-Alert/Services/ClubService.cs:57-66 | After an edit, GetClub of the club shows exactly the non-null request fields. The other fields keep their old values. |
| ClubServiceProperties.DanglingChantIsAdopted | Kibol-Alert/Services/ClubService.cs:75-85 | A chant added for any club id that no club has is accepted. Whenever an active club with that id exists later, its view lists the chant. |
| ClubServiceProperties.NextClubAdoptsDanglingChant | Kibol-Alert/Services/ClubService.cs:19-32 | If identity ids have no gaps, a chant added for the next club id is listed by the club added after it. |
| ClubServiceProperties.EditChantThenGetClub | Kibol-Alert/Services/ClubService.cs:87-99 | After an edit, the chant's club lists the chant with the new lyrics and with no other lyrics. |
| ClubServiceProperties.EditChantIdempotent | Kibol-Alert/Services/ClubService.cs:87-99 | Applying the same chant edit twice equals applying it once. |
| ClubServiceProperties.AddRelationSeenFromBothClubs | Kibol-Alert/Services/ClubService.cs:113-135 | After AddRelation(A,B,r) on active clubs, GetClub(A) lists B under r and GetClub(B) lists A under r, each with the other club's name. |
| ClubServiceProperties.AddRelationPreservesSymmetry | Kibol-Alert/Services/ClubService.cs:113-135 | If every row has its mirror before AddRelation, every row has its mirror after it. |
| ClubServiceProperties.DeleteRelationRemovesFirstRow | Kibol-Alert/Services/ClubService.cs:137-148 | The removed row is the first in table order with that FirstClubId. The other rows keep their order. |
| ClubServiceProperties.DeleteRelationBreaksSymmetry | Kibol-Alert/Services/ClubService.cs:137-148 | DeleteRelation leaves the mirrored row in place. Start from paired rows with no self relation: afterwards some row lacks its mirror. |
| ClubServiceProperties.SymmetricRelationsBlockRemoval | Kibol-Alert/Database/Kibol_AlertContext.cs:45-56 | Suppose every row has its mirror. Then a hard delete is refused if and only if the club takes part in any relation, in either direction. |
| ClubServiceProperties.GetClubsFiltersBeforePaging | Kibol-Alert/Services/ClubService.cs:194-197 | The i-th club of a page is active club number skip+i in id order. The page length is what Skip and Take allow. |
| ClubServiceProperties.PageConcat | Kibol-Alert/Services/ClubService.cs:196-197 | For any sequence, the page (skip, a) followed by the page (skip+a, b) equals the page (skip, a+b). |
| ClubServiceProperties.PagesConcatenate | Kibol-Alert/Services/ClubService.cs:192-231 | GetClubs(skip, a) followed by GetClubs(skip+a, b) equals GetClubs(skip, a+b). Consecutive pages are therefore disjoint and cover the span. |
| ClubServiceProperties.FullPageListsEveryActiveClub | Kibol-Alert/Services/ClubService.cs:192-231 | A page from 0 that is long enough lists a club if and only if it is active. |
| ClubServiceProperties.GetClubsAgreesWithGetClub | Kibol-Alert/Services/ClubService.cs:150-231 | Each club listed by GetClubs equals what GetClub returns for its id. |
| ClubServiceProperties.GetClubAsWrittenFaults | Kibol-Alert/Services/ClubService.cs:150-161 | For a missing or deleted club, the as-written GetClub throws a null reference and the corrected GetClub returns not found. For an active club both return the same view. |
| ClubServiceProperties.DeleteChantLeavesChantListed | Kibol-Alert/Services/ClubService.cs:101-111 | After the as-written DeleteChant reports success, GetClub of the chant's club still lists the chant. |
| ClubServiceProperties.DeleteChantSavedUnlistsChant | Kibol-Alert/Services/ClubService.cs:101-111 | After the corrected delete, no club's view lists the chant. |

## Left out

- Audit logging (`AddLog`) goes to a logger collaborator that is not part of this model. The messages are not modelled.
- Entity Framework mechanics are abstracted as direct updates to the store: `AddAsync`, `SaveChangesAsync`, `Include`/`ThenInclude`, change tracking and async tasks. Concurrent requests and transaction isolation are not modelled.
- Unexpected database failures are not modelled: lost connections, timeouts and concurrency conflicts. The only failures modelled are the key and foreign-key refusals that `AddRelation` can meet.
- A null relation kind is not modelled. `Relation` is part of the composite key, so it is taken to be a non-null string.
- Translating a negative `Skip`/`Take` to SQL is not modelled. The database may reject it; the model uses LINQ's in-memory semantics instead.
- ClubService.GetClubs: its order is fixed as ascending club id. The source has no ORDER BY, so its database may return another order.
- ClubService.DeleteRelation: it takes the first matching row in table order. The source's `FirstOrDefaultAsync` has no ORDER BY, so its database may pick another matching row.
- The HTTP controller for clubs is not modelled. The whole file is commented out and only routes requests.
- The brawl service and the `Brawl` entity are not part of this model. The brawl service's code is not available, and `Brawl` is a plain record with a date and a location.
- Database.RemoveClub: it sets the fans' ClubId to null as if the fans were loaded. EF's default ClientSetNull only nulls dependents it tracks; with fans not loaded, the database would refuse the delete.
- Coordinates are opaque values. Floating-point behaviour is not modelled.
- ClubService.DeleteChant: its staged removal is dropped when the request scope ends. `AddLog` comes from `BaseService`, which is not part of this model. If it saves the shared context, the removal would be committed; that case is not modelled.
- ClubService.AddChant: assumes `Chant.ClubId` is not a foreign key to `Club`. The entity classes are not part of this model. If a `Club.Chants` navigation made it a required foreign key by convention, a chant for a missing club would be refused at save.
- Database.RemoveClub: assumes no foreign key from chants to clubs, so a hard delete leaves the club's chants stored. A conventional cascading foreign key would delete them with the club.
- ClubService.AddRelation: compares the Relation part of the key exactly, character by character. A case-insensitive database collation that also ignores trailing spaces would refuse more rows, for example (1, 2, "Rival") beside (1, 2, "rival").
- ClubServiceProperties.NextClubAdoptsDanglingChant: relies on identity ids handed out without gaps. Real identity columns can skip values after a failed insert or a restart. `DanglingChantIsAdopted` states the same fact for any id.
- ClubService.AddClub: takes the next identity id with no gaps, as `AddChant` does. Real identity columns can skip values. Only the freshness of the id is relied on, except by `NextClubAdoptsDanglingChant`.

## Findings

| source | as written | input that shows it | evidently intended | confidence | as-written member | corrected member |
|---|---|---|---|---|---|---|
| Kibol-Alert/Services/ClubService.cs:150-161 | `GetClub` reads the fields of the club its query found, without checking that it found one | any id with no club, or the id of a soft-deleted club | report "not found" in the response envelope, as `DeleteClub` and `EditClub` do | not executed; high | ClubService.GetClubAsWritten | ClubService.GetClub |
| Kibol-Alert/Services/ClubService.cs:101-111 | `DeleteChant` stages the removal but never calls `SaveChangesAsync`, then reports success | the id of any stored chant: the chant is still stored and still listed by its club | save the removal, as every other mutating method saves its change | not executed; medium, since `AddLog` could save the shared context | ClubService.DeleteChant | ClubService.DeleteChantSaved |
