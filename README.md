# ContactManagementAPI core, modelled and proved in Dafny

This project models the request-handling core of ContactManagementAPI:
a web API for contacts, investment funds and the many-to-many assignments between them.
Data is stored relationally with soft deletion.
The model covers these layers, leaf to root:

- **Common** (`common.dfy`): `Result<T>` and `Error`.
  A result is a value with status OK, or an error tagged with the HTTP status chosen by the factory that built it.
  `FromResult` re-types a failure.
- **DomainErrors** (`domain_errors.dfy`): the general error builders (`<Entity>.NotFound`, `<Entity>.Conflict`, `<Entity>.ServerError`) and the fixed contact errors.
- **Kernel** (`kernel.dfy`): the entity base.
  Its state is an identifier, creation and update times and a soft-delete flag with its time.
  Operations: touch, soft delete, restore, identifier equality and hashing.
  `Guid.NewGuid` is a counter (`IdSource`); the clock is a parameter `now`.
- **Text**, **Linq** (`text.dfy`, `linq.dfy`): the .NET primitives the core relies on.
  These are `char.IsWhiteSpace`, `Trim`, UTF-16 `Length`, digit filtering, case folding, `Split`, `FirstOrDefault`, `Where` and `Any`.
- **ValueObjects** (`value_objects.dfy`): `Name` (required, at most 100 UTF-16 units), `Email` (optional, the address pattern, at most 255 units) and `PhoneNumber` (optional, 10 to 15 digits after dropping non-digits, stored as given).
- **Entities** (`entities.dfy`): `Contact`, `Fund` and `FundContact`.
  Each is a class over the entity base, with its validation chain and its `Create`, `Update` and `CanDelete`.
- **Persistence**, **FundRepository**, **FundContactRepository** (`base_repository.dfy`, `fund_repository.dfy`, `fund_contact_repository.dfy`): the repositories.
  Each table is a sequence of rows (entity state plus payload) held in a `BaseRepository` object.
  Each operation leaves the table in a state given by a function on rows: insert, replace, hard delete, soft delete or restore.
  The fund repository adds the case-insensitive, trim-insensitive name check.
  The association repository adds the lookups by pair, fund and contact.
- **ContactCommands**, **FundCommands**, **FundContactCommands**, **FundQueries**, **FundContactQueries**: the command and query handlers.
  Each handler is a method over the repositories it uses.
  Its `ensures` ties the answer and the new tables to an outcome function of the old tables.
  The lemmas beside it state what the handler promises:
  - the order of its checks;
  - that a failure changes nothing;
  - what a success stores;
  - the invariants it keeps: unique keys, identifiers below the next fresh one, valid fund names, at most one live association per contact/fund pair.

Every repository call that can throw takes a `Fault` parameter: `NoFault`, or `Throws(message)` for the exception.
So each error path of the source is a branch of the model.


## Model

| member | source | states |
|---|---|---|
| Common.Result.IsSuccess | src/ContactManagement.Shared/Common/Result.cs:12 | a result is a success exactly when it carries no error |
| Common.Result.IsFailure | src/ContactManagement.Shared/Common/Result.cs:19 | a failure is exactly a result that is not a success, i.e. one that carries an error |
| Common.Result.Success | src/ContactManagement.Shared/Common/Result.cs:23 | a success holding the value, with no error and status 200 |
| Common.Result.BadRequest | src/ContactManagement.Shared/Common/Result.cs:25 | a failure carrying the error with status 400 |
| Common.Result.NotFound | src/ContactManagement.Shared/Common/Result.cs:27 | a failure carrying the error with status 404 |
| Common.Result.Conflict | src/ContactManagement.Shared/Common/Result.cs:29 | a failure carrying the error with status 409 |
| Common.Result.Unauthorized | src/ContactManagement.Shared/Common/Result.cs:31 | a failure carrying the error with status 401 |
| Common.Result.Forbidden | src/ContactManagement.Shared/Common/Result.cs:33 | a failure carrying the error with status 403 |
| Common.Result.ValidationError | src/ContactManagement.Shared/Common/Result.cs:35 | a failure carrying the error with status 422 |
| Common.Result.InternalServerError | src/ContactManagement.Shared/Common/Result.cs:37 | a failure carrying the error with status 500 |
| Common.Result.FromResult | src/ContactManagement.Shared/Common/Result.cs:21 | re-typing a failure keeps it a failure with the same error and status |
| Common.FailureStatusIsNeverOK | src/ContactManagement.Shared/Common/Result.cs:25-37 | no failure factory produces status OK |
| Common.FromResultTwice | src/ContactManagement.Shared/Common/Result.cs:21 | re-typing a failure twice is the same as once and still keeps the original error and status |
| DomainErrors.GeneralNotFound | src/ContactManagement.Domain/Errors/DomainErrors.cs:10-12 | the code is the entity name followed by `.NotFound` |
| DomainErrors.GeneralConflict | src/ContactManagement.Domain/Errors/DomainErrors.cs:14-16 | the code is the entity name followed by `.Conflict` |
| DomainErrors.GeneralServerError | src/ContactManagement.Domain/Errors/DomainErrors.cs:17-19 | the code is the entity name followed by `.ServerError`, and the message ends with the exception's message |
| DomainErrors.BuilderCodesInjective | src/ContactManagement.Domain/Errors/DomainErrors.cs:10-19 | each builder gives distinct codes to distinct entity names |
| DomainErrors.SuffixCancels | src/ContactManagement.Domain/Errors/DomainErrors.cs:10-19 | two strings carrying the same suffix are equal when the results are, which makes a builder's code determine its entity name |
| DomainErrors.LastOfConcat | src/ContactManagement.Domain/Errors/DomainErrors.cs:10-19 | a code built as entity name plus suffix ends with the suffix's last character, whatever the entity name |
| DomainErrors.BuilderFamiliesDisjoint | src/ContactManagement.Domain/Errors/DomainErrors.cs:10-19 | a not-found code never equals a conflict or server-error code, for any entity names |
| DomainErrors.EntityErrorsAreBuilderInstances | src/ContactManagement.Domain/Errors/DomainErrors.cs:34-68 | the per-entity NotFound and AlreadyExists errors are the general builders applied to `Contact`, `Fund` and `FundContact`, with the codes that gives |
| DomainErrors.ContactValidationCodesDistinct | src/ContactManagement.Domain/Errors/DomainErrors.cs:36-54 | the five fixed Contact error codes are pairwise distinct |
| Kernel.Created | src/ContactManagement.Shared/Kernel/Entity.cs:11-17 | a new entity has the drawn identifier, both timestamps at the current time, is live with no deletion time, and is consistent |
| Kernel.Touched | src/ContactManagement.Shared/Kernel/Entity.cs:19-22 | only `UpdatedAt` moves; identifier, creation time and deletion state are kept |
| Kernel.SoftDeleted | src/ContactManagement.Shared/Kernel/Entity.cs:24-32 | the result is deleted; an already deleted entity is returned unchanged; a live one gets `DeletedAt` and `UpdatedAt` set to now; identifier and creation time are kept |
| Kernel.Restored | src/ContactManagement.Shared/Kernel/Entity.cs:34-42 | the result is live; a live entity is returned unchanged; a deleted one loses `DeletedAt` and gets `UpdatedAt` set to now |
| Kernel.LifecyclePreservesConsistency | src/ContactManagement.Shared/Kernel/Entity.cs:19-42 | touch, soft delete and restore all keep the invariant "deleted exactly when a deletion time is recorded" |
| Kernel.SoftDeleteIdempotent | src/ContactManagement.Shared/Kernel/Entity.cs:24-32 | a second soft delete changes nothing, not even `DeletedAt` |
| Kernel.RestoreIdempotent | src/ContactManagement.Shared/Kernel/Entity.cs:34-42 | a second restore changes nothing |
| Kernel.RestoreUndoesSoftDelete | src/ContactManagement.Shared/Kernel/Entity.cs:24-42 | restoring a soft-deleted live entity gives it back with only `UpdatedAt` moved |
| Kernel.IdSource.constructor | src/ContactManagement.Shared/Kernel/Entity.cs:13 | the identifier source starts at the first non-empty identifier |
| Kernel.IdSource.NewGuid | src/ContactManagement.Shared/Kernel/Entity.cs:13 | each draw returns an identifier never equal to `Guid.Empty` and never returned before |
| Kernel.Entity.State | src/ContactManagement.Shared/Kernel/Entity.cs:5-9 | the snapshot carries the entity's identifier and creation time |
| Kernel.Entity.constructor | src/ContactManagement.Shared/Kernel/Entity.cs:11-17 | a new entity is in the state `Created` gives for its identifier and the current time |
| Kernel.Entity.Load | src/ContactManagement.Shared/Kernel/Entity.cs:5-9 | a materialized entity holds exactly the stored state |
| Kernel.Entity.UpdateTimestamps | src/ContactManagement.Shared/Kernel/Entity.cs:19-22 | the new state is the old one touched at now |
| Kernel.Entity.SoftDelete | src/ContactManagement.Shared/Kernel/Entity.cs:24-32 | the new state is the old one soft-deleted at now |
| Kernel.Entity.Restore | src/ContactManagement.Shared/Kernel/Entity.cs:34-42 | the new state is the old one restored at now |
| Kernel.EqualityIsIdEquality | src/ContactManagement.Shared/Kernel/Entity.cs:44-82 | `==` holds exactly for two nulls or two entities with equal identifiers, `!=` is its negation, and `IdComparer.Equals` agrees with `==` |
| Kernel.HashConsistentWithEquality | src/ContactManagement.Shared/Kernel/Entity.cs:67-87 | equal entities have equal hashes under both `GetHashCode` and `IdComparer`, and the two hashes agree |
| Kernel.TwoNewEntitiesAreUnequal | src/ContactManagement.Shared/Kernel/Entity.cs:11-17 | two entities built from successive draws are unequal and both live |
| Text.Utf16Length | src/ContactManagement.Domain/ValueObjects/Name.cs:20 | `string.Length` counts UTF-16 units: at least the number of characters, at most twice it, and equal to it when every character is in the basic plane |
| Text.TrimStart | src/ContactManagement.Infrastructure/Repositories/FundRepository.cs:22 | the result is a suffix of the input, starts with a non-white-space character or is empty, and only white space was removed |
| Text.TrimEnd | src/ContactManagement.Infrastructure/Repositories/FundRepository.cs:22 | the result is a prefix of the input, ends with a non-white-space character or is empty, and only white space was removed |
| Text.Trim | src/ContactManagement.Infrastructure/Repositories/FundRepository.cs:22 | the result is the slice of the input left after cutting a blank prefix and a blank suffix, and neither starts nor ends with white space |
| Text.TrimEmptyIffBlank | src/ContactManagement.Infrastructure/Repositories/FundRepository.cs:22 | trimming leaves nothing exactly when the input is all white space |
| Text.TrimIgnoresPadding | src/ContactManagement.Infrastructure/Repositories/FundRepository.cs:31-35 | white space added on either side does not change the trimmed string |
| Text.Lower | src/ContactManagement.Infrastructure/Repositories/FundRepository.cs:31-35 | lower-casing keeps the length and folds each character on its own |
| Text.EqualsIgnoreCaseProperties | src/ContactManagement.Infrastructure/Repositories/FundRepository.cs:31-35 | case-insensitive equality is reflexive and symmetric, and holds exactly for equal-length strings that agree after folding each position |
| Text.DigitsOf | src/ContactManagement.Domain/ValueObjects/PhoneNumber.cs:22 | the filter keeps only digits, is no longer than its input, and is the input itself when that is all digits |
| Text.DigitsOfKeepsEveryDigit | src/ContactManagement.Domain/ValueObjects/PhoneNumber.cs:22 | every digit of the input is kept, as often as it occurs, and nothing else |
| Text.DigitsOfConcat | src/ContactManagement.Domain/ValueObjects/PhoneNumber.cs:22 | filtering digits distributes over concatenation, so it keeps the order |
| Text.SplitOn | src/ContactManagement.Domain/ValueObjects/Email.cs:35 | splitting at a separator gives one more piece than there are separators, no piece holds the separator, and joining the pieces restores the input |
| Linq.IndexWhere | src/ContactManagement.Infrastructure/Repositories/BaseRepository.cs:46-47 | `FirstOrDefault` finds the first element satisfying the predicate, and finds none exactly when no element does |
| Linq.Where | src/ContactManagement.Infrastructure/Repositories/BaseRepository.cs:72 | `Where` returns only elements of the input that satisfy the predicate, and every such element |
| Linq.WhereConcat | src/ContactManagement.Infrastructure/Repositories/BaseRepository.cs:72 | `Where` keeps the input order: filtering a concatenation concatenates the filtered parts |
| Linq.WhereAll | src/ContactManagement.Infrastructure/Repositories/BaseRepository.cs:68-75 | filtering with a predicate every element satisfies changes nothing |
| Linq.AnyAgreesWithSearches | src/ContactManagement.Infrastructure/Repositories/FundContactRepository.cs:119-120 | `Any` holds exactly when `FirstOrDefault` finds an element and exactly when `Where` is non-empty |
| ValueObjects.Name.Create | src/ContactManagement.Domain/ValueObjects/Name.cs:13-26 | success exactly for a non-blank name of at most 100 UTF-16 units, stored verbatim; blank input gives NameRequired and a too long one NameTooLong, both BadRequest |
| ValueObjects.NameCreateRoundTrip | src/ContactManagement.Domain/ValueObjects/Name.cs:13-26 | a name is valid exactly when `Create` gives it back unchanged |
| ValueObjects.ValidNameTrimsToNonEmpty | src/ContactManagement.Domain/ValueObjects/Name.cs:15-18 | a valid name keeps at least one character after trimming |
| ValueObjects.NameLengthBoundary | src/ContactManagement.Domain/ValueObjects/Name.cs:20-23 | 100 characters are accepted, 101 are too long, and 101 spaces are reported as required |
| ValueObjects.Email.Create | src/ContactManagement.Domain/ValueObjects/Email.cs:14-32 | blank input succeeds with no address; otherwise success exactly when the pattern matches and the address has at most 255 units, stored verbatim; every failure is BadRequest InvalidEmail |
| ValueObjects.EmailCreateRoundTrip | src/ContactManagement.Domain/ValueObjects/Email.cs:14-32 | an address is valid exactly when `Create` gives it back unchanged |
| ValueObjects.MatchedAddressShape | src/ContactManagement.Domain/ValueObjects/Email.cs:35 | whatever the pattern accepts has exactly one '@' and is ASCII |
| ValueObjects.StoredEmailShape | src/ContactManagement.Domain/ValueObjects/Email.cs:14-32 | a stored address has exactly one '@', is ASCII and has at most 255 characters |
| ValueObjects.TrailingNewlineAccepted | src/ContactManagement.Domain/ValueObjects/Email.cs:35 | because .NET's `$` also matches before a final newline, a valid address followed by '\n' is accepted and stored with the newline |
| ValueObjects.AddressWithoutAtRejected | src/ContactManagement.Domain/ValueObjects/Email.cs:35 | an input without '@' does not match |
| ValueObjects.AddressSplitsAtAt | src/ContactManagement.Domain/ValueObjects/Email.cs:35 | with a single '@', the input matches exactly when the left side is a dotted run of atoms and the right side a dotted run of at least two labels |
| ValueObjects.EdgeDotLocalPartRejected | src/ContactManagement.Domain/ValueObjects/Email.cs:35 | an empty local part, or one starting or ending with '.', is rejected |
| ValueObjects.MalformedDomainRejected | src/ContactManagement.Domain/ValueObjects/Email.cs:35 | a domain without '.', or starting or ending with '.', is rejected |
| ValueObjects.DoubleDotRejected | src/ContactManagement.Domain/ValueObjects/Email.cs:35 | two consecutive dots are rejected on either side of '@' |
| ValueObjects.TwoLabelDomainAccepted | src/ContactManagement.Domain/ValueObjects/Email.cs:35 | two labels joined by '.' form a domain |
| ValueObjects.SimpleAddressMatches | src/ContactManagement.Domain/ValueObjects/Email.cs:35 | `atom@label.label` matches the pattern |
| ValueObjects.SimpleAddressAccepted | src/ContactManagement.Domain/ValueObjects/Email.cs:14-32 | `atom@label.label` within the length limit is accepted and stored as given |
| ValueObjects.OverlongAddressRejected | src/ContactManagement.Domain/ValueObjects/Email.cs:26-29 | an address longer than 255 units is rejected even when it matches the pattern |
| ValueObjects.PhoneNumber.Create | src/ContactManagement.Domain/ValueObjects/PhoneNumber.cs:14-31 | blank input succeeds with no number; otherwise success exactly when the input has 10 to 15 digits, storing the unstripped input; every failure is BadRequest InvalidPhoneNumber |
| ValueObjects.PhoneNumberCreateRoundTrip | src/ContactManagement.Domain/ValueObjects/PhoneNumber.cs:14-31 | a number is valid exactly when `Create` gives it back unchanged |
| ValueObjects.PhoneVerdictDependsOnlyOnDigits | src/ContactManagement.Domain/ValueObjects/PhoneNumber.cs:22-27 | two non-blank inputs with the same digits get the same verdict |
| ValueObjects.PhoneSeparatorsIgnored | src/ContactManagement.Domain/ValueObjects/PhoneNumber.cs:22-27 | inserting a non-digit character never changes the verdict |
| ValueObjects.DigitStringVerdict | src/ContactManagement.Domain/ValueObjects/PhoneNumber.cs:33-37 | a string of digits is accepted exactly when it has 10 to 15 of them |
| Entities.ValidateContact | src/ContactManagement.Domain/Entities/Contact.cs:20-36 | checks name, then e-mail, then phone, returning the first failure's error (the name's own error, InvalidEmail or InvalidPhoneNumber) as BadRequest; success exactly when all three pass, holding the name verbatim and each optional field absent exactly when its input is blank |
| Entities.ContactValidationRoundTrip | src/ContactManagement.Domain/Entities/Contact.cs:15-46 | validating the raw strings of a valid contact payload gives that payload back |
| Entities.Contact.constructor | src/ContactManagement.Domain/Entities/Contact.cs:38-43 | a new contact is a fresh entity in the created state carrying the payload |
| Entities.Contact.Load | src/ContactManagement.Domain/Entities/Contact.cs:9-11 | a materialized contact holds the stored state and payload |
| Entities.Contact.Create | src/ContactManagement.Domain/Entities/Contact.cs:15-46 | on invalid input the validation failure is returned and no identifier is drawn; otherwise a fresh contact with the validated payload and a newly drawn identifier |
| Entities.Contact.Update | src/ContactManagement.Domain/Entities/Contact.cs:48-76 | on failure the fields are unchanged and the failure returned; on success all three fields are replaced and the same contact returned |
| Entities.Contact.CanDelete | src/ContactManagement.Domain/Entities/Contact.cs:78-86 | deletion is always allowed |
| Entities.ValidateFund | src/ContactManagement.Domain/Entities/Fund.cs:18-22 | success exactly for a valid name, stored verbatim; a failure is the name's error with BadRequest |
| Entities.FundValidationRoundTrip | src/ContactManagement.Domain/Entities/Fund.cs:16-30 | validating a valid fund's name gives its payload back |
| Entities.Fund.constructor | src/ContactManagement.Domain/Entities/Fund.cs:24-27 | a new fund is a fresh entity in the created state carrying the payload |
| Entities.Fund.Load | src/ContactManagement.Domain/Entities/Fund.cs:9 | a materialized fund holds the stored state and payload |
| Entities.Fund.Create | src/ContactManagement.Domain/Entities/Fund.cs:16-30 | an invalid name returns its failure and draws no identifier; otherwise a fresh fund with that name and a newly drawn identifier |
| Entities.Fund.Update | src/ContactManagement.Domain/Entities/Fund.cs:32-42 | on failure the name is unchanged; on success it is replaced and the same fund returned |
| Entities.Fund.CanDelete | src/ContactManagement.Domain/Entities/Fund.cs:44-53 | deletion is always allowed |
| Entities.ValidateFundContact | src/ContactManagement.Domain/Entities/FundContact.cs:18-28 | success exactly when both identifiers are non-empty, storing them; an empty contact identifier gives NotFound Contact.NotFound first, then an empty fund identifier NotFound Fund.NotFound |
| Entities.FundContact.constructor | src/ContactManagement.Domain/Entities/FundContact.cs:30-34 | a new association is a fresh live entity carrying both identifiers |
| Entities.FundContact.Create | src/ContactManagement.Domain/Entities/FundContact.cs:18-37 | a failing check returns its failure and draws no identifier; otherwise a fresh live association with both identifiers and a newly drawn identifier |
| Persistence.Find | src/ContactManagement.Infrastructure/Repositories/BaseRepository.cs:46-47 | the first row with that identifier in an admitted state, and none exactly when no such row exists |
| Persistence.FindUnique | src/ContactManagement.Infrastructure/Repositories/BaseRepository.cs:46-47 | with unique keys, the lookup of a row's identifier finds that row when its state is admitted, and nothing otherwise |
| Persistence.Visible | src/ContactManagement.Infrastructure/Repositories/BaseRepository.cs:68-75 | all rows when deleted ones are included, otherwise exactly the live rows |
| Persistence.Inserted | src/ContactManagement.Infrastructure/Repositories/BaseRepository.cs:28-29 | the row is appended when its key is free and the table is unchanged otherwise; unique keys stay unique |
| Persistence.Replaced | src/ContactManagement.Infrastructure/Repositories/BaseRepository.cs:89-91 | the row with the same key is overwritten, every other row and every key is kept, and unique keys stay unique |
| Persistence.Removed | src/ContactManagement.Infrastructure/Repositories/BaseRepository.cs:123-124 | the live row with that identifier is cut out, nothing else changes, and afterwards no live row has that identifier |
| Persistence.RemoveAtKeepsKeysApart | src/ContactManagement.Infrastructure/Repositories/BaseRepository.cs:123-124 | removing one row keeps keys unique and drops that row's key |
| Persistence.SoftDeletedRows | src/ContactManagement.Infrastructure/Repositories/BaseRepository.cs:160-176 | the row with that identifier is soft-deleted in place, every key and payload is kept, and the table invariants are preserved |
| Persistence.RestoredRows | src/ContactManagement.Infrastructure/Repositories/BaseRepository.cs:193-201 | the deleted row with that identifier is restored in place, every key and payload is kept, and the table invariants are preserved |
| Persistence.SoftDeleteHidesRow | src/ContactManagement.Infrastructure/Repositories/BaseRepository.cs:160-176 | after a soft delete the row is hidden from live lookups and found by the deleted-only lookup |
| Persistence.SoftDeleteOfDeletedRowIsNoOp | src/ContactManagement.Infrastructure/Repositories/BaseRepository.cs:168-172 | soft-deleting an already deleted row changes nothing |
| Persistence.SoftDeleteRowsIdempotent | src/ContactManagement.Infrastructure/Repositories/BaseRepository.cs:155-187 | soft delete is idempotent on the table |
| Persistence.RestoreRevivesRow | src/ContactManagement.Infrastructure/Repositories/BaseRepository.cs:193-201 | after a restore the row is visible to live lookups |
| Persistence.RestoreUndoesSoftDeleteRows | src/ContactManagement.Infrastructure/Repositories/BaseRepository.cs:155-212 | restoring a soft-deleted live row gives the table back with only that row's `UpdatedAt` moved |
| Persistence.RemovedRowIsGone | src/ContactManagement.Infrastructure/Repositories/BaseRepository.cs:123-124 | after a hard delete no row has that identifier in any state and the table is one row shorter |
| Persistence.GetByIdFindsRow | src/ContactManagement.Infrastructure/Repositories/BaseRepository.cs:46-55 | with unique keys, `GetById` of a live row's identifier returns that row |
| Persistence.InsertedRowIsFound | src/ContactManagement.Infrastructure/Repositories/BaseRepository.cs:24-55 | a live row inserted under a free key is what the next lookup of its identifier finds |
| Persistence.GetById | src/ContactManagement.Infrastructure/Repositories/BaseRepository.cs:42-62 | a storage failure gives ServerError (500); otherwise success exactly when a live row has the identifier, returning such a row, and NotFound with code `NotFound` otherwise |
| Persistence.FreshIdIsFree | src/ContactManagement.Shared/Kernel/Entity.cs:13 | an identifier not yet drawn is not taken, and appending its row keeps every stored identifier below the next one |
| Persistence.AddOutcome | src/ContactManagement.Infrastructure/Repositories/BaseRepository.cs:24-40 | success exactly when no storage failure occurs and the key is free, returning the row and appending it; any failure is a 500 and leaves the table unchanged |
| Persistence.BaseRepository.constructor | src/ContactManagement.Infrastructure/Repositories/BaseRepository.cs:17-22 | a new repository is empty and valid |
| Persistence.BaseRepository.ServerError | src/ContactManagement.Infrastructure/Repositories/BaseRepository.cs:38 | every storage exception becomes the general server error for the repository's entity |
| Persistence.BaseRepository.Add | src/ContactManagement.Infrastructure/Repositories/BaseRepository.cs:24-40 | the result and the new table are exactly those of `AddOutcome`, and keys stay unique |
| Persistence.BaseRepository.GetAll | src/ContactManagement.Infrastructure/Repositories/BaseRepository.cs:64-83 | a storage failure gives ServerError; otherwise success with the visible rows in table order |
| Persistence.BaseRepository.Update | src/ContactManagement.Infrastructure/Repositories/BaseRepository.cs:85-102 | the entity's `UpdatedAt` moves first; a storage failure, or an entity with no stored row, gives ServerError and leaves the table; otherwise the row with its key is overwritten by the entity's state and payload and returned |
| Persistence.BaseRepository.Delete | src/ContactManagement.Infrastructure/Repositories/BaseRepository.cs:104-135 | a missing or deleted row gives NotFound, any other lookup failure is re-tagged BadRequest, a save failure gives ServerError, all leaving the table unchanged; otherwise the row is removed and `true` returned |
| Persistence.BaseRepository.Exists | src/ContactManagement.Infrastructure/Repositories/BaseRepository.cs:137-153 | success with `true` exactly when a row with the identifier exists and is live or deleted rows are included; a storage failure gives ServerError |
| Persistence.BaseRepository.SoftDelete | src/ContactManagement.Infrastructure/Repositories/BaseRepository.cs:155-187 | a missing identifier gives NotFound; an existing row is soft-deleted, an already deleted one left untouched, both answering `true`; a storage failure changes nothing |
| Persistence.BaseRepository.Restore | src/ContactManagement.Infrastructure/Repositories/BaseRepository.cs:189-212 | an identifier without a deleted row gives NotFound; otherwise the row is restored and `true` returned; a storage failure changes nothing |
| FundRepository.TrimmedQuery | src/ContactManagement.Infrastructure/Repositories/FundRepository.cs:22 | a missing query becomes the empty string and any other query is trimmed |
| FundRepository.ExistsByName | src/ContactManagement.Infrastructure/Repositories/FundRepository.cs:17-37 | without storage failure, success with `true` exactly when some live fund's trimmed name equals the trimmed query ignoring case; a storage failure gives ServerError |
| FundRepository.ExistsByNameDependsOnFoldedTrim | src/ContactManagement.Infrastructure/Repositories/FundRepository.cs:31-35 | two queries that agree after trimming and case folding get the same answer |
| FundRepository.ExistsByNameIgnoresPadding | src/ContactManagement.Infrastructure/Repositories/FundRepository.cs:22-35 | white space around the query makes no difference |
| FundRepository.LiveFundNameIsTaken | src/ContactManagement.Infrastructure/Repositories/FundRepository.cs:25-35 | the name of a live fund is found again, in any letter case and padding |
| FundRepository.BlankQueryMatchesNothing | src/ContactManagement.Infrastructure/Repositories/FundRepository.cs:22-35 | when every stored name is valid, a missing or blank query matches no fund |
| FundContactRepository.FindPair | src/ContactManagement.Infrastructure/Repositories/FundContactRepository.cs:19-20 | the first live association of the pair, and none exactly when the pair has no live association |
| FundContactRepository.GetByContactAndFundId | src/ContactManagement.Infrastructure/Repositories/FundContactRepository.cs:15-35 | success exactly when the pair has a live association, returning one; NotFound FundContact.NotFound otherwise; a storage failure gives ServerError |
| FundContactRepository.LiveOfFund | src/ContactManagement.Infrastructure/Repositories/FundContactRepository.cs:41-44 | exactly the live associations of the fund |
| FundContactRepository.LiveOfContact | src/ContactManagement.Infrastructure/Repositories/FundContactRepository.cs:59-62 | exactly the live associations of the contact |
| FundContactRepository.GetByFundId | src/ContactManagement.Infrastructure/Repositories/FundContactRepository.cs:37-53 | success with the fund's live associations, or ServerError on a storage failure |
| FundContactRepository.GetByContactId | src/ContactManagement.Infrastructure/Repositories/FundContactRepository.cs:55-71 | success with the contact's live associations, or ServerError on a storage failure |
| FundContactRepository.Exists | src/ContactManagement.Infrastructure/Repositories/FundContactRepository.cs:73-87 | success with `true` exactly when the pair has a live association; ServerError on a storage failure |
| FundContactRepository.ContactHasFundAssignments | src/ContactManagement.Infrastructure/Repositories/FundContactRepository.cs:115-127 | `true` exactly when some live association names the contact |
| FundContactRepository.HasAssignmentsIffListed | src/ContactManagement.Infrastructure/Repositories/FundContactRepository.cs:55-127 | the assignment check agrees with the listing by contact being non-empty |
| FundContactRepository.RemovedPair | src/ContactManagement.Infrastructure/Repositories/FundContactRepository.cs:93-102 | without a live association of the pair the table is unchanged; with one, exactly one row is removed and no row is added |
| FundContactRepository.RemovedPairRemovesThatRow | src/ContactManagement.Infrastructure/Repositories/FundContactRepository.cs:93-102 | with unique keys, removing the pair cuts out exactly the association found for it |
| FundContactRepository.DeletedPairIsGone | src/ContactManagement.Infrastructure/Repositories/FundContactRepository.cs:89-113 | when each pair has at most one live association, a delete leaves none for the pair and keeps that invariant |
| FundContactRepository.InsertPairKeepsInvariant | src/ContactManagement.Application/Features/FundContacts/Commands/AssignContactToFund/AssignContactToFundCommandHandler.cs:41-61 | appending a live association of a pair that has none keeps at most one live association per pair |
| FundContactRepository.DeleteOutcome | src/ContactManagement.Infrastructure/Repositories/FundContactRepository.cs:89-113 | a storage failure gives ServerError and no live association gives NotFound, both leaving the table; otherwise `true` and the pair's association removed |
| FundContactRepository.Delete | src/ContactManagement.Infrastructure/Repositories/FundContactRepository.cs:89-113 | the result and the new table are exactly those of `DeleteOutcome`, and keys stay unique |
| ContactCommands.Normalized | src/ContactManagement.Application/Features/Contacts/Commands/CreateContact/CreateContactCommandHandler.cs:40-46 | a blank optional input appears as absent in the DTO and any other input is returned as given |
| ContactCommands.CreateContact | src/ContactManagement.Application/Features/Contacts/Commands/CreateContact/CreateContactCommandHandler.cs:17-49 | the result, the new table and the next identifier are exactly those of `CreateContactOutcome` |
| ContactCommands.CreateContactRejectsInvalid | src/ContactManagement.Application/Features/Contacts/Commands/CreateContact/CreateContactCommandHandler.cs:21-29 | invalid input returns the validation error as BadRequest and touches neither the table nor the identifiers |
| ContactCommands.CreateContactAddFailure | src/ContactManagement.Application/Features/Contacts/Commands/CreateContact/CreateContactCommandHandler.cs:31-36 | a failing insertion is passed on as its ServerError and leaves the table unchanged |
| ContactCommands.CreateContactStoresContact | src/ContactManagement.Application/Features/Contacts/Commands/CreateContact/CreateContactCommandHandler.cs:31-48 | valid input with a fresh identifier adds exactly one row, which `GetById` then returns, keys stay unique, and the DTO holds the identifier, the name, the normalized e-mail and phone, and the creation time for both timestamps |
| ContactCommands.UpdateContact | src/ContactManagement.Application/Features/Contacts/Commands/UpdateContact/UpdateContactCommandHandler.cs:20-56 | the result and the new table are exactly those of `UpdateContactOutcome` |
| ContactCommands.UpdateContactFailureChangesNothing | src/ContactManagement.Application/Features/Contacts/Commands/UpdateContact/UpdateContactCommandHandler.cs:23-44 | every failure leaves the table unchanged; a missing or deleted contact is NotFound and an invalid request gives the validation error |
| ContactCommands.UpdateContactReplacesFields | src/ContactManagement.Application/Features/Contacts/Commands/UpdateContact/UpdateContactCommandHandler.cs:29-55 | a successful update keeps the identifier, creation time and deletion state, moves `UpdatedAt` to now, replaces all three fields, touches no other row, and the DTO shows the stored row |
| ContactCommands.DeleteContact | src/ContactManagement.Application/Features/Contacts/Commands/DeleteContact/DeleteContactCommandHandler.cs:21-41 | the result and the new contact table are exactly those of `DeleteContactOutcome`; the association table is only read |
| ContactCommands.DeleteContactOutcomes | src/ContactManagement.Application/Features/Contacts/Commands/DeleteContact/DeleteContactCommandHandler.cs:24-40 | the answer is a failure exactly when the existence check fails or the contact has a live assignment (Conflict CannotDelete); every success is `true`, even for a contact that is not stored; a missing contact leaves the table as it is and otherwise only the contact's own row can go; keys stay unique |
| ContactCommands.DeleteContactRemovesRow | src/ContactManagement.Application/Features/Contacts/Commands/DeleteContact/DeleteContactCommandHandler.cs:38 | a live contact with no live assignment is hard-deleted: no row keeps its identifier and every other row stays |
| ContactCommands.DeleteMissingContactSucceeds | src/ContactManagement.Application/Features/Contacts/Commands/DeleteContact/DeleteContactCommandHandler.cs:24-40 | as written, deleting a contact that is not stored answers `true` and changes nothing |
| ContactCommands.DeleteFailureReportedAsSuccess | src/ContactManagement.Application/Features/Contacts/Commands/DeleteContact/DeleteContactCommandHandler.cs:38-40 | as written, a delete whose save fails answers `true` while the contact stays stored |
| ContactCommands.DeleteContactCheckedAnswers | src/ContactManagement.Application/Features/Contacts/Commands/DeleteContact/DeleteContactCommandHandler.cs:21-41 | with the existence value and the delete's result checked: success exactly when no call fails and the contact is live and unassigned, and then its row is gone; a missing contact is NotFound Contact.NotFound; every failure leaves the table |
| FundCommands.CreateFund | src/ContactManagement.Application/Features/Funds/Commands/CreateFund/CreateFundCommandHandler.cs:17-54 | the result, the new table and the next identifier are exactly those of `CreateFundOutcome` |
| FundCommands.CreateFundChecksInOrder | src/ContactManagement.Application/Features/Funds/Commands/CreateFund/CreateFundCommandHandler.cs:21-43 | a failing name check is passed on, a taken name is Conflict, then an invalid name is BadRequest; every failure leaves the table unchanged and only a failed insertion has drawn an identifier |
| FundCommands.CreateFundRejectsBlankName | src/ContactManagement.Application/Features/Funds/Commands/CreateFund/CreateFundCommandHandler.cs:21-37 | a blank name is rejected with NameRequired when every stored name is valid |
| FundCommands.CreateFundStoresFund | src/ContactManagement.Application/Features/Funds/Commands/CreateFund/CreateFundCommandHandler.cs:39-53 | a new valid name with a fresh identifier adds exactly one live fund, keeps unique keys, fresh identifiers and valid names, is found again by `GetById`, and the DTO echoes the identifier, the verbatim name and the creation time for both timestamps |
| FundCommands.SecondCreateConflicts | src/ContactManagement.Application/Features/Funds/Commands/CreateFund/CreateFundCommandHandler.cs:21-31 | after a successful create, another create whose name agrees after trimming and case folding is Conflict and changes nothing |
| FundCommands.RunSnoc | src/ContactManagement.Application/Features/Funds/Commands/CreateMultipleFunds/CreateMultipleFundsCommandHandler.cs:30-67 | running the loop over one more name is one more step |
| FundCommands.AbortedRunStops | src/ContactManagement.Application/Features/Funds/Commands/CreateMultipleFunds/CreateMultipleFundsCommandHandler.cs:32-36 | once the batch is aborted, the remaining names are not looked at |
| FundCommands.StepIsCreateFund | src/ContactManagement.Application/Features/Funds/Commands/CreateMultipleFunds/CreateMultipleFundsCommandHandler.cs:32-56 | one iteration does what CreateFund does, except that only a failing name check aborts; a taken name, an invalid name or a failed insertion only skips the name |
| FundCommands.CreateBatchItem | src/ContactManagement.Application/Features/Funds/Commands/CreateMultipleFunds/CreateMultipleFundsCommandHandler.cs:32-66 | the table and identifiers after one item are those of `CreateFundOutcome`; the name check fails exactly on a storage failure, and a DTO is returned exactly when the fund was added |
| FundCommands.CreateBatch | src/ContactManagement.Application/Features/Funds/Commands/CreateMultipleFunds/CreateMultipleFundsCommandHandler.cs:28-67 | the loop's final state is `Run` over all of the names, through the invariant that the loop has run over the names seen so far; the stored table and next identifier are that state's |
| FundCommands.CreateMultipleFunds | src/ContactManagement.Application/Features/Funds/Commands/CreateMultipleFunds/CreateMultipleFundsCommandHandler.cs:18-76 | the result, the new table and the next identifier are exactly those of `CreateMultipleFundsOutcome`: the empty-list check, the loop, then the empty-result check |
| FundCommands.StepKeeps | src/ContactManagement.Application/Features/Funds/Commands/CreateMultipleFunds/CreateMultipleFundsCommandHandler.cs:32-66 | one step keeps the table invariants and either changes nothing or appends one live fund with the drawn identifier and the name as given, together with its DTO |
| FundCommands.RunKeeps | src/ContactManagement.Application/Features/Funds/Commands/CreateMultipleFunds/CreateMultipleFundsCommandHandler.cs:30-67 | the loop keeps the table invariants and the next identifier only grows |
| FundCommands.AppendGrows | src/ContactManagement.Application/Features/Funds/Commands/CreateMultipleFunds/CreateMultipleFundsCommandHandler.cs:51-66 | appending a live row together with its DTO keeps the added rows and the collected DTOs in one-to-one order |
| FundCommands.StepGrows | src/ContactManagement.Application/Features/Funds/Commands/CreateMultipleFunds/CreateMultipleFundsCommandHandler.cs:32-66 | one step only appends to the table, keeping one new live row per collected DTO |
| FundCommands.RunGrows | src/ContactManagement.Application/Features/Funds/Commands/CreateMultipleFunds/CreateMultipleFundsCommandHandler.cs:30-67 | the loop only appends to the table, and while running the added rows match the collected DTOs one to one, in order |
| FundCommands.RunNamesFollowInput | src/ContactManagement.Application/Features/Funds/Commands/CreateMultipleFunds/CreateMultipleFundsCommandHandler.cs:30-67 | a running loop has collected at most as many DTOs as names, carrying input names at strictly increasing input positions |
| FundCommands.CreateMultipleFundsAnswers | src/ContactManagement.Application/Features/Funds/Commands/CreateMultipleFunds/CreateMultipleFundsCommandHandler.cs:18-76 | every failure is ValidationError (422) or ServerError (500); an empty list is 422, and a 422 leaves the table unchanged; the table only grows and keeps unique keys, fresh identifiers and valid names; a success lists between one and as many DTOs as names, one per appended live row in order, carrying input names at increasing input positions |
| FundCommands.TakenNameIsSkipped | src/ContactManagement.Application/Features/Funds/Commands/CreateMultipleFunds/CreateMultipleFundsCommandHandler.cs:38-42 | a name matching a live fund, even one added earlier in the batch, is skipped without change |
| FundCommands.RepeatedNameInBatchCreatedOnce | src/ContactManagement.Application/Features/Funds/Commands/CreateMultipleFunds/CreateMultipleFundsCommandHandler.cs:30-51 | the same name twice in a batch, up to case and padding, creates one fund: the second copy is skipped |
| FundContactCommands.AssignContactToFund | src/ContactManagement.Application/Features/FundContacts/Commands/AssignContactToFund/AssignContactToFundCommandHandler.cs:22-82 | the result, the new association table and the next identifier are exactly those of `AssignOutcome` |
| FundContactCommands.InsertAssociation | src/ContactManagement.Application/Features/FundContacts/Commands/AssignContactToFund/AssignContactToFundCommandHandler.cs:53-81 | once both parties are found and the pair is unassigned, creating and inserting the association gives exactly the result, table and next identifier of `AssignInsert` |
| FundContactCommands.AssignInsertKeeps | src/ContactManagement.Application/Features/FundContacts/Commands/AssignContactToFund/AssignContactToFundCommandHandler.cs:53-81 | a failed creation or insertion leaves the table unchanged; a success appends the live association with the drawn identifier and advances it by one; inserting a pair that is not yet live keeps at most one live row per pair |
| FundContactCommands.AssignSucceeded | src/ContactManagement.Application/Features/FundContacts/Commands/AssignContactToFund/AssignContactToFundCommandHandler.cs:22-82 | a successful assignment saw no storage failure, found both parties live and the pair unassigned, appended exactly the new association and advanced the identifier by one |
| FundContactCommands.AssignChecksInOrder | src/ContactManagement.Application/Features/FundContacts/Commands/AssignContactToFund/AssignContactToFundCommandHandler.cs:26-51 | a missing contact is NotFound, then a missing fund, then a failing existence check is passed on, then an existing live association is Conflict AlreadyExists; none changes the table or draws an identifier |
| FundContactCommands.AssignKeepsInvariant | src/ContactManagement.Application/Features/FundContacts/Commands/AssignContactToFund/AssignContactToFundCommandHandler.cs:41-65 | a failed assignment leaves the table unchanged, a success only happens when the pair had no live association, and at most one live association per pair always holds afterwards |
| FundContactCommands.AssignStoresAssociation | src/ContactManagement.Application/Features/FundContacts/Commands/AssignContactToFund/AssignContactToFundCommandHandler.cs:53-81 | with both parties live, no live association and a fresh identifier, one live association of the pair is appended, the invariants hold, and the DTO carries its identifier, both identifiers, the contact and fund names and the creation time |
| FundContactCommands.AssignTwiceConflicts | src/ContactManagement.Application/Features/FundContacts/Commands/AssignContactToFund/AssignContactToFundCommandHandler.cs:41-51 | assigning the same pair again after a success is Conflict and changes nothing |
| FundContactCommands.RemoveContactFromFund | src/ContactManagement.Application/Features/FundContacts/Commands/RemoveContactFromFund/RemoveContactFromFundCommandHandler.cs:15-33 | the result and the new table are exactly those of `RemoveOutcome` |
| FundContactCommands.RemoveAnswers | src/ContactManagement.Application/Features/FundContacts/Commands/RemoveContactFromFund/RemoveContactFromFundCommandHandler.cs:17-32 | either storage failure is ServerError and no live association is NotFound, all leaving the table; success exactly when the pair has one and nothing fails, returning `true` with that association removed |
| FundContactCommands.RemoveDeletesPair | src/ContactManagement.Application/Features/FundContacts/Commands/RemoveContactFromFund/RemoveContactFromFundCommandHandler.cs:24-32 | a removal keeps unique keys and at most one live association per pair, and a success cuts out exactly the association found, leaving none for the pair |
| FundContactCommands.ReassignAfterRemove | src/ContactManagement.Application/Features/FundContacts/Commands/RemoveContactFromFund/RemoveContactFromFundCommandHandler.cs:24-32 | after a removal, assigning the same live contact and fund again succeeds: the conflict check passes |
| FundQueries.FundDtos | src/ContactManagement.Application/Features/Funds/Queries/GetAllFunds/GetAllFundsQueryHandler.cs:26-31 | one DTO per row, in the same order |
| FundQueries.GetFund | src/ContactManagement.Application/Features/Funds/Queries/GetFund/GetFundQueryHandler.cs:16-35 | success exactly when a live fund has the identifier, returning that fund's DTO; a storage failure gives ServerError and a missing or deleted fund NotFound |
| FundQueries.GetFundAfterCreate | src/ContactManagement.Application/Features/Funds/Queries/GetFund/GetFundQueryHandler.cs:20-34 | a fund just created is what the next lookup of its identifier returns |
| FundQueries.GetFundOfSoftDeleted | src/ContactManagement.Application/Features/Funds/Queries/GetFund/GetFundQueryHandler.cs:20-24 | a soft-deleted fund is NotFound |
| FundQueries.GetAllFunds | src/ContactManagement.Application/Features/Funds/Queries/GetAllFunds/GetAllFundsQueryHandler.cs:16-34 | a storage failure gives ServerError; otherwise the DTOs of the rows `GetAll` returns for the flag, in order |
| FundQueries.GetAllFundsLists | src/ContactManagement.Application/Features/Funds/Queries/GetAllFunds/GetAllFundsQueryHandler.cs:20-33 | with deleted funds included there is one DTO per row in order; otherwise every live fund is listed and nothing else; an empty table gives an empty list |
| FundContactQueries.ContactOf | src/ContactManagement.Infrastructure/Repositories/FundContactRepository.cs:41-44 | the loaded contact is a stored row with the association's contact identifier, whatever its state |
| FundContactQueries.ListItems | src/ContactManagement.Application/Features/FundContacts/Queries/GetContactsByFund/GetContactsByFundQueryHandler.cs:39-43 | one item per association, in order, each showing the linked contact |
| FundContactQueries.GetContactsByFund | src/ContactManagement.Application/Features/FundContacts/Queries/GetContactsByFund/GetContactsByFundQueryHandler.cs:18-46 | success exactly when neither storage call fails and the fund is live; a missing or deleted fund is NotFound and a storage failure ServerError; a success lists one item per live association of the fund, in order, each the list item of a stored contact with that association's contact identifier |
| FundContactQueries.EveryLinkedContactListed | src/ContactManagement.Application/Features/FundContacts/Queries/GetContactsByFund/GetContactsByFundQueryHandler.cs:30-45 | every live association of an existing fund is listed, even when its contact is soft-deleted |

## Left out

- Asynchrony, cancellation tokens, dependency injection, the mediator, controllers, logging and the web layer are thin glue and not modelled.
  Each handler is a sequential method.
- The object-relational mapping, migrations and the database are not modelled.
  A table is an ordered sequence of rows.
  The database's own unique and foreign-key constraints are not enforced.
  The partial unique index on live pairs is only an invariant that the lemmas carry.
- Exceptions are `Fault` parameters, one per repository call site.
  Their messages are free strings, and a duplicate primary key on insert is a fixed stand-in message.
  The exact exception text is not modelled.
- `Guid.NewGuid` is a counter and `DateTime.UtcNow` is a `now` parameter read once per handler call.
  The lemmas about fresh rows assume the table's identifiers are below the counter (`IdsBelow`).
- `Common.Result.FromResult`: stated for failures only, because every call site guards it with `IsFailure`.
  Re-typing a success, which the source would return with a default value, is not modelled.
- `Text.Lower`: folds ASCII letters only, where the source compares with `CurrentCultureIgnoreCase`.
  The regex `IgnoreCase` option is likewise ASCII-only in the model.
- `Text.DigitsOf`: keeps the ASCII digits only, where `char.IsDigit` also admits other Unicode decimal digits.
- The regular expressions' match timeout is not modelled: a match always completes.
- `FundContactRepository.ContactHasFundAssignments`: has no `Fault` parameter.
  The exception the source rethrows there escapes the handler unhandled, so `ContactCommands.DeleteContact` has no failure path for it.
- `FundContactRepository.Delete`: one `Fault` stands for both the lookup and the removal inside it.
- `FundContactQueries.GetContactsByFund`: requires every live association to name a stored contact (`Linked`).
  The source's eager load relies on the contact row being there.
- `FundCommands.CreateMultipleFunds`: a failed insertion leaves the table as it was.
  The change tracker keeping a failed entity for later saves in the same batch is not modelled.
- The service's written description gives the code `Fund.AlreadyExists` for a duplicate fund name.
  `DomainErrors.cs` does not declare it, although the create-fund handlers refer to it.
  The model takes it as the general conflict, `Fund.Conflict`, as the contact and association errors are built.
- The written description gives `FundContact.AlreadyExists` for a repeated assignment.
  The code builds `FundContact.Conflict`, and the model follows the code.
- The written description says a missing contact gives NotFound on delete.
  The code does not (see Findings), and `ContactCommands.DeleteContact` follows the code.

## Findings

| source | as written | input that shows it | evidently intended | confidence | as-written member | corrected member |
|---|---|---|---|---|---|---|
| src/ContactManagement.Application/Features/Contacts/Commands/DeleteContact/DeleteContactCommandHandler.cs:24-28 | only `IsFailure` of `ExistsAsync` is read, and `ExistsAsync` answers success with `false` for an unknown identifier | delete of an identifier with no live contact, no storage failure | NotFound `Contact.NotFound` | not executed; high | ContactCommands.DeleteMissingContactSucceeds | ContactCommands.DeleteContactCheckedAnswers |
| src/ContactManagement.Application/Features/Contacts/Commands/DeleteContact/DeleteContactCommandHandler.cs:38-40 | the result of `DeleteAsync` is discarded and `true` returned | delete of a live, unassigned contact whose save throws | the delete's failure passed on | not executed; high | ContactCommands.DeleteFailureReportedAsSuccess | ContactCommands.DeleteContactCheckedAnswers |

The corrected flow is `ContactCommands.DeleteContactCheckedOutcome`.
`ContactCommands.DeleteContact` keeps modelling the handler as written.
