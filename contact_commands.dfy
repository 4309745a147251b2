/**
 * The contact commands of ContactManagement.Application.Features.Contacts:
 * create, update and delete.
 *
 * Each handler is a method over the repositories it uses, proved equal to an
 * outcome function on the tables' values; the properties the handlers
 * promise are lemmas about those functions.  Every repository call that can
 * throw takes its own `Fault`.
 */
module ContactCommands {
  import opened Wrappers
  import opened Common
  import opened Kernel
  import opened Text
  import opened ValueObjects
  import opened Entities
  import opened Persistence
  import opened Dtos
  import FundContactRepository
  import DomainErrors

  /** What a DTO's optional field holds for a request's optional field: blank input becomes absent. */
  function Normalized(s: Option<string>): (r: Option<string>)
    ensures r.None? <==> IsNullOrWhiteSpace(s)
    ensures r.Some? ==> r == s
  {
    if IsNullOrWhiteSpace(s) then None else s
  }

  // ---------------------------------------------------------------- create

  /** CreateContactCommandHandler.Handle on values; `id` is the identifier `Contact.Create` would draw. */
  function CreateContactOutcome(entityName: string, rows: seq<Row<ContactData>>, id: Guid, now: Time,
                                name: string, email: Option<string>, phoneNumber: Option<string>, addFault: Fault)
    : Creation<ContactDto, ContactData>
  {
    var contactResult := ValidateContact(name, email, phoneNumber);
    if contactResult.IsFailure() then Creation(Result.FromResult(contactResult), rows, id)
    else
      var addResult := AddOutcome(entityName, rows, Row(Created(id, now), contactResult.value), addFault);
      if addResult.result.IsFailure() then Creation(Result.FromResult(addResult.result), addResult.rows, id + 1)
      else Creation(Result.Success(ContactDtoOf(addResult.result.value)), addResult.rows, id + 1)
  }

  method CreateContact(contacts: BaseRepository<ContactData>, ids: IdSource, now: Time,
                       name: string, email: Option<string>, phoneNumber: Option<string>, addFault: Fault)
    returns (r: Result<ContactDto>)
    requires contacts.Valid() && ids.Valid()
    modifies contacts, ids
    ensures contacts.Valid() && ids.Valid()
    ensures Creation(r, contacts.rows, ids.next)
              == CreateContactOutcome(contacts.entityName, old(contacts.rows), old(ids.next), now, name, email, phoneNumber, addFault)
  {
    var contactResult := Contact.Create(ids, now, name, email, phoneNumber);
    if contactResult.IsFailure() {
      return Result.FromResult(contactResult);
    }
    var contact := contactResult.value;
    var addResult := contacts.Add(Row(contact.base.State(), contact.Data()), addFault);
    if addResult.IsFailure() {
      return Result.FromResult(addResult);
    }
    r := Result.Success(ContactDtoOf(addResult.value));
  }

  /** Invalid input is answered with the validation error and touches neither the table nor the identifiers. */
  lemma CreateContactRejectsInvalid(entityName: string, rows: seq<Row<ContactData>>, id: Guid, now: Time,
                                    name: string, email: Option<string>, phoneNumber: Option<string>, addFault: Fault)
    requires ValidateContact(name, email, phoneNumber).IsFailure()
    ensures var o := CreateContactOutcome(entityName, rows, id, now, name, email, phoneNumber, addFault);
            && o.result.IsFailure() && o.rows == rows && o.next == id
            && o.result.ErrorOf() == ValidateContact(name, email, phoneNumber).ErrorOf()
            && o.result.StatusCode() == HttpStatusCode.BadRequest
  {
  }

  /** A failure of the insertion is passed on unchanged and leaves the table as it was. */
  lemma CreateContactAddFailure(entityName: string, rows: seq<Row<ContactData>>, id: Guid, now: Time,
                                name: string, email: Option<string>, phoneNumber: Option<string>, message: string)
    requires ValidateContact(name, email, phoneNumber).IsSuccess()
    ensures var o := CreateContactOutcome(entityName, rows, id, now, name, email, phoneNumber, Throws(message));
            && o.result == Result.InternalServerError(DomainErrors.GeneralServerError(entityName, message))
            && o.rows == rows
  {
  }

  /**
   * Valid input with a fresh identifier adds exactly one row, which `GetById`
   * then returns, and the DTO echoes what was stored.
   */
  lemma CreateContactStoresContact(entityName: string, rows: seq<Row<ContactData>>, id: Guid, now: Time,
                                   name: string, email: Option<string>, phoneNumber: Option<string>)
    requires UniqueIds(rows) && IdsBelow(rows, id)
    requires ValidateContact(name, email, phoneNumber).IsSuccess()
    ensures var o := CreateContactOutcome(entityName, rows, id, now, name, email, phoneNumber, NoFault);
            && o.result.IsSuccess()
            && o.rows == rows + [Row(Created(id, now), ValidateContact(name, email, phoneNumber).value)]
            && UniqueIds(o.rows) && IdsBelow(o.rows, o.next)
            && GetById(entityName, o.rows, id, NoFault) == Result.Success(o.rows[|rows|])
            && o.result.value == ContactDto(id, name, Normalized(email), Normalized(phoneNumber), now, Some(now))
  {
    var v := ValidateContact(name, email, phoneNumber);
    var row := Row(Created(id, now), v.value);
    FreshIdIsFree(rows, row);
    var o := CreateContactOutcome(entityName, rows, id, now, name, email, phoneNumber, NoFault);
    assert o.rows == Inserted(rows, row);
    GetByIdFindsRow(entityName, o.rows, |rows|);
  }

  // ---------------------------------------------------------------- update

  /** UpdateContactCommandHandler.Handle on values. */
  function UpdateContactOutcome(entityName: string, rows: seq<Row<ContactData>>, id: Guid, now: Time,
                                name: string, email: Option<string>, phoneNumber: Option<string>,
                                getFault: Fault, updateFault: Fault)
    : Outcome<ContactDto, ContactData>
  {
    var contactResult := GetById(entityName, rows, id, getFault);
    if contactResult.IsFailure() then Outcome(Result.FromResult(contactResult), rows)
    else
      var contact := contactResult.value;
      var updateResult := ValidateContact(name, email, phoneNumber);
      if updateResult.IsFailure() then Outcome(Result.FromResult(updateResult), rows)
      else
        var saved := Row(Touched(contact.meta, now), updateResult.value);
        if updateFault.Throws? then
          Outcome(Result.InternalServerError(DomainErrors.GeneralServerError(entityName, updateFault.message)), rows)
        else Outcome(Result.Success(ContactDtoOf(saved)), Replaced(rows, saved))
  }

  method UpdateContact(contacts: BaseRepository<ContactData>, id: Guid, now: Time,
                       name: string, email: Option<string>, phoneNumber: Option<string>,
                       getFault: Fault, updateFault: Fault)
    returns (r: Result<ContactDto>)
    requires contacts.Valid()
    modifies contacts
    ensures contacts.Valid()
    ensures Outcome(r, contacts.rows)
              == UpdateContactOutcome(contacts.entityName, old(contacts.rows), id, now, name, email, phoneNumber, getFault, updateFault)
  {
    var contactResult := GetById(contacts.entityName, contacts.rows, id, getFault);
    if contactResult.IsFailure() {
      return Result.FromResult(contactResult);
    }
    var stored := contactResult.value;
    var contact := new Contact.Load(stored.meta, stored.data);
    var updateResult := contact.Update(name, email, phoneNumber);
    if updateResult.IsFailure() {
      return Result.FromResult(updateResult);
    }
    assert HasRow(contacts.rows, contact.base.id, AnyState);
    var savedResult := contacts.Update(contact.base, contact.Data(), now, updateFault);
    if savedResult.IsFailure() {
      return Result.FromResult(savedResult);
    }
    r := Result.Success(ContactDtoOf(savedResult.value));
  }

  /** Whatever fails, the table is left as it was; a missing or deleted contact is NotFound. */
  lemma UpdateContactFailureChangesNothing(entityName: string, rows: seq<Row<ContactData>>, id: Guid, now: Time,
                                           name: string, email: Option<string>, phoneNumber: Option<string>,
                                           getFault: Fault, updateFault: Fault)
    requires UniqueIds(rows)
    ensures var o := UpdateContactOutcome(entityName, rows, id, now, name, email, phoneNumber, getFault, updateFault);
            && UniqueIds(o.rows)
            && (o.result.IsFailure() ==> o.rows == rows)
            && (getFault.NoFault? && !HasRow(rows, id, LiveOnly) ==> o.result == Result.NotFound(NotFoundOf(entityName)))
            && (getFault.NoFault? && HasRow(rows, id, LiveOnly) && ValidateContact(name, email, phoneNumber).IsFailure() ==>
                  o.result.ErrorOf() == ValidateContact(name, email, phoneNumber).ErrorOf())
  {
  }

  /**
   * A successful update keeps the identifier, the creation time and the
   * deletion state, moves `UpdatedAt` to `now`, replaces all three fields
   * (an omitted e-mail or phone number is cleared) and touches no other row.
   */
  lemma UpdateContactReplacesFields(entityName: string, rows: seq<Row<ContactData>>, i: nat, now: Time,
                                    name: string, email: Option<string>, phoneNumber: Option<string>)
    requires UniqueIds(rows) && i < |rows| && !rows[i].meta.isDeleted
    requires ValidateContact(name, email, phoneNumber).IsSuccess()
    ensures var id := rows[i].meta.id;
            var o := UpdateContactOutcome(entityName, rows, id, now, name, email, phoneNumber, NoFault, NoFault);
            && o.result.IsSuccess()
            && |o.rows| == |rows|
            && (forall j :: 0 <= j < |rows| && j != i ==> o.rows[j] == rows[j])
            && o.rows[i] == Row(Touched(rows[i].meta, now), ValidateContact(name, email, phoneNumber).value)
            && GetById(entityName, o.rows, id, NoFault) == Result.Success(o.rows[i])
            && o.result.value
                 == ContactDto(id, name, Normalized(email), Normalized(phoneNumber), rows[i].meta.createdAt, Some(now))
  {
    var id := rows[i].meta.id;
    GetByIdFindsRow(entityName, rows, i);
    FindUnique(rows, i, AnyState);
    var o := UpdateContactOutcome(entityName, rows, id, now, name, email, phoneNumber, NoFault, NoFault);
    assert !o.rows[i].meta.isDeleted;
    GetByIdFindsRow(entityName, o.rows, i);
  }

  // ---------------------------------------------------------------- delete

  /** DeleteContactCommandHandler.Handle on values: `DeleteAsync`'s own result is discarded. */
  function DeleteContactOutcome(entityName: string, rows: seq<Row<ContactData>>, assignments: seq<Row<FundContactData>>,
                                id: Guid, existsFault: Fault, lookupFault: Fault, saveFault: Fault)
    : Outcome<bool, ContactData>
  {
    if existsFault.Throws? then
      Outcome(Result.InternalServerError(DomainErrors.GeneralServerError(entityName, existsFault.message)), rows)
    else if FundContactRepository.HasAssignments(assignments, id) then
      Outcome(Result.Conflict(DomainErrors.ContactCannotDelete), rows)
    else if lookupFault.NoFault? && saveFault.NoFault? then Outcome(Result.Success(true), Removed(rows, id))
    else Outcome(Result.Success(true), rows)
  }

  method DeleteContact(contacts: BaseRepository<ContactData>, fundContacts: BaseRepository<FundContactData>,
                       id: Guid, existsFault: Fault, lookupFault: Fault, saveFault: Fault)
    returns (r: Result<bool>)
    requires contacts.Valid()
    modifies contacts
    ensures contacts.Valid()
    ensures Outcome(r, contacts.rows)
              == DeleteContactOutcome(contacts.entityName, old(contacts.rows), old(fundContacts.rows), id,
                                      existsFault, lookupFault, saveFault)
  {
    var contactResult := contacts.Exists(id, false, existsFault);
    if contactResult.IsFailure() {
      return Result.FromResult(contactResult);
    }
    var hasAssignments := FundContactRepository.ContactHasFundAssignments(fundContacts, id);
    if hasAssignments {
      return Result.Conflict(DomainErrors.ContactCannotDelete);
    }
    var deleteResult := contacts.Delete(id, lookupFault, saveFault);
    r := Result.Success(true);
  }

  /**
   * Only a failure of the existence check or a live assignment stops the
   * deletion; otherwise the answer is `Success(true)` whether or not a row
   * was removed, and the only row that can go is the contact's own.
   */
  lemma DeleteContactOutcomes(entityName: string, rows: seq<Row<ContactData>>, assignments: seq<Row<FundContactData>>,
                              id: Guid, existsFault: Fault, lookupFault: Fault, saveFault: Fault)
    requires UniqueIds(rows)
    ensures var o := DeleteContactOutcome(entityName, rows, assignments, id, existsFault, lookupFault, saveFault);
            && UniqueIds(o.rows)
            && (o.result.IsFailure() <==> existsFault.Throws? || FundContactRepository.HasAssignments(assignments, id))
            && (o.result.IsSuccess() ==> o.result.value)
            && (o.rows == rows || o.rows == Removed(rows, id))
            && (!HasRow(rows, id, LiveOnly) ==> o.rows == rows)
            && (existsFault.NoFault? && FundContactRepository.HasAssignments(assignments, id) ==>
                  o.result == Result.Conflict(DomainErrors.ContactCannotDelete) && o.rows == rows)
  {
  }

  /** A live contact with no live assignment is hard-deleted when no storage call fails. */
  lemma DeleteContactRemovesRow(entityName: string, rows: seq<Row<ContactData>>, assignments: seq<Row<FundContactData>>,
                                id: Guid)
    requires UniqueIds(rows) && HasRow(rows, id, LiveOnly)
    requires !FundContactRepository.HasAssignments(assignments, id)
    ensures var o := DeleteContactOutcome(entityName, rows, assignments, id, NoFault, NoFault, NoFault);
            && o.result == Result.Success(true)
            && !HasRow(o.rows, id, AnyState)
            && |o.rows| == |rows| - 1
            && (forall j :: 0 <= j < |rows| && rows[j].meta.id != id ==> rows[j] in o.rows)
  {
    RemovedRowIsGone(rows, id);
    var k := Find(rows, id, LiveOnly).value;
    var o := DeleteContactOutcome(entityName, rows, assignments, id, NoFault, NoFault, NoFault);
    forall j | 0 <= j < |rows| && rows[j].meta.id != id ensures rows[j] in o.rows {
      assert j != k;
      if j < k {
        assert o.rows[j] == rows[j];
      } else {
        assert o.rows[j - 1] == rows[j];
      }
    }
  }

  // ------------------------------------------- delete, as evidently intended

  /**
   * As written, the handler reads only `IsFailure` of the existence check,
   * which is a success with `false` for a missing contact, and drops the
   * result of `DeleteAsync`: deleting an unknown contact answers `true`.
   */
  lemma DeleteMissingContactSucceeds(entityName: string, rows: seq<Row<ContactData>>,
                                     assignments: seq<Row<FundContactData>>, id: Guid)
    requires !HasRow(rows, id, LiveOnly)
    requires !FundContactRepository.HasAssignments(assignments, id)
    ensures var o := DeleteContactOutcome(entityName, rows, assignments, id, NoFault, NoFault, NoFault);
            o.result == Result.Success(true) && o.rows == rows
  {
  }

  /** As written, a delete whose save fails also answers `true`, with the contact still stored. */
  lemma DeleteFailureReportedAsSuccess(entityName: string, rows: seq<Row<ContactData>>,
                                       assignments: seq<Row<FundContactData>>, id: Guid, message: string)
    requires HasRow(rows, id, LiveOnly)
    requires !FundContactRepository.HasAssignments(assignments, id)
    ensures var o := DeleteContactOutcome(entityName, rows, assignments, id, NoFault, NoFault, Throws(message));
            o.result == Result.Success(true) && o.rows == rows && HasRow(o.rows, id, LiveOnly)
  {
  }

  /**
   * The delete flow with the existence check's value and the delete's result
   * both taken into account: a missing contact is NotFound and a failing
   * delete is passed on.
   */
  function DeleteContactCheckedOutcome(entityName: string, rows: seq<Row<ContactData>>,
                                       assignments: seq<Row<FundContactData>>,
                                       id: Guid, existsFault: Fault, lookupFault: Fault, saveFault: Fault)
    : Outcome<bool, ContactData>
  {
    if existsFault.Throws? then
      Outcome(Result.InternalServerError(DomainErrors.GeneralServerError(entityName, existsFault.message)), rows)
    else if !HasRow(rows, id, LiveOnly) then
      Outcome(Result.NotFound(DomainErrors.ContactNotFound()), rows)
    else if FundContactRepository.HasAssignments(assignments, id) then
      Outcome(Result.Conflict(DomainErrors.ContactCannotDelete), rows)
    else if lookupFault.Throws? then
      Outcome(Result.BadRequest(DomainErrors.GeneralServerError(entityName, lookupFault.message)), rows)
    else if saveFault.Throws? then
      Outcome(Result.InternalServerError(DomainErrors.GeneralServerError(entityName, saveFault.message)), rows)
    else Outcome(Result.Success(true), Removed(rows, id))
  }

  /**
   * With the checks in place, `true` means the contact is gone: success
   * exactly when no call fails, the contact is live and unassigned, and then
   * its row is removed; every failure leaves the table unchanged.
   */
  lemma DeleteContactCheckedAnswers(entityName: string, rows: seq<Row<ContactData>>,
                                    assignments: seq<Row<FundContactData>>,
                                    id: Guid, existsFault: Fault, lookupFault: Fault, saveFault: Fault)
    requires UniqueIds(rows)
    ensures var o := DeleteContactCheckedOutcome(entityName, rows, assignments, id, existsFault, lookupFault, saveFault);
            && UniqueIds(o.rows)
            && (o.result.IsSuccess() <==>
                  && existsFault.NoFault? && lookupFault.NoFault? && saveFault.NoFault?
                  && HasRow(rows, id, LiveOnly) && !FundContactRepository.HasAssignments(assignments, id))
            && (o.result.IsSuccess() ==> o.result.value && !HasRow(o.rows, id, AnyState) && |o.rows| == |rows| - 1)
            && (o.result.IsFailure() ==> o.rows == rows)
            && (existsFault.NoFault? && !HasRow(rows, id, LiveOnly) ==>
                  o.result == Result.NotFound(DomainErrors.ContactNotFound()))
  {
    var o := DeleteContactCheckedOutcome(entityName, rows, assignments, id, existsFault, lookupFault, saveFault);
    if o.result.IsSuccess() {
      RemovedRowIsGone(rows, id);
    }
  }
}
