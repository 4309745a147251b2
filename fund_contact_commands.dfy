/**
 * The association commands of ContactManagement.Application.Features.FundContacts:
 * assigning a contact to a fund and removing that assignment.
 *
 * As for the other commands, each handler is a method proved equal to an
 * outcome function on the tables' values, and the promises are lemmas about
 * that function.  The table of associations has no unique index on the pair,
 * so "at most one live association per pair" (`AtMostOneLivePair`) is an
 * invariant these two commands keep.
 */
module FundContactCommands {
  import opened Wrappers
  import opened Common
  import opened Kernel
  import opened Entities
  import opened Persistence
  import opened Dtos
  import opened FundContactRepository
  import DomainErrors

  // ---------------------------------------------------------------- assign

  /**
   * AssignContactToFundCommandHandler.Handle on values.  `contactEntity`,
   * `fundEntity` and `entityName` are the three repositories' entity names;
   * `id` is the identifier `FundContact.Create` would draw.
   */
  function AssignOutcome(contactEntity: string, fundEntity: string, entityName: string,
                         contactRows: seq<Row<ContactData>>, fundRows: seq<Row<FundData>>,
                         rows: seq<Row<FundContactData>>, id: Guid, now: Time, contactId: Guid, fundId: Guid,
                         contactFault: Fault, fundFault: Fault, existsFault: Fault, addFault: Fault)
    : Creation<FundContactDto, FundContactData>
  {
    var contactResult := GetById(contactEntity, contactRows, contactId, contactFault);
    if contactResult.IsFailure() then Creation(Result.FromResult(contactResult), rows, id)
    else
      var fundResult := GetById(fundEntity, fundRows, fundId, fundFault);
      if fundResult.IsFailure() then Creation(Result.FromResult(fundResult), rows, id)
      else
        var existsResult := Exists(rows, contactId, fundId, existsFault);
        if existsResult.IsFailure() then Creation(Result.FromResult(existsResult), rows, id)
        else if existsResult.value then Creation(Result.Conflict(DomainErrors.FundContactAlreadyExists()), rows, id)
        else AssignInsert(entityName, rows, id, now, contactId, fundId, contactResult.value, fundResult.value, addFault)
  }

  /** The second half of the handler, once both parties are found and the pair is free: create and insert. */
  function AssignInsert(entityName: string, rows: seq<Row<FundContactData>>, id: Guid, now: Time,
                        contactId: Guid, fundId: Guid, contact: Row<ContactData>, fund: Row<FundData>, addFault: Fault)
    : Creation<FundContactDto, FundContactData>
  {
    var fundContactResult := ValidateFundContact(contactId, fundId);
    if fundContactResult.IsFailure() then Creation(Result.FromResult(fundContactResult), rows, id)
    else
      var addResult := AddOutcome(entityName, rows, Row(Created(id, now), fundContactResult.value), addFault);
      if addResult.result.IsFailure() then Creation(Result.FromResult(addResult.result), addResult.rows, id + 1)
      else Creation(Result.Success(FundContactDtoOf(addResult.result.value, contact, fund)), addResult.rows, id + 1)
  }

  /** Creating and inserting a free pair keeps the invariant; a failure leaves the table. */
  lemma AssignInsertKeeps(entityName: string, rows: seq<Row<FundContactData>>, id: Guid, now: Time,
                          contactId: Guid, fundId: Guid, contact: Row<ContactData>, fund: Row<FundData>, addFault: Fault)
    ensures var o := AssignInsert(entityName, rows, id, now, contactId, fundId, contact, fund, addFault);
            && (o.result.IsFailure() ==> o.rows == rows)
            && (o.result.IsSuccess() ==>
                  o.rows == rows + [Row(Created(id, now), FundContactData(contactId, fundId))] && o.next == id + 1)
            && (AtMostOneLivePair(rows) && !HasLivePair(rows, contactId, fundId) ==> AtMostOneLivePair(o.rows))
  {
    var o := AssignInsert(entityName, rows, id, now, contactId, fundId, contact, fund, addFault);
    if o.result.IsSuccess() && AtMostOneLivePair(rows) && !HasLivePair(rows, contactId, fundId) {
      var row := Row(Created(id, now), FundContactData(contactId, fundId));
      assert o.rows == Inserted(rows, row);
      InsertPairKeepsInvariant(rows, row);
    }
  }

  method AssignContactToFund(contacts: BaseRepository<ContactData>, funds: BaseRepository<FundData>,
                             fundContacts: BaseRepository<FundContactData>, ids: IdSource, now: Time,
                             contactId: Guid, fundId: Guid,
                             contactFault: Fault, fundFault: Fault, existsFault: Fault, addFault: Fault)
    returns (r: Result<FundContactDto>)
    requires fundContacts.Valid() && ids.Valid()
    modifies fundContacts, ids
    ensures fundContacts.Valid() && ids.Valid()
    ensures Creation(r, fundContacts.rows, ids.next)
              == AssignOutcome(contacts.entityName, funds.entityName, fundContacts.entityName,
                               old(contacts.rows), old(funds.rows), old(fundContacts.rows), old(ids.next), now,
                               contactId, fundId, contactFault, fundFault, existsFault, addFault)
  {
    var contactResult := GetById(contacts.entityName, contacts.rows, contactId, contactFault);
    if contactResult.IsFailure() {
      return Result.FromResult(contactResult);
    }
    var fundResult := GetById(funds.entityName, funds.rows, fundId, fundFault);
    if fundResult.IsFailure() {
      return Result.FromResult(fundResult);
    }
    var existsResult := Exists(fundContacts.rows, contactId, fundId, existsFault);
    if existsResult.IsFailure() {
      return Result.FromResult(existsResult);
    }
    if existsResult.value {
      return Result.Conflict(DomainErrors.FundContactAlreadyExists());
    }
    r := InsertAssociation(fundContacts, ids, now, contactId, fundId, contactResult.value, fundResult.value, addFault);
  }

  /** The handler's create-and-insert steps, once both parties are found and the pair is free. */
  method InsertAssociation(fundContacts: BaseRepository<FundContactData>, ids: IdSource, now: Time,
                           contactId: Guid, fundId: Guid, contact: Row<ContactData>, fund: Row<FundData>, addFault: Fault)
    returns (r: Result<FundContactDto>)
    requires fundContacts.Valid() && ids.Valid()
    modifies fundContacts, ids
    ensures fundContacts.Valid() && ids.Valid()
    ensures Creation(r, fundContacts.rows, ids.next)
              == AssignInsert(fundContacts.entityName, old(fundContacts.rows), old(ids.next), now,
                              contactId, fundId, contact, fund, addFault)
  {
    var fundContactResult := FundContact.Create(ids, now, contactId, fundId);
    if fundContactResult.IsFailure() {
      return Result.FromResult(fundContactResult);
    }
    var fundContact := fundContactResult.value;
    var addResult := fundContacts.Add(Row(fundContact.base.State(), fundContact.Data()), addFault);
    if addResult.IsFailure() {
      return Result.FromResult(addResult);
    }
    r := Result.Success(FundContactDtoOf(addResult.value, contact, fund));
  }

  /**
   * The checks come in the handler's order: a missing contact, then a
   * missing fund, then an existing live association; each answers without
   * touching the table or drawing an identifier.
   */
  lemma AssignChecksInOrder(contactEntity: string, fundEntity: string, entityName: string,
                            contactRows: seq<Row<ContactData>>, fundRows: seq<Row<FundData>>,
                            rows: seq<Row<FundContactData>>, id: Guid, now: Time, contactId: Guid, fundId: Guid,
                            existsFault: Fault, addFault: Fault)
    ensures var o := AssignOutcome(contactEntity, fundEntity, entityName, contactRows, fundRows, rows, id, now,
                                   contactId, fundId, NoFault, NoFault, existsFault, addFault);
            && (!HasRow(contactRows, contactId, LiveOnly) ==>
                  o == Creation(Result.NotFound(NotFoundOf(contactEntity)), rows, id))
            && (HasRow(contactRows, contactId, LiveOnly) && !HasRow(fundRows, fundId, LiveOnly) ==>
                  o == Creation(Result.NotFound(NotFoundOf(fundEntity)), rows, id))
            && (HasRow(contactRows, contactId, LiveOnly) && HasRow(fundRows, fundId, LiveOnly) && existsFault.Throws? ==>
                  o == Creation(Result.InternalServerError(ServerError(existsFault.message)), rows, id))
            && (HasRow(contactRows, contactId, LiveOnly) && HasRow(fundRows, fundId, LiveOnly) &&
                existsFault.NoFault? && HasLivePair(rows, contactId, fundId) ==>
                  o == Creation(Result.Conflict(DomainErrors.FundContactAlreadyExists()), rows, id))
  {
  }

  /** Whatever happens, a failed assignment leaves the table as it was, and the invariant always holds afterwards. */
  lemma AssignKeepsInvariant(contactEntity: string, fundEntity: string, entityName: string,
                             contactRows: seq<Row<ContactData>>, fundRows: seq<Row<FundData>>,
                             rows: seq<Row<FundContactData>>, id: Guid, now: Time, contactId: Guid, fundId: Guid,
                             contactFault: Fault, fundFault: Fault, existsFault: Fault, addFault: Fault)
    requires AtMostOneLivePair(rows)
    ensures var o := AssignOutcome(contactEntity, fundEntity, entityName, contactRows, fundRows, rows, id, now,
                                   contactId, fundId, contactFault, fundFault, existsFault, addFault);
            && (o.result.IsFailure() ==> o.rows == rows)
            && (o.result.IsSuccess() ==> existsFault.NoFault? && !HasLivePair(rows, contactId, fundId))
            && AtMostOneLivePair(o.rows)
  {
    var contactResult := GetById(contactEntity, contactRows, contactId, contactFault);
    var fundResult := GetById(fundEntity, fundRows, fundId, fundFault);
    if contactResult.IsSuccess() && fundResult.IsSuccess() && existsFault.NoFault? && !HasLivePair(rows, contactId, fundId) {
      AssignInsertKeeps(entityName, rows, id, now, contactId, fundId, contactResult.value, fundResult.value, addFault);
    }
  }

  /**
   * With both parties present, no live association yet and a fresh
   * identifier, the assignment appends one live association of the pair and
   * answers with the names of the contact and the fund found.
   */
  lemma AssignStoresAssociation(contactEntity: string, fundEntity: string, entityName: string,
                                contactRows: seq<Row<ContactData>>, fundRows: seq<Row<FundData>>,
                                rows: seq<Row<FundContactData>>, id: Guid, now: Time, ci: nat, fi: nat)
    requires UniqueIds(contactRows) && ci < |contactRows| && !contactRows[ci].meta.isDeleted
    requires UniqueIds(fundRows) && fi < |fundRows| && !fundRows[fi].meta.isDeleted
    requires contactRows[ci].meta.id != EmptyGuid && fundRows[fi].meta.id != EmptyGuid
    requires UniqueIds(rows) && IdsBelow(rows, id) && AtMostOneLivePair(rows)
    requires !HasLivePair(rows, contactRows[ci].meta.id, fundRows[fi].meta.id)
    ensures var contactId := contactRows[ci].meta.id;
            var fundId := fundRows[fi].meta.id;
            var o := AssignOutcome(contactEntity, fundEntity, entityName, contactRows, fundRows, rows, id, now,
                                   contactId, fundId, NoFault, NoFault, NoFault, NoFault);
            && o.result.IsSuccess()
            && o.rows == rows + [Row(Created(id, now), FundContactData(contactId, fundId))]
            && o.next == id + 1
            && UniqueIds(o.rows) && IdsBelow(o.rows, o.next) && AtMostOneLivePair(o.rows)
            && HasLivePair(o.rows, contactId, fundId)
            && o.result.value == FundContactDto(id, contactId, fundId, contactRows[ci].data.name.value,
                                                fundRows[fi].data.name.value, now, Some(now))
  {
    var contactId := contactRows[ci].meta.id;
    var fundId := fundRows[fi].meta.id;
    GetByIdFindsRow(contactEntity, contactRows, ci);
    GetByIdFindsRow(fundEntity, fundRows, fi);
    var row := Row(Created(id, now), FundContactData(contactId, fundId));
    FreshIdIsFree(rows, row);
    var o := AssignOutcome(contactEntity, fundEntity, entityName, contactRows, fundRows, rows, id, now,
                           contactId, fundId, NoFault, NoFault, NoFault, NoFault);
    assert o.rows == Inserted(rows, row);
    InsertPairKeepsInvariant(rows, row);
    assert IsLivePair(o.rows[|rows|], contactId, fundId);
  }

  /** Assigning the same pair a second time is a conflict and changes nothing. */
  lemma AssignTwiceConflicts(contactEntity: string, fundEntity: string, entityName: string,
                             contactRows: seq<Row<ContactData>>, fundRows: seq<Row<FundData>>,
                             rows: seq<Row<FundContactData>>, id: Guid, now: Time, later: Time,
                             contactId: Guid, fundId: Guid, addFault: Fault)
    requires AssignOutcome(contactEntity, fundEntity, entityName, contactRows, fundRows, rows, id, now,
                           contactId, fundId, NoFault, NoFault, NoFault, addFault).result.IsSuccess()
    ensures var o1 := AssignOutcome(contactEntity, fundEntity, entityName, contactRows, fundRows, rows, id, now,
                                    contactId, fundId, NoFault, NoFault, NoFault, addFault);
            var o2 := AssignOutcome(contactEntity, fundEntity, entityName, contactRows, fundRows, o1.rows, o1.next,
                                    later, contactId, fundId, NoFault, NoFault, NoFault, NoFault);
            o2 == Creation(Result.Conflict(DomainErrors.FundContactAlreadyExists()), o1.rows, o1.next)
  {
    var o1 := AssignOutcome(contactEntity, fundEntity, entityName, contactRows, fundRows, rows, id, now,
                            contactId, fundId, NoFault, NoFault, NoFault, addFault);
    var row := Row(Created(id, now), FundContactData(contactId, fundId));
    AssignSucceeded(contactEntity, fundEntity, entityName, contactRows, fundRows, rows, id, now,
                    contactId, fundId, NoFault, NoFault, NoFault, addFault);
    assert (rows + [row])[|rows|] == row;
    AssignChecksInOrder(contactEntity, fundEntity, entityName, contactRows, fundRows, o1.rows, o1.next, later,
                        contactId, fundId, NoFault, NoFault);
  }

  /** A successful assignment found both parties live and appended the new association. */
  lemma AssignSucceeded(contactEntity: string, fundEntity: string, entityName: string,
                        contactRows: seq<Row<ContactData>>, fundRows: seq<Row<FundData>>,
                        rows: seq<Row<FundContactData>>, id: Guid, now: Time, contactId: Guid, fundId: Guid,
                        contactFault: Fault, fundFault: Fault, existsFault: Fault, addFault: Fault)
    requires AssignOutcome(contactEntity, fundEntity, entityName, contactRows, fundRows, rows, id, now,
                           contactId, fundId, contactFault, fundFault, existsFault, addFault).result.IsSuccess()
    ensures var o := AssignOutcome(contactEntity, fundEntity, entityName, contactRows, fundRows, rows, id, now,
                                   contactId, fundId, contactFault, fundFault, existsFault, addFault);
            && contactFault.NoFault? && fundFault.NoFault? && existsFault.NoFault?
            && HasRow(contactRows, contactId, LiveOnly) && HasRow(fundRows, fundId, LiveOnly)
            && !HasLivePair(rows, contactId, fundId)
            && o.rows == rows + [Row(Created(id, now), FundContactData(contactId, fundId))] && o.next == id + 1
  {
    var contactResult := GetById(contactEntity, contactRows, contactId, contactFault);
    var fundResult := GetById(fundEntity, fundRows, fundId, fundFault);
    AssignInsertKeeps(entityName, rows, id, now, contactId, fundId, contactResult.value, fundResult.value, addFault);
  }

  // ---------------------------------------------------------------- remove

  /**
   * RemoveContactFromFundCommandHandler.Handle on values: the handler looks
   * the association up, then `DeleteAsync` looks it up again and removes it.
   */
  function RemoveOutcome(rows: seq<Row<FundContactData>>, contactId: Guid, fundId: Guid,
                         lookupFault: Fault, deleteFault: Fault)
    : Outcome<bool, FundContactData>
  {
    var fundContactResult := GetByContactAndFundId(rows, contactId, fundId, lookupFault);
    if fundContactResult.IsFailure() then Outcome(Result.FromResult(fundContactResult), rows)
    else
      var deleteResult := DeleteOutcome(rows, contactId, fundId, deleteFault);
      if deleteResult.result.IsFailure() then Outcome(Result.FromResult(deleteResult.result), deleteResult.rows)
      else Outcome(Result.Success(true), deleteResult.rows)
  }

  method RemoveContactFromFund(fundContacts: BaseRepository<FundContactData>, contactId: Guid, fundId: Guid,
                               lookupFault: Fault, deleteFault: Fault)
    returns (r: Result<bool>)
    requires fundContacts.Valid()
    modifies fundContacts
    ensures fundContacts.Valid()
    ensures Outcome(r, fundContacts.rows) == RemoveOutcome(old(fundContacts.rows), contactId, fundId, lookupFault, deleteFault)
  {
    var fundContactResult := GetByContactAndFundId(fundContacts.rows, contactId, fundId, lookupFault);
    if fundContactResult.IsFailure() {
      return Result.FromResult(fundContactResult);
    }
    var deleteResult := Delete(fundContacts, contactId, fundId, deleteFault);
    if deleteResult.IsFailure() {
      return Result.FromResult(deleteResult);
    }
    r := Result.Success(true);
  }

  /**
   * The answers of a removal: a server error for either storage failure,
   * NotFound when the pair has no live association, and otherwise success;
   * only a success changes the table.
   */
  lemma RemoveAnswers(rows: seq<Row<FundContactData>>, contactId: Guid, fundId: Guid, lookupFault: Fault, deleteFault: Fault)
    ensures var o := RemoveOutcome(rows, contactId, fundId, lookupFault, deleteFault);
            && (lookupFault.Throws? ==> o == Outcome(Result.InternalServerError(ServerError(lookupFault.message)), rows))
            && (lookupFault.NoFault? && !HasLivePair(rows, contactId, fundId) ==>
                  o == Outcome(Result.NotFound(DomainErrors.FundContactNotFound()), rows))
            && (lookupFault.NoFault? && HasLivePair(rows, contactId, fundId) && deleteFault.Throws? ==>
                  o == Outcome(Result.InternalServerError(ServerError(deleteFault.message)), rows))
            && (o.result.IsSuccess() <==> lookupFault.NoFault? && deleteFault.NoFault? && HasLivePair(rows, contactId, fundId))
            && (o.result.IsSuccess() ==> o.result.value && o.rows == RemovedPair(rows, contactId, fundId))
            && (o.result.IsFailure() ==> o.rows == rows)
  {
  }

  /**
   * A successful removal deletes exactly the association found, leaves no
   * live association of the pair and keeps both table invariants.
   */
  lemma RemoveDeletesPair(rows: seq<Row<FundContactData>>, contactId: Guid, fundId: Guid, lookupFault: Fault, deleteFault: Fault)
    requires UniqueIds(rows) && AtMostOneLivePair(rows)
    ensures var o := RemoveOutcome(rows, contactId, fundId, lookupFault, deleteFault);
            && UniqueIds(o.rows) && AtMostOneLivePair(o.rows)
            && (o.result.IsSuccess() ==>
                  && !HasLivePair(o.rows, contactId, fundId)
                  && var k := FindPair(rows, contactId, fundId).value;
                     o.rows == rows[..k] + rows[k + 1..])
  {
    var o := RemoveOutcome(rows, contactId, fundId, lookupFault, deleteFault);
    if o.result.IsSuccess() {
      DeletedPairIsGone(rows, contactId, fundId);
      RemovedPairRemovesThatRow(rows, contactId, fundId);
    }
  }

  /** After a removal the pair can be assigned again: the conflict check passes. */
  lemma ReassignAfterRemove(contactEntity: string, fundEntity: string, entityName: string,
                            contactRows: seq<Row<ContactData>>, fundRows: seq<Row<FundData>>,
                            rows: seq<Row<FundContactData>>, id: Guid, now: Time, ci: nat, fi: nat)
    requires UniqueIds(contactRows) && ci < |contactRows| && !contactRows[ci].meta.isDeleted
    requires UniqueIds(fundRows) && fi < |fundRows| && !fundRows[fi].meta.isDeleted
    requires contactRows[ci].meta.id != EmptyGuid && fundRows[fi].meta.id != EmptyGuid
    requires UniqueIds(rows) && IdsBelow(rows, id) && AtMostOneLivePair(rows)
    ensures var contactId := contactRows[ci].meta.id;
            var fundId := fundRows[fi].meta.id;
            var removed := RemoveOutcome(rows, contactId, fundId, NoFault, NoFault);
            var o := AssignOutcome(contactEntity, fundEntity, entityName, contactRows, fundRows, removed.rows, id, now,
                                   contactId, fundId, NoFault, NoFault, NoFault, NoFault);
            && o.result.IsSuccess()
            && HasLivePair(o.rows, contactId, fundId)
            && AtMostOneLivePair(o.rows)
  {
    var contactId := contactRows[ci].meta.id;
    var fundId := fundRows[fi].meta.id;
    var removed := RemoveOutcome(rows, contactId, fundId, NoFault, NoFault);
    DeletedPairIsGone(rows, contactId, fundId);
    assert !HasLivePair(removed.rows, contactId, fundId);
    assert IdsBelow(removed.rows, id) by {
      if HasLivePair(rows, contactId, fundId) {
        var k := FindPair(rows, contactId, fundId).value;
        RemovedPairRemovesThatRow(rows, contactId, fundId);
        forall j | 0 <= j < |removed.rows| ensures removed.rows[j].meta.id < id {
          var j' := if j < k then j else j + 1;
          assert removed.rows[j] == rows[j'];
        }
      }
    }
    AssignStoresAssociation(contactEntity, fundEntity, entityName, contactRows, fundRows, removed.rows, id, now, ci, fi);
  }
}
