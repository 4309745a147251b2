/**
 * The entities of ContactManagement.Domain.Entities.
 *
 * Each entity is a class over the `Entity` base (held as `base`), with the
 * fields the source gives private setters.  The validation that `Create` and
 * `Update` share is a function returning the validated payload; the payload
 * datatypes are also what the repositories store.
 */
module Entities {
  import opened Wrappers
  import opened Common
  import opened Kernel
  import opened Text
  import opened ValueObjects
  import DomainErrors

  /** The raw string behind an optional value object. */
  function RawEmail(e: Option<Email>): Option<string> {
    if e.Some? then Some(e.value.value) else None
  }

  function RawPhone(p: Option<PhoneNumber>): Option<string> {
    if p.Some? then Some(p.value.value) else None
  }

  /** The stored fields of a contact. */
  datatype ContactData = ContactData(name: Name, email: Option<Email>, phoneNumber: Option<PhoneNumber>) {
    predicate Valid() {
      && name.Valid()
      && (email.Some? ==> email.value.Valid())
      && (phoneNumber.Some? ==> phoneNumber.value.Valid())
    }
  }

  /**
   * The checks of Contact.Create and Contact.Update, in order: name, then
   * e-mail, then phone number; the first failure is returned as it is.
   */
  function ValidateContact(name: string, email: Option<string>, phoneNumber: Option<string>): (r: Result<ContactData>)
    ensures r.IsSuccess() <==>
              Name.Create(Some(name)).IsSuccess() && Email.Create(email).IsSuccess() && PhoneNumber.Create(phoneNumber).IsSuccess()
    ensures r.IsSuccess() ==> r.value.Valid() && r.value.name.value == name
    ensures r.IsSuccess() ==> (r.value.email == None <==> IsNullOrWhiteSpace(email))
    ensures r.IsSuccess() && r.value.email != None ==> r.value.email.value.value == email.value
    ensures r.IsSuccess() ==> (r.value.phoneNumber == None <==> IsNullOrWhiteSpace(phoneNumber))
    ensures r.IsSuccess() && r.value.phoneNumber != None ==> r.value.phoneNumber.value.value == phoneNumber.value
    ensures r.IsFailure() ==> r.StatusCode() == HttpStatusCode.BadRequest
    ensures Name.Create(Some(name)).IsFailure() ==> r.ErrorOf() == Name.Create(Some(name)).ErrorOf()
    ensures Name.Create(Some(name)).IsSuccess() && Email.Create(email).IsFailure() ==>
              r.ErrorOf() == Some(DomainErrors.ContactInvalidEmail)
    ensures Name.Create(Some(name)).IsSuccess() && Email.Create(email).IsSuccess() && PhoneNumber.Create(phoneNumber).IsFailure() ==>
              r.ErrorOf() == Some(DomainErrors.ContactInvalidPhoneNumber)
  {
    var nameResult := Name.Create(Some(name));
    if nameResult.IsFailure() then Result.FromResult(nameResult)
    else
      var emailResult := Email.Create(email);
      if emailResult.IsFailure() then Result.FromResult(emailResult)
      else
        var phoneNumberResult := PhoneNumber.Create(phoneNumber);
        if phoneNumberResult.IsFailure() then Result.FromResult(phoneNumberResult)
        else Result.Success(ContactData(nameResult.value, emailResult.value, phoneNumberResult.value))
  }

  /** Validation accepts every valid payload's raw strings and gives the payload back. */
  lemma ContactValidationRoundTrip(d: ContactData)
    requires d.Valid()
    ensures ValidateContact(d.name.value, RawEmail(d.email), RawPhone(d.phoneNumber)) == Result.Success(d)
  {
    NameCreateRoundTrip(d.name);
    if d.email.Some? { EmailCreateRoundTrip(d.email.value); }
    if d.phoneNumber.Some? { PhoneNumberCreateRoundTrip(d.phoneNumber.value); }
  }

  class Contact {
    const base: Entity
    var name: Name
    var email: Option<Email>
    var phoneNumber: Option<PhoneNumber>

    function Data(): ContactData
      reads this
    {
      ContactData(name, email, phoneNumber)
    }

    /** `new Contact { ... }`: a new entity carrying validated fields. */
    constructor (id: Guid, now: Time, d: ContactData)
      requires id != EmptyGuid
      ensures base.State() == Created(id, now) && Data() == d
      ensures fresh(base)
    {
      base := new Entity(id, now);
      name := d.name;
      email := d.email;
      phoneNumber := d.phoneNumber;
    }

    /** Materialization of a stored contact. */
    constructor Load(s: EntityState, d: ContactData)
      ensures base.State() == s && Data() == d
      ensures fresh(base)
    {
      base := new Entity.Load(s);
      name := d.name;
      email := d.email;
      phoneNumber := d.phoneNumber;
    }

    /** Contact.Create: a fresh identifier is drawn only when validation succeeds. */
    static method Create(ids: IdSource, now: Time, name: string, email: Option<string>, phoneNumber: Option<string>)
      returns (r: Result<Contact>)
      requires ids.Valid()
      modifies ids
      ensures ids.Valid()
      ensures var v := ValidateContact(name, email, phoneNumber);
              && r.IsSuccess() == v.IsSuccess()
              && (v.IsFailure() ==> r == Result.FromResult(v) && ids.next == old(ids.next))
              && (v.IsSuccess() ==>
                    && fresh(r.value) && fresh(r.value.base)
                    && r.value.Data() == v.value
                    && r.value.base.State() == Created(old(ids.next), now)
                    && ids.next == old(ids.next) + 1)
    {
      var v := ValidateContact(name, email, phoneNumber);
      if v.IsFailure() {
        return Result.FromResult(v);
      }
      var id := ids.NewGuid();
      var contact := new Contact(id, now, v.value);
      r := Result.Success(contact);
    }

    /**
     * Contact.Update: all three fields are replaced together, or none is.
     * The timestamps are not touched here (the repository's update moves them).
     */
    method Update(name: string, email: Option<string>, phoneNumber: Option<string>) returns (r: Result<Contact>)
      modifies this
      ensures var v := ValidateContact(name, email, phoneNumber);
              && (v.IsSuccess() ==> r == Result.Success(this) && Data() == v.value)
              && (v.IsFailure() ==> r == Result.FromResult(v) && Data() == old(Data()))
    {
      var v := ValidateContact(name, email, phoneNumber);
      if v.IsFailure() {
        return Result.FromResult(v);
      }
      this.name := v.value.name;
      this.email := v.value.email;
      this.phoneNumber := v.value.phoneNumber;
      r := Result.Success(this);
    }

    /** Contact.CanDelete: the association check is commented out, so deletion is always allowed. */
    function CanDelete(): (r: Result<bool>)
      ensures r.IsSuccess() && r.value
    {
      Result.Success(true)
    }
  }

  /** The stored fields of a fund. */
  datatype FundData = FundData(name: Name) {
    predicate Valid() {
      name.Valid()
    }
  }

  /** The check of Fund.Create and Fund.Update: the name alone. */
  function ValidateFund(name: string): (r: Result<FundData>)
    ensures r.IsSuccess() <==> !IsBlank(name) && Utf16Length(name) <= MaxNameLength
    ensures r.IsSuccess() ==> r.value.Valid() && r.value.name.value == name
    ensures r.IsFailure() ==> r.ErrorOf() == Name.Create(Some(name)).ErrorOf() && r.StatusCode() == HttpStatusCode.BadRequest
  {
    var nameResult := Name.Create(Some(name));
    if nameResult.IsFailure() then Result.FromResult(nameResult)
    else Result.Success(FundData(nameResult.value))
  }

  /** Validation accepts every valid fund name and gives the payload back. */
  lemma FundValidationRoundTrip(d: FundData)
    requires d.Valid()
    ensures ValidateFund(d.name.value) == Result.Success(d)
  {
    NameCreateRoundTrip(d.name);
  }

  class Fund {
    const base: Entity
    var name: Name

    function Data(): FundData
      reads this
    {
      FundData(name)
    }

    constructor (id: Guid, now: Time, d: FundData)
      requires id != EmptyGuid
      ensures base.State() == Created(id, now) && Data() == d
      ensures fresh(base)
    {
      base := new Entity(id, now);
      name := d.name;
    }

    constructor Load(s: EntityState, d: FundData)
      ensures base.State() == s && Data() == d
      ensures fresh(base)
    {
      base := new Entity.Load(s);
      name := d.name;
    }

    /** Fund.Create: a fresh identifier is drawn only when the name is valid. */
    static method Create(ids: IdSource, now: Time, name: string) returns (r: Result<Fund>)
      requires ids.Valid()
      modifies ids
      ensures ids.Valid()
      ensures var v := ValidateFund(name);
              && r.IsSuccess() == v.IsSuccess()
              && (v.IsFailure() ==> r == Result.FromResult(v) && ids.next == old(ids.next))
              && (v.IsSuccess() ==>
                    && fresh(r.value) && fresh(r.value.base)
                    && r.value.Data() == v.value
                    && r.value.base.State() == Created(old(ids.next), now)
                    && ids.next == old(ids.next) + 1)
    {
      var v := ValidateFund(name);
      if v.IsFailure() {
        return Result.FromResult(v);
      }
      var id := ids.NewGuid();
      var fund := new Fund(id, now, v.value);
      r := Result.Success(fund);
    }

    /** Fund.Update: the name is replaced only when it is valid. */
    method Update(name: string) returns (r: Result<Fund>)
      modifies this
      ensures var v := ValidateFund(name);
              && (v.IsSuccess() ==> r == Result.Success(this) && Data() == v.value)
              && (v.IsFailure() ==> r == Result.FromResult(v) && Data() == old(Data()))
    {
      var v := ValidateFund(name);
      if v.IsFailure() {
        return Result.FromResult(v);
      }
      this.name := v.value.name;
      r := Result.Success(this);
    }

    /** Fund.CanDelete: as Contact.CanDelete, the association check is commented out, so deletion is always allowed. */
    function CanDelete(): (r: Result<bool>)
      ensures r.IsSuccess() && r.value
    {
      Result.Success(true)
    }
  }

  /** The stored fields of a contact-fund association. */
  datatype FundContactData = FundContactData(contactId: Guid, fundId: Guid)

  /** The checks of FundContact.Create: the contact identifier first, then the fund's. */
  function ValidateFundContact(contactId: Guid, fundId: Guid): (r: Result<FundContactData>)
    ensures r.IsSuccess() <==> contactId != EmptyGuid && fundId != EmptyGuid
    ensures r.IsSuccess() ==> r.value == FundContactData(contactId, fundId)
    ensures contactId == EmptyGuid ==> r == Result.NotFound(DomainErrors.ContactNotFound())
    ensures contactId != EmptyGuid && fundId == EmptyGuid ==> r == Result.NotFound(DomainErrors.FundNotFound())
  {
    if contactId == EmptyGuid then Result.NotFound(DomainErrors.ContactNotFound())
    else if fundId == EmptyGuid then Result.NotFound(DomainErrors.FundNotFound())
    else Result.Success(FundContactData(contactId, fundId))
  }

  class FundContact {
    const base: Entity
    const contactId: Guid
    const fundId: Guid

    function Data(): FundContactData {
      FundContactData(contactId, fundId)
    }

    constructor (id: Guid, now: Time, d: FundContactData)
      requires id != EmptyGuid
      ensures base.State() == Created(id, now) && Data() == d
      ensures fresh(base)
    {
      base := new Entity(id, now);
      contactId := d.contactId;
      fundId := d.fundId;
    }

    /** FundContact.Create: a fresh identifier is drawn only when both identifiers are set. */
    static method Create(ids: IdSource, now: Time, contactId: Guid, fundId: Guid) returns (r: Result<FundContact>)
      requires ids.Valid()
      modifies ids
      ensures ids.Valid()
      ensures var v := ValidateFundContact(contactId, fundId);
              && r.IsSuccess() == v.IsSuccess()
              && (v.IsFailure() ==> r == Result.FromResult(v) && ids.next == old(ids.next))
              && (v.IsSuccess() ==>
                    && fresh(r.value) && fresh(r.value.base)
                    && r.value.Data() == v.value
                    && r.value.base.State() == Created(old(ids.next), now)
                    && ids.next == old(ids.next) + 1)
    {
      var v := ValidateFundContact(contactId, fundId);
      if v.IsFailure() {
        return Result.FromResult(v);
      }
      var id := ids.NewGuid();
      var fundContact := new FundContact(id, now, v.value);
      r := Result.Success(fundContact);
    }
  }
}
