/**
 * DomainErrors: the error codes and messages the domain layer reports.
 * `General.*` builders derive a code from an entity name; the per-entity
 * constants are either fixed errors or instances of the builders.
 */
module DomainErrors {
  import opened Common

  // ---- General ----

  function GeneralNotFound(entityName: string): (e: Error)
    ensures e.code == entityName + ".NotFound"
  {
    Error(entityName + ".NotFound",
          "The " + entityName + " with the specified identifier was not found.")
  }

  /** Built like GeneralNotFound, as the two builders are in the source. */
  function GeneralConflict(entityName: string): (e: Error)
    ensures e.code == entityName + ".Conflict"
  {
    Error(entityName + ".Conflict",
          "The " + entityName + " with the specified identifier already exists.")
  }

  /** The message embeds the storage exception's own message at its end. */
  function GeneralServerError(entityName: string, errorMessage: string): (e: Error)
    ensures e.code == entityName + ".ServerError"
    ensures |e.message| >= |errorMessage| && e.message[|e.message| - |errorMessage|..] == errorMessage
  {
    var prefix := "An unexpected error occurred while processing the request. ";
    assert (prefix + errorMessage)[|prefix|..] == errorMessage;
    Error(entityName + ".ServerError", prefix + errorMessage)
  }

  const GeneralValidationError := Error("General.ValidationError", "One or more validation errors occurred.")
  const GeneralUnauthorized := Error("General.Unauthorized", "You are not authorized to perform this action.")
  const GeneralForbidden := Error("General.Forbidden", "You do not have permission to perform this action.")

  // ---- Contact ----

  function ContactNotFound(): Error { GeneralNotFound("Contact") }
  const ContactNameRequired := Error("Contact.NameRequired", "The contact name is required.")
  const ContactNameTooLong := Error("Contact.NameTooLong", "The contact name exceeds the maximum allowed length.")
  const ContactInvalidEmail := Error("Contact.InvalidEmail", "The provided email address is not valid.")
  const ContactInvalidPhoneNumber := Error("Contact.InvalidPhoneNumber", "The provided phone number is not valid.")
  const ContactCannotDelete := Error("Contact.CannotDelete",
    "The contact cannot be deleted because it is assigned to one or more funds.")
  function ContactAlreadyExists(): Error { GeneralConflict("Contact") }

  // ---- Fund ----

  function FundNotFound(): Error { GeneralNotFound("Fund") }
  /** Referenced by the create-fund handler but not declared in the source; taken as the general conflict. */
  function FundAlreadyExists(): Error { GeneralConflict("Fund") }

  // ---- FundContact ----

  function FundContactNotFound(): Error { GeneralNotFound("FundContact") }
  function FundContactAlreadyExists(): Error { GeneralConflict("FundContact") }

  // ---- Properties ----

  /** A common suffix cancels. */
  lemma SuffixCancels(a: string, b: string, s: string)
    requires a + s == b + s
    ensures a == b
  {
    assert |a| == |b|;
    assert a == (a + s)[..|a|];
    assert b == (b + s)[..|b|];
  }

  /** The builders are injective in the entity name, so distinct entities get distinct codes. */
  lemma {:induction false} BuilderCodesInjective(a: string, b: string, m1: string, m2: string)
    ensures GeneralNotFound(a).code == GeneralNotFound(b).code ==> a == b
    ensures GeneralConflict(a).code == GeneralConflict(b).code ==> a == b
    ensures GeneralServerError(a, m1).code == GeneralServerError(b, m2).code ==> a == b
  {
    if GeneralNotFound(a).code == GeneralNotFound(b).code { SuffixCancels(a, b, ".NotFound"); }
    if GeneralConflict(a).code == GeneralConflict(b).code { SuffixCancels(a, b, ".Conflict"); }
    if GeneralServerError(a, m1).code == GeneralServerError(b, m2).code { SuffixCancels(a, b, ".ServerError"); }
  }

  /** The last character of a concatenation is the last character of its suffix. */
  lemma LastOfConcat(a: string, s: string)
    requires |s| > 0
    ensures (a + s)[|a + s| - 1] == s[|s| - 1]
  {
  }

  /** A not-found code never equals a conflict or server-error code, whatever the entity names. */
  lemma BuilderFamiliesDisjoint(a: string, b: string, m: string)
    ensures GeneralNotFound(a).code != GeneralConflict(b).code
    ensures GeneralNotFound(a).code != GeneralServerError(b, m).code
    ensures GeneralConflict(a).code != GeneralServerError(b, m).code
  {
    LastOfConcat(a, ".NotFound");
    LastOfConcat(b, ".Conflict");
    LastOfConcat(a, ".Conflict");
    LastOfConcat(b, ".ServerError");
  }

  /** The per-entity constants are the general builders applied to the entity's name. */
  lemma EntityErrorsAreBuilderInstances()
    ensures ContactNotFound() == GeneralNotFound("Contact")
    ensures FundNotFound() == GeneralNotFound("Fund")
    ensures FundContactNotFound() == GeneralNotFound("FundContact")
    ensures FundContactAlreadyExists() == GeneralConflict("FundContact")
    ensures ContactNotFound().code == "Contact.NotFound"
    ensures FundNotFound().code == "Fund.NotFound"
    ensures FundContactAlreadyExists().code == "FundContact.Conflict"
  {
  }

  /** The five Contact validation codes are pairwise distinct. */
  lemma ContactValidationCodesDistinct()
    ensures var codes := [ContactNameRequired.code, ContactNameTooLong.code, ContactInvalidEmail.code,
                          ContactInvalidPhoneNumber.code, ContactCannotDelete.code];
            forall i, j :: 0 <= i < j < |codes| ==> codes[i] != codes[j]
  {
  }
}
