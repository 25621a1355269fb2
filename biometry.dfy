/**
 * Value types of the biometry daemon's domain: the identity of an application,
 * the numeric identity of a user, and the free-form reason attached to an
 * identification request.
 */
module Biometry {

  /** The identity of a calling or targeted application; compared by its string form. */
  datatype Application = Application(id: string) {
    function AsString(): string { id }
  }

  /** The human principal an operation runs for, given by a numeric id. */
  datatype User = User(id: nat)

  /** The justification attached to an identification or verification request. */
  datatype Reason = Reason(text: string)
}
