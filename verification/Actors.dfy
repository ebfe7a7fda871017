/** Who makes a request (util.Actor and the roles of constants/roles.go). */
module Actors {
  import opened Prelude

  datatype Role = Admin | PkiOperator | ServiceOwner | SecurityReviewer | Auditor

  datatype Actor = Actor(userId: Id, role: Role, team: string)

  /** Administrators and PKI operators may act on everything. */
  predicate ManagesAll(actor: Actor) {
    actor.role == Admin || actor.role == PkiOperator
  }
}
