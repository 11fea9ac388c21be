/** Identifiers. The service only ever compares ids, so they are modelled as opaque numbers. */
module Ids {
  type UserId = nat
  type GroupId = nat
  type PostId = nat
  type CommentId = nat
}
