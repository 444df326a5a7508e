/**
  The entities the seat-booking rule reads and writes, reduced to the fields
  the rule actually looks at.
 */
module Entities {

  type UserId = string
  type WebinarId = string

  /** A user as the booking rule sees it: an identity and a contact address. */
  datatype User = User(id: UserId, email: string)

  /** A webinar as the booking rule sees it. `seats` is the capacity; nothing
      forces it to be positive. */
  datatype Webinar = Webinar(organizerId: UserId, title: string, seats: int)

  /** One booked seat: the user who holds it and the webinar it is for. */
  datatype Participation = Participation(userId: UserId, webinarId: WebinarId)

  /** A message handed to the mailer. */
  datatype Email = Email(to: string, subject: string, body: string)
}
