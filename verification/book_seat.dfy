/**
  The seat-booking use case: one admission decision taken atomically over the
  webinar store, the participation repository and the mailer's outbox.
 */
module BookSeat {
  import opened Entities
  import opened ParticipationRepository

  /** How a booking ends. The three failures are the exceptions `execute`
      throws; each leaves the state as it was. */
  datatype BookingResult = Booked | WebinarNotFound | UserAlreadyRegistered | WebinarNotEnoughSeats

  /** Everything a booking reads or writes: the webinars by id (read only),
      the participation list and the emails handed to the mailer so far. */
  datatype State = State(webinars: map<WebinarId, Webinar>, participations: Database, outbox: seq<Email>)

  datatype Step = Step(result: BookingResult, after: State)

  /** One booking request: the webinar and the already-resolved user. */
  datatype Request = Request(webinarId: WebinarId, user: User)

  /** The fixed text around the webinar title and the participant's address
      in the organizer's notification. */
  const SubjectLead := "New participant for webinar: "
  const BodyLead := "A new participant, "
  const BodyTail := ", has registered for your webinar."

  /** The notification sent to the organizer when `user` books onto `webinar`:
      it is addressed to the organizer, its subject is the fixed lead followed
      by the title, and its body quotes the participant's address between the
      fixed lead and tail. */
  function NewParticipantEmail(webinar: Webinar, user: User): (e: Email)
    ensures e.to == webinar.organizerId
    ensures |e.subject| == |SubjectLead| + |webinar.title|
    ensures e.subject[..|SubjectLead|] == SubjectLead
    ensures e.subject[|SubjectLead|..] == webinar.title
    ensures |e.body| == |BodyLead| + |user.email| + |BodyTail|
    ensures e.body[..|BodyLead|] == BodyLead
    ensures e.body[|BodyLead|..|BodyLead| + |user.email|] == user.email
    ensures e.body[|BodyLead| + |user.email|..] == BodyTail
  {
    Email(webinar.organizerId, SubjectLead + webinar.title, BodyLead + user.email + BodyTail)
  }

  /** `BookSeat.execute`: look the webinar up, reject a repeat booking, then a
      full webinar, and otherwise save the participation and mail the
      organizer. The outcome is decided by the state before the call alone. */
  function Execute(s: State, webinarId: WebinarId, user: User): (r: Step)
    ensures r.result == WebinarNotFound <==> webinarId !in s.webinars
    ensures r.result == UserAlreadyRegistered <==>
      webinarId in s.webinars && Registered(s.participations, webinarId, user.id)
    ensures r.result == WebinarNotEnoughSeats <==>
      webinarId in s.webinars && !Registered(s.participations, webinarId, user.id) &&
      TakenSeats(s.participations, webinarId) >= s.webinars[webinarId].seats
    ensures r.result == Booked <==>
      webinarId in s.webinars && !Registered(s.participations, webinarId, user.id) &&
      TakenSeats(s.participations, webinarId) < s.webinars[webinarId].seats
    ensures r.result != Booked ==> r.after == s
    ensures r.result == Booked ==>
      && r.after.webinars == s.webinars
      && r.after.participations == s.participations + [Participation(user.id, webinarId)]
      && r.after.outbox == s.outbox + [NewParticipantEmail(s.webinars[webinarId], user)]
  {
    if webinarId !in s.webinars then Step(WebinarNotFound, s)
    else
      var webinar := s.webinars[webinarId];
      if FindByWebinarIdAndUserId(s.participations, webinarId, user.id).Some? then
        Step(UserAlreadyRegistered, s)
      else
        var participants := FindByWebinarId(s.participations, webinarId);
        CountIsTakenSeats(s.participations, webinarId);
        var remainingSeats := webinar.seats - |participants|;
        if remainingSeats <= 0 then Step(WebinarNotEnoughSeats, s)
        else
          var participations := Save(s.participations, Participation(user.id, webinarId));
          Step(Booked, s.(participations := participations, outbox := s.outbox + [NewParticipantEmail(webinar, user)]))
  }

  /** Capacity: no webinar holds more participations than it has seats. */
  ghost predicate WithinCapacity(s: State)
  {
    forall w :: w in s.webinars ==> TakenSeats(s.participations, w) <= s.webinars[w].seats
  }

  /** The state invariant: every webinar is within its capacity and no user
      holds two seats at one webinar. */
  ghost predicate Valid(s: State)
  {
    WithinCapacity(s) && Unique(s.participations)
  }

  /** A booking keeps every webinar within its capacity. */
  lemma ExecutePreservesCapacity(s: State, webinarId: WebinarId, user: User)
    requires WithinCapacity(s)
    ensures WithinCapacity(Execute(s, webinarId, user).after)
  {
    var r := Execute(s, webinarId, user);
    if r.result == Booked {
      var p := Participation(user.id, webinarId);
      forall w | w in r.after.webinars
        ensures TakenSeats(r.after.participations, w) <= r.after.webinars[w].seats
      {
        SaveTakenSeats(s.participations, p, w);
      }
    }
  }

  /** A booking never books a user twice onto one webinar. */
  lemma ExecutePreservesUniqueness(s: State, webinarId: WebinarId, user: User)
    requires Unique(s.participations)
    ensures Unique(Execute(s, webinarId, user).after.participations)
  {
    var r := Execute(s, webinarId, user);
    if r.result == Booked {
      SaveUniqueIff(s.participations, Participation(user.id, webinarId));
    }
  }

  /** The duplicate check comes first: a registered user asking again for a
      full webinar is told they are registered, not that it is full. */
  lemma AlreadyRegisteredBeforeFull(s: State, webinarId: WebinarId, user: User)
    requires webinarId in s.webinars
    requires Registered(s.participations, webinarId, user.id)
    requires TakenSeats(s.participations, webinarId) >= s.webinars[webinarId].seats
    ensures Execute(s, webinarId, user).result == UserAlreadyRegistered
  {
  }

  /** The outcome of a booking depends only on the requested webinar's record
      and on the participations listed for it: other webinars' bookings and
      the outbox play no part. */
  lemma OutcomeIsLocal(s1: State, s2: State, webinarId: WebinarId, user: User)
    requires webinarId in s1.webinars <==> webinarId in s2.webinars
    requires webinarId in s1.webinars ==> s1.webinars[webinarId] == s2.webinars[webinarId]
    requires FindByWebinarId(s1.participations, webinarId) == FindByWebinarId(s2.participations, webinarId)
    ensures Execute(s1, webinarId, user).result == Execute(s2, webinarId, user).result
  {
    RegisteredIffListed(s1.participations, webinarId, user.id);
    RegisteredIffListed(s2.participations, webinarId, user.id);
    CountIsTakenSeats(s1.participations, webinarId);
    CountIsTakenSeats(s2.participations, webinarId);
  }

  /** The state after serving `requests` one after the other. */
  function Run(s: State, requests: seq<Request>): (r: State)
    ensures r.webinars == s.webinars
    ensures |s.participations| <= |r.participations|
    ensures r.participations[..|s.participations|] == s.participations
    decreases |requests|
  {
    if |requests| == 0 then s
    else Run(Execute(s, requests[0].webinarId, requests[0].user).after, requests[1..])
  }

  /** Capacity and uniqueness hold after any sequence of bookings that starts
      from a state where they hold. */
  lemma {:induction false} RunPreservesValid(s: State, requests: seq<Request>)
    requires Valid(s)
    ensures Valid(Run(s, requests))
    decreases |requests|
  {
    if |requests| > 0 {
      var q := requests[0];
      ExecutePreservesCapacity(s, q.webinarId, q.user);
      ExecutePreservesUniqueness(s, q.webinarId, q.user);
      RunPreservesValid(Execute(s, q.webinarId, q.user).after, requests[1..]);
    }
  }

  /** Once a user has booked a seat, every later request by a user with the
      same id for that webinar, after any other bookings, is rejected as a
      repeat. */
  lemma BookedStaysRegistered(s: State, webinarId: WebinarId, user: User, requests: seq<Request>, again: User)
    requires Execute(s, webinarId, user).result == Booked
    requires again.id == user.id
    ensures Execute(Run(Execute(s, webinarId, user).after, requests), webinarId, again).result == UserAlreadyRegistered
  {
    var after := Execute(s, webinarId, user).after;
    var later := Run(after, requests);
    var i := |s.participations|;
    assert after.participations[i] == Participation(user.id, webinarId);
    assert later.participations[..|after.participations|] == after.participations;
    assert later.participations[i] == after.participations[i];
    assert Matches(later.participations[i], webinarId, again.id);
  }
}
