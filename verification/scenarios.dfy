/**
  The booking scenarios the use case's tests describe, stated as lemmas over
  one webinar with two seats.
 */
module BookSeatScenarios {
  import opened Entities
  import opened ParticipationRepository
  import opened BookSeat

  const webinarOne: WebinarId := "webinar-1"
  const webinar := Webinar("organizer-1", "Webinar Title", 2)
  const userOne := User("user-1", "user@example.com")
  const userTwo := User("user-2", "user2@example.com")
  const userThree := User("user-3", "user3@example.com")

  /** The state every test starts from: the webinar is stored, nothing is booked. */
  function Initial(): (s: State)
    ensures Valid(s)
  {
    var s := State(map[webinarOne := webinar], [], []);
    assert IndicesFor(s.participations, webinarOne) == {};
    s
  }

  /** Happy path: the first booking succeeds, the webinar lists exactly that
      user, and exactly one email, the organizer's notification, is sent. */
  lemma ScenarioHappyPath()
    ensures var r := Execute(Initial(), webinarOne, userOne);
      && r.result == Booked
      && FindByWebinarId(r.after.participations, webinarOne) == [Participation("user-1", webinarOne)]
      && r.after.outbox == [NewParticipantEmail(webinar, userOne)]
  {
    var s := Initial();
    assert !Registered(s.participations, webinarOne, userOne.id);
    SaveFindByWebinarId(s.participations, Participation("user-1", webinarOne), webinarOne);
  }

  /** The happy path's notification goes to the organizer and names the webinar. */
  lemma ScenarioEmailHeader()
    ensures NewParticipantEmail(webinar, userOne).to == "organizer-1"
    ensures NewParticipantEmail(webinar, userOne).subject == "New participant for webinar: Webinar Title"
  {
  }

  /** The happy path's notification names the new participant by email. */
  lemma ScenarioEmailBody()
    ensures NewParticipantEmail(webinar, userOne).body ==
      "A new participant, user@example.com, has registered for your webinar."
  {
    var greeting := BodyLead + userOne.email;
    assert greeting == "A new participant, user@example.com";
    assert NewParticipantEmail(webinar, userOne).body == greeting + BodyTail;
    BodyText(greeting, BodyTail);
  }

  /** The two halves of the happy path's email body, joined. */
  lemma BodyText(greeting: string, closing: string)
    requires greeting == "A new participant, user@example.com"
    requires closing == ", has registered for your webinar."
    ensures greeting + closing == "A new participant, user@example.com, has registered for your webinar."
  {
  }

  /** Not enough seats: with two seats, two distinct users get in and the
      third is turned away, leaving two participations. */
  lemma ScenarioNotEnoughSeats()
    ensures var r1 := Execute(Initial(), webinarOne, userOne);
      var r2 := Execute(r1.after, webinarOne, userTwo);
      var r3 := Execute(r2.after, webinarOne, userThree);
      && r1.result == Booked && r2.result == Booked
      && r3.result == WebinarNotEnoughSeats
      && |FindByWebinarId(r3.after.participations, webinarOne)| == 2
  {
    var s := Initial();
    var p1 := Participation("user-1", webinarOne);
    var p2 := Participation("user-2", webinarOne);
    assert !Registered(s.participations, webinarOne, userOne.id);
    var r1 := Execute(s, webinarOne, userOne);
    assert r1.result == Booked;
    var s1 := r1.after;
    assert s1.participations == [p1] && s1.webinars == s.webinars;
    assert TakenSeats(s1.participations, webinarOne) == 1 by {
      SaveFindByWebinarId([], p1, webinarOne);
      CountIsTakenSeats(s1.participations, webinarOne);
    }
    assert !Registered(s1.participations, webinarOne, userTwo.id) by {
      assert !Matches(s1.participations[0], webinarOne, userTwo.id);
    }
    var r2 := Execute(s1, webinarOne, userTwo);
    assert r2.result == Booked;
    var s2 := r2.after;
    assert s2.participations == [p1, p2] && s2.webinars == s.webinars;
    assert TakenSeats(s2.participations, webinarOne) == 2 by {
      SaveFindByWebinarId([p1], p2, webinarOne);
      SaveFindByWebinarId([], p1, webinarOne);
      CountIsTakenSeats(s2.participations, webinarOne);
    }
    assert !Registered(s2.participations, webinarOne, userThree.id) by {
      assert !Matches(s2.participations[0], webinarOne, userThree.id);
      assert !Matches(s2.participations[1], webinarOne, userThree.id);
    }
    var r3 := Execute(s2, webinarOne, userThree);
    assert r3.result == WebinarNotEnoughSeats;
    CountIsTakenSeats(r3.after.participations, webinarOne);
  }

  /** Already registered: booking the same user twice fails the second time,
      keeps one participation and sends no second email. */
  lemma ScenarioAlreadyRegistered()
    ensures var r1 := Execute(Initial(), webinarOne, userOne);
      var r2 := Execute(r1.after, webinarOne, userOne);
      && r1.result == Booked
      && r2.result == UserAlreadyRegistered
      && |FindByWebinarId(r2.after.participations, webinarOne)| == 1
      && |r2.after.outbox| == 1
  {
    var s := Initial();
    assert !Registered(s.participations, webinarOne, userOne.id);
    var r1 := Execute(s, webinarOne, userOne);
    SaveFindByWebinarId(s.participations, Participation("user-1", webinarOne), webinarOne);
    assert Matches(r1.after.participations[0], webinarOne, userOne.id);
  }

  /** Unknown webinar: a booking for an id the store does not hold fails and
      changes nothing. */
  lemma ScenarioUnknownWebinar(webinarId: WebinarId, user: User)
    requires webinarId != webinarOne
    ensures Execute(Initial(), webinarId, user) == Step(WebinarNotFound, Initial())
  {
  }
}
