# Webinar seat booking, modelled in Dafny

This project models the seat-booking rule of the webinar module. `BookSeat.execute`
takes a webinar id and a user and goes through four steps:

1. It looks the webinar up.
2. It rejects a user who already holds a participation for that webinar.
3. It rejects the booking when no seat is left.
4. Otherwise it appends a participation to the ledger and sends one email to the organizer.

The model also covers the in-memory participation repository that the rule reads and appends to.

Each call is modelled as one atomic, pure state transition:

- `Entities` (`entities.dfy`) holds the records the rule looks at: `User` (id, email),
  `Webinar` (organizer id, title, seats), `Participation` (user id, webinar id) and `Email`.
- `ParticipationRepository` (`participation_repository.dfy`) models the repository's list.
  The list is a `seq<Participation>` in insertion order. The repository's three operations are
  `FindByWebinarId`, `FindByWebinarIdAndUserId` and `Save`. The module also defines ghost
  reference notions that do not depend on those queries: `Registered` (some position matches
  the pair), `TakenSeats` (the number of positions booked onto a webinar) and `Unique` (no pair
  occurs twice).
- `BookSeat` (`book_seat.dfy`) defines `Execute`. It takes a `State` and returns a `Step`:
  - `State` holds the webinars by id, the participation list and the mailer's outbox.
  - `Step` holds the outcome and the new state.
  - The outcome is `Booked`, `WebinarNotFound`, `UserAlreadyRegistered` or `WebinarNotEnoughSeats`.
    The three failure outcomes stand for the exceptions the source throws, and each leaves the
    state unchanged.

  The module also states the capacity and uniqueness invariants, proves that `Execute` and any
  run of bookings preserve them, and proves that a booking is permanent.
- `BookSeatScenarios` (`scenarios.dfy`) restates the use case's test scenarios as lemmas. They
  use one webinar with two seats.

## Model

| member | source | states |
|---|---|---|
| `ParticipationRepository.FindByWebinarId` | src/webinars/adapters/participation-repository.in-memory.ts:8-10 | every returned entry is for the requested webinar, and every entry for that webinar comes back as often as it occurs in the list |
| `ParticipationRepository.FindByWebinarIdAppend` | src/webinars/adapters/participation-repository.in-memory.ts:8-10 | the query over two lists joined is the two queries joined: the result keeps insertion order |
| `ParticipationRepository.FindFrom` | src/webinars/adapters/participation-repository.in-memory.ts:14-16 | the forward scan from a position finds nothing exactly when no later entry matches both ids; a hit matches both ids and no entry between the start and the hit matches |
| `ParticipationRepository.FindByWebinarIdAndUserId` | src/webinars/adapters/participation-repository.in-memory.ts:13-18 | null exactly when the user is not registered for the webinar; otherwise the result matches both ids and is the first matching entry of the list |
| `ParticipationRepository.Save` | src/webinars/adapters/participation-repository.in-memory.ts:21-23 | the list grows by one, earlier entries keep their positions and the new entry is last |
| `ParticipationRepository.SaveFindByWebinarId` | src/webinars/adapters/participation-repository.in-memory.ts:8-23 | after a save, the saved webinar's query gains the new entry at the end; every other webinar's query is unchanged |
| `ParticipationRepository.SaveThenFound` | src/webinars/adapters/participation-repository.in-memory.ts:13-23 | after a save, the lookup by the saved pair does not return null. The contract says the lookup returns the saved participation itself. That holds only because a participation here is just its two ids: in the source, `find` returns the earlier object when one already matches |
| `ParticipationRepository.CountIsTakenSeats` | src/webinars/use-cases/book-seat.ts:43-44 | the length of the query's result equals the number of list positions booked onto the webinar |
| `ParticipationRepository.SaveTakenSeats` | src/webinars/adapters/participation-repository.in-memory.ts:21-23 | a save takes one more seat for the saved webinar and leaves every other webinar's count unchanged |
| `ParticipationRepository.SaveUniqueIff` | src/webinars/adapters/participation-repository.in-memory.ts:21-23 | save checks nothing: a duplicate-free list stays duplicate-free if and only if the saved pair was not already present |
| `ParticipationRepository.RegisteredIffListed` | src/webinars/adapters/participation-repository.in-memory.ts:8-18 | the pair lookup and the per-webinar query agree on whether a user is registered |
| `BookSeat.Execute` | src/webinars/use-cases/book-seat.ts:26-68 | each outcome holds if and only if its condition on the prior state holds: webinar missing; user registered; seats taken at least the capacity; otherwise booked. A failure leaves the state unchanged. A success appends exactly `Participation(user.id, webinarId)` and exactly one organizer email, and leaves the webinars unchanged |
| `BookSeat.NewParticipantEmail` | src/webinars/use-cases/book-seat.ts:59-63 | for every webinar and user, the email goes to the organizer. The subject is `New participant for webinar: ` followed by the title. The body is `A new participant, `, then the participant's address, then `, has registered for your webinar.` Each part is stated by its length and by slices at its exact positions |
| `BookSeat.ExecutePreservesCapacity` | src/webinars/use-cases/book-seat.ts:43-56 | if no webinar holds more participations than it has seats, this still holds after a booking |
| `BookSeat.ExecutePreservesUniqueness` | src/webinars/use-cases/book-seat.ts:34-56 | if no (webinar, user) pair is duplicated, none is duplicated after a booking |
| `BookSeat.AlreadyRegisteredBeforeFull` | src/webinars/use-cases/book-seat.ts:34-48 | a registered user asking again for a full webinar gets the already-registered outcome, not the no-seats outcome |
| `BookSeat.OutcomeIsLocal` | src/webinars/use-cases/book-seat.ts:28-48 | the outcome depends only on the requested webinar's record and on the participations listed for it |
| `BookSeat.Run` | src/webinars/use-cases/book-seat.ts:51-56 | over any sequence of bookings the webinars are unchanged and the old participation list is a prefix of the new one (append-only) |
| `BookSeat.RunPreservesValid` | src/webinars/use-cases/book-seat.ts:34-56 | capacity and uniqueness hold after any sequence of bookings that starts from a state where they hold |
| `BookSeat.BookedStaysRegistered` | src/webinars/use-cases/book-seat.ts:34-40 | after a successful booking and any later bookings, a request by a user with the same id for the same webinar is rejected as already registered |
| `BookSeatScenarios.Initial` | src/webinars/use-cases/book-seat.test.ts:25-51 | the test fixture (one webinar with two seats, no participations) satisfies both invariants |
| `BookSeatScenarios.ScenarioHappyPath` | src/webinars/use-cases/book-seat.test.ts:54-80 | the first booking succeeds, the webinar then lists exactly that user, and exactly one email (the organizer notification) is in the outbox |
| `BookSeatScenarios.ScenarioEmailHeader` | src/webinars/use-cases/book-seat.test.ts:75-76 | the notification goes to `organizer-1` with subject `New participant for webinar: Webinar Title` |
| `BookSeatScenarios.ScenarioEmailBody` | src/webinars/use-cases/book-seat.test.ts:77-79 | the notification body is `A new participant, user@example.com, has registered for your webinar.` |
| `BookSeatScenarios.ScenarioNotEnoughSeats` | src/webinars/use-cases/book-seat.test.ts:83-117 | with two seats, two distinct users are booked, the third is refused for lack of seats, and two participations remain |
| `BookSeatScenarios.ScenarioAlreadyRegistered` | src/webinars/use-cases/book-seat.test.ts:121-137 | booking the same user twice fails the second time, leaves one participation and one email |
| `BookSeatScenarios.ScenarioUnknownWebinar` | src/webinars/use-cases/book-seat.ts:28-31 | a booking for a webinar id the store does not hold fails as not found and changes nothing |

## Left out

- Asynchrony and concurrency: the model treats every `execute` call as atomic. The source has
  no lock and no conditional append, so two concurrent calls could race between the checks and
  the save. The model does not represent that window.
- Webinar lookup: the webinar repository's `findById` is not part of this model. The webinar
  store is a read-only map from webinar id to webinar.
- User repository: `src/users/adapters/user-repository.in-memory.ts` is injected into the use
  case but never called. The user is passed in already resolved.
- Mail delivery: `IMailer.send` is modelled as appending the email to an outbox sequence. A
  failing send is not modelled. In the source, the awaited send comes after the save, so a
  failing send would make `execute` reject while the participation stays recorded.
- Exception classes and their messages: each exception is represented only by a result variant.
  The source throws a plain `Error('Webinar not found')` for a missing webinar and typed
  exceptions for the other two cases. All three are the same kind of variant here.
- Seat arithmetic: seats are modelled as mathematical integers. The source's JavaScript `number`
  could also hold fractional or non-finite values, and those are not modelled. Nothing in the
  source requires seats to be positive, and the model does not require it either. With zero or
  negative seats, every new booking is refused.
- Entity fields the rule never reads: webinar dates, passwords, and identifiers or timestamps of
  participations. As created by the use case, a participation carries only the user id and the
  webinar id.
