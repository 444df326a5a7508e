/**
  The in-memory participation repository: an append-only list of
  participations with two queries over it.
 */
module ParticipationRepository {
  import opened Entities

  datatype Option<T> = None | Some(value: T)

  /** The repository's backing list, in insertion order. */
  type Database = seq<Participation>

  /** True when `p` books `userId` onto `webinarId`. */
  predicate Matches(p: Participation, webinarId: WebinarId, userId: UserId)
  {
    p.webinarId == webinarId && p.userId == userId
  }

  /** True when some entry of `db` books `userId` onto `webinarId`. */
  ghost predicate Registered(db: Database, webinarId: WebinarId, userId: UserId)
  {
    exists i :: 0 <= i < |db| && Matches(db[i], webinarId, userId)
  }

  /** The positions of `db` that hold a participation for `webinarId`. */
  ghost function IndicesFor(db: Database, webinarId: WebinarId): set<nat>
  {
    set i: nat | i < |db| && db[i].webinarId == webinarId
  }

  /** The number of seats taken for `webinarId`, counted over positions. */
  ghost function TakenSeats(db: Database, webinarId: WebinarId): nat
  {
    |IndicesFor(db, webinarId)|
  }

  /** No (webinar, user) pair is booked twice. */
  ghost predicate Unique(db: Database)
  {
    forall i, j :: 0 <= i < j < |db| ==> !Matches(db[j], db[i].webinarId, db[i].userId)
  }

  /** `findByWebinarId`: the entries booked onto `webinarId`, in the order
      they were saved. Each such entry keeps its multiplicity; no other entry
      appears. */
  function FindByWebinarId(db: Database, webinarId: WebinarId): (r: seq<Participation>)
    ensures |r| <= |db|
    ensures forall p :: p in r ==> p.webinarId == webinarId
    ensures forall p: Participation :: p.webinarId == webinarId ==> multiset(r)[p] == multiset(db)[p]
  {
    if |db| == 0 then []
    else
      var rest := FindByWebinarId(db[1..], webinarId);
      assert db == [db[0]] + db[1..];
      if db[0].webinarId == webinarId then [db[0]] + rest else rest
  }

  /** The first entry at or after position `k` that books `userId` onto
      `webinarId`, scanning forward as `Array.prototype.find` does. */
  function FindFrom(db: Database, webinarId: WebinarId, userId: UserId, k: nat): (r: Option<Participation>)
    requires k <= |db|
    ensures r.None? <==> forall i :: k <= i < |db| ==> !Matches(db[i], webinarId, userId)
    ensures r.Some? ==>
      exists i :: k <= i < |db| && db[i] == r.value && Matches(db[i], webinarId, userId) &&
        forall j :: k <= j < i ==> !Matches(db[j], webinarId, userId)
    decreases |db| - k
  {
    if k == |db| then None
    else if Matches(db[k], webinarId, userId) then Some(db[k])
    else FindFrom(db, webinarId, userId, k + 1)
  }

  /** `findByWebinarIdAndUserId`: the first entry that books `userId` onto
      `webinarId`, or nothing when there is none. */
  function FindByWebinarIdAndUserId(db: Database, webinarId: WebinarId, userId: UserId): (r: Option<Participation>)
    ensures r.None? <==> !Registered(db, webinarId, userId)
    ensures r.Some? ==>
      exists i :: 0 <= i < |db| && db[i] == r.value && Matches(db[i], webinarId, userId) &&
        forall j :: 0 <= j < i ==> !Matches(db[j], webinarId, userId)
  {
    FindFrom(db, webinarId, userId, 0)
  }

  /** `save`: append one participation. Nothing is checked; the entries
      already present stay where they were. */
  function Save(db: Database, p: Participation): (r: Database)
    ensures |r| == |db| + 1
    ensures r[..|db|] == db && r[|db|] == p
  {
    db + [p]
  }

  /** The query distributes over concatenation: what was saved earlier is
      listed earlier. */
  lemma {:induction false} FindByWebinarIdAppend(a: Database, b: Database, webinarId: WebinarId)
    ensures FindByWebinarId(a + b, webinarId) == FindByWebinarId(a, webinarId) + FindByWebinarId(b, webinarId)
  {
    if |a| == 0 {
      assert a + b == b;
    } else {
      assert (a + b)[1..] == a[1..] + b;
      assert (a + b)[0] == a[0];
      FindByWebinarIdAppend(a[1..], b, webinarId);
    }
  }

  /** After a save, the query for the saved webinar lists exactly one more
      entry, the new one at the end; every other webinar's list is unchanged. */
  lemma SaveFindByWebinarId(db: Database, p: Participation, webinarId: WebinarId)
    ensures webinarId == p.webinarId ==>
      FindByWebinarId(Save(db, p), webinarId) == FindByWebinarId(db, webinarId) + [p]
    ensures webinarId != p.webinarId ==>
      FindByWebinarId(Save(db, p), webinarId) == FindByWebinarId(db, webinarId)
  {
    FindByWebinarIdAppend(db, [p], webinarId);
    assert [p][1..] == [];
  }

  /** After a save, the saved pair is found. */
  lemma SaveThenFound(db: Database, p: Participation)
    ensures FindByWebinarIdAndUserId(Save(db, p), p.webinarId, p.userId) == Some(p)
  {
    assert Matches(Save(db, p)[|db|], p.webinarId, p.userId);
  }

  /** A save adds the new position to the saved webinar's positions and to
      no other webinar's. */
  lemma SaveIndicesFor(db: Database, p: Participation, webinarId: WebinarId)
    ensures IndicesFor(Save(db, p), webinarId) ==
      IndicesFor(db, webinarId) + (if p.webinarId == webinarId then {|db|} else {})
    ensures |db| !in IndicesFor(db, webinarId)
  {
    var r := Save(db, p);
    assert forall i :: 0 <= i < |db| ==> r[i] == db[i];
  }

  /** Counting the query's result counts the positions booked onto the
      webinar. */
  lemma {:induction false} CountIsTakenSeats(db: Database, webinarId: WebinarId)
    ensures |FindByWebinarId(db, webinarId)| == TakenSeats(db, webinarId)
    decreases |db|
  {
    if |db| == 0 {
      assert IndicesFor(db, webinarId) == {};
    } else {
      var n := |db| - 1;
      var init, last := db[..n], db[n];
      assert db == Save(init, last);
      CountIsTakenSeats(init, webinarId);
      SaveFindByWebinarId(init, last, webinarId);
      SaveIndicesFor(init, last, webinarId);
      if last.webinarId == webinarId {
        assert |FindByWebinarId(db, webinarId)| == |FindByWebinarId(init, webinarId)| + 1;
        assert TakenSeats(db, webinarId) == TakenSeats(init, webinarId) + 1;
      } else {
        assert FindByWebinarId(db, webinarId) == FindByWebinarId(init, webinarId);
        assert IndicesFor(db, webinarId) == IndicesFor(init, webinarId);
      }
    }
  }

  /** A save takes one more seat for the saved webinar and none elsewhere. */
  lemma SaveTakenSeats(db: Database, p: Participation, webinarId: WebinarId)
    ensures TakenSeats(Save(db, p), webinarId) ==
      TakenSeats(db, webinarId) + (if webinarId == p.webinarId then 1 else 0)
  {
    CountIsTakenSeats(db, webinarId);
    CountIsTakenSeats(Save(db, p), webinarId);
    SaveFindByWebinarId(db, p, webinarId);
  }

  /** `save` enforces no uniqueness: on a duplicate-free list, the list stays
      duplicate-free exactly when the saved pair was not already present. */
  lemma SaveUniqueIff(db: Database, p: Participation)
    requires Unique(db)
    ensures Unique(Save(db, p)) <==> !Registered(db, p.webinarId, p.userId)
  {
    var r := Save(db, p);
    if Registered(db, p.webinarId, p.userId) {
      var i :| 0 <= i < |db| && Matches(db[i], p.webinarId, p.userId);
      assert r[i] == db[i] && r[|db|] == p;
      assert !Unique(r);
    } else {
      forall i, j | 0 <= i < j < |r|
        ensures !Matches(r[j], r[i].webinarId, r[i].userId)
      {
        if j == |db| {
          assert r[i] == db[i];
        } else {
          assert r[i] == db[i] && r[j] == db[j];
        }
      }
    }
  }

  /** A user is registered for a webinar exactly when that webinar's query
      lists the user's participation. */
  lemma RegisteredIffListed(db: Database, webinarId: WebinarId, userId: UserId)
    ensures Registered(db, webinarId, userId) <==> Participation(userId, webinarId) in FindByWebinarId(db, webinarId)
  {
    var p := Participation(userId, webinarId);
    var found := FindByWebinarId(db, webinarId);
    assert multiset(found)[p] == multiset(db)[p];
    if Registered(db, webinarId, userId) {
      var i :| 0 <= i < |db| && Matches(db[i], webinarId, userId);
      assert db[i] == p;
    } else {
      assert p !in db;
    }
  }
}
