/**
 * The food-diary server actions: today's entries of the signed-in user, adding an
 * entry, and recording how the user felt after a meal.
 *
 * The clock is a parameter (`nowMs`), and so is a failure of the store (`storeFault`):
 * when it is `Some`, the write throws that value and nothing is stored.
 */
module FoodDiary {
  import opened Wrappers
  import opened Db
  import Auth
  import Sorting
  import Clock

  // ---------------------------------------------------------------------------------
  // Today's entries
  // ---------------------------------------------------------------------------------

  /** Whether `e` is `u`'s and dated inside the window `[start, start + 24h)`. */
  predicate InWindow(u: UserId, start: int, e: FoodEntry) {
    e.userId == u && start <= e.date < start + Clock.DayMs
  }

  function CreatedKey(e: FoodEntry): int {
    e.createdAt
  }

  /** The `where` clause of the today query, in table order. */
  function TodayCandidates(table: seq<FoodEntry>, u: UserId, nowMs: int): (r: seq<FoodEntry>)
    ensures forall e :: e in r <==> e in table && InWindow(u, Clock.TodayUtc(nowMs), e)
  {
    var start := Clock.TodayUtc(nowMs);
    Sorting.Filter(table, e => InWindow(u, start, e))
  }

  /** `findMany({ where: { userId, date: { gte: start, lt: end } }, orderBy: { createdAt: "asc" } })`. */
  function TodayEntries(table: seq<FoodEntry>, u: UserId, nowMs: int): seq<FoodEntry> {
    Sorting.SortBy(TodayCandidates(table, u, nowMs), CreatedKey, Sorting.IntLe)
  }

  /**
   * Today's list holds exactly `u`'s entries dated on the current UTC day, oldest
   * creation first; entries created at the same instant keep their table order.
   */
  lemma TodayEntriesSpec(table: seq<FoodEntry>, u: UserId, nowMs: int, createdAt: int)
    ensures forall e :: e in TodayEntries(table, u, nowMs) <==>
              e in table && e.userId == u && Clock.TodayUtc(e.date) == Clock.TodayUtc(nowMs)
    ensures Sorting.Sorted(TodayEntries(table, u, nowMs), CreatedKey, Sorting.IntLe)
    ensures Sorting.WithKey(TodayEntries(table, u, nowMs), CreatedKey, createdAt)
         == Sorting.WithKey(TodayCandidates(table, u, nowMs), CreatedKey, createdAt)
  {
    Sorting.IntLeIsTotalPreorder();
    var c := TodayCandidates(table, u, nowMs);
    Sorting.SortBySorted(c, CreatedKey, Sorting.IntLe);
    Sorting.SortByStable(c, CreatedKey, Sorting.IntLe, createdAt);
    forall e ensures e in TodayEntries(table, u, nowMs) <==>
                     e in table && e.userId == u && Clock.TodayUtc(e.date) == Clock.TodayUtc(nowMs) {
      Clock.SameDayWindow(nowMs, e.date);
    }
  }

  /**
   * `getTodayFoodEntries`. The action does not catch: without a signed-in user the
   * `"Unauthorized"` error escapes, which the model returns as `Failure`.
   */
  function GetTodayFoodEntries(db: Database, session: Option<UserId>, nowMs: int): (r: Result<seq<FoodEntry>, string>)
    reads db
    ensures r.Failure? <==> Auth.RequiredUserId(session).Failure?
    ensures r.Failure? ==> r.error == "Unauthorized"
    ensures r.Success? ==> forall e :: e in r.value <==>
              e in db.foodEntries && e.userId == session.value && Clock.TodayUtc(e.date) == Clock.TodayUtc(nowMs)
    ensures r.Success? ==> Sorting.Sorted(r.value, CreatedKey, Sorting.IntLe)
  {
    match Auth.RequiredUserId(session)
    case Failure(error) => Failure(error)
    case Success(u) =>
      TodayEntriesSpec(db.foodEntries, u, nowMs, 0);
      Success(TodayEntries(db.foodEntries, u, nowMs))
  }

  // ---------------------------------------------------------------------------------
  // Create
  // ---------------------------------------------------------------------------------

  /** Appending a row to the table appends it to the candidates exactly when it is in the window. */
  lemma TodayCandidatesAppend(table: seq<FoodEntry>, e: FoodEntry, u: UserId, nowMs: int)
    ensures TodayCandidates(table + [e], u, nowMs)
         == TodayCandidates(table, u, nowMs) + (if InWindow(u, Clock.TodayUtc(nowMs), e) then [e] else [])
  {
    var start := Clock.TodayUtc(nowMs);
    var p := e' => InWindow(u, start, e');
    Sorting.FilterConcat(table, [e], p);
    assert Sorting.Filter([e], p) == (if p(e) then [e] else []) by {
      assert [e][1..] == [];
    }
  }

  /** An entry created now is on today's list of its owner, and on no other user's. */
  lemma CreatedEntryIsListedToday(table: seq<FoodEntry>, e: FoodEntry, nowMs: int, v: UserId)
    requires e.date == Clock.TodayUtc(nowMs)
    ensures e in TodayEntries(table + [e], e.userId, nowMs)
    ensures v != e.userId ==> TodayEntries(table + [e], v, nowMs) == TodayEntries(table, v, nowMs)
  {
    TodayEntriesSpec(table + [e], e.userId, nowMs, 0);
    Clock.TodayUtcIdempotent(nowMs);
    if v != e.userId {
      TodayCandidatesAppend(table, e, v, nowMs);
      assert TodayCandidates(table + [e], v, nowMs) == TodayCandidates(table, v, nowMs);
    }
  }

  /**
   * `createFoodEntry`: one new entry owned by the caller, dated at today's midnight UTC,
   * with the given meal type and description and no feelings. Nothing is validated.
   */
  method CreateFoodEntry(db: Database, session: Option<UserId>, nowMs: int, mealType: string, description: string,
                         storeFault: Option<Thrown>)
    returns (r: ActionResult)
    requires db.Valid()
    modifies db`foodEntries, db`nextId
    ensures db.Valid()
    ensures Auth.RequiredUserId(session).Failure? ==>
              r == Failed("Unauthorized") && db.foodEntries == old(db.foodEntries) && db.nextId == old(db.nextId)
    ensures Auth.RequiredUserId(session).Success? && storeFault.Some? ==>
              r == Failed(CaughtMessage(storeFault.value))
              && db.foodEntries == old(db.foodEntries) && db.nextId == old(db.nextId)
    ensures Auth.RequiredUserId(session).Success? && storeFault.None? ==>
              && r == Succeeded
              && db.foodEntries == old(db.foodEntries)
                   + [FoodEntry(old(db.nextId), session.value, Clock.TodayUtc(nowMs), mealType, description, None, nowMs)]
              && db.nextId == old(db.nextId) + 1
  {
    var auth := Auth.RequiredUserId(session);
    if auth.Failure? {
      return Failed(auth.error);
    }
    if storeFault.Some? {
      return Failed(CaughtMessage(storeFault.value));
    }
    var entry := FoodEntry(db.nextId, auth.value, Clock.TodayUtc(nowMs), mealType, description, None, nowMs);
    db.foodEntries := db.foodEntries + [entry];
    db.nextId := db.nextId + 1;
    r := Succeeded;
  }

  // ---------------------------------------------------------------------------------
  // Feelings update
  // ---------------------------------------------------------------------------------

  /** `findFirst({ where: { id, userId } })` finds a row. */
  predicate Owns(table: seq<FoodEntry>, id: nat, u: UserId) {
    exists i :: 0 <= i < |table| && table[i].id == id && table[i].userId == u
  }

  /** `update({ where: { id }, data: { feelings } })`: the row with that id gets the new feelings, overwriting any old ones. */
  function SetFeelings(table: seq<FoodEntry>, id: nat, feelings: string): (r: seq<FoodEntry>)
    ensures |r| == |table|
    ensures forall i :: 0 <= i < |table| && table[i].id != id ==> r[i] == table[i]
    ensures forall i :: 0 <= i < |table| && table[i].id == id ==>
              r[i].feelings == Some(feelings) && r[i].(feelings := table[i].feelings) == table[i]
  {
    seq(|table|, i requires 0 <= i < |table| => if table[i].id == id then table[i].(feelings := Some(feelings)) else table[i])
  }

  /**
   * With unique ids, an update the caller is allowed to make leaves every entry of every
   * other user exactly as it was.
   */
  lemma SetFeelingsKeepsOthers(table: seq<FoodEntry>, id: nat, u: UserId, feelings: string)
    requires forall i, j :: 0 <= i < j < |table| ==> table[i].id != table[j].id
    requires Owns(table, id, u)
    ensures forall i :: 0 <= i < |table| && table[i].userId != u ==> SetFeelings(table, id, feelings)[i] == table[i]
  {
    var k :| 0 <= k < |table| && table[k].id == id && table[k].userId == u;
    forall i | 0 <= i < |table| && table[i].userId != u ensures SetFeelings(table, id, feelings)[i] == table[i] {
      assert i != k;
      assert table[i].id != table[k].id;
    }
  }

  /**
   * `updateFoodEntryFeelings`. An id that is absent or owned by someone else gives
   * `"Entry not found"`; otherwise only that entry's feelings change.
   */
  method UpdateFoodEntryFeelings(db: Database, session: Option<UserId>, id: nat, feelings: string, storeFault: Option<Thrown>)
    returns (r: ActionResult)
    requires db.Valid()
    modifies db`foodEntries
    ensures db.Valid()
    ensures Auth.RequiredUserId(session).Failure? ==> r == Failed("Unauthorized") && db.foodEntries == old(db.foodEntries)
    ensures Auth.RequiredUserId(session).Success? && !Owns(old(db.foodEntries), id, session.value) ==>
              r == Failed("Entry not found") && db.foodEntries == old(db.foodEntries)
    ensures Auth.RequiredUserId(session).Success? && Owns(old(db.foodEntries), id, session.value) && storeFault.Some? ==>
              r == Failed(CaughtMessage(storeFault.value)) && db.foodEntries == old(db.foodEntries)
    ensures Auth.RequiredUserId(session).Success? && Owns(old(db.foodEntries), id, session.value) && storeFault.None? ==>
              r == Succeeded && db.foodEntries == SetFeelings(old(db.foodEntries), id, feelings)
  {
    var auth := Auth.RequiredUserId(session);
    if auth.Failure? {
      return Failed(auth.error);
    }
    if !Owns(db.foodEntries, id, auth.value) {
      return Failed("Entry not found");
    }
    if storeFault.Some? {
      return Failed(CaughtMessage(storeFault.value));
    }
    db.foodEntries := SetFeelings(db.foodEntries, id, feelings);
    r := Succeeded;
  }
}
