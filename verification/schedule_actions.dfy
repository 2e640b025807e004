/**
 * The schedule server actions: add an activity, list the signed-in user's activities,
 * and delete one of them.
 *
 * `storeFault`, when `Some`, is a value the store's write throws; the action catches it
 * and reports it without changing anything.
 */
module ScheduleActions {
  import opened Wrappers
  import opened Db
  import Auth
  import Sorting
  import Text

  function StartKey(e: ScheduleEntry): string {
    e.startTime
  }

  /**
   * `createScheduleEntry`: one new row owned by the caller with exactly the given fields.
   * Neither the weekday range, nor the time format, nor overlaps are checked.
   */
  method CreateScheduleEntry(db: Database, session: Option<UserId>, weekday: int, startTime: string, endTime: string,
                             activity: string, storeFault: Option<Thrown>)
    returns (r: ActionResult)
    requires db.Valid()
    modifies db`scheduleEntries, db`nextId
    ensures db.Valid()
    ensures Auth.RequiredUserId(session).Failure? ==>
              r == Failed("Unauthorized") && db.scheduleEntries == old(db.scheduleEntries) && db.nextId == old(db.nextId)
    ensures Auth.RequiredUserId(session).Success? && storeFault.Some? ==>
              r == Failed(CaughtMessage(storeFault.value))
              && db.scheduleEntries == old(db.scheduleEntries) && db.nextId == old(db.nextId)
    ensures Auth.RequiredUserId(session).Success? && storeFault.None? ==>
              && r == Succeeded
              && db.scheduleEntries == old(db.scheduleEntries)
                   + [ScheduleEntry(old(db.nextId), session.value, weekday, startTime, endTime, activity)]
              && db.nextId == old(db.nextId) + 1
  {
    var auth := Auth.RequiredUserId(session);
    if auth.Failure? {
      return Failed(auth.error);
    }
    if storeFault.Some? {
      return Failed(CaughtMessage(storeFault.value));
    }
    db.scheduleEntries := db.scheduleEntries + [ScheduleEntry(db.nextId, auth.value, weekday, startTime, endTime, activity)];
    db.nextId := db.nextId + 1;
    r := Succeeded;
  }

  /** The rows owned by `u`, in table order. */
  function OwnedBy(table: seq<ScheduleEntry>, u: UserId): (r: seq<ScheduleEntry>)
    ensures forall e :: e in r <==> e in table && e.userId == u
  {
    Sorting.Filter(table, (e: ScheduleEntry) => e.userId == u)
  }

  /** `findMany({ where: { userId }, orderBy: { startTime: "asc" } })`, across all weekdays. */
  function ScheduleOf(table: seq<ScheduleEntry>, u: UserId): seq<ScheduleEntry> {
    Sorting.SortBy(OwnedBy(table, u), StartKey, Text.StrLe)
  }

  /** The listing holds exactly the user's rows, by start time, with equal start times in table order. */
  lemma ScheduleOfSpec(table: seq<ScheduleEntry>, u: UserId, startTime: string)
    ensures forall e :: e in ScheduleOf(table, u) <==> e in table && e.userId == u
    ensures Sorting.Sorted(ScheduleOf(table, u), StartKey, Text.StrLe)
    ensures Sorting.WithKey(ScheduleOf(table, u), StartKey, startTime) == Sorting.WithKey(OwnedBy(table, u), StartKey, startTime)
  {
    Text.StrLeIsTotalPreorder();
    Sorting.SortBySorted(OwnedBy(table, u), StartKey, Text.StrLe);
    Sorting.SortByStable(OwnedBy(table, u), StartKey, Text.StrLe, startTime);
  }

  /** `getScheduleEntries`; like the other reads it does not catch, so a missing user is a `Failure`. */
  function GetScheduleEntries(db: Database, session: Option<UserId>): (r: Result<seq<ScheduleEntry>, string>)
    reads db
    ensures r.Failure? <==> Auth.RequiredUserId(session).Failure?
    ensures r.Failure? ==> r.error == "Unauthorized"
    ensures r.Success? ==> forall e :: e in r.value <==> e in db.scheduleEntries && e.userId == session.value
    ensures r.Success? ==> Sorting.Sorted(r.value, StartKey, Text.StrLe)
  {
    match Auth.RequiredUserId(session)
    case Failure(error) => Failure(error)
    case Success(u) =>
      ScheduleOfSpec(db.scheduleEntries, u, "");
      Success(ScheduleOf(db.scheduleEntries, u))
  }

  /** A created row shows up in its owner's listing and in no other user's. */
  lemma CreatedEntryIsListed(table: seq<ScheduleEntry>, e: ScheduleEntry, v: UserId)
    ensures e in ScheduleOf(table + [e], e.userId)
    ensures v != e.userId ==> ScheduleOf(table + [e], v) == ScheduleOf(table, v)
  {
    ScheduleOfSpec(table + [e], e.userId, "");
    if v != e.userId {
      var p := (x: ScheduleEntry) => x.userId == v;
      Sorting.FilterConcat(table, [e], p);
      assert Sorting.Filter([e], p) == [] by {
        assert [e][1..] == [];
      }
      assert OwnedBy(table + [e], v) == OwnedBy(table, v);
    }
  }

  /** `findFirst({ where: { id, userId } })` finds a row. */
  predicate Owns(table: seq<ScheduleEntry>, id: nat, u: UserId) {
    exists i :: 0 <= i < |table| && table[i].id == id && table[i].userId == u
  }

  /** `delete({ where: { id } })`: every row with another id, in table order. */
  function Without(table: seq<ScheduleEntry>, id: nat): (r: seq<ScheduleEntry>)
    ensures forall e :: e in r <==> e in table && e.id != id
  {
    Sorting.Filter(table, (e: ScheduleEntry) => e.id != id)
  }

  /** When no other row shares its id, deleting the row at index `k` is cutting exactly that row out of the table. */
  lemma WithoutCutsOneRow(table: seq<ScheduleEntry>, k: nat)
    requires k < |table|
    requires forall i :: 0 <= i < |table| && i != k ==> table[i].id != table[k].id
    ensures Without(table, table[k].id) == table[..k] + table[k + 1..]
  {
    Sorting.FilterCutsOne(table, k, (e: ScheduleEntry) => e.id != table[k].id);
  }

  /** Cutting one row out of a table keeps its ids unique and bounded. */
  lemma CutKeepsIds(table: seq<ScheduleEntry>, k: nat, bound: nat)
    requires k < |table|
    requires forall i :: 0 <= i < |table| ==> table[i].id < bound
    requires forall i, j :: 0 <= i < j < |table| ==> table[i].id != table[j].id
    ensures var cut := table[..k] + table[k + 1..];
            (forall i :: 0 <= i < |cut| ==> cut[i].id < bound)
            && (forall i, j :: 0 <= i < j < |cut| ==> cut[i].id != cut[j].id)
  {
    var cut := table[..k] + table[k + 1..];
    forall i | 0 <= i < |cut| ensures cut[i] == table[if i < k then i else i + 1] {
    }
  }

  /**
   * `deleteScheduleEntry`. An id that is absent or belongs to another user gives
   * `"Entry not found"`; otherwise exactly that row is removed.
   */
  method DeleteScheduleEntry(db: Database, session: Option<UserId>, id: nat, storeFault: Option<Thrown>)
    returns (r: ActionResult)
    requires db.Valid()
    modifies db`scheduleEntries
    ensures db.Valid()
    ensures Auth.RequiredUserId(session).Failure? ==> r == Failed("Unauthorized") && db.scheduleEntries == old(db.scheduleEntries)
    ensures Auth.RequiredUserId(session).Success? && !Owns(old(db.scheduleEntries), id, session.value) ==>
              r == Failed("Entry not found") && db.scheduleEntries == old(db.scheduleEntries)
    ensures Auth.RequiredUserId(session).Success? && Owns(old(db.scheduleEntries), id, session.value) && storeFault.Some? ==>
              r == Failed(CaughtMessage(storeFault.value)) && db.scheduleEntries == old(db.scheduleEntries)
    ensures Auth.RequiredUserId(session).Success? && Owns(old(db.scheduleEntries), id, session.value) && storeFault.None? ==>
              && r == Succeeded
              && exists k :: 0 <= k < |old(db.scheduleEntries)| && old(db.scheduleEntries)[k].id == id
                   && db.scheduleEntries == old(db.scheduleEntries)[..k] + old(db.scheduleEntries)[k + 1..]
  {
    var auth := Auth.RequiredUserId(session);
    if auth.Failure? {
      return Failed(auth.error);
    }
    if !Owns(db.scheduleEntries, id, auth.value) {
      return Failed("Entry not found");
    }
    if storeFault.Some? {
      return Failed(CaughtMessage(storeFault.value));
    }
    var k :| 0 <= k < |db.scheduleEntries| && db.scheduleEntries[k].id == id && db.scheduleEntries[k].userId == auth.value;
    forall i | 0 <= i < |db.scheduleEntries| && i != k ensures db.scheduleEntries[i].id != id {
      if i < k {
        assert db.scheduleEntries[i].id != db.scheduleEntries[k].id;
      } else {
        assert db.scheduleEntries[k].id != db.scheduleEntries[i].id;
      }
    }
    WithoutCutsOneRow(db.scheduleEntries, k);
    CutKeepsIds(db.scheduleEntries, k, db.nextId);
    db.scheduleEntries := Without(db.scheduleEntries, id);
    r := Succeeded;
  }
}
