/**
 * One day of the weekly schedule: the optimistic list of activities shown while an add
 * or a delete is on its way to the server, and the add handler that starts one.
 */
module DaySlide {
  import opened Wrappers
  import Sorting
  import Text
  import ActivityForm

  type Entry = ActivityForm.Entry

  function StartKey(e: Entry): string {
    e.startTime
  }

  /** The optimistic updates the slide dispatches. */
  datatype Action = Add(entry: Entry) | Delete(id: string)

  /**
   * The reducer: an added entry is appended and the list re-sorted by start time (a
   * stable sort); a deletion keeps every entry with another id.
   */
  function Reduce(state: seq<Entry>, action: Action): seq<Entry> {
    match action
    case Add(e) => Sorting.SortBy(state + [e], StartKey, Text.StrLe)
    case Delete(id) => Sorting.Filter(state, (e: Entry) => e.id != id)
  }

  /**
   * After an add the list holds the old entries and the new one, once each, sorted by
   * start time; entries with the same start time keep their order, so the new one
   * comes after those already there.
   */
  lemma AddSpec(state: seq<Entry>, e: Entry, k: string)
    ensures multiset(Reduce(state, Add(e))) == multiset(state) + multiset{e}
    ensures Sorting.Sorted(Reduce(state, Add(e)), StartKey, Text.StrLe)
    ensures Sorting.WithKey(Reduce(state, Add(e)), StartKey, k) == Sorting.WithKey(state + [e], StartKey, k)
  {
    Text.StrLeIsTotalPreorder();
    Sorting.SortBySorted(state + [e], StartKey, Text.StrLe);
    Sorting.SortByStable(state + [e], StartKey, Text.StrLe, k);
  }

  /** On a list that is already sorted, adding is inserting the entry after every entry that does not start later. */
  lemma AddToSortedIsInsert(state: seq<Entry>, e: Entry)
    requires Sorting.Sorted(state, StartKey, Text.StrLe)
    ensures Reduce(state, Add(e)) == Sorting.Insert(state, e, StartKey, Text.StrLe)
  {
    Sorting.AppendThenSort(state, e, StartKey, Text.StrLe);
  }

  /**
   * A deletion removes every entry with that id and keeps each other entry, once, in its
   * original position order; it changes nothing when the id is absent.
   */
  lemma DeleteSpec(state: seq<Entry>, id: string)
    ensures forall e :: e in Reduce(state, Delete(id)) <==> e in state && e.id != id
    ensures Sorting.Sorted(state, StartKey, Text.StrLe) ==> Sorting.Sorted(Reduce(state, Delete(id)), StartKey, Text.StrLe)
    ensures (forall i :: 0 <= i < |state| ==> state[i].id != id) ==> Reduce(state, Delete(id)) == state
    ensures Sorting.KeptInOrder(Reduce(state, Delete(id)), state, (e: Entry) => e.id != id)
  {
    var p := (e: Entry) => e.id != id;
    assert Reduce(state, Delete(id)) == Sorting.Filter(state, p);
    if Sorting.Sorted(state, StartKey, Text.StrLe) {
      Sorting.FilterSorted(state, p, StartKey, Text.StrLe);
    }
    if forall i :: 0 <= i < |state| ==> state[i].id != id {
      Sorting.FilterAll(state, p);
    }
    Sorting.FilterKeptInOrder(state, p);
  }

  /** The list shown while `pending` actions are in flight, applied in dispatch order to the server's list. */
  function Shown(base: seq<Entry>, pending: seq<Action>): seq<Entry>
    decreases |pending|
  {
    if pending == [] then base else Reduce(Shown(base, pending[..|pending| - 1]), pending[|pending| - 1])
  }

  /** Starting from the server's sorted list, the slide shows a sorted list whatever is in flight. */
  lemma {:induction false} ShownSorted(base: seq<Entry>, pending: seq<Action>)
    requires Sorting.Sorted(base, StartKey, Text.StrLe)
    ensures Sorting.Sorted(Shown(base, pending), StartKey, Text.StrLe)
    decreases |pending|
  {
    if pending != [] {
      var before := Shown(base, pending[..|pending| - 1]);
      ShownSorted(base, pending[..|pending| - 1]);
      match pending[|pending| - 1]
      case Add(e) => AddSpec(before, e, "");
      case Delete(id) => DeleteSpec(before, id);
    }
  }

  /**
   * The overlap check of the form sees the optimistic list, so an activity still being
   * saved already counts: a new interval overlapping it is reported.
   */
  lemma PendingAddIsChecked(state: seq<Entry>, e: Entry, start: string, end: string)
    requires ActivityForm.EntryOverlaps(ActivityForm.TimeToMinutes(start), ActivityForm.TimeToMinutes(end), e)
    ensures ActivityForm.FindOverlap(start, end, Reduce(state, Add(e))).Some?
  {
    var r := Reduce(state, Add(e));
    AddSpec(state, e, "");
    assert e in multiset(r);
    var k :| 0 <= k < |r| && r[k] == e;
    assert ActivityForm.EntryOverlaps(ActivityForm.TimeToMinutes(start), ActivityForm.TimeToMinutes(end), r[k]);
  }

  /** `temp-${Date.now()}`: the id of an entry that is shown but not yet stored. */
  function TempId(nowMs: nat): string {
    "temp-" + Text.NatToString(nowMs)
  }

  /** A temporary id never equals the decimal id of a stored row, so deleting a stored row never removes a pending one. */
  lemma TempIdIsFresh(nowMs: nat, rowId: nat)
    ensures TempId(nowMs) != Text.NatToString(rowId)
  {
    assert TempId(nowMs)[0] == 't';
  }

  /** The arguments `createScheduleEntry` receives; `weekday` is `None` when the slide was given none. */
  datatype AddCall = AddCall(weekday: Option<int>, startTime: string, endTime: string, activity: string)

  /**
   * `handleAdd`: dispatch the optimistic entry under a temporary id, and call the add
   * action with the slide's weekday and the same three fields.
   */
  function HandleAdd(weekday: Option<int>, nowMs: nat, startTime: string, endTime: string, activity: string)
    : (r: (Action, AddCall))
    ensures r.0.Add? && r.0.entry.id == TempId(nowMs)
    ensures (r.0.entry.startTime, r.0.entry.endTime, r.0.entry.activity) == (r.1.startTime, r.1.endTime, r.1.activity)
    ensures (r.1.startTime, r.1.endTime, r.1.activity) == (startTime, endTime, activity)
    ensures r.1.weekday == weekday
  {
    (Add(ActivityForm.Entry(TempId(nowMs), startTime, endTime, activity)), AddCall(weekday, startTime, endTime, activity))
  }
}
