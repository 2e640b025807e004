/**
 * The weekly schedule: seven day slides, Monday to Sunday, each showing the stored
 * activities of its weekday, the carousel opening on today.
 */
module WeekCarousel {
  import opened Wrappers
  import opened Db
  import Sorting
  import Text
  import ActivityForm
  import DaySlide
  import ScheduleActions

  const Days: seq<string> := ["Monday", "Tuesday", "Wednesday", "Thursday", "Friday", "Saturday", "Sunday"]

  /** The day names in the order of `Date.prototype.getDay`, which starts on Sunday. */
  const JsDays: seq<string> := ["Sunday", "Monday", "Tuesday", "Wednesday", "Thursday", "Friday", "Saturday"]

  /** The slide the carousel opens on: `getDay()` turned into a Monday-first index. */
  function TodayIndex(jsDay: nat): (i: nat)
    requires jsDay < 7
    ensures i < 7 && Days[i] == JsDays[jsDay]
  {
    (jsDay + 6) % 7
  }

  /** `Array.from({ length: 7 }, (_, i) => entries.filter(e => e.weekday === i))`. */
  function ByWeekday(entries: seq<ScheduleEntry>): (b: seq<seq<ScheduleEntry>>)
    ensures |b| == 7
    ensures forall i, e :: 0 <= i < 7 && e in b[i] ==> e in entries && e.weekday == i
  {
    seq(7, i => Sorting.Filter(entries, (e: ScheduleEntry) => e.weekday == i))
  }

  /**
   * Every stored activity with a weekday from 0 to 6 is on exactly the slide of that
   * day; one with any other weekday is on none.
   */
  lemma BucketsPartition(entries: seq<ScheduleEntry>, e: ScheduleEntry, i: int)
    requires e in entries && 0 <= i < 7
    ensures e in ByWeekday(entries)[i] <==> e.weekday == i
  {
    assert ByWeekday(entries)[i] == Sorting.Filter(entries, (x: ScheduleEntry) => x.weekday == i);
  }

  /** Slide `i` holds each activity of weekday `i` of the listing, once, in the listing's order, and nothing else. */
  lemma BucketInOrder(entries: seq<ScheduleEntry>, i: int)
    requires 0 <= i < 7
    ensures Sorting.KeptInOrder(ByWeekday(entries)[i], entries, (x: ScheduleEntry) => x.weekday == i)
  {
    var p := (x: ScheduleEntry) => x.weekday == i;
    assert ByWeekday(entries)[i] == Sorting.Filter(entries, p);
    Sorting.FilterKeptInOrder(entries, p);
  }

  /** Each slide lists its activities in the order of the listing it was cut from, so a listing by start time gives sorted slides. */
  lemma BucketsSorted(entries: seq<ScheduleEntry>, i: int)
    requires 0 <= i < 7
    requires Sorting.Sorted(entries, ScheduleActions.StartKey, Text.StrLe)
    ensures Sorting.Sorted(ByWeekday(entries)[i], ScheduleActions.StartKey, Text.StrLe)
  {
    Sorting.FilterSorted(entries, (x: ScheduleEntry) => x.weekday == i, ScheduleActions.StartKey, Text.StrLe);
  }

  /** A stored row as the client receives it, with its id as text. */
  function View(e: ScheduleEntry): ActivityForm.Entry {
    ActivityForm.Entry(Text.NatToString(e.id), e.startTime, e.endTime, e.activity)
  }

  function Views(s: seq<ScheduleEntry>): (v: seq<ActivityForm.Entry>)
    ensures |v| == |s|
    ensures forall k :: 0 <= k < |s| ==> v[k] == View(s[k])
  {
    seq(|s|, k requires 0 <= k < |s| => View(s[k]))
  }

  /** A slide's props: its day name, the weekday it was given, and its activities. */
  datatype Slide = Slide(day: string, weekday: Option<int>, entries: seq<ActivityForm.Entry>)

  /** The slides as the carousel renders them: each is given its day and its activities but no weekday. */
  function SlidesAsWritten(entries: seq<ScheduleEntry>): (slides: seq<Slide>)
    ensures |slides| == 7
    ensures forall i :: 0 <= i < 7 ==> slides[i].weekday.None?
  {
    seq(7, i requires 0 <= i < 7 => Slide(Days[i], None, Views(ByWeekday(entries)[i])))
  }

  /** The slides with the weekday each one stands for. */
  function Slides(entries: seq<ScheduleEntry>): (slides: seq<Slide>)
    ensures |slides| == 7
    ensures forall i :: 0 <= i < 7 ==> slides[i].weekday == Some(i) && slides[i].day == Days[i]
  {
    seq(7, i requires 0 <= i < 7 => Slide(Days[i], Some(i), Views(ByWeekday(entries)[i])))
  }

  /** With the server's listing, every slide shows its activities sorted by start time. */
  lemma SlideEntriesSorted(table: seq<ScheduleEntry>, u: UserId, i: int)
    requires 0 <= i < 7
    ensures Sorting.Sorted(Slides(ScheduleActions.ScheduleOf(table, u))[i].entries, DaySlide.StartKey, Text.StrLe)
  {
    var listing := ScheduleActions.ScheduleOf(table, u);
    ScheduleActions.ScheduleOfSpec(table, u, "");
    BucketsSorted(listing, i);
    var b := ByWeekday(listing)[i];
    var v := Views(b);
    assert Slides(listing)[i].entries == v;
    forall j, k | 0 <= j < k < |v| ensures Text.StrLe(DaySlide.StartKey(v[j]), DaySlide.StartKey(v[k])) {
      assert Text.StrLe(ScheduleActions.StartKey(b[j]), ScheduleActions.StartKey(b[k]));
    }
  }

  /**
   * As rendered, an activity added on any slide reaches the add action without a
   * weekday, whichever day the user was looking at.
   */
  lemma AddFromSlideAsWrittenLosesDay(entries: seq<ScheduleEntry>, i: int, nowMs: nat,
                                      startTime: string, endTime: string, activity: string)
    requires 0 <= i < 7
    ensures DaySlide.HandleAdd(SlidesAsWritten(entries)[i].weekday, nowMs, startTime, endTime, activity).1.weekday.None?
  {
  }

  /**
   * With the weekday passed, an activity added on slide `i` is sent with weekday `i`,
   * and the row the server stores for it shows up on slide `i` and on no other.
   */
  lemma AddFromSlideLandsOnItsDay(entries: seq<ScheduleEntry>, i: int, j: int, nowMs: nat,
                                  startTime: string, endTime: string, activity: string, id: nat, u: UserId)
    requires 0 <= i < 7 && 0 <= j < 7
    ensures var call := DaySlide.HandleAdd(Slides(entries)[i].weekday, nowMs, startTime, endTime, activity).1;
            && call.weekday == Some(i)
            && var row := ScheduleEntry(id, u, call.weekday.value, call.startTime, call.endTime, call.activity);
               (row in ByWeekday(entries + [row])[j] <==> j == i)
  {
    var call := DaySlide.HandleAdd(Slides(entries)[i].weekday, nowMs, startTime, endTime, activity).1;
    var row := ScheduleEntry(id, u, i, startTime, endTime, activity);
    assert row in entries + [row];
    BucketsPartition(entries + [row], row, j);
  }
}
