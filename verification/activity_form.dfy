/**
 * The add-activity form of a day slide: parsing `"HH:MM"` times, finding an existing
 * activity the new one would overlap, and the form's state as the user types and submits.
 *
 * JavaScript's `NaN` from `parseInt` is `None`; it propagates through arithmetic, and
 * every comparison with it is false.
 */
module ActivityForm {
  import opened Wrappers
  import Text
  import Sorting

  /** An activity as the client holds it. */
  datatype Entry = Entry(id: string, startTime: string, endTime: string, activity: string)

  // ---------------------------------------------------------------------------------
  // Parsing
  // ---------------------------------------------------------------------------------

  /** `s.split(sep)`: the pieces between separators; there is always at least one. */
  function Split(s: string, sep: char): (parts: seq<string>)
    ensures |parts| >= 1
    ensures sep !in s ==> parts == [s]
    decreases |s|
  {
    if s == [] then [""]
    else
      var rest := Split(s[1..], sep);
      if s[0] == sep then [""] + rest
      else
        assert sep !in s ==> rest == [s[1..]] && [s[0]] + s[1..] == s;
        [[s[0]] + rest[0]] + rest[1..]
  }

  /** Splitting at a separator: the piece before it, then the pieces of what follows. */
  lemma {:induction false} SplitAt(a: string, b: string, sep: char)
    requires sep !in a
    ensures Split(a + [sep] + b, sep) == [a] + Split(b, sep)
  {
    if a == [] {
      assert a + [sep] + b == [sep] + b;
      assert ([sep] + b)[1..] == b;
    } else {
      assert (a + [sep] + b)[1..] == a[1..] + [sep] + b;
      SplitAt(a[1..], b, sep);
      assert [a[0]] + a[1..] == a;
    }
  }

  /** The characters `parseInt` skips before the number: ECMAScript's white space and line terminators. */
  predicate IsJsSpace(c: char) {
    || c == '\t' || c == '\n' || c == '\U{000B}' || c == '\U{000C}' || c == '\r' || c == ' '
    || c == '\U{00A0}' || c == '\U{1680}' || ('\U{2000}' <= c <= '\U{200A}')
    || c == '\U{2028}' || c == '\U{2029}' || c == '\U{202F}' || c == '\U{205F}'
    || c == '\U{3000}' || c == '\U{FEFF}'
  }

  function TrimStart(s: string): (t: string)
    ensures t != [] ==> !IsJsSpace(t[0])
  {
    if s != [] && IsJsSpace(s[0]) then TrimStart(s[1..]) else s
  }

  /** The longest run of decimal digits at the front of `s`. */
  function DigitPrefix(s: string): (ds: string)
    ensures forall i :: 0 <= i < |ds| ==> Text.IsDigit(ds[i])
  {
    if s != [] && Text.IsDigit(s[0]) then [s[0]] + DigitPrefix(s[1..]) else []
  }

  /** `parseInt(s, 10)`: optional leading space, an optional sign, then as many digits as there are. */
  function ParseInt(s: string): Option<int> {
    var t := TrimStart(s);
    var negative := t != [] && t[0] == '-';
    var body := if t != [] && (t[0] == '-' || t[0] == '+') then t[1..] else t;
    var ds := DigitPrefix(body);
    if ds == [] then None
    else Some(if negative then -(Text.DigitsValue(ds) as int) else Text.DigitsValue(ds))
  }

  /** A run of digits parses as its value, whatever follows it, as long as a non-digit does. */
  lemma ParseIntDigits(ds: string, rest: string)
    requires ds != [] && forall i :: 0 <= i < |ds| ==> Text.IsDigit(ds[i])
    requires rest != [] ==> !Text.IsDigit(rest[0])
    ensures ParseInt(ds + rest) == Some(Text.DigitsValue(ds))
  {
    var s := ds + rest;
    assert s[0] == ds[0];
    assert !IsJsSpace(s[0]);
    assert TrimStart(s) == s;
    DigitPrefixOf(ds, rest);
  }

  lemma {:induction false} DigitPrefixOf(ds: string, rest: string)
    requires forall i :: 0 <= i < |ds| ==> Text.IsDigit(ds[i])
    requires rest != [] ==> !Text.IsDigit(rest[0])
    ensures DigitPrefix(ds + rest) == ds
  {
    if ds != [] {
      assert (ds + rest)[1..] == ds[1..] + rest;
      DigitPrefixOf(ds[1..], rest);
      assert [ds[0]] + ds[1..] == ds;
    } else {
      assert ds + rest == rest;
    }
  }

  /** `h * 60 + m` with `NaN` propagating. */
  function Combine(h: Option<int>, m: Option<int>): Option<int> {
    if h.Some? && m.Some? then Some(h.value * 60 + m.value) else None
  }

  /** `timeToMinutes`: the hour and minute fields of `time`, a missing minute field counting as `"0"`. */
  function TimeToMinutes(time: string): Option<int> {
    var parts := Split(time, ':');
    Combine(ParseInt(parts[0]), ParseInt(if |parts| > 1 then parts[1] else "0"))
  }

  /** A run of digits contains no colon. */
  lemma DigitsHaveNoColon(ds: string)
    requires forall i :: 0 <= i < |ds| ==> Text.IsDigit(ds[i])
    ensures ':' !in ds
  {
    assert forall i :: 0 <= i < |ds| ==> ds[i] != ':';
  }

  /** `"a:b"` is `a` hours and `b` minutes. */
  lemma TimeFields(a: string, b: string, h: int, m: int)
    requires ':' !in a && ':' !in b
    requires ParseInt(a) == Some(h) && ParseInt(b) == Some(m)
    ensures TimeToMinutes(a + ":" + b) == Some(h * 60 + m)
  {
    assert a + ":" + b == a + [':'] + b;
    SplitAt(a, b, ':');
    assert Split(a + ":" + b, ':') == [a, b];
  }

  /** A time without a colon is all hours. */
  lemma TimeHourField(a: string, h: int)
    requires ':' !in a
    requires ParseInt(a) == Some(h)
    ensures TimeToMinutes(a) == Some(h * 60)
  {
    assert ParseInt("0") == Some(0) by {
      ParseIntAllDigits("0");
    }
  }

  /** A non-empty run of digits, and nothing else, parses as its value. */
  lemma ParseIntAllDigits(ds: string)
    requires ds != [] && forall i :: 0 <= i < |ds| ==> Text.IsDigit(ds[i])
    ensures ParseInt(ds) == Some(Text.DigitsValue(ds))
  {
    ParseIntDigits(ds, "");
    assert ds + "" == ds;
  }

  /** `parseInt` reads back a zero-padded number. */
  lemma ParseIntPadNat(n: nat, width: nat)
    ensures ParseInt(Text.PadNat(n, width)) == Some(n)
    ensures ':' !in Text.PadNat(n, width)
  {
    ParseIntAllDigits(Text.PadNat(n, width));
    Text.PadNatValue(n, width);
    DigitsHaveNoColon(Text.PadNat(n, width));
  }

  /** `parseInt` reads back a number written in decimal. */
  lemma ParseIntNatToString(n: nat)
    ensures ParseInt(Text.NatToString(n)) == Some(n)
    ensures ':' !in Text.NatToString(n)
  {
    ParseIntAllDigits(Text.NatToString(n));
    Text.NatToStringValue(n);
    DigitsHaveNoColon(Text.NatToString(n));
  }

  /** A zero-padded `"HH:MM"` is `60 * HH + MM` minutes. */
  lemma TimeToMinutesOfClock(h: nat, m: nat)
    ensures TimeToMinutes(Text.PadNat(h, 2) + ":" + Text.PadNat(m, 2)) == Some(h * 60 + m)
  {
    ParseIntPadNat(h, 2);
    ParseIntPadNat(m, 2);
    TimeFields(Text.PadNat(h, 2), Text.PadNat(m, 2), h, m);
  }

  /** Without a colon the whole text is the hour and the minutes count as zero. */
  lemma TimeToMinutesHourOnly(h: nat)
    ensures TimeToMinutes(Text.NatToString(h)) == Some(h * 60)
  {
    ParseIntNatToString(h);
    TimeHourField(Text.NatToString(h), h);
  }

  // ---------------------------------------------------------------------------------
  // Overlap
  // ---------------------------------------------------------------------------------

  /** `newStart < eEnd && newEnd > eStart`, false as soon as one of the four is `NaN`. */
  predicate Overlaps(newStart: Option<int>, newEnd: Option<int>, eStart: Option<int>, eEnd: Option<int>) {
    newStart.Some? && newEnd.Some? && eStart.Some? && eEnd.Some?
    && newStart.value < eEnd.value && newEnd.value > eStart.value
  }

  /** The overlap test is symmetric in its two intervals. */
  lemma OverlapsSymmetric(a: int, b: int, c: int, d: int)
    ensures Overlaps(Some(a), Some(b), Some(c), Some(d)) <==> Overlaps(Some(c), Some(d), Some(a), Some(b))
  {
  }

  /**
   * For non-empty intervals it is exactly whether the half-open intervals `[a, b)` and
   * `[c, d)` share a minute; intervals that only touch do not overlap.
   */
  predicate Within(t: int, lo: int, hi: int) {
    lo <= t < hi
  }

  lemma OverlapsIsIntersection(a: int, b: int, c: int, d: int)
    requires a < b && c < d
    ensures Overlaps(Some(a), Some(b), Some(c), Some(d)) <==> exists t :: Within(t, a, b) && Within(t, c, d)
    ensures !Overlaps(Some(a), Some(b), Some(b), Some(d)) && !Overlaps(Some(a), Some(b), Some(c), Some(a))
  {
    if Overlaps(Some(a), Some(b), Some(c), Some(d)) {
      var t := if a < c then c else a;
      assert Within(t, a, b) && Within(t, c, d);
    }
    forall t | Within(t, a, b) && Within(t, c, d) ensures Overlaps(Some(a), Some(b), Some(c), Some(d)) {
    }
  }

  predicate EntryOverlaps(newStart: Option<int>, newEnd: Option<int>, e: Entry) {
    Overlaps(newStart, newEnd, TimeToMinutes(e.startTime), TimeToMinutes(e.endTime))
  }

  /** `findOverlap`: the first entry, in list order, that the new interval overlaps. */
  function FindOverlap(start: string, end: string, entries: seq<Entry>): (r: Option<Entry>)
    ensures var hit := (e: Entry) => EntryOverlaps(TimeToMinutes(start), TimeToMinutes(end), e);
            && (r.None? <==> forall i :: 0 <= i < |entries| ==> !hit(entries[i]))
            && (r.Some? ==> exists i :: 0 <= i < |entries| && entries[i] == r.value && hit(entries[i])
                                        && forall j :: 0 <= j < i ==> !hit(entries[j]))
  {
    var hit := (e: Entry) => EntryOverlaps(TimeToMinutes(start), TimeToMinutes(end), e);
    var i := Sorting.FindIndex(entries, hit);
    if i < |entries| then Some(entries[i]) else None
  }

  /** A time `parseInt` cannot read is `NaN`, and a `NaN` bound overlaps nothing. */
  lemma UnreadableTimeOverlapsNothing(start: string, end: string, entries: seq<Entry>)
    requires TimeToMinutes(start).None? || TimeToMinutes(end).None?
    ensures FindOverlap(start, end, entries).None?
    ensures TimeToMinutes("").None?
  {
    assert Split("", ':') == [""];
  }

  /** `Overlaps with "<activity>"` for the entry found, no warning otherwise. */
  function WarningFor(overlap: Option<Entry>): Option<string> {
    match overlap
    case None => None
    case Some(e) => Some("Overlaps with \"" + e.activity + "\"")
  }

  // ---------------------------------------------------------------------------------
  // Form state
  // ---------------------------------------------------------------------------------

  class Form {
    var startTime: string
    var endTime: string
    var activity: string
    var error: Option<string>
    var overlapWarning: Option<string>
    var pending: bool

    /** The form as first rendered: empty inputs, no messages, nothing pending. */
    constructor ()
      ensures startTime == "" && endTime == "" && activity == ""
      ensures error.None? && overlapWarning.None? && !pending
      ensures Disabled()
    {
      startTime, endTime, activity := "", "", "";
      error, overlapWarning, pending := None, None, false;
    }

    /** The submit button is disabled while an input is empty or a save is pending; a warning never disables it. */
    predicate Disabled()
      reads this
    {
      startTime == "" || endTime == "" || activity == "" || pending
    }

    /** The start input changed: the warning is recomputed only when both times are filled in. */
    method ChangeStart(val: string, entries: seq<Entry>)
      modifies this
      ensures startTime == val
      ensures endTime == old(endTime) && activity == old(activity) && error == old(error) && pending == old(pending)
      ensures val != "" && endTime != "" ==> overlapWarning == WarningFor(FindOverlap(val, endTime, entries))
      ensures val == "" || endTime == "" ==> overlapWarning == old(overlapWarning)
    {
      startTime := val;
      if val != "" && endTime != "" {
        overlapWarning := WarningFor(FindOverlap(val, endTime, entries));
      }
    }

    /** The end input changed: the warning is recomputed only when both times are filled in. */
    method ChangeEnd(val: string, entries: seq<Entry>)
      modifies this
      ensures endTime == val
      ensures startTime == old(startTime) && activity == old(activity) && error == old(error) && pending == old(pending)
      ensures startTime != "" && val != "" ==> overlapWarning == WarningFor(FindOverlap(startTime, val, entries))
      ensures startTime == "" || val == "" ==> overlapWarning == old(overlapWarning)
    {
      endTime := val;
      if startTime != "" && val != "" {
        overlapWarning := WarningFor(FindOverlap(startTime, val, entries));
      }
    }

    method ChangeActivity(val: string)
      modifies this
      ensures activity == val
      ensures startTime == old(startTime) && endTime == old(endTime)
      ensures error == old(error) && overlapWarning == old(overlapWarning) && pending == old(pending)
    {
      activity := val;
    }

    /** Submitting clears the error, marks the form pending, and hands the three inputs to the add action. */
    method BeginSubmit() returns (start: string, end: string, act: string)
      modifies this
      ensures (start, end, act) == (old(startTime), old(endTime), old(activity))
      ensures error.None? && pending && Disabled()
      ensures startTime == old(startTime) && endTime == old(endTime) && activity == old(activity)
      ensures overlapWarning == old(overlapWarning)
    {
      error := None;
      pending := true;
      start, end, act := startTime, endTime, activity;
    }

    /**
     * The add action answered. Success clears the inputs and the warning; failure keeps
     * the inputs and shows the error.
     */
    method FinishSubmit(success: bool, message: string)
      modifies this
      ensures !pending
      ensures success ==> startTime == "" && endTime == "" && activity == "" && overlapWarning.None?
                          && error == old(error) && Disabled()
      ensures !success ==> error == Some(message) && startTime == old(startTime) && endTime == old(endTime)
                           && activity == old(activity) && overlapWarning == old(overlapWarning)
    {
      pending := false;
      if success {
        startTime, endTime, activity := "", "", "";
        overlapWarning := None;
      } else {
        error := Some(message);
      }
    }
  }
}
