/**
 * The date-selection list: the selected calendar days, kept sorted by time
 * with no day twice, each carrying its `YYYY-MM-DD` text for the API.
 */
module EnterDate {
  import opened Wrappers
  import opened Text
  import opened Lists

  /**
   * A JavaScript `Date` as the date picker hands it over: its local calendar
   * fields (`getFullYear`, `getMonth`, `getDate`), `getDay` and `getTime`.
   */
  datatype CalendarDate = CalendarDate(year: int, month0: int, day: int, weekday: int, time: int)

  /** The ranges a `Date`'s fields always lie in. */
  predicate ValidDate(d: CalendarDate) {
    0 <= d.month0 < 12 && 1 <= d.day <= 31 && 0 <= d.weekday < 7
  }

  /** One selected day: its text for the API and the `Date` it came from. */
  datatype DateEntry = DateEntry(date: string, dateObject: CalendarDate)

  /** What the list passes to its parent: the text only. */
  datatype ApiDate = ApiDate(date: string)

  /** `String(n).padStart(2, '0')`. */
  function Pad2(n: nat): (r: string)
    ensures |r| >= 2 && forall i :: 0 <= i < |r| ==> IsDigit(r[i])
    ensures n < 100 ==> |r| == 2
    ensures DigitsValue(r) == n
  {
    DigitsValueOfNat(n);
    if n < 10 then
      var r := ['0'] + NatToString(n);
      assert r[..1] == "0";
      r
    else NatToString(n)
  }

  /** The `YYYY-MM-DD` text of a date, with the month counted from 1. */
  function FormatDateForAPI(d: CalendarDate): (r: string)
    requires ValidDate(d)
    ensures |r| == |IntToString(d.year)| + 6
    ensures r[..|r| - 6] == IntToString(d.year) && r[|r| - 6] == '-' && r[|r| - 3] == '-'
    ensures r[|r| - 5..|r| - 3] == Pad2(d.month0 + 1) && r[|r| - 2..] == Pad2(d.day)
  {
    IntToString(d.year) + "-" + Pad2(d.month0 + 1) + "-" + Pad2(d.day)
  }

  /** Reads `YYYY-MM-DD` text back into year, month (from 1) and day. */
  function ParseApiDate(s: string): Option<(int, nat, nat)> {
    if |s| < 7 || s[|s| - 6] != '-' || s[|s| - 3] != '-' then None
    else
      var y, m, dd := s[..|s| - 6], s[|s| - 5..|s| - 3], s[|s| - 2..];
      if (forall i :: 0 <= i < |m| ==> IsDigit(m[i])) && (forall i :: 0 <= i < |dd| ==> IsDigit(dd[i])) then
        match ParseInt(y)
        case Some(year) => Some((year, DigitsValue(m), DigitsValue(dd)))
        case None => None
      else None
  }

  /** The text of a date reads back as its year, month and day. */
  lemma FormatParses(d: CalendarDate)
    requires ValidDate(d)
    ensures ParseApiDate(FormatDateForAPI(d)) == Some((d.year, d.month0 + 1, d.day))
  {
    IntToStringRoundTrip(d.year);
  }

  /** The same calendar day, the key the list is kept unique by. */
  predicate SameDay(a: CalendarDate, b: CalendarDate) {
    a.year == b.year && a.month0 == b.month0 && a.day == b.day
  }

  /** Two dates have the same text exactly when they fall on the same calendar day. */
  lemma FormatKeysDay(a: CalendarDate, b: CalendarDate)
    requires ValidDate(a) && ValidDate(b)
    ensures FormatDateForAPI(a) == FormatDateForAPI(b) <==> SameDay(a, b)
  {
    FormatParses(a);
    FormatParses(b);
  }

  predicate SortedByTime(list: seq<DateEntry>) {
    forall i, j :: 0 <= i < j < |list| ==> list[i].dateObject.time <= list[j].dateObject.time
  }

  predicate DistinctDays(list: seq<DateEntry>) {
    forall i, j :: 0 <= i < j < |list| ==> !SameDay(list[i].dateObject, list[j].dateObject)
  }

  /** Every entry's text is the formatted text of its own date. */
  predicate EntriesFormatted(list: seq<DateEntry>) {
    forall i :: 0 <= i < |list| ==> ValidDate(list[i].dateObject) && list[i].date == FormatDateForAPI(list[i].dateObject)
  }

  /** The invariant of the selection: sorted by time, each day once, texts matching dates. */
  predicate WellFormed(list: seq<DateEntry>) {
    SortedByTime(list) && DistinctDays(list) && EntriesFormatted(list)
  }

  /** `selectedDates.some(...)`: some entry falls on the same calendar day. */
  predicate AlreadySelected(list: seq<DateEntry>, d: CalendarDate) {
    exists i :: 0 <= i < |list| && SameDay(list[i].dateObject, d)
  }

  /** How many leading entries are not later than `e`: where a stable sort puts `e`. */
  function InsertPosition(list: seq<DateEntry>, e: DateEntry): (k: nat)
    ensures k <= |list|
    ensures forall i :: 0 <= i < k ==> list[i].dateObject.time <= e.dateObject.time
    ensures k < |list| ==> list[k].dateObject.time > e.dateObject.time
    decreases |list|
  {
    if list == [] || list[0].dateObject.time > e.dateObject.time then 0
    else 1 + InsertPosition(list[1..], e)
  }

  /**
   * `[...list, e].sort(byTime)` on a list that is already sorted: the sort is
   * stable, so `e` lands after every entry whose time is not later than its own.
   */
  function InsertByTime(list: seq<DateEntry>, e: DateEntry): (r: seq<DateEntry>)
    ensures var k := InsertPosition(list, e);
      |r| == |list| + 1 && r[k] == e && r[..k] + r[k + 1..] == list
  {
    var k := InsertPosition(list, e);
    assert (list[..k] + [e] + list[k..])[k + 1..] == list[k..];
    list[..k] + [e] + list[k..]
  }

  /**
   * Inserting into a sorted list gives the sorted arrangement of the old
   * entries plus the new one, with `e` after the entries of equal time.
   */
  lemma InsertByTimeSorts(list: seq<DateEntry>, e: DateEntry)
    requires SortedByTime(list)
    ensures SortedByTime(InsertByTime(list, e))
    ensures multiset(InsertByTime(list, e)) == multiset(list) + multiset{e}
    ensures |InsertByTime(list, e)| == |list| + 1
    ensures forall i :: InsertPosition(list, e) <= i < |list| ==> list[i].dateObject.time > e.dateObject.time
  {
    SortedInsert(list, e, InsertPosition(list, e));
  }

  /** Inserting `e` where it belongs by time keeps a sorted list sorted and adds exactly `e`. */
  lemma SortedInsert(list: seq<DateEntry>, e: DateEntry, k: nat)
    requires SortedByTime(list) && k <= |list|
    requires forall i :: 0 <= i < k ==> list[i].dateObject.time <= e.dateObject.time
    requires k < |list| ==> list[k].dateObject.time > e.dateObject.time
    ensures SortedByTime(list[..k] + [e] + list[k..])
    ensures multiset(list[..k] + [e] + list[k..]) == multiset(list) + multiset{e}
    ensures forall i :: k <= i < |list| ==> list[i].dateObject.time > e.dateObject.time
  {
    forall i | k <= i < |list| ensures list[i].dateObject.time > e.dateObject.time {
      assert list[k].dateObject.time <= list[i].dateObject.time;
    }
    SortedAround(list, e, k);
    assert list == list[..k] + list[k..];
  }

  /** The order of the list with `e` inserted at `k`, given where `e` falls by time. */
  lemma SortedAround(list: seq<DateEntry>, e: DateEntry, k: nat)
    requires SortedByTime(list) && k <= |list|
    requires forall i :: 0 <= i < k ==> list[i].dateObject.time <= e.dateObject.time
    requires forall i :: k <= i < |list| ==> list[i].dateObject.time > e.dateObject.time
    ensures SortedByTime(list[..k] + [e] + list[k..])
  {
    var r := list[..k] + [e] + list[k..];
    InsertedAt(list, e, k);
    forall i, j | 0 <= i < j < |r| ensures r[i].dateObject.time <= r[j].dateObject.time {
      if i != k && j != k {
        var a, b := if i < k then i else i - 1, if j < k then j else j - 1;
        assert r[i] == list[a] && r[j] == list[b] && a <= b;
      }
    }
  }

  /**
   * `handleDateChange`: nothing for a missing date or a day already selected;
   * otherwise the entry for the new day, inserted by time.
   */
  function AddDate(list: seq<DateEntry>, date: Option<CalendarDate>): (r: seq<DateEntry>)
    requires SortedByTime(list)
    requires date.Some? ==> ValidDate(date.value)
    ensures date.None? || AlreadySelected(list, date.value) ==> r == list
    ensures date.Some? && !AlreadySelected(list, date.value) ==>
              exists k :: 0 <= k < |r| && r[k] == DateEntry(FormatDateForAPI(date.value), date.value) &&
                          r[..k] + r[k + 1..] == list
  {
    match date
    case None => list
    case Some(d) =>
      if AlreadySelected(list, d) then list
      else InsertByTime(list, DateEntry(FormatDateForAPI(d), d))
  }

  /** Inserting an entry for a day not yet present keeps the days distinct. */
  lemma InsertKeepsDistinct(list: seq<DateEntry>, e: DateEntry, k: nat)
    requires DistinctDays(list) && k <= |list|
    requires !AlreadySelected(list, e.dateObject)
    ensures DistinctDays(list[..k] + [e] + list[k..])
  {
    var r := list[..k] + [e] + list[k..];
    InsertedAt(list, e, k);
    forall i, j | 0 <= i < j < |r| ensures !SameDay(r[i].dateObject, r[j].dateObject) {
      if i != k && j != k {
        var a, b := if i < k then i else i - 1, if j < k then j else j - 1;
        assert r[i] == list[a] && r[j] == list[b] && a < b;
      } else if i == k {
        assert r[j] == list[j - 1];
      } else {
        assert r[i] == list[i];
      }
    }
  }

  /** Inserting a formatted entry keeps every entry's text that of its date. */
  lemma InsertKeepsFormatted(list: seq<DateEntry>, e: DateEntry, k: nat)
    requires EntriesFormatted(list) && k <= |list|
    requires ValidDate(e.dateObject) && e.date == FormatDateForAPI(e.dateObject)
    ensures EntriesFormatted(list[..k] + [e] + list[k..])
  {
    InsertedAt(list, e, k);
  }

  /** Adding keeps the invariant; a new day grows the list by exactly its own entry. */
  lemma AddDateKeepsWellFormed(list: seq<DateEntry>, date: Option<CalendarDate>)
    requires WellFormed(list)
    requires date.Some? ==> ValidDate(date.value)
    ensures WellFormed(AddDate(list, date))
    ensures date.None? || AlreadySelected(list, date.value) ==> AddDate(list, date) == list
    ensures date.Some? && !AlreadySelected(list, date.value) ==>
              |AddDate(list, date)| == |list| + 1 &&
              multiset(AddDate(list, date)) == multiset(list) + multiset{DateEntry(FormatDateForAPI(date.value), date.value)}
  {
    if date.Some? && !AlreadySelected(list, date.value) {
      var d := date.value;
      var e := DateEntry(FormatDateForAPI(d), d);
      var k := InsertPosition(list, e);
      InsertByTimeSorts(list, e);
      InsertKeepsDistinct(list, e, k);
      InsertKeepsFormatted(list, e, k);
    }
  }

  /** Removing an entry keeps the invariant. */
  lemma RemoveKeepsWellFormed(list: seq<DateEntry>, index: int)
    requires WellFormed(list)
    ensures WellFormed(RemoveAt(list, index))
  {
    if 0 <= index < |list| {
      RemoveKeepsOrder(list, index);
      RemoveKeepsDistinct(list, index);
      RemovedAt(list, index);
    }
  }

  /** Removing an entry keeps the rest sorted. */
  lemma RemoveKeepsOrder(list: seq<DateEntry>, index: nat)
    requires SortedByTime(list) && index < |list|
    ensures SortedByTime(list[..index] + list[index + 1..])
  {
    RemovedAt(list, index);
    var r := list[..index] + list[index + 1..];
    forall i, j | 0 <= i < j < |r| ensures r[i].dateObject.time <= r[j].dateObject.time {
      var a, b := if i < index then i else i + 1, if j < index then j else j + 1;
      assert r[i] == list[a] && r[j] == list[b] && a < b;
    }
  }

  /** Removing an entry keeps the remaining days distinct. */
  lemma RemoveKeepsDistinct(list: seq<DateEntry>, index: nat)
    requires DistinctDays(list) && index < |list|
    ensures DistinctDays(list[..index] + list[index + 1..])
  {
    RemovedAt(list, index);
    var r := list[..index] + list[index + 1..];
    forall i, j | 0 <= i < j < |r| ensures !SameDay(r[i].dateObject, r[j].dateObject) {
      var a, b := if i < index then i else i + 1, if j < index then j else j + 1;
      assert r[i] == list[a] && r[j] == list[b] && a < b;
    }
  }

  /** `updateDates`' projection: the texts, in the same order. */
  function Projection(list: seq<DateEntry>): (r: seq<ApiDate>)
    ensures |r| == |list|
    ensures forall i :: 0 <= i < |list| ==> r[i] == ApiDate(list[i].date)
  {
    seq(|list|, i requires 0 <= i < |list| => ApiDate(list[i].date))
  }

  /** In a well-formed list the projected texts are all different: one per calendar day. */
  lemma ProjectionDistinct(list: seq<DateEntry>)
    requires WellFormed(list)
    ensures forall i, j :: 0 <= i < j < |list| ==> Projection(list)[i] != Projection(list)[j]
  {
    forall i, j | 0 <= i < j < |list| ensures Projection(list)[i] != Projection(list)[j] {
      FormatKeysDay(list[i].dateObject, list[j].dateObject);
    }
  }

  /** `isWeekend`: Friday (5) and Saturday (6), the days the picker refuses. */
  predicate IsWeekend(d: CalendarDate) {
    d.weekday == 5 || d.weekday == 6
  }

  /** No selected day is a Friday or a Saturday. */
  predicate NoWeekend(list: seq<DateEntry>) {
    forall i :: 0 <= i < |list| ==> !IsWeekend(list[i].dateObject)
  }

  /**
   * The picker offers only days that are not weekends (`filterDate`), so a
   * selection built from what it offers never holds a Friday or a Saturday,
   * whatever is then added or removed.
   */
  lemma SelectionAvoidsWeekend(list: seq<DateEntry>, date: Option<CalendarDate>, index: int)
    requires SortedByTime(list) && NoWeekend(list)
    requires date.Some? ==> ValidDate(date.value) && !IsWeekend(date.value)
    ensures NoWeekend(AddDate(list, date))
    ensures NoWeekend(RemoveAt(list, index))
  {
    if date.Some? && !AlreadySelected(list, date.value) {
      InsertKeepsWeekdays(list, DateEntry(FormatDateForAPI(date.value), date.value));
    }
    RemoveKeepsWeekdays(list, index);
  }

  /** Removing any entry from a list of weekdays leaves a list of weekdays. */
  lemma RemoveKeepsWeekdays(list: seq<DateEntry>, index: int)
    requires NoWeekend(list)
    ensures NoWeekend(RemoveAt(list, index))
  {
    if 0 <= index < |list| {
      RemovedAt(list, index);
    }
  }

  /** Inserting a weekday entry into a list of weekdays gives a list of weekdays. */
  lemma InsertKeepsWeekdays(list: seq<DateEntry>, e: DateEntry)
    requires NoWeekend(list) && !IsWeekend(e.dateObject)
    ensures NoWeekend(InsertByTime(list, e))
  {
    InsertedAt(list, e, InsertPosition(list, e));
  }

  /** The date picker component's state: the selected days. */
  class DatePicker {
    var selectedDates: seq<DateEntry>

    ghost predicate Valid()
      reads this
    {
      WellFormed(selectedDates)
    }

    constructor ()
      ensures Valid() && selectedDates == []
    {
      selectedDates := [];
    }

    /** `updateDates`: replaces the list and returns what the parent is told. */
    method UpdateDates(newDates: seq<DateEntry>) returns (notified: seq<ApiDate>)
      modifies this
      ensures selectedDates == newDates
      ensures notified == Projection(newDates)
    {
      selectedDates := newDates;
      notified := Projection(newDates);
    }

    /** `handleDateChange`: the parent is told only when the list changes. */
    method HandleDateChange(date: Option<CalendarDate>) returns (notified: Option<seq<ApiDate>>)
      requires Valid()
      requires date.Some? ==> ValidDate(date.value)
      modifies this
      ensures Valid()
      ensures selectedDates == AddDate(old(selectedDates), date)
      ensures notified.None? <==> date.None? || AlreadySelected(old(selectedDates), date.value)
      ensures notified.Some? ==> notified.value == Projection(selectedDates)
    {
      AddDateKeepsWellFormed(selectedDates, date);
      notified := None;
      if date.Some? {
        var d := date.value;
        if !AlreadySelected(selectedDates, d) {
          var updated := InsertByTime(selectedDates, DateEntry(FormatDateForAPI(d), d));
          var told := UpdateDates(updated);
          notified := Some(told);
        }
      }
    }

    /** `removeDate`. */
    method RemoveDate(index: int) returns (notified: seq<ApiDate>)
      requires Valid()
      modifies this
      ensures Valid()
      ensures selectedDates == RemoveAt(old(selectedDates), index)
      ensures notified == Projection(selectedDates)
    {
      RemoveKeepsWellFormed(selectedDates, index);
      notified := UpdateDates(RemoveAt(selectedDates, index));
    }

    /** `clearAllDates`. */
    method ClearAllDates() returns (notified: seq<ApiDate>)
      modifies this
      ensures Valid()
      ensures selectedDates == [] && notified == []
    {
      notified := UpdateDates([]);
    }
  }
}
