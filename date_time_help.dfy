/** Week boundaries and the weekly availability grid (helpers/dateTimeHelp.js).
  *
  * Weeks run Monday to Sunday. The grid has one row per wall-clock time of
  * day ("HHMM") and, in each row, one field per day of the week that is
  * "available" when some slot of the week falls on that day at that time.
  */
module DateTimeHelp {
  import opened Calendar
  import opened OrderedKeys

  // ---------------------------------------------------------------------
  // Week window
  // ---------------------------------------------------------------------

  /** getStartOfWeek: Monday 00:00:00 of the week of t. A Sunday goes back
    * six days, any other day d goes back d - 1 days. */
  function StartOfWeek(t: Instant): (r: Instant)
    ensures DayOfWeek(r) == 1
    ensures SecondOfDay(r) == 0
    ensures DayNumber(t) - 6 <= DayNumber(r) <= DayNumber(t)
    ensures r <= t < r + 7 * 86400
  {
    var day := DayOfWeek(t);
    var dateAtStart := DayNumber(t) - day + (if day == 0 then -6 else 1);
    MidnightOfDay(dateAtStart);
    dateAtStart * 86400
  }

  /** getEndOfWeek: the Sunday six days after StartOfWeek(t), at 23:59:59. */
  function EndOfWeek(t: Instant): (r: Instant)
    ensures r - StartOfWeek(t) == 6 * 86400 + 23 * 3600 + 59 * 60 + 59
    ensures DayOfWeek(r) == 0
    ensures SecondOfDay(r) == 23 * 3600 + 59 * 60 + 59
    ensures t <= r < t + 7 * 86400
  {
    var start := StartOfWeek(t);
    var end := DayNumber(start) + 6;
    InstantOfDay(end, 86399);
    SixDaysAfterMonday(DayNumber(start));
    end * 86400 + 23 * 3600 + 59 * 60 + 59
  }

  /** Every Monday midnight m with m <= t < m + 7 days is StartOfWeek(t):
    * the week of t has exactly one start. */
  lemma MondayIsStartOfWeek(t: Instant, m: Instant)
    requires DayOfWeek(m) == 1 && SecondOfDay(m) == 0
    requires m <= t < m + 7 * 86400
    ensures m == StartOfWeek(t)
  {
    var r := StartOfWeek(t);
    var dm, dr := DayNumber(m), DayNumber(r);
    assert m == dm * 86400 && r == dr * 86400;
    assert -7 < dm - dr < 7;
    var qm, qr := (dm + 4) / 7, (dr + 4) / 7;
    assert dm + 4 == 7 * qm + 1;
    assert dr + 4 == 7 * qr + 1;
    assert dm - dr == 7 * (qm - qr);
  }

  /** getStartOfWeek is idempotent: a Monday goes back zero days. */
  lemma StartOfWeekIdempotent(t: Instant)
    ensures StartOfWeek(StartOfWeek(t)) == StartOfWeek(t)
  {
    MondayIsStartOfWeek(StartOfWeek(t), StartOfWeek(t));
  }

  /** All instants of one week share their start and their end. */
  lemma SameWeek(t: Instant, u: Instant)
    requires StartOfWeek(t) <= u <= EndOfWeek(t)
    ensures StartOfWeek(u) == StartOfWeek(t) && EndOfWeek(u) == EndOfWeek(t)
  {
    MondayIsStartOfWeek(u, StartOfWeek(t));
  }

  /** Wednesday 2024-01-03 lies in the week 2024-01-01 00:00:00 to
    * 2024-01-07 23:59:59. */
  lemma WeekOfJanuaryThird2024()
    ensures StartOfWeek(LocalMidnight(2024, 0, 3)) == 1704067200
    ensures EndOfWeek(LocalMidnight(2024, 0, 3)) == 1704671999
  {
    January2024();
    MidnightOfDay(19723);
    MondayIsStartOfWeek(1704240000, 1704067200);
  }

  // ---------------------------------------------------------------------
  // Time-of-day keys "HHMM"
  // ---------------------------------------------------------------------

  function DigitChar(n: int): (c: char)
    requires 0 <= n < 10
    ensures '0' <= c <= '9'
    ensures DigitValue(c) == n
  {
    (48 + n) as char
  }

  /** The value of a decimal digit character. */
  function DigitValue(c: char): (v: int)
    ensures '0' <= c <= '9' <==> 0 <= v <= 9
  {
    c as int - 48
  }

  /** `${n}` for a number below 100: one digit below 10, two digits from 10
    * on, reading back as n either way. */
  function Decimal(n: int): (s: string)
    requires 0 <= n < 100
    ensures |s| == (if n < 10 then 1 else 2)
    ensures forall i :: 0 <= i < |s| ==> '0' <= s[i] <= '9'
    ensures n < 10 ==> DigitValue(s[0]) == n
    ensures 10 <= n ==> DigitValue(s[0]) * 10 + DigitValue(s[1]) == n
  {
    if n < 10 then [DigitChar(n)] else [DigitChar(n / 10), DigitChar(n % 10)]
  }

  /** `n < 10 ? `0${n}` : `${n}``. */
  function Pad2(n: int): (s: string)
    requires 0 <= n < 100
    ensures |s| == 2
    ensures '0' <= s[0] <= '9' && '0' <= s[1] <= '9'
    ensures DigitValue(s[0]) * 10 + DigitValue(s[1]) == n
  {
    if n < 10 then "0" + Decimal(n) else Decimal(n)
  }

  /** Reads a key "HHMM" back as (hours, minutes). */
  function ParseKey(key: string): (hm: (int, int))
    requires |key| == 4
    ensures (forall i :: 0 <= i < 4 ==> '0' <= key[i] <= '9') ==> 0 <= hm.0 <= 99 && 0 <= hm.1 <= 99
  {
    (DigitValue(key[0]) * 10 + DigitValue(key[1]), DigitValue(key[2]) * 10 + DigitValue(key[3]))
  }

  /** The row key of a wall-clock instant: four decimal digits HHMM that
    * read back as its hours (00..23) and minutes (00..59). */
  function TimeKey(local: Instant): (key: string)
    ensures |key| == 4
    ensures forall i :: 0 <= i < 4 ==> '0' <= key[i] <= '9'
    ensures ParseKey(key) == (Hours(local), Minutes(local))
  {
    Pad2(Hours(local)) + Pad2(Minutes(local))
  }

  /** Two instants share a row key exactly when they share hours and minutes. */
  lemma TimeKeyInjective(a: Instant, b: Instant)
    ensures TimeKey(a) == TimeKey(b) <==> Hours(a) == Hours(b) && Minutes(a) == Minutes(b)
  {
    if TimeKey(a) == TimeKey(b) {
      assert ParseKey(TimeKey(a)) == ParseKey(TimeKey(b));
    }
  }

  // ---------------------------------------------------------------------
  // Grid rows
  // ---------------------------------------------------------------------

  const Available: string := "available"

  /** mapDayOfWeek: the name of the day field for each getDay() number. */
  const MapDayOfWeek: seq<string> := ["su", "m", "t", "w", "th", "f", "s"]

  /** The seven day fields of one row, each "available" or "". */
  datatype Week = Week(m: string, t: string, w: string, th: string, f: string, s: string, su: string)
  {
    /** week[mapDayOfWeek[d]], where mapDayOfWeek is
      * ['su', 'm', 't', 'w', 'th', 'f', 's'] indexed by getDay(). */
    function Day(d: Weekday): string
    {
      if d == 0 then su
      else if d == 1 then m
      else if d == 2 then t
      else if d == 3 then w
      else if d == 4 then th
      else if d == 5 then f
      else s
    }

    /** week[name]: the day field of the given name. */
    function Field(name: string): string
      requires name in MapDayOfWeek
    {
      if name == "m" then m
      else if name == "t" then t
      else if name == "w" then w
      else if name == "th" then th
      else if name == "f" then f
      else if name == "s" then s
      else su
    }

    /** Day(d) is the field that mapDayOfWeek names for d. */
    lemma DayIsField(d: Weekday)
      ensures Day(d) == Field(MapDayOfWeek[d])
    {
    }

    /** week[mapDayOfWeek[d]] = v */
    function With(d: Weekday, v: string): (r: Week)
      ensures r.Day(d) == v
      ensures forall e: Weekday :: e != d ==> r.Day(e) == Day(e)
    {
      if d == 0 then this.(su := v)
      else if d == 1 then this.(m := v)
      else if d == 2 then this.(t := v)
      else if d == 3 then this.(w := v)
      else if d == 4 then this.(th := v)
      else if d == 5 then this.(f := v)
      else this.(s := v)
    }
  }

  /** {m: '', t: '', w: '', th: '', f: '', s: '', su: ''} */
  const EmptyWeek: Week := Week("", "", "", "", "", "", "")

  /** The seven day fields determine a row's days. */
  lemma WeekExtensionality(a: Week, b: Week)
    requires forall d: Weekday :: a.Day(d) == b.Day(d)
    ensures a == b
  {
    assert a.Day(0) == b.Day(0) && a.Day(1) == b.Day(1) && a.Day(2) == b.Day(2);
    assert a.Day(3) == b.Day(3) && a.Day(4) == b.Day(4) && a.Day(5) == b.Day(5);
    assert a.Day(6) == b.Day(6);
  }

  /** {time, ...week}: one row of the returned grid. */
  datatype GridRow = GridRow(time: string, week: Week)

  // ---------------------------------------------------------------------
  // What the grid of a list of slots is
  // ---------------------------------------------------------------------

  /** What one stored instant contributes to the grid when seen with viewer
    * offset tz: its row key "HHMM" and its day of the week. */
  function Stamp(x: Instant, tz: int): (stamp: (string, Weekday))
    ensures |stamp.0| == 4 && ParseKey(stamp.0) == (Hours(ToLocal(x, tz)), Minutes(ToLocal(x, tz)))
  {
    var local := ToLocal(x, tz);
    (TimeKey(local), DayOfWeek(local))
  }

  /** The stamps of the slots, in the same order. */
  function Stamps(slots: seq<Instant>, tz: int): (st: seq<(string, Weekday)>)
    ensures |st| == |slots|
  {
    if slots == [] then []
    else Stamps(slots[..|slots| - 1], tz) + [Stamp(slots[|slots| - 1], tz)]
  }

  /** The j-th stamp is the stamp of the j-th slot. */
  lemma {:induction false} StampAt(slots: seq<Instant>, tz: int, j: int)
    requires 0 <= j < |slots|
    ensures Stamps(slots, tz)[j] == Stamp(slots[j], tz)
  {
    if j < |slots| - 1 {
      var init := slots[..|slots| - 1];
      StampAt(init, tz, j);
    }
  }

  function Keys(st: seq<(string, Weekday)>): (keys: seq<string>)
    ensures |keys| == |st|
  {
    seq(|st|, i requires 0 <= i < |st| => st[i].0)
  }

  /** The rows' keys are the distinct keys of st, in the order they first occur. */
  ghost predicate KeysInOrder(st: seq<(string, Weekday)>, rows: seq<GridRow>)
  {
    var keys := FirstSeen(Keys(st));
    && |rows| == |keys|
    && forall i :: 0 <= i < |rows| ==> rows[i].time == keys[i]
  }

  /** The field of day d in the row of key k is "available" exactly when
    * (k, d) is among the stamps st, and "" otherwise. */
  ghost predicate DaysMarked(st: seq<(string, Weekday)>, rows: seq<GridRow>)
  {
    forall i, d: Weekday :: 0 <= i < |rows| ==>
      rows[i].week.Day(d) == if (rows[i].time, d) in st then Available else ""
  }

  /** rows is the grid of the stamps st: one row per distinct key, in the
    * order the keys first occur, with the days of each key marked. */
  ghost predicate IsGridOf(st: seq<(string, Weekday)>, rows: seq<GridRow>)
  {
    KeysInOrder(st, rows) && DaysMarked(st, rows)
  }

  /** rows is the grid of the stored instants slots seen with offset tz. */
  ghost predicate IsGrid(slots: seq<Instant>, tz: int, rows: seq<GridRow>)
  {
    IsGridOf(Stamps(slots, tz), rows)
  }

  /** A key is a row of the grid exactly when some stamp has it. */
  lemma GridHasKey(st: seq<(string, Weekday)>, rows: seq<GridRow>, key: string)
    requires IsGridOf(st, rows)
    ensures IndexOfKey(rows, key) == |rows| <==> key !in Keys(st)
  {
    var keys := Keys(st);
    if key in keys {
      var q :| 0 <= q < |FirstSeen(keys)| && FirstSeen(keys)[q] == key;
      assert rows[q].time == key;
    }
  }

  // ---------------------------------------------------------------------
  // structureAvailability
  // ---------------------------------------------------------------------

  /** Map.prototype.has / get over the Map's entries in insertion order:
    * the position of key, or |entries| when it is absent. */
  function IndexOfKey(entries: seq<GridRow>, key: string): (p: nat)
    ensures p <= |entries|
    ensures p < |entries| ==> entries[p].time == key
    ensures p == |entries| ==> forall i :: 0 <= i < |entries| ==> entries[i].time != key
  {
    if entries == [] then 0
    else if entries[0].time == key then 0
    else 1 + IndexOfKey(entries[1..], key)
  }

  /** structureAvailability: folds the slots of a week, seen with viewer
    * offset tz, into the weekly grid, then emits the Map's entries in
    * insertion order. */
  method StructureAvailability(availability: seq<Instant>, tz: int) returns (structured: seq<GridRow>)
    ensures IsGrid(availability, tz, structured)
  {
    var availabilityMap := GroupByTime(availability, tz);
    structured := [];
    var i := 0;
    while i < |availabilityMap|
      invariant 0 <= i <= |availabilityMap|
      invariant structured == availabilityMap[..i]
    {
      structured := structured + [GridRow(availabilityMap[i].time, availabilityMap[i].week)];
      i := i + 1;
    }
  }

  /** The first loop of structureAvailability: the Map from "HHMM" to the
    * week row, kept as its entries in insertion order. */
  method GroupByTime(availability: seq<Instant>, tz: int) returns (availabilityMap: seq<GridRow>)
    ensures IsGrid(availability, tz, availabilityMap)
  {
    ghost var st: seq<(string, Weekday)> := [];
    availabilityMap := [];
    var k := 0;
    while k < |availability|
      invariant 0 <= k <= |availability|
      invariant st == Stamps(availability[..k], tz)
      invariant IsGridOf(st, availabilityMap)
    {
      var availTime := ToLocal(availability[k], tz);
      var time := TimeKey(availTime);
      var day := DayOfWeek(availTime);
      ghost var next := st + [(time, day)];
      assert next == Stamps(availability[..k + 1], tz) by {
        assert availability[..k + 1][..k] == availability[..k];
      }
      var week := EmptyWeek;
      var p := IndexOfKey(availabilityMap, time);
      if p < |availabilityMap| {
        week := availabilityMap[p].week;
        week := week.With(day, Available);
        RepeatedKeyStep(st, time, day, availabilityMap, p, next);
        // availabilityMap.set(time, week) on a key already present
        availabilityMap := availabilityMap[p := GridRow(time, week)];
      } else {
        week := week.With(day, Available);
        GridHasKey(st, availabilityMap, time);
        FreshKeyStep(st, time, day, availabilityMap, next);
        // availabilityMap.set(time, week) on a new key
        availabilityMap := availabilityMap + [GridRow(time, week)];
      }
      st := next;
      k := k + 1;
    }
    assert availability[..k] == availability;
  }

  lemma KeysAppend(st: seq<(string, Weekday)>, key: string, day: Weekday)
    ensures Keys(st + [(key, day)]) == Keys(st) + [key]
  {
  }

  /** Adding a stamp with another key does not change which days key k has. */
  lemma OtherKeyDays(st: seq<(string, Weekday)>, key: string, day: Weekday, k: string, d: Weekday)
    requires k != key
    ensures (k, d) in st + [(key, day)] <==> (k, d) in st
  {
  }

  /** Marking day `day` in the row of key adds exactly the stamp (key, day). */
  lemma MarkedRowDays(st: seq<(string, Weekday)>, key: string, day: Weekday, week: Week, d: Weekday)
    requires week.Day(d) == if (key, d) in st then Available else ""
    ensures week.With(day, Available).Day(d) == if (key, d) in st + [(key, day)] then Available else ""
  {
  }

  /** Rewriting row p, which has key `key`, with the day `day` marked keeps
    * every row's days marked after the stamp (key, day). */
  lemma RepeatedKeyDays(st: seq<(string, Weekday)>, key: string, day: Weekday, rows: seq<GridRow>, p: nat)
    requires DaysMarked(st, rows)
    requires p < |rows| && rows[p].time == key
    requires forall i :: 0 <= i < |rows| && i != p ==> rows[i].time != key
    ensures DaysMarked(st + [(key, day)], rows[p := GridRow(key, rows[p].week.With(day, Available))])
  {
    var rows' := rows[p := GridRow(key, rows[p].week.With(day, Available))];
    forall i, d: Weekday | 0 <= i < |rows'|
      ensures rows'[i].week.Day(d) == if (rows'[i].time, d) in st + [(key, day)] then Available else ""
    {
      if i == p {
        MarkedRowDays(st, key, day, rows[p].week, d);
      } else {
        OtherKeyDays(st, key, day, rows[i].time, d);
      }
    }
  }

  /** A stamp whose key already has row p sets that row's field for its day. */
  lemma RepeatedKeyStep(st: seq<(string, Weekday)>, key: string, day: Weekday, rows: seq<GridRow>, p: nat,
                        next: seq<(string, Weekday)>)
    requires IsGridOf(st, rows)
    requires p < |rows| && rows[p].time == key
    requires next == st + [(key, day)]
    ensures IsGridOf(next, rows[p := GridRow(key, rows[p].week.With(day, Available))])
  {
    KeysAppend(st, key, day);
    assert key in Keys(st) by {
      assert key in FirstSeen(Keys(st));
    }
    FirstSeenRepeat(Keys(st), key);
    RepeatedKeyDays(st, key, day, rows, p);
  }

  /** Appending a row for a key with no stamps so far, with only `day`
    * marked, keeps every row's days marked after the stamp (key, day). */
  lemma FreshKeyDays(st: seq<(string, Weekday)>, key: string, day: Weekday, rows: seq<GridRow>)
    requires DaysMarked(st, rows)
    requires forall i :: 0 <= i < |rows| ==> rows[i].time != key
    requires forall d: Weekday :: (key, d) !in st
    ensures DaysMarked(st + [(key, day)], rows + [GridRow(key, EmptyWeek.With(day, Available))])
  {
    var rows' := rows + [GridRow(key, EmptyWeek.With(day, Available))];
    forall i, d: Weekday | 0 <= i < |rows'|
      ensures rows'[i].week.Day(d) == if (rows'[i].time, d) in st + [(key, day)] then Available else ""
    {
      if i == |rows| {
        MarkedRowDays(st, key, day, EmptyWeek, d);
      } else {
        assert rows'[i] == rows[i];
        OtherKeyDays(st, key, day, rows[i].time, d);
      }
    }
  }

  /** A stamp with a new key appends a row holding only its day. */
  lemma FreshKeyStep(st: seq<(string, Weekday)>, key: string, day: Weekday, rows: seq<GridRow>,
                     next: seq<(string, Weekday)>)
    requires IsGridOf(st, rows)
    requires key !in Keys(st)
    requires next == st + [(key, day)]
    ensures IsGridOf(next, rows + [GridRow(key, EmptyWeek.With(day, Available))])
  {
    KeysAppend(st, key, day);
    FirstSeenFresh(Keys(st), key);
    forall d: Weekday
      ensures (key, d) !in st
    {
      assert forall j :: 0 <= j < |st| ==> Keys(st)[j] == st[j].0;
    }
    forall i | 0 <= i < |rows|
      ensures rows[i].time != key
    {
      assert rows[i].time in FirstSeen(Keys(st));
    }
    FreshKeyDays(st, key, day, rows);
  }

  // ---------------------------------------------------------------------
  // Properties of the grid
  // ---------------------------------------------------------------------

  /** The grid has no more rows than slots (none for no slots), distinct
    * row keys, day fields that are "available" or "", and every slot is
    * shown as "available" in the row of its key on its day. */
  lemma GridShape(slots: seq<Instant>, tz: int, rows: seq<GridRow>)
    requires IsGrid(slots, tz, rows)
    ensures |rows| <= |slots|
    ensures slots == [] ==> rows == []
    ensures forall i, j :: 0 <= i < j < |rows| ==> rows[i].time != rows[j].time
    ensures forall i, d: Weekday :: 0 <= i < |rows| ==> rows[i].week.Day(d) in {Available, ""}
    ensures forall j :: 0 <= j < |slots| ==>
              exists i :: 0 <= i < |rows| && rows[i].time == Stamp(slots[j], tz).0 &&
                          rows[i].week.Day(Stamp(slots[j], tz).1) == Available
  {
    var st := Stamps(slots, tz);
    var keys := Keys(st);
    var firsts := FirstSeen(keys);
    forall j | 0 <= j < |slots|
      ensures exists i :: 0 <= i < |rows| && rows[i].time == Stamp(slots[j], tz).0 &&
                          rows[i].week.Day(Stamp(slots[j], tz).1) == Available
    {
      StampAt(slots, tz, j);
      assert keys[j] == st[j].0 && keys[j] in keys;
      assert keys[j] in firsts;
      var q :| 0 <= q < |firsts| && firsts[q] == keys[j];
      assert rows[q].time == st[j].0;
      assert (rows[q].time, st[j].1) in st;
    }
  }

  /** Every row key is four digits HHMM with HH in 00..23 and MM in 00..59:
    * the hours and minutes of some slot seen with offset tz. */
  lemma GridKeysWellFormed(slots: seq<Instant>, tz: int, rows: seq<GridRow>, i: int)
    requires IsGrid(slots, tz, rows)
    requires 0 <= i < |rows|
    ensures |rows[i].time| == 4 && forall c :: 0 <= c < 4 ==> '0' <= rows[i].time[c] <= '9'
    ensures ParseKey(rows[i].time).0 < 24 && ParseKey(rows[i].time).1 < 60
    ensures exists j :: 0 <= j < |slots| &&
              ParseKey(rows[i].time) == (Hours(ToLocal(slots[j], tz)), Minutes(ToLocal(slots[j], tz)))
  {
    var keys := Keys(Stamps(slots, tz));
    assert rows[i].time in keys;
    var j :| 0 <= j < |keys| && keys[j] == rows[i].time;
    StampAt(slots, tz, j);
    assert rows[i].time == TimeKey(ToLocal(slots[j], tz));
  }

  /** Rows come out in the order their keys first occur among the slots. */
  lemma GridFirstSeenOrder(slots: seq<Instant>, tz: int, rows: seq<GridRow>, i: int, j: int)
    requires IsGrid(slots, tz, rows)
    requires 0 <= i < j < |rows|
    ensures rows[i].time in Keys(Stamps(slots, tz)) && rows[j].time in Keys(Stamps(slots, tz))
    ensures FirstIndex(Keys(Stamps(slots, tz)), rows[i].time) < FirstIndex(Keys(Stamps(slots, tz)), rows[j].time)
  {
    FirstSeenOrder(Keys(Stamps(slots, tz)), i, j);
  }

  /** The grid of a list of stamps is unique. */
  lemma GridOfUnique(st: seq<(string, Weekday)>, a: seq<GridRow>, b: seq<GridRow>)
    requires IsGridOf(st, a) && IsGridOf(st, b)
    ensures a == b
  {
    forall i | 0 <= i < |a|
      ensures a[i] == b[i]
    {
      WeekExtensionality(a[i].week, b[i].week);
    }
  }

  /** The grid of a list of slots is unique: building it twice from the same
    * slots and offset gives the same rows in the same order. */
  lemma GridDeterministic(slots: seq<Instant>, tz: int, a: seq<GridRow>, b: seq<GridRow>)
    requires IsGrid(slots, tz, a) && IsGrid(slots, tz, b)
    ensures a == b
  {
    GridOfUnique(Stamps(slots, tz), a, b);
  }

  /** The same wall-clock time a week later has the same key and day. */
  lemma StampWeekLater(x: Instant, tz: int)
    ensures Stamp(x + 7 * 86400, tz) == Stamp(x, tz)
  {
    var l := ToLocal(x, tz);
    assert ToLocal(x + 7 * 86400, tz) == l + 7 * 86400;
    assert DayNumber(l + 7 * 86400) == DayNumber(l) + 7;
    assert SecondOfDay(l + 7 * 86400) == SecondOfDay(l);
    DayOfWeekWeekLater(l);
  }

  /** A slot whose key and day repeat those of an earlier slot, such as the
    * same time a week later, changes nothing. */
  lemma GridRepeatIgnored(slots: seq<Instant>, tz: int, rows: seq<GridRow>, j: int, x: Instant)
    requires 0 <= j < |slots| && Stamp(x, tz) == Stamp(slots[j], tz)
    ensures IsGrid(slots + [x], tz, rows) <==> IsGrid(slots, tz, rows)
  {
    var st := Stamps(slots, tz);
    StampAt(slots, tz, j);
    assert (slots + [x])[..|slots|] == slots;
    RepeatedStampIgnored(st, rows, j);
  }

  /** Repeating one of the stamps leaves the grid unchanged. */
  lemma RepeatedStampIgnored(st: seq<(string, Weekday)>, rows: seq<GridRow>, j: int)
    requires 0 <= j < |st|
    ensures IsGridOf(st + [st[j]], rows) <==> IsGridOf(st, rows)
  {
    var x := st[j];
    KeysAppend(st, x.0, x.1);
    assert Keys(st)[j] == x.0;
    FirstSeenRepeat(Keys(st), x.0);
    assert forall y :: y in st + [x] <==> y in st;
  }

  /** Seen with offset 0, Wednesday 2024-01-03 18:30 and Friday
    * 2024-01-05 18:30 stamp key "1830" on days 3 and 5. */
  lemma WednesdayAndFridayStamps()
    ensures Stamps([1704306600, 1704479400], 0) == [("1830", 3), ("1830", 5)]
  {
    MidnightOfDay(19725);
    MidnightOfDay(19727);
    assert SecondOfDay(1704306600) == 66600 && DayNumber(1704306600) == 19725;
    assert SecondOfDay(1704479400) == 66600 && DayNumber(1704479400) == 19727;
    assert Hours(1704306600) == 18 && Minutes(1704306600) == 30;
    assert Hours(1704479400) == 18 && Minutes(1704479400) == 30;
    assert Pad2(18) == "18" && Pad2(30) == "30";
    assert TimeKey(1704306600) == "1830" && TimeKey(1704479400) == "1830";
    assert DayOfWeek(1704306600) == 3 && DayOfWeek(1704479400) == 5;
    assert Stamp(1704306600, 0) == ("1830", 3);
    assert Stamp(1704479400, 0) == ("1830", 5);
  }

  /** Two stamps with the same key give that key once. */
  lemma OneKeyOrder()
    ensures FirstSeen(Keys([("1830", 3), ("1830", 5)])) == ["1830"]
  {
    var keys := Keys([("1830", 3), ("1830", 5)]);
    assert keys == ["1830", "1830"];
    assert keys[..1] == ["1830"];
    assert ["1830"][..0] == [];
  }

  /** Two stamps with the same key on days 3 and 5 make a single row with
    * w and f available. */
  lemma OneRowForOneKey(rows: seq<GridRow>)
    ensures IsGridOf([("1830", 3), ("1830", 5)], rows) <==>
            rows == [GridRow("1830", Week("", "", Available, "", Available, "", ""))]
  {
    var st: seq<(string, Weekday)> := [("1830", 3), ("1830", 5)];
    var expected := [GridRow("1830", Week("", "", Available, "", Available, "", ""))];
    OneKeyOrder();
    assert KeysInOrder(st, expected);
    forall i, d: Weekday | 0 <= i < |expected|
      ensures expected[i].week.Day(d) == if (expected[i].time, d) in st then Available else ""
    {
    }
    assert DaysMarked(st, expected);
    if IsGridOf(st, rows) {
      GridOfUnique(st, rows, expected);
    }
  }

  /** Slots on Wednesday 2024-01-03 and Friday 2024-01-05, both at 18:30
    * with offset 0, make exactly one row "1830" with w and f available. */
  lemma WednesdayAndFridayAt1830(rows: seq<GridRow>)
    ensures IsGrid([1704306600, 1704479400], 0, rows) <==>
            rows == [GridRow("1830", Week("", "", Available, "", Available, "", ""))]
  {
    WednesdayAndFridayStamps();
    OneRowForOneKey(rows);
  }
}
