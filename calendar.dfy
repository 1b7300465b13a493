/** Calendar text shown on the display and sent with each publish: the
    day and month names looked up in the two tuples, hour and minute
    zero-padded, and the aligned clock block. */
module Calendar {
  import opened Wrappers
  import opened Decimal

  /** The fields of `time.localtime()` that the program reads; `tmWday` is
      0 for Monday and `tmMon` 1 for January. */
  datatype StructTime = StructTime(
    tmYear: int, tmMon: int, tmMday: int,
    tmHour: int, tmMin: int, tmSec: int,
    tmWday: int)

  const DAYS: seq<string> := ["Mon", "Tue", "Wed", "Thu", "Fri", "Sat", "Sun"]
  const MONTHS: seq<string> :=
    ["Jan", "Feb", "Mar", "Apr", "May", "Jun", "Jul", "Aug", "Sep", "Oct", "Nov", "Dec"]

  /** Python subscription of a tuple: negative indices count from the end,
      anything else outside the tuple raises IndexError (None here). */
  function PyIndex<T>(s: seq<T>, i: int): (r: Option<T>)
    ensures r.Some? <==> -|s| <= i < |s|
    ensures 0 <= i < |s| ==> r == Some(s[i])
    ensures -|s| <= i < 0 ==> r == Some(s[|s| + i])
  {
    if 0 <= i < |s| then Some(s[i])
    else if -|s| <= i < 0 then Some(s[|s| + i])
    else None
  }

  /** `{s:>width}`: right-aligned, spaces on the left. */
  function PadLeft(s: string, width: int): (r: string)
    ensures |r| == if width > |s| then width else |s|
    ensures r[|r| - |s|..] == s
    ensures forall i :: 0 <= i < |r| - |s| ==> r[i] == ' '
  {
    Repeat(' ', width - |s|) + s
  }

  /** `{s:<width}`: left-aligned, spaces on the right. */
  function PadRight(s: string, width: int): (r: string)
    ensures |r| == if width > |s| then width else |s|
    ensures r[..|s|] == s
    ensures forall i :: |s| <= i < |r| ==> r[i] == ' '
  {
    s + Repeat(' ', width - |s|)
  }

  /** `date_block`, e.g. "Mon, Jan 5, 2024". */
  function DateBlock(t: StructTime): (date: Option<string>)
    ensures date.Some? <==> Formattable(t)
  {
    match (PyIndex(DAYS, t.tmWday), PyIndex(MONTHS, t.tmMon - 1))
    case (Some(day), Some(month)) =>
      Some(day + ", " + month + " " + IntToString(t.tmMday) + ", " + IntToString(t.tmYear))
    case _ => None
  }

  /** `time_block`, e.g. "09:05". */
  function TimeBlock(t: StructTime): (time: string)
    ensures |time| >= 5
  {
    ZeroPadded(t.tmHour, 2) + ":" + ZeroPadded(t.tmMin, 2)
  }

  /** `clock_block`: the date right-aligned to 9, " at ", the time
      left-aligned to 5, and the fixed zone name " PST". */
  function ClockBlock(t: StructTime): (clock: Option<string>)
    ensures clock.Some? <==> Formattable(t)
    ensures clock.Some? ==> |clock.value| >= |DateBlock(t).value| + 13
    ensures clock.Some? ==> clock.value[|clock.value| - 4..] == " PST"
  {
    match DateBlock(t)
    case Some(date) => Some(PadLeft(date, 9) + " at " + PadRight(TimeBlock(t), 5) + " PST")
    case None => None
  }

  /** `get_datetime()`: the one-line greeting logged at start-up. */
  function GetDatetime(t: StructTime): (greeting: Option<string>)
    ensures greeting.Some? <==> Formattable(t)
  {
    match (PyIndex(DAYS, t.tmWday + 0), PyIndex(MONTHS, t.tmMon - 1))
    case (Some(day), Some(month)) =>
      Some("It is: " + day + ", " + month + " " + IntToString(t.tmMday) + " at "
           + ZeroPadded(t.tmHour, 2) + ":" + ZeroPadded(t.tmMin, 2) + ":"
           + ZeroPadded(t.tmSec, 2) + "\n")
    case _ => None
  }

  /** The indices Python accepts for the two lookups: weekday in -7..6 and
      month in -11..12 (so that `tm_mon - 1` is in -12..11). */
  predicate Formattable(t: StructTime)
  {
    -7 <= t.tmWday < 7 && -11 <= t.tmMon <= 12
  }

  /** The date, clock and greeting texts exist exactly when both lookups are
      within range; otherwise the program stops with IndexError. */
  lemma DateBlockDefinedIff(t: StructTime)
    ensures DateBlock(t).Some? <==> Formattable(t)
    ensures ClockBlock(t).Some? <==> DateBlock(t).Some?
    ensures GetDatetime(t).Some? <==> DateBlock(t).Some?
  {
  }

  predicate IsLetter(ch: char) {
    'A' <= ch <= 'Z' || 'a' <= ch <= 'z'
  }

  /** A three-letter abbreviation such as "Mon" or "Jan". */
  predicate IsName(s: string) {
    |s| == 3 && IsLetter(s[0]) && IsLetter(s[1]) && IsLetter(s[2])
  }

  /** Every day and month name is a three-letter abbreviation. */
  lemma NamesShape()
    ensures forall d :: d in DAYS ==> IsName(d)
    ensures forall m :: m in MONTHS ==> IsName(m)
  {
  }

  lemma NameAvoids(s: string, ch: char)
    requires IsName(s) && !IsLetter(ch)
    ensures ch !in s
  {
  }

  /** With `time.localtime()`'s ranges (weekday 0..6, month 1..12) both
      lookups stay in bounds and pick the named day and month. */
  lemma LookupsInBounds(t: StructTime)
    requires 0 <= t.tmWday <= 6 && 1 <= t.tmMon <= 12
    ensures DateBlock(t).Some? && ClockBlock(t).Some? && GetDatetime(t).Some?
    ensures DateBlock(t).value[..3] == DAYS[t.tmWday]
    ensures DateBlock(t).value[5..8] == MONTHS[t.tmMon - 1]
    ensures GetDatetime(t).value[7..10] == DAYS[t.tmWday]
    ensures GetDatetime(t).value[12..15] == MONTHS[t.tmMon - 1]
  {
    NamesShape();
    assert DAYS[t.tmWday] in DAYS && MONTHS[t.tmMon - 1] in MONTHS;
    DateBlockNames(t, DAYS[t.tmWday], MONTHS[t.tmMon - 1]);
    GetDatetimeNames(t, DAYS[t.tmWday], MONTHS[t.tmMon - 1]);
  }

  lemma DateBlockNames(t: StructTime, day: string, month: string)
    requires PyIndex(DAYS, t.tmWday) == Some(day) && PyIndex(MONTHS, t.tmMon - 1) == Some(month)
    requires |day| == 3 && |month| == 3
    ensures DateBlock(t).Some? && DateBlock(t).value[..3] == day && DateBlock(t).value[5..8] == month
  {
    var p := day + ", " + month;
    var d := p + " " + IntToString(t.tmMday) + ", " + IntToString(t.tmYear);
    assert DateBlock(t) == Some(d);
    assert d[..8] == p;
  }

  lemma GetDatetimeNames(t: StructTime, day: string, month: string)
    requires PyIndex(DAYS, t.tmWday) == Some(day) && PyIndex(MONTHS, t.tmMon - 1) == Some(month)
    requires |day| == 3 && |month| == 3
    ensures GetDatetime(t).Some? && GetDatetime(t).value[7..10] == day
    ensures GetDatetime(t).value[12..15] == month
  {
    GreetingNames(day, month, IntToString(t.tmMday),
      ZeroPadded(t.tmHour, 2), ZeroPadded(t.tmMin, 2), ZeroPadded(t.tmSec, 2));
  }

  /** Where the day and month sit in a greeting, whatever follows them. */
  lemma GreetingNames(day: string, month: string, mday: string, hh: string, mm: string, ss: string)
    requires |day| == 3 && |month| == 3
    ensures var g := "It is: " + day + ", " + month + " " + mday + " at " + hh + ":" + mm + ":" + ss + "\n";
      g[7..10] == day && g[12..15] == month
  {
    var q := "It is: " + day;
    var p := q + ", " + month;
    var g := p + " " + mday + " at " + hh + ":" + mm + ":" + ss + "\n";
    assert g[..15] == p;
    assert p[..10] == q;
    assert q[7..] == day;
    assert p[12..15] == month;
  }

  /** In the greeting, hour, minute and second below 100 render as
      "hh:mm:ss" just before the final newline, each field two digits that
      read back as its value. */
  lemma GetDatetimeTimeShape(t: StructTime)
    requires Formattable(t)
    requires 0 <= t.tmHour < 100 && 0 <= t.tmMin < 100 && 0 <= t.tmSec < 100
    ensures var g := GetDatetime(t).value;
      && |g| >= 9
      && var tail := g[|g| - 9..];
      && tail[2] == ':' && tail[5] == ':' && tail[8] == '\n'
      && AllDigits(tail[..2]) && ParseNat(tail[..2]) == t.tmHour
      && AllDigits(tail[3..5]) && ParseNat(tail[3..5]) == t.tmMin
      && AllDigits(tail[6..8]) && ParseNat(tail[6..8]) == t.tmSec
  {
    TwoDigits(t.tmHour);
    TwoDigits(t.tmMin);
    TwoDigits(t.tmSec);
    var day, month := PyIndex(DAYS, t.tmWday).value, PyIndex(MONTHS, t.tmMon - 1).value;
    var hh, mm, ss := ZeroPadded(t.tmHour, 2), ZeroPadded(t.tmMin, 2), ZeroPadded(t.tmSec, 2);
    var head := "It is: " + day + ", " + month + " " + IntToString(t.tmMday) + " at ";
    assert GetDatetime(t).value == head + hh + ":" + mm + ":" + ss + "\n";
    GreetingTail(head, hh, mm, ss);
  }

  /** The last nine characters of a greeting are its "hh:mm:ss" and the
      newline, whatever precedes them. */
  lemma GreetingTail(head: string, hh: string, mm: string, ss: string)
    requires |hh| == 2 && |mm| == 2 && |ss| == 2
    ensures var g := head + hh + ":" + mm + ":" + ss + "\n";
      var tail := g[|g| - 9..];
      tail[..2] == hh && tail[2] == ':' && tail[3..5] == mm && tail[5] == ':'
      && tail[6..8] == ss && tail[8] == '\n'
  {
    var g := head + hh + ":" + mm + ":" + ss + "\n";
    var tail := hh + ":" + mm + ":" + ss + "\n";
    assert g[|g| - 9..] == tail;
    assert tail[..2] == hh;
    assert tail[3..5] == mm;
    assert tail[6..8] == ss;
  }

  /** Hour and minute below 100 render as "hh:mm", five characters that
      read back as the hour and the minute. */
  lemma TimeBlockShape(t: StructTime)
    requires 0 <= t.tmHour < 100 && 0 <= t.tmMin < 100
    ensures var tb := TimeBlock(t);
      && |tb| == 5 && tb[2] == ':'
      && AllDigits(tb[..2]) && ParseNat(tb[..2]) == t.tmHour
      && AllDigits(tb[3..]) && ParseNat(tb[3..]) == t.tmMin
  {
    TwoDigits(t.tmHour);
    TwoDigits(t.tmMin);
    var tb := TimeBlock(t);
    assert tb[..2] == ZeroPadded(t.tmHour, 2);
    assert tb[3..] == ZeroPadded(t.tmMin, 2);
  }

  /** The alignments in `clock_block` never add padding for a real date and
      time: every date block is at least 13 characters and the time block
      is exactly 5. */
  lemma ClockBlockUnpadded(t: StructTime)
    requires DateBlock(t).Some?
    requires 0 <= t.tmHour < 100 && 0 <= t.tmMin < 100
    ensures |DateBlock(t).value| >= 13
    ensures ClockBlock(t) == Some(DateBlock(t).value + " at " + TimeBlock(t) + " PST")
  {
    var date := DateBlock(t).value;
    var day := PyIndex(DAYS, t.tmWday).value;
    var month := PyIndex(MONTHS, t.tmMon - 1).value;
    NamesShape();
    assert day in DAYS && month in MONTHS;
    assert |date| >= 13;
    assert PadLeft(date, 9) == date;
    TimeBlockShape(t);
    assert PadRight(TimeBlock(t), 5) == TimeBlock(t);
  }

  /** A clock block never contains the payload separator '&' nor an opening
      parenthesis. */
  lemma ClockBlockAvoids(t: StructTime, ch: char)
    requires ch == '&' || ch == '('
    requires ClockBlock(t).Some?
    ensures ch !in ClockBlock(t).value
  {
    var date := DateBlock(t).value;
    DateBlockAvoids(t, ch);
    var tb := TimeBlock(t);
    ZeroPaddedAvoids(t.tmHour, 2, ch);
    ZeroPaddedAvoids(t.tmMin, 2, ch);
    assert ch !in tb;
    assert ch !in PadLeft(date, 9);
    assert ch !in PadRight(tb, 5);
  }

  lemma DateBlockAvoids(t: StructTime, ch: char)
    requires ch == '&' || ch == '('
    requires DateBlock(t).Some?
    ensures ch !in DateBlock(t).value
  {
    var day, month := PyIndex(DAYS, t.tmWday).value, PyIndex(MONTHS, t.tmMon - 1).value;
    NamesShape();
    assert day in DAYS && month in MONTHS;
    NameAvoids(day, ch);
    NameAvoids(month, ch);
    IntToStringAvoids(t.tmMday, ch);
    IntToStringAvoids(t.tmYear, ch);
    assert DateBlock(t).value == day + ", " + month + " " + IntToString(t.tmMday) + ", " + IntToString(t.tmYear);
  }

  lemma ZeroPaddedAvoids(n: int, width: int, ch: char)
    requires ch != '-' && !IsDigit(ch)
    ensures ch !in ZeroPadded(n, width)
  {
  }
}
