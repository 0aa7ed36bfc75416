/**
 * The dashboard's display helpers: the elapsed time of a pipeline or job
 * rendered as `<h>h <m>m`, `<m>m <s>s` or `<s>s`, and the colour classes
 * and icon shown for a status string.
 *
 * Times are milliseconds since the epoch, already parsed from the
 * timestamps; an absent or empty end time reads the clock, passed in as
 * `nowMs`.
 */
module DashboardUtils {
  import opened Wrappers
  import opened Text
  import opened Records

  // ---------------------------------------------------------------------
  // formatDuration
  // ---------------------------------------------------------------------

  const MsPerSecond: nat := 1000
  const MsPerMinute: nat := 60_000
  const MsPerHour: nat := 3_600_000

  /** `Math.max(0, endTime - startTime)`, with the clock standing in for a missing end. */
  function Elapsed(startMs: int, endMs: Option<int>, nowMs: int): (d: nat)
    ensures endMs.Some? && endMs.value >= startMs ==> d == endMs.value - startMs
    ensures endMs.None? && nowMs >= startMs ==> d == nowMs - startMs
    ensures endMs.GetOr(nowMs) < startMs ==> d == 0
  {
    var endTime := endMs.GetOr(nowMs);
    if endTime - startMs > 0 then endTime - startMs else 0
  }

  /** The rendered form: the largest unit that is non-zero, and the next one down. */
  datatype Shown = Hours(h: nat, m: nat) | Minutes(m: nat, s: nat) | Seconds(s: nat)

  /**
   * The whole seconds, minutes and hours of `d`, each rounded down; the
   * smaller unit is the remainder below the larger one.
   */
  function ShownOf(d: nat): (sh: Shown)
    ensures sh.Hours? <==> d >= MsPerHour
    ensures sh.Minutes? <==> MsPerMinute <= d < MsPerHour
    ensures sh.Hours? ==>
      sh.h >= 1 && sh.m < 60 && sh.h * MsPerHour + sh.m * MsPerMinute <= d < sh.h * MsPerHour + (sh.m + 1) * MsPerMinute
    ensures sh.Minutes? ==>
      1 <= sh.m < 60 && sh.s < 60 && sh.m * MsPerMinute + sh.s * MsPerSecond <= d < sh.m * MsPerMinute + (sh.s + 1) * MsPerSecond
    ensures sh.Seconds? ==> sh.s < 60 && sh.s * MsPerSecond <= d < (sh.s + 1) * MsPerSecond
  {
    var seconds := d / 1000;
    var minutes := seconds / 60;
    var hours := minutes / 60;
    DivisionChain(d);
    if hours > 0 then Hours(hours, minutes % 60)
    else if minutes > 0 then Minutes(minutes, seconds % 60)
    else Seconds(seconds)
  }

  /** The nested floor divisions of `formatDuration`, stated as bounds on `d`. */
  lemma DivisionChain(d: nat)
    ensures var seconds := d / 1000; var minutes := seconds / 60; var hours := minutes / 60;
      && seconds * 1000 <= d < seconds * 1000 + 1000
      && minutes * 60 <= seconds < minutes * 60 + 60
      && hours * 60 <= minutes < hours * 60 + 60
      && minutes == hours * 60 + minutes % 60
      && seconds == minutes * 60 + seconds % 60
      && minutes * 60_000 <= d < minutes * 60_000 + 60_000
      && hours * 3_600_000 <= d < hours * 3_600_000 + 3_600_000
  {
    var seconds := d / 1000;
    var minutes := seconds / 60;
    var hours := minutes / 60;
    assert minutes * 60_000 == (minutes * 60) * 1000;
    assert hours * 3_600_000 == (hours * 60) * 60_000;
  }

  function Render(sh: Shown): string {
    match sh
    case Hours(h, m) => Decimal(h) + ("h " + Decimal(m) + "m")
    case Minutes(m, s) => Decimal(m) + ("m " + Decimal(s) + "s")
    case Seconds(s) => Decimal(s) + "s"
  }

  /** `formatDuration(start, end)`. */
  function FormatDuration(startMs: int, endMs: Option<int>, nowMs: int): string {
    Render(ShownOf(Elapsed(startMs, endMs, nowMs)))
  }

  /** The length of the run of digits at the start of `s`. */
  function DigitSpan(s: string): (k: nat)
    ensures k <= |s|
    ensures forall i :: 0 <= i < k ==> IsDigit(s[i])
    ensures k < |s| ==> !IsDigit(s[k])
    decreases |s|
  {
    if s == [] || !IsDigit(s[0]) then 0 else 1 + DigitSpan(s[1..])
  }

  /** Read a number and the text after it; `None` when `s` does not start with a digit. */
  function ReadNumber(s: string): Option<(nat, string)> {
    var k := DigitSpan(s);
    if k == 0 then None else Some((ParseDecimal(s[..k]), s[k..]))
  }

  /** Read a rendered duration back into its units. */
  function ReadShown(s: string): Option<Shown> {
    match ReadNumber(s)
    case None => None
    case Some((n, rest)) => ReadUnits(n, rest)
  }

  /** The units after the first number: `s`, or `m ` / `h ` followed by the second number and its unit. */
  function ReadUnits(n: nat, rest: string): Option<Shown> {
    if rest == "s" then Some(Seconds(n))
    else if |rest| >= 2 then ReadSecondPart(n, rest[..2], ReadNumber(rest[2..]))
    else None
  }

  function ReadSecondPart(n: nat, first: string, second: Option<(nat, string)>): Option<Shown> {
    match second
    case None => None
    case Some((k, unit)) =>
      if first == "m " && unit == "s" then Some(Minutes(n, k))
      else if first == "h " && unit == "m" then Some(Hours(n, k))
      else None
  }

  lemma ReadNumberOf(n: nat, tail: string)
    requires tail != [] && !IsDigit(tail[0])
    ensures ReadNumber(Decimal(n) + tail) == Some((n, tail))
  {
    var digits := Decimal(n);
    var s := digits + tail;
    assert DigitSpan(s) == |digits| by {
      DigitSpanOf(digits, tail);
    }
    assert s[..|digits|] == digits;
    assert s[|digits|..] == tail;
    DecimalRoundTrip(n);
  }

  lemma {:induction false} DigitSpanOf(digits: string, tail: string)
    requires forall i :: 0 <= i < |digits| ==> IsDigit(digits[i])
    requires tail != [] && !IsDigit(tail[0])
    ensures DigitSpan(digits + tail) == |digits|
    decreases |digits|
  {
    var s := digits + tail;
    if digits == [] {
      assert s == tail;
    } else {
      assert s[0] == digits[0];
      assert s[1..] == digits[1..] + tail;
      DigitSpanOf(digits[1..], tail);
    }
  }

  lemma ReadRenderSeconds(s: nat)
    ensures ReadShown(Render(Seconds(s))) == Some(Seconds(s))
  {
    ReadNumberOf(s, "s");
  }

  /** After the first number, a unit letter and a space, the second number and its unit. */
  lemma ReadTwoUnits(a: nat, b: nat, first: string, second: string)
    requires first == "m " || first == "h "
    requires second == "s" || second == "m"
    ensures ReadShown(Decimal(a) + (first + Decimal(b) + second)) == ReadSecondPart(a, first, Some((b, second)))
  {
    var tail := Decimal(b) + second;
    assert ReadNumber(tail) == Some((b, second)) by {
      ReadNumberOf(b, second);
    }
    var rest := first + tail;
    assert rest[..2] == first;
    assert rest[2..] == tail;
    assert ReadNumber(Decimal(a) + rest) == Some((a, rest)) by {
      ReadNumberOf(a, rest);
    }
    assert |rest| >= 3 && rest != "s";
    assert first + Decimal(b) + second == rest;
  }

  lemma ReadRenderMinutes(m: nat, s: nat)
    ensures ReadShown(Render(Minutes(m, s))) == Some(Minutes(m, s))
  {
    ReadTwoUnits(m, s, "m ", "s");
  }

  lemma ReadRenderHours(h: nat, m: nat)
    ensures ReadShown(Render(Hours(h, m))) == Some(Hours(h, m))
  {
    ReadTwoUnits(h, m, "h ", "m");
  }

  /** The rendering loses nothing: the units can be read back from the text. */
  lemma ReadRender(sh: Shown)
    ensures ReadShown(Render(sh)) == Some(sh)
  {
    match sh
    case Seconds(s) => ReadRenderSeconds(s);
    case Minutes(m, s) => ReadRenderMinutes(m, s);
    case Hours(h, m) => ReadRenderHours(h, m);
  }

  /**
   * The text shown for a duration names the elapsed time to within one
   * unit of its smaller part: e.g. `2h 5m` for anything from 2h 5m 0s up
   * to, but not including, 2h 6m.
   */
  lemma FormatDurationReadsBack(startMs: int, endMs: Option<int>, nowMs: int)
    ensures var d := Elapsed(startMs, endMs, nowMs);
      ReadShown(FormatDuration(startMs, endMs, nowMs)) == Some(ShownOf(d))
  {
    ReadRender(ShownOf(Elapsed(startMs, endMs, nowMs)));
  }

  /** An end time before the start shows as `0s`. */
  lemma NegativeDurationShowsZero(startMs: int, endMs: int, nowMs: int)
    requires endMs < startMs
    ensures FormatDuration(startMs, Some(endMs), nowMs) == "0s"
  {
    assert Decimal(0) == "0";
  }

  // ---------------------------------------------------------------------
  // getStatusColor and getStatusIcon
  // ---------------------------------------------------------------------

  const Green: string := "text-green-600 bg-green-50"
  const Red: string := "text-red-600 bg-red-50"
  const Blue: string := "text-blue-600 bg-blue-50"
  const Yellow: string := "text-yellow-600 bg-yellow-50"
  const Gray: string := "text-gray-600 bg-gray-50"

  /** A string the status columns can hold. */
  predicate IsStatusName(status: string) {
    StatusOf(status).Some?
  }

  function StatusColor(status: string): (r: string)
    ensures r in {Green, Red, Blue, Yellow, Gray}
    ensures !IsStatusName(status) ==> r == Gray
  {
    if status == "SUCCESS" then Green
    else if status == "FAILED" then Red
    else if status == "RUNNING" then Blue
    else if status == "PENDING" || status == "QUEUED" then Yellow
    else if status == "CANCELLED" then Gray
    else Gray
  }

  function StatusIcon(status: string): (r: string)
    ensures r == "?" <==> !IsStatusName(status)
  {
    if status == "SUCCESS" then "\U{2713}"
    else if status == "FAILED" then "\U{2717}"
    else if status == "RUNNING" then "\U{27F3}"
    else if status == "PENDING" || status == "QUEUED" then "\U{25CB}"
    else if status == "CANCELLED" then "\U{2298}"
    else "?"
  }

  /** PENDING and QUEUED are the only two statuses drawn alike. */
  predicate DrawnAlike(a: Status, b: Status) {
    a == b || (a in {Pending, Queued} && b in {Pending, Queued})
  }

  /** Two statuses get the same icon exactly when they are drawn alike. */
  lemma IconSeparatesStatuses(a: Status, b: Status)
    ensures StatusIcon(StatusName(a)) == StatusIcon(StatusName(b)) <==> DrawnAlike(a, b)
  {
  }

  /** Two statuses get the same colour exactly when they are drawn alike; an unknown string is coloured as CANCELLED. */
  lemma ColorSeparatesStatuses(a: Status, b: Status, unknown: string)
    requires !IsStatusName(unknown)
    ensures StatusColor(StatusName(a)) == StatusColor(StatusName(b)) <==> DrawnAlike(a, b)
    ensures StatusColor(unknown) == StatusColor(StatusName(Cancelled))
  {
  }
}
