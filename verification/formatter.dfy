/** `DateFormatter::format`: validates the units limit, resolves the target
    date, takes the calendar difference to the stored reference instant and
    turns the selected fragments into an "ago" or "just now" result.

    The calendar library is foreign: parsing a date string and computing the
    difference between two instants are supplied as a `Calendar`, and an
    instant is an opaque stand-in. The translated text is left to
    `Rendering`; here a result says which template is used and with which
    fragments. */
module DateFormatter {
  import opened Units
  import opened Selection

  /** A point in time, as the calendar library represents it. */
  datatype Instant = Instant(stamp: int)

  /** Outcome of parsing a date string: an instant, or the library's failure. */
  datatype ParseResult = Parsed(instant: Instant) | Unparsable(cause: string)

  /** The calendar library: string parsing and the calendar difference
      `diff(a, b)` between two instants. A date string may be relative or
      partial ("now", "-2 hours", "10:30"), so parsing is given the wall-clock
      reading at the moment of the call. */
  datatype Calendar = Calendar(parse: (string, Instant) -> ParseResult, diff: (Instant, Instant) -> Diff)

  /** The date to format: an already resolved instant or a string to parse. */
  datatype Target = Resolved(instant: Instant) | Text(text: string)

  /** The two ways `format` fails. An unparsable date keeps the parse failure
      as its cause. */
  datatype FormatError = InvalidLimit | InvalidDate(cause: string)

  /** Which template the result uses: "{interval} ago" with the fragments
      joined into the interval, or "just now". */
  datatype Formatted = Ago(fragments: seq<Fragment>) | JustNow

  datatype Result = Ok(value: Formatted) | Err(error: FormatError)

  /** The formatter's state: the cached reference instant ("now"). */
  datatype Formatter = Formatter(now: Instant)

  /** The units limit used when the caller gives none. */
  const DefaultLimit: int := 2

  /** Message carried by the error the formatter throws. */
  function Message(e: FormatError): (m: string)
    ensures e.InvalidLimit? <==> m == "Maximum units limit should be not less than one"
    ensures e.InvalidDate? <==> m == "Invalid date provided"
  {
    match e
    case InvalidLimit => "Maximum units limit should be not less than one"
    case InvalidDate(_) => "Invalid date provided"
  }

  /** `reset`: the reference instant becomes the given wall-clock reading. */
  function Reset(f: Formatter, clock: Instant): (g: Formatter)
    ensures g.now == clock
  {
    Formatter(clock)
  }

  /** `init`: a new formatter, its reference instant set by a reset to the
      wall-clock reading. */
  function Init(clock: Instant): (f: Formatter)
    ensures f.now == clock
  {
    Formatter(clock)
  }

  /** The target as an instant: a resolved instant is used as is, a string is
      handed to the calendar's parser together with the clock reading. */
  function Resolve(cal: Calendar, target: Target, clock: Instant): (r: ParseResult)
    ensures target.Resolved? ==> r == Parsed(target.instant)
    ensures target.Text? ==> r == cal.parse(target.text, clock)
  {
    match target
    case Resolved(d) => Parsed(d)
    case Text(s) => cal.parse(s, clock)
  }

  /** Chooses the template: "ago" when the walk produced a fragment,
      "just now" otherwise. */
  function Choose(fragments: seq<Fragment>): (o: Formatted)
    ensures o.JustNow? <==> fragments == []
    ensures o.Ago? ==> o.fragments == fragments
  {
    if |fragments| > 0 then Ago(fragments) else JustNow
  }

  /** `format(target, limit)`, called when the wall clock reads `clock`. The
      limit is checked first, before the target is looked at; only a string
      target can fail to resolve; a resolved instant never produces the
      invalid-date error. */
  function Format(cal: Calendar, f: Formatter, target: Target, limit: int, clock: Instant): (r: Result)
    ensures limit < 1 ==> r == Err(InvalidLimit)
    ensures (1 <= limit && target.Text? && cal.parse(target.text, clock).Unparsable?) ==>
              r == Err(InvalidDate(cal.parse(target.text, clock).cause))
    ensures r.Err? && r.error.InvalidDate? ==>
              target.Text? && cal.parse(target.text, clock) == Unparsable(r.error.cause)
    ensures target.Resolved? && 1 <= limit ==> r.Ok?
  {
    if limit < 1 then Err(InvalidLimit)
    else
      match Resolve(cal, target, clock)
      case Unparsable(cause) => Err(InvalidDate(cause))
      case Parsed(date) =>
        var diff := cal.diff(date, f.now);
        Ok(Choose(Walk(diff, limit, 0, 0, [])))
  }

  /** Once the limit is valid and the target resolves to `date`, the result is
      "just now" exactly when the difference to the reference instant is zero,
      and otherwise "ago" with a single fragment: the largest unit whose
      magnitude is not zero, carrying that magnitude, every larger unit being
      zero. */
  lemma FormatSelectsLargestUnit(cal: Calendar, f: Formatter, target: Target, limit: int, clock: Instant, date: Instant)
    requires 1 <= limit
    requires Resolve(cal, target, clock) == Parsed(date)
    ensures var diff := cal.diff(date, f.now);
            var r := Format(cal, f, target, limit, clock);
            && r.Ok?
            && (r.value.JustNow? <==> IsZero(diff))
            && (r.value.Ago? ==>
                  && |r.value.fragments| == 1
                  && r.value.fragments[0].magnitude == Magnitude(diff, r.value.fragments[0].unit) > 0
                  && forall j :: 0 <= j < Index(r.value.fragments[0].unit) ==> Magnitude(diff, Table[j]) == 0)
  {
    WalkOutcome(cal.diff(date, f.now), limit);
  }

  /** Every successful result holds at most one fragment, whatever the limit. */
  lemma AtMostOneFragment(cal: Calendar, f: Formatter, target: Target, limit: int, clock: Instant)
    ensures var r := Format(cal, f, target, limit, clock);
            r.Ok? && r.value.Ago? ==> |r.value.fragments| == 1
  {
    var r := Format(cal, f, target, limit, clock);
    if r.Ok? {
      FormatSelectsLargestUnit(cal, f, target, limit, clock, Resolve(cal, target, clock).instant);
    }
  }

  /** The units limit has no effect once it is at least one. */
  lemma FormatIgnoresLimit(cal: Calendar, f: Formatter, target: Target, limit1: int, limit2: int, clock: Instant)
    requires 1 <= limit1 && 1 <= limit2
    ensures Format(cal, f, target, limit1, clock) == Format(cal, f, target, limit2, clock)
  {
    match Resolve(cal, target, clock)
    case Unparsable(_) =>
    case Parsed(date) => LimitHasNoEffect(cal.diff(date, f.now), limit1, limit2);
  }

  /** Right after a reset to `clock`, a target that the calendar places at
      zero difference from `clock` formats as "just now" (a corollary of
      `FormatSelectsLargestUnit`). */
  lemma ResetThenFormatNow(cal: Calendar, f: Formatter, clock: Instant, target: Target, limit: int, callClock: Instant, date: Instant)
    requires 1 <= limit
    requires Resolve(cal, target, callClock) == Parsed(date)
    requires cal.diff(date, clock) == Zero
    ensures Format(cal, Reset(f, clock), target, limit, callClock) == Ok(JustNow)
  {
    IsZeroCharacterised(Zero);
    FormatSelectsLargestUnit(cal, Reset(f, clock), target, limit, callClock, date);
  }

  /** Three days and four hours ago, with the default limit of two, reads as
      three days: the hours are never appended. */
  lemma ThreeDaysFourHours(cal: Calendar, f: Formatter, date: Instant, clock: Instant)
    requires cal.diff(date, f.now) == Diff(0, 0, 3, 4, 0, 0)
    ensures Format(cal, f, Resolved(date), DefaultLimit, clock) == Ok(Ago([Fragment(3, Days)]))
  {
    WalkOutcome(cal.diff(date, f.now), DefaultLimit);
  }

  /** The exception a caller sees: a limit below one throws with the
      limit message whatever the target; otherwise an unparsable string throws
      with the invalid-date message and the parse failure as its cause; the
      two messages differ, so a caller can tell the two failures apart. */
  lemma FormatThrows(cal: Calendar, f: Formatter, target: Target, limit: int, clock: Instant)
    ensures var r := Format(cal, f, target, limit, clock);
            && (limit < 1 ==> r.Err? && Message(r.error) == "Maximum units limit should be not less than one")
            && (1 <= limit && target.Text? && cal.parse(target.text, clock).Unparsable? ==>
                  && r.Err? && Message(r.error) == "Invalid date provided"
                  && r.error.cause == cal.parse(target.text, clock).cause)
            && (r.Err? ==> (Message(r.error) == "Invalid date provided" <==> 1 <= limit))
  {
    var m := "Invalid date provided";
    assert m[0] == 'I';
  }
}
