/** A formatter used over time: a sequence of `format` and `reset` calls on
    one instance. Only `reset` writes the reference instant; `format` reads it
    and leaves it as it was. */
module Calls {
  import opened Wrappers
  import opened DateFormatter

  /** A call and the wall-clock reading at the moment it is made. */
  datatype Call = FormatCall(target: Target, limit: int, clock: Instant) | ResetCall(clock: Instant)

  /** One call: the formatter afterwards, and the result when it was a
      `format` call. */
  function Step(cal: Calendar, f: Formatter, c: Call): (Formatter, Option<Result>)
  {
    match c
    case FormatCall(target, limit, clock) => (f, Some(Format(cal, f, target, limit, clock)))
    case ResetCall(clock) => (Reset(f, clock), None)
  }

  /** Runs the calls in order: the final formatter, and one entry per call. */
  function Run(cal: Calendar, f: Formatter, calls: seq<Call>): (r: (Formatter, seq<Option<Result>>))
    ensures |r.1| == |calls|
    decreases |calls|
  {
    if |calls| == 0 then (f, [])
    else
      var (g, out) := Step(cal, f, calls[0]);
      var (h, outs) := Run(cal, g, calls[1..]);
      (h, [out] + outs)
  }

  /** No call in the sequence is a reset. */
  predicate NoReset(calls: seq<Call>)
  {
    forall k :: 0 <= k < |calls| ==> calls[k].FormatCall?
  }

  /** Running `a` and then `b` is running `a + b`. */
  lemma {:induction false} RunAppend(cal: Calendar, f: Formatter, a: seq<Call>, b: seq<Call>)
    ensures var (g, outsA) := Run(cal, f, a);
            var (h, outsB) := Run(cal, g, b);
            Run(cal, f, a + b) == (h, outsA + outsB)
    decreases |a|
  {
    if |a| == 0 {
      assert a + b == b;
      assert Run(cal, f, a) == (f, []);
      assert [] + Run(cal, f, b).1 == Run(cal, f, b).1;
    } else {
      var (g, out) := Step(cal, f, a[0]);
      assert (a + b)[0] == a[0];
      assert (a + b)[1..] == a[1..] + b;
      RunAppend(cal, g, a[1..], b);
      var (g1, outsA1) := Run(cal, g, a[1..]);
      var (h, outsB) := Run(cal, g1, b);
      assert Run(cal, f, a) == (g1, [out] + outsA1);
      assert [out] + (outsA1 + outsB) == ([out] + outsA1) + outsB;
    }
  }

  /** A sequence of `format` calls leaves the reference instant unchanged. */
  lemma {:induction false} FormatKeepsReference(cal: Calendar, f: Formatter, calls: seq<Call>)
    requires NoReset(calls)
    ensures Run(cal, f, calls).0 == f
    decreases |calls|
  {
    if |calls| > 0 {
      FormatKeepsReference(cal, f, calls[1..]);
    }
  }

  /** A reset followed by format calls leaves the clock reading of that reset
      as the reference instant. */
  lemma LastResetWins(cal: Calendar, f: Formatter, clock: Instant, calls: seq<Call>)
    requires NoReset(calls)
    ensures Run(cal, f, [ResetCall(clock)] + calls).0.now == clock
  {
    RunAppend(cal, f, [ResetCall(clock)], calls);
    FormatKeepsReference(cal, Reset(f, clock), calls);
  }

  /** The entry for call `k` is what that call gives on the formatter the
      calls before it left behind. */
  lemma OutputAt(cal: Calendar, f: Formatter, calls: seq<Call>, k: nat)
    requires k < |calls|
    ensures Run(cal, f, calls).1[k] == Step(cal, Run(cal, f, calls[..k]).0, calls[k]).1
  {
    assert calls == calls[..k] + calls[k..];
    RunAppend(cal, f, calls[..k], calls[k..]);
  }

  /** A freshly initialised formatter keeps the clock reading of its
      initialisation as reference instant through any number of `format`
      calls. */
  lemma InitKeepsClock(cal: Calendar, clock: Instant, calls: seq<Call>)
    requires NoReset(calls)
    ensures Run(cal, Init(clock), calls).0.now == clock
  {
    FormatKeepsReference(cal, Init(clock), calls);
  }

  /** Two `format` calls with the same target and limit and no reset between
      them give the same result when the target is a resolved instant, or when
      it is a string parsed at the same clock reading. A string such as "now"
      is read against the clock of each call, so two calls at different
      readings may differ. */
  lemma RepeatedFormatAgrees(cal: Calendar, f: Formatter, calls: seq<Call>, i: nat, j: nat)
    requires i < j < |calls|
    requires calls[i].FormatCall? && calls[j].FormatCall?
    requires calls[i].target == calls[j].target && calls[i].limit == calls[j].limit
    requires calls[i].target.Resolved? || calls[i].clock == calls[j].clock
    requires NoReset(calls[i..j])
    ensures Run(cal, f, calls).1[i] == Run(cal, f, calls).1[j]
  {
    OutputAt(cal, f, calls, i);
    OutputAt(cal, f, calls, j);
    assert calls[..j] == calls[..i] + calls[i..j];
    RunAppend(cal, f, calls[..i], calls[i..j]);
    FormatKeepsReference(cal, Run(cal, f, calls[..i]).0, calls[i..j]);
  }
}
