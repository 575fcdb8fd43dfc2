/** The text of a result. Translation is a lookup in the framework's
    "templates" catalogue, which is foreign: it is supplied as a function from
    a translation key and its parameters to text. A fragment is translated
    under "timeInterval.<unit name>" with its magnitude; the fragments are
    joined with ", " into the "{interval}" of "timeInterval.ago"; the
    "timeInterval.justNow" template takes no parameter. */
module Rendering {
  import opened Units
  import opened Selection
  import opened DateFormatter

  /** Parameters handed to a translation. */
  datatype Params = NoParams | Count(n: nat) | Interval(text: string)

  type Translate = (string, Params) -> string

  const AgoKey: string := "timeInterval.ago"
  const JustNowKey: string := "timeInterval.justNow"

  /** Translation key of a unit. */
  function UnitKey(u: Unit): string
  {
    "timeInterval." + Name(u)
  }

  /** The translation keys are pairwise distinct: the two templates never
      share a key with each other or with a unit, and each unit has its own. */
  lemma TranslationKeysDistinct()
    ensures AgoKey != JustNowKey
    ensures forall u: Unit :: UnitKey(u) != AgoKey && UnitKey(u) != JustNowKey
    ensures forall u: Unit, v: Unit :: UnitKey(u) == UnitKey(v) ==> u == v
  {
    assert AgoKey[13] != JustNowKey[13];
    forall u: Unit ensures UnitKey(u) != AgoKey && UnitKey(u) != JustNowKey {
      assert UnitKey(u)[13] == Name(u)[0];
      assert AgoKey[13] == 'a' && JustNowKey[13] == 'j';
    }
    forall u: Unit, v: Unit | UnitKey(u) == UnitKey(v) ensures u == v {
      assert Name(u) == UnitKey(u)[13..];
      assert Name(v) == UnitKey(v)[13..];
      TableIsOneToOne();
    }
  }

  /** `implode(sep, parts)`: the parts in order with `sep` between neighbours. */
  function Join(parts: seq<string>, sep: string): string
  {
    if |parts| == 0 then ""
    else if |parts| == 1 then parts[0]
    else parts[0] + sep + Join(parts[1..], sep)
  }

  /** A single part is joined to itself, with no separator. */
  lemma JoinSingleton(x: string, sep: string)
    ensures Join([x], sep) == x
  {
  }

  /** Appending a part to a non-empty list appends the separator and that
      part to the joined text; with `JoinSingleton` this says the joined text
      is every part, in order, with one separator between neighbours. */
  lemma {:induction false} JoinAppend(parts: seq<string>, p: string, sep: string)
    requires |parts| > 0
    ensures Join(parts + [p], sep) == Join(parts, sep) + sep + p
    decreases |parts|
  {
    if |parts| == 1 {
      assert parts + [p] == [parts[0], p];
      assert [parts[0], p][1..] == [p];
    } else {
      assert (parts + [p])[1..] == parts[1..] + [p];
      JoinAppend(parts[1..], p, sep);
    }
  }

  /** `formatInterval` rendered: one fragment translated under its unit's key. */
  function RenderFragment(t: Translate, fr: Fragment): string
  {
    t(UnitKey(fr.unit), Count(fr.magnitude))
  }

  function RenderFragments(t: Translate, fs: seq<Fragment>): (texts: seq<string>)
    ensures |texts| == |fs|
    ensures forall k :: 0 <= k < |fs| ==> texts[k] == RenderFragment(t, fs[k])
  {
    seq(|fs|, k requires 0 <= k < |fs| => RenderFragment(t, fs[k]))
  }

  /** The text `format` returns for a result. */
  function Render(t: Translate, o: Formatted): string
  {
    match o
    case Ago(fs) => t(AgoKey, Interval(Join(RenderFragments(t, fs), ", ")))
    case JustNow => t(JustNowKey, NoParams)
  }

  /** With a valid limit and a target that resolves to `date`, the returned
      text is the "ago" template around the one translated fragment of the
      largest non-zero unit, or the "just now" template when the difference is
      zero. */
  lemma FormatText(t: Translate, cal: Calendar, f: Formatter, target: Target, limit: int, clock: Instant, date: Instant)
    requires 1 <= limit
    requires Resolve(cal, target, clock) == Parsed(date)
    ensures var diff := cal.diff(date, f.now);
            var text := Render(t, Format(cal, f, target, limit, clock).value);
            && (IsZero(diff) ==> text == t(JustNowKey, NoParams))
            && (!IsZero(diff) ==>
                  exists u: Unit ::
                    && Magnitude(diff, u) > 0
                    && (forall j :: 0 <= j < Index(u) ==> Magnitude(diff, Table[j]) == 0)
                    && text == t(AgoKey, Interval(t(UnitKey(u), Count(Magnitude(diff, u))))))
  {
    var diff := cal.diff(date, f.now);
    FormatSelectsLargestUnit(cal, f, target, limit, clock, date);
    var o := Format(cal, f, target, limit, clock).value;
    if o.Ago? {
      var fr := o.fragments[0];
      assert o.fragments == [fr];
      assert RenderFragments(t, o.fragments) == [RenderFragment(t, fr)];
      JoinSingleton(RenderFragment(t, fr), ", ");
      assert Magnitude(diff, fr.unit) > 0;
    }
  }
}
