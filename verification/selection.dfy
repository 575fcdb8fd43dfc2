/** The unit-selection walk of `DateFormatter::format`: the loop over the unit
    table that decides which fragments ("<magnitude> <unit>") the result is
    built from.

    As written, the walk keeps a counter that is only incremented when it is
    already positive, so it stays zero, and the walk stops as soon as it has
    emitted the first fragment. The limit therefore only matters when it is
    below one, and at most one fragment is ever produced. `Walk` follows the
    loop step by step, `Selected` states the outcome independently ("the first
    non-zero unit of the table"), and `SelectFragments` is the loop itself with
    the invariants that explain it. */
module Selection {
  import opened Wrappers
  import opened Units

  /** One formatted part of the result: a magnitude and its unit. */
  datatype Fragment = Fragment(magnitude: nat, unit: Unit)

  /** `formatInterval`: builds the fragment for one unit. The translation of
      the fragment into text is left to `Rendering`. */
  function FormatInterval(magnitude: nat, u: Unit): (fr: Fragment)
    ensures fr.magnitude == magnitude && fr.unit == u
  {
    Fragment(magnitude, u)
  }

  /** Position of the first table entry, at or after `k`, whose magnitude is
      not zero. */
  function FirstNonZeroFrom(diff: Diff, k: nat): (r: Option<nat>)
    requires k <= |Table|
    ensures r.Some? ==> k <= r.value < |Table| && Magnitude(diff, Table[r.value]) > 0
    ensures r.Some? ==> forall j :: k <= j < r.value ==> Magnitude(diff, Table[j]) == 0
    ensures r.None? ==> forall j :: k <= j < |Table| ==> Magnitude(diff, Table[j]) == 0
    decreases |Table| - k
  {
    if k == |Table| then None
    else if Magnitude(diff, Table[k]) > 0 then Some(k)
    else FirstNonZeroFrom(diff, k + 1)
  }

  /** The fragments for the first non-zero table entry at or after `k`:
      one fragment, or none when every remaining entry is zero. */
  function SelectedFrom(diff: Diff, k: nat): seq<Fragment>
    requires k <= |Table|
  {
    match FirstNonZeroFrom(diff, k)
    case None => []
    case Some(p) => [FormatInterval(Magnitude(diff, Table[p]), Table[p])]
  }

  /** Reference outcome of the walk: the largest unit whose magnitude is not
      zero, carrying exactly that magnitude, with every larger unit zero; no
      fragment at all when the difference is zero. */
  function Selected(diff: Diff): (fs: seq<Fragment>)
    ensures |fs| <= 1
    ensures |fs| == 0 <==> IsZero(diff)
    ensures |fs| == 1 ==> fs[0].magnitude == Magnitude(diff, fs[0].unit) > 0
    ensures |fs| == 1 ==> forall j :: 0 <= j < Index(fs[0].unit) ==> Magnitude(diff, Table[j]) == 0
  {
    IsZeroCharacterised(diff);
    SelectedFrom(diff, 0)
  }

  /** The walk as written, from table position `k` with the counter at
      `counter` and the fragments `acc` gathered so far. Each step first leaves
      the walk when the counter has reached the limit, otherwise increments the
      counter if it is already positive, and then emits the current unit and
      leaves the walk if its magnitude is not zero. */
  function Walk(diff: Diff, limit: int, k: nat, counter: int, acc: seq<Fragment>): seq<Fragment>
    requires k <= |Table|
    decreases |Table| - k
  {
    if k == |Table| then acc
    else if counter >= limit then acc
    else
      var counter' := if counter > 0 then counter + 1 else counter;
      var u := Table[k];
      if Magnitude(diff, u) > 0 then acc + [FormatInterval(Magnitude(diff, u), u)]
      else Walk(diff, limit, k + 1, counter', acc)
  }

  /** From any position, with a limit of at least one and the counter at zero,
      the walk emits exactly the first non-zero unit from that position on:
      the counter never leaves zero, so the limit exit never fires. */
  lemma {:induction false} WalkFromSelects(diff: Diff, limit: int, k: nat)
    requires 1 <= limit
    requires k <= |Table|
    ensures Walk(diff, limit, k, 0, []) == SelectedFrom(diff, k)
    decreases |Table| - k
  {
    if k < |Table| && Magnitude(diff, Table[k]) == 0 {
      WalkFromSelects(diff, limit, k + 1);
    }
  }

  /** The whole walk: nothing when the limit is below one, otherwise the
      reference outcome `Selected`. */
  lemma WalkOutcome(diff: Diff, limit: int)
    ensures limit < 1 ==> Walk(diff, limit, 0, 0, []) == []
    ensures 1 <= limit ==> Walk(diff, limit, 0, 0, []) == Selected(diff)
  {
    if 1 <= limit {
      WalkFromSelects(diff, limit, 0);
    }
  }

  /** Any two limits of at least one give the same walk. */
  lemma LimitHasNoEffect(diff: Diff, limit1: int, limit2: int)
    requires 1 <= limit1 && 1 <= limit2
    ensures Walk(diff, limit1, 0, 0, []) == Walk(diff, limit2, 0, 0, [])
  {
    WalkOutcome(diff, limit1);
    WalkOutcome(diff, limit2);
  }

  /** The loop over the unit table, statement by statement. The invariants
      record why it emits at most one fragment: the counter stays zero, the
      fragment list stays empty while the walk continues, and every unit
      passed over so far had magnitude zero. */
  method SelectFragments(diff: Diff, limit: int) returns (fragments: seq<Fragment>)
    ensures limit < 1 ==> fragments == []
    ensures 1 <= limit ==> fragments == Selected(diff)
    ensures |fragments| <= 1
  {
    var counter := 0;
    fragments := [];
    var k := 0;
    while k < |Table|
      invariant 0 <= k <= |Table|
      invariant counter == 0
      invariant fragments == []
      invariant 1 <= limit ==> forall j :: 0 <= j < k ==> Magnitude(diff, Table[j]) == 0
    {
      if counter >= limit {
        break;
      } else if counter > 0 {
        counter := counter + 1;
      }
      var u := Table[k];
      if Magnitude(diff, u) > 0 {
        fragments := fragments + [FormatInterval(Magnitude(diff, u), u)];
        break;
      }
      k := k + 1;
    }
  }
}
