/** The unit table of the date formatter and the calendar difference it is read
    against. The table lists six calendar units from the largest to the
    smallest; each unit names the field of the calendar difference it is read
    from (a single letter) and the word used in its translation key. */
module Units {
  import opened Wrappers

  datatype Unit = Years | Months | Days | Hours | Minutes | Seconds

  /** The unit table in the order the formatter walks it. */
  const Table: seq<Unit> := [Years, Months, Days, Hours, Minutes, Seconds]

  /** Field letter of the calendar difference a unit is read from. */
  function Key(u: Unit): char
  {
    match u
    case Years => 'y'
    case Months => 'm'
    case Days => 'd'
    case Hours => 'h'
    case Minutes => 'i'
    case Seconds => 's'
  }

  /** Word that names a unit in its translation key. */
  function Name(u: Unit): string
  {
    match u
    case Years => "years"
    case Months => "months"
    case Days => "days"
    case Hours => "hours"
    case Minutes => "minutes"
    case Seconds => "seconds"
  }

  /** The unit whose field letter is `c`, if there is one: the table read as a
      map from field letters to units. */
  function FromKey(c: char): (r: Option<Unit>)
    ensures forall u: Unit :: Key(u) == c <==> r == Some(u)
  {
    if c == 'y' then Some(Years)
    else if c == 'm' then Some(Months)
    else if c == 'd' then Some(Days)
    else if c == 'h' then Some(Hours)
    else if c == 'i' then Some(Minutes)
    else if c == 's' then Some(Seconds)
    else None
  }

  /** Position of a unit in the table. */
  function Index(u: Unit): (k: nat)
    ensures k < |Table| && Table[k] == u
    ensures forall j :: 0 <= j < |Table| && Table[j] == u ==> j == k
  {
    match u
    case Years => 0
    case Months => 1
    case Days => 2
    case Hours => 3
    case Minutes => 4
    case Seconds => 5
  }

  /** Every unit occurs in the table exactly once, and distinct units have
      distinct field letters and distinct names, so the table is a one-to-one
      listing of the units under either of its two keys. */
  lemma TableIsOneToOne()
    ensures forall u: Unit :: u in Table
    ensures forall i, j :: 0 <= i < j < |Table| ==> Table[i] != Table[j]
    ensures forall u: Unit, v: Unit :: Key(u) == Key(v) ==> u == v
    ensures forall u: Unit, v: Unit :: Name(u) == Name(v) ==> u == v
  {
    forall u: Unit ensures u in Table {
      assert Table[Index(u)] == u;
    }
    forall u: Unit, v: Unit | Key(u) == Key(v) ensures u == v {
      assert FromKey(Key(u)) == Some(u);
    }
    forall u: Unit, v: Unit | Name(u) == Name(v) ensures u == v {
      assert Name(u)[0] == Name(v)[0];
      if u.Months? || u.Minutes? {
        assert Name(u)[1] == Name(v)[1];
      }
    }
  }

  /** A calendar difference: the whole number of years, months, days, hours,
      minutes and seconds separating two instants, as the calendar library
      reports them. Each field is non-negative; the direction is not recorded. */
  datatype Diff = Diff(years: nat, months: nat, days: nat, hours: nat, minutes: nat, seconds: nat)

  /** Reading the field of a difference named by a field letter, as a
      property read through the table key does; only the six letters of the
      table name a field. */
  function Field(diff: Diff, c: char): nat
    requires FromKey(c).Some?
  {
    if c == 'y' then diff.years
    else if c == 'm' then diff.months
    else if c == 'd' then diff.days
    else if c == 'h' then diff.hours
    else if c == 'i' then diff.minutes
    else diff.seconds
  }

  /** Reading one field of a difference by its unit, through the unit's
      field letter. */
  function Magnitude(diff: Diff, u: Unit): nat
  {
    Field(diff, Key(u))
  }

  /** The difference between an instant and itself. */
  const Zero: Diff := Diff(0, 0, 0, 0, 0, 0)

  /** Every field of the difference is zero. */
  predicate IsZero(diff: Diff)
  {
    forall u: Unit :: Magnitude(diff, u) == 0
  }

  /** A difference is zero in every unit exactly when it is the zero
      difference, and exactly when every table entry reads zero. */
  lemma IsZeroCharacterised(diff: Diff)
    ensures IsZero(diff) <==> diff == Zero
    ensures IsZero(diff) <==> forall j :: 0 <= j < |Table| ==> Magnitude(diff, Table[j]) == 0
  {
    if IsZero(diff) {
      assert Magnitude(diff, Years) == 0 && Magnitude(diff, Months) == 0 && Magnitude(diff, Days) == 0;
      assert Magnitude(diff, Hours) == 0 && Magnitude(diff, Minutes) == 0 && Magnitude(diff, Seconds) == 0;
    }
    if forall j :: 0 <= j < |Table| ==> Magnitude(diff, Table[j]) == 0 {
      forall u: Unit ensures Magnitude(diff, u) == 0 {
        assert Table[Index(u)] == u;
      }
    }
  }
}
