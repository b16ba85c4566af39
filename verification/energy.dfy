/** The energy table the experiment builds from its datalog
    (Experiment.py, `__create_energy_df`): one row per entry holding the
    wavelength in metres, the light frequency in air, the stopping voltage and
    the photoelectrons' kinetic energy, sorted by wavelength.

    Arithmetic is exact over `real`; the floating-point rounding of the
    program is not modelled. */
module Energy {
  import opened Wrappers
  import opened Datalog

  // ---------------------------------------------------------------------------
  // Constants of the experiment
  // ---------------------------------------------------------------------------

  /** Planck's constant in J s (6.62607015e-34). The experiment keeps it as its
      reference value; no step of the table uses it. */
  const PlanckConstant: real := 0.000000000000000000000000000000000662607015
  /** Speed of light in vacuum, m/s. */
  const SpeedOfLight: real := 299792458.0
  /** Refractive index of air. */
  const RefractiveIndexAir: real := 1.000293
  /** Charge of the electron in C (-1.602176634e-19); negative. */
  const ElectronCharge: real := -0.0000000000000000001602176634
  /** One nanometre in metres (1e-09). */
  const Nanometre: real := 0.000000001

  function Abs(x: real): (r: real)
    ensures r >= 0.0 && (r == x || r == -x)
  {
    if x < 0.0 then -x else x
  }

  // ---------------------------------------------------------------------------
  // Rows
  // ---------------------------------------------------------------------------

  /** One row of the table: the value columns λ, ν, V_s and E, in that order.
      The DataFrame's row label (the entry's position in the log) is not kept. */
  datatype EnergyRow = EnergyRow(wavelengthM: real, frequencyHz: real, stoppingVoltage: real, kineticEnergyJ: real)

  /** The physics every row obeys: light of wavelength λ in air has frequency
      ν with ν·n_air·λ = c, and an electron stopped by V_s had kinetic energy
      |q|·V_s. */
  predicate Consistent(row: EnergyRow) {
    && row.wavelengthM > 0.0
    && row.frequencyHz * (RefractiveIndexAir * row.wavelengthM) == SpeedOfLight
    && row.kineticEnergyJ == Abs(ElectronCharge) * row.stoppingVoltage
  }

  /** The row of one entry: it depends on that entry alone. Its wavelength
      converts back to the entry's nanometres, its frequency is positive, and
      its energy has the sign of the stopping voltage. */
  function RowOf(e: Entry): (r: EnergyRow)
    ensures Consistent(r)
    ensures r.wavelengthM / Nanometre == e.wavelengthNm
    ensures r.stoppingVoltage == e.stoppingVoltage
    ensures r.frequencyHz > 0.0
    ensures r.kineticEnergyJ >= 0.0 <==> e.stoppingVoltage >= 0.0
  {
    var lambda := e.wavelengthNm * Nanometre;
    var nu := SpeedOfLight / (RefractiveIndexAir * lambda);
    var energy := Abs(ElectronCharge) * e.stoppingVoltage;
    assert nu * (RefractiveIndexAir * lambda) == SpeedOfLight;
    EnergyRow(lambda, nu, e.stoppingVoltage, energy)
  }

  /** The rows of a log in log order. */
  function Rows(log: Log): (rows: seq<EnergyRow>)
    ensures |rows| == |log|
    ensures forall i :: 0 <= i < |log| ==> rows[i] == RowOf(log[i])
  {
    seq(|log|, i requires 0 <= i < |log| => RowOf(log[i]))
  }

  // ---------------------------------------------------------------------------
  // Sorting by wavelength
  // ---------------------------------------------------------------------------

  predicate SortedByWavelength(rows: seq<EnergyRow>) {
    forall i, j :: 0 <= i < j < |rows| ==> rows[i].wavelengthM <= rows[j].wavelengthM
  }

  predicate StrictlySortedByWavelength(rows: seq<EnergyRow>) {
    forall i, j :: 0 <= i < j < |rows| ==> rows[i].wavelengthM < rows[j].wavelengthM
  }

  /** No two rows share a wavelength. */
  predicate DistinctWavelengths(rows: seq<EnergyRow>) {
    forall i, j :: 0 <= i < j < |rows| ==> rows[i].wavelengthM != rows[j].wavelengthM
  }

  /** Insert one row into a sorted table, keeping it sorted. */
  function Insert(x: EnergyRow, rows: seq<EnergyRow>): (r: seq<EnergyRow>)
    requires SortedByWavelength(rows)
    ensures |r| == |rows| + 1
    ensures r[0] == x || (|rows| > 0 && r[0] == rows[0])
    ensures multiset(r) == multiset(rows) + multiset{x}
    ensures SortedByWavelength(r)
  {
    if |rows| == 0 then [x]
    else if x.wavelengthM <= rows[0].wavelengthM then [x] + rows
    else
      assert rows == [rows[0]] + rows[1..];
      [rows[0]] + Insert(x, rows[1..])
  }

  /** `sort_values(by=['λ'])`: a permutation of the rows, sorted ascending by
      wavelength. How ties are ordered is left open by the program, so nothing
      is promised about it beyond this. */
  function SortByWavelength(rows: seq<EnergyRow>): (r: seq<EnergyRow>)
    ensures |r| == |rows|
    ensures multiset(r) == multiset(rows)
    ensures SortedByWavelength(r)
  {
    if |rows| == 0 then []
    else
      assert rows == [rows[0]] + rows[1..];
      Insert(rows[0], SortByWavelength(rows[1..]))
  }

  /** Inserting a row whose wavelength is new keeps a table strictly sorted. */
  lemma {:induction false} InsertStrict(x: EnergyRow, rows: seq<EnergyRow>)
    requires StrictlySortedByWavelength(rows)
    requires forall k :: 0 <= k < |rows| ==> rows[k].wavelengthM != x.wavelengthM
    ensures StrictlySortedByWavelength(Insert(x, rows))
    decreases |rows|
  {
    if |rows| > 0 && x.wavelengthM > rows[0].wavelengthM {
      InsertStrict(x, rows[1..]);
    }
  }

  /** Rows with distinct wavelengths sort strictly. */
  lemma {:induction false} SortStrict(rows: seq<EnergyRow>)
    requires DistinctWavelengths(rows)
    ensures StrictlySortedByWavelength(SortByWavelength(rows))
    decreases |rows|
  {
    if |rows| > 0 {
      var sortedTail := SortByWavelength(rows[1..]);
      SortStrict(rows[1..]);
      forall k | 0 <= k < |sortedTail|
        ensures sortedTail[k].wavelengthM != rows[0].wavelengthM
      {
        assert sortedTail[k] in multiset(rows[1..]);
        var m :| 0 <= m < |rows[1..]| && rows[1..][m] == sortedTail[k];
        assert sortedTail[k] == rows[m + 1];
      }
      InsertStrict(rows[0], sortedTail);
    }
  }

  /** The energy table of a log: exactly one row per entry, each row the row
      of some entry and each entry's row present as often as the entry, sorted
      ascending by wavelength. The log must not be empty: on an empty datalog
      the column slicing of the source raises, and "display results" never
      asks for that table. */
  function EnergyTable(log: Log): (t: seq<EnergyRow>)
    requires |log| > 0
    ensures |t| == |log|
    ensures SortedByWavelength(t)
    ensures multiset(t) == multiset(Rows(log))
  {
    var rows := Rows(log);
    assert |multiset(rows)| == |log|;
    SortByWavelength(rows)
  }

  // ---------------------------------------------------------------------------
  // Properties of the table
  // ---------------------------------------------------------------------------

  /** Every row of the table comes from one entry of the log, and every entry
      has its row in the table. */
  lemma TableRowsComeFromEntries(log: Log)
    requires |log| > 0
    ensures var t := EnergyTable(log);
            && (forall k :: 0 <= k < |t| ==> exists j :: 0 <= j < |log| && t[k] == RowOf(log[j]))
            && (forall j :: 0 <= j < |log| ==> RowOf(log[j]) in t)
  {
    var t := EnergyTable(log);
    var rows := Rows(log);
    forall k | 0 <= k < |t|
      ensures exists j :: 0 <= j < |log| && t[k] == RowOf(log[j])
    {
      assert t[k] in multiset(rows);
      var j :| 0 <= j < |rows| && rows[j] == t[k];
    }
    forall j | 0 <= j < |log|
      ensures RowOf(log[j]) in t
    {
      assert rows[j] in multiset(t);
    }
  }

  /** Sorting keeps each row's columns together: every row of the table
      obeys the physics of `Consistent`. */
  lemma TableRowsConsistent(log: Log)
    requires |log| > 0
    ensures var t := EnergyTable(log);
            forall k :: 0 <= k < |t| ==> Consistent(t[k])
  {
    TableRowsComeFromEntries(log);
  }

  /** The frequency of a consistent row is recomputed from its own wavelength
      alone. */
  lemma FrequencyFromWavelength(row: EnergyRow)
    requires Consistent(row)
    ensures row.frequencyHz == SpeedOfLight / (RefractiveIndexAir * row.wavelengthM)
  {
    var d := RefractiveIndexAir * row.wavelengthM;
    assert d > 0.0;
    assert row.frequencyHz * d == SpeedOfLight;
  }

  /** Longer wavelength, lower frequency. */
  lemma FrequencyFallsWithWavelength(a: EnergyRow, b: EnergyRow)
    requires Consistent(a) && Consistent(b)
    requires a.wavelengthM <= b.wavelengthM
    ensures a.frequencyHz >= b.frequencyHz
  {
    var n := RefractiveIndexAir;
    assert b.frequencyHz > 0.0 by {
      assert b.frequencyHz * (n * b.wavelengthM) > 0.0;
      assert n * b.wavelengthM > 0.0;
    }
  }

  /** Sorting ascending by wavelength sorts the frequencies descending. */
  lemma TableFrequenciesDescend(log: Log)
    requires |log| > 0
    ensures var t := EnergyTable(log);
            forall i, j :: 0 <= i < j < |t| ==> t[i].frequencyHz >= t[j].frequencyHz
  {
    var t := EnergyTable(log);
    TableRowsComeFromEntries(log);
    forall i, j | 0 <= i < j < |t|
      ensures t[i].frequencyHz >= t[j].frequencyHz
    {
      FrequencyFallsWithWavelength(t[i], t[j]);
    }
  }

  lemma {:induction false} RowsAppend(a: Log, b: Log)
    ensures Rows(a + b) == Rows(a) + Rows(b)
  {
    assert forall i :: 0 <= i < |a + b| ==> Rows(a + b)[i] == (Rows(a) + Rows(b))[i];
  }

  /** Two logs holding the same entries, in whatever order, yield the same
      rows in whatever order. */
  lemma {:induction false} RowsPermutation(a: Log, b: Log)
    requires multiset(a) == multiset(b)
    ensures multiset(Rows(a)) == multiset(Rows(b))
    decreases |a|
  {
    if |a| == 0 {
      assert |b| == |multiset(b)| == 0;
    } else {
      var x := a[0];
      assert x in multiset(b);
      var k :| 0 <= k < |b| && b[k] == x;
      var rest := b[..k] + b[k + 1..];
      assert b == b[..k] + [x] + b[k + 1..];
      assert a == [x] + a[1..];
      assert multiset(b) == multiset(b[..k]) + multiset{x} + multiset(b[k + 1..]);
      assert multiset(rest) == multiset(b[..k]) + multiset(b[k + 1..]);
      assert multiset(a) == multiset{x} + multiset(a[1..]);
      assert multiset(a[1..]) == multiset(a) - multiset{x};
      assert multiset(rest) == multiset(b) - multiset{x};
      RowsPermutation(a[1..], rest);
      RowsAppend([x], a[1..]);
      RowsAppend(b[..k] + [x], b[k + 1..]);
      RowsAppend(b[..k], [x]);
      RowsAppend(b[..k], b[k + 1..]);
    }
  }

  /** The first row of a strictly sorted table is its only row with the
      least wavelength. */
  lemma FirstIsLeast(x: seq<EnergyRow>, v: EnergyRow)
    requires StrictlySortedByWavelength(x)
    requires v in x
    ensures x[0].wavelengthM <= v.wavelengthM
    ensures v.wavelengthM == x[0].wavelengthM ==> v == x[0]
  {
    var n :| 0 <= n < |x| && x[n] == v;
    if n > 0 {
      assert x[0].wavelengthM < x[n].wavelengthM;
    }
  }

  /** A strictly sorted table is determined by its rows. */
  lemma {:induction false} StrictlySortedUnique(x: seq<EnergyRow>, y: seq<EnergyRow>)
    requires StrictlySortedByWavelength(x) && StrictlySortedByWavelength(y)
    requires multiset(x) == multiset(y)
    ensures x == y
    decreases |x|
  {
    assert |x| == |multiset(x)| == |multiset(y)| == |y|;
    if |x| > 0 {
      assert x[0] in multiset(y) && y[0] in multiset(x);
      FirstIsLeast(y, x[0]);
      FirstIsLeast(x, y[0]);
      assert x[0] == y[0];
      assert x == [x[0]] + x[1..];
      assert y == [y[0]] + y[1..];
      assert multiset(x[1..]) == multiset(x) - multiset{x[0]};
      assert multiset(y[1..]) == multiset(y) - multiset{y[0]};
      assert StrictlySortedByWavelength(x[1..]) by {
        forall i, j | 0 <= i < j < |x| - 1
          ensures x[1..][i].wavelengthM < x[1..][j].wavelengthM
        {
          assert x[1..][i] == x[i + 1] && x[1..][j] == x[j + 1];
        }
      }
      assert StrictlySortedByWavelength(y[1..]) by {
        forall i, j | 0 <= i < j < |y| - 1
          ensures y[1..][i].wavelengthM < y[1..][j].wavelengthM
        {
          assert y[1..][i] == y[i + 1] && y[1..][j] == y[j + 1];
        }
      }
      StrictlySortedUnique(x[1..], y[1..]);
    }
  }

  /** No two entries of the log share a wavelength. */
  predicate DistinctSources(log: Log) {
    forall i, j :: 0 <= i < j < |log| ==> log[i].wavelengthNm != log[j].wavelengthNm
  }

  lemma DistinctSourcesDistinctRows(log: Log)
    requires DistinctSources(log)
    ensures DistinctWavelengths(Rows(log))
  {
    var rows := Rows(log);
    forall i, j | 0 <= i < j < |rows|
      ensures rows[i].wavelengthM != rows[j].wavelengthM
    {
      assert rows[i].wavelengthM / Nanometre != rows[j].wavelengthM / Nanometre;
    }
  }

  /** The table does not depend on the order of the log: two logs holding the
      same entries, each with distinct wavelengths, yield the same table. */
  lemma TableIgnoresLogOrder(a: Log, b: Log)
    requires |a| > 0 && |b| > 0
    requires multiset(a) == multiset(b)
    requires DistinctSources(a) && DistinctSources(b)
    ensures EnergyTable(a) == EnergyTable(b)
  {
    RowsPermutation(a, b);
    DistinctSourcesDistinctRows(a);
    DistinctSourcesDistinctRows(b);
    SortStrict(Rows(a));
    SortStrict(Rows(b));
    StrictlySortedUnique(EnergyTable(a), EnergyTable(b));
  }

  /** Moving one entry to the end keeps distinct wavelengths distinct. */
  lemma MoveToEndKeepsDistinct(log: Log, i: nat)
    requires i < |log|
    requires DistinctSources(log)
    ensures DistinctSources(log[..i] + log[i + 1..] + [log[i]])
  {
    var after := log[..i] + log[i + 1..] + [log[i]];
    assert forall p :: 0 <= p < i ==> after[p] == log[p];
    assert forall p :: i <= p < |log| - 1 ==> after[p] == log[p + 1];
    assert after[|log| - 1] == log[i];
  }

  /** A successful update that re-measures the old stopping voltage moves the
      entry to the end: the same entries, so distinct wavelengths stay
      distinct. */
  lemma UpdateSameVoltagePermutes(log: Log, index: Option<int>, data: Acquisition)
    requires ValidIndex(log, index)
    requires !data.LoadError? && data.voltage == log[index.value].stoppingVoltage
    ensures var after := Update(log, index, data).log;
            && multiset(after) == multiset(log)
            && (DistinctSources(log) ==> DistinctSources(after))
  {
    var i := index.value;
    var after := Update(log, index, data).log;
    assert after == log[..i] + log[i + 1..] + [log[i]];
    assert log == log[..i] + [log[i]] + log[i + 1..];
    assert multiset(after) == multiset(log);
    if DistinctSources(log) {
      MoveToEndKeepsDistinct(log, i);
    }
  }

  /** So the displacement done by an update is invisible in the results: when
      the re-measurement reproduces the old stopping voltage and the
      wavelengths are distinct, the table after the update is the table before
      it. */
  lemma UpdateKeepsTable(log: Log, index: Option<int>, data: Acquisition)
    requires ValidIndex(log, index)
    requires !data.LoadError? && data.voltage == log[index.value].stoppingVoltage
    requires DistinctSources(log)
    ensures EnergyTable(Update(log, index, data).log) == EnergyTable(log)
  {
    UpdateSameVoltagePermutes(log, index, data);
    TableIgnoresLogOrder(Update(log, index, data).log, log);
  }

  /** Two sources entered long wavelength first come out short wavelength
      first. */
  lemma TwoSourcesExample()
    ensures var led450 := Entry(450.0, Led, 1.2);
            var led650 := Entry(650.0, Led, 0.4);
            EnergyTable([led650, led450]) == [RowOf(led450), RowOf(led650)]
  {
    var led450 := Entry(450.0, Led, 1.2);
    var led650 := Entry(650.0, Led, 0.4);
    var rows := Rows([led650, led450]);
    assert rows == [RowOf(led650), RowOf(led450)];
    assert rows[1..] == [RowOf(led450)];
    assert SortByWavelength(rows[1..]) == [RowOf(led450)];
  }
}
