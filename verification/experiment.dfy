/** The experiment object itself (Experiment.py, `__init__` and
    `__display_results`): its name, its datalog, the energy table last built
    from that datalog, and the two fitted constants, which the program only
    ever sets to 0. */
module Experiment {
  import opened Wrappers
  import opened Slug
  import opened Datalog
  import opened Energy

  /** The name used when the requested one slugifies to nothing; also the
      constructor's default argument. */
  const DefaultName: string := "unnamed"

  datatype State = State(
    name: string,
    datalog: Log,
    energyTable: Option<seq<EnergyRow>>,
    planckEstimate: real,
    workFunction: real)

  /** The name an experiment gets: the slug of the requested name, or
      `"unnamed"` when that slug is empty. Never empty, always a slug. */
  function ExperimentName(requested: string): (name: string)
    ensures |name| > 0
    ensures IsSlug(name)
    ensures Slugify(requested) != [] ==> name == Slugify(requested)
    ensures Slugify(requested) == [] ==> name == DefaultName
  {
    var slug := Slugify(requested);
    DefaultNameIsSlug();
    if slug == [] then DefaultName else slug
  }

  /** A fresh experiment: the derived name, an empty datalog, no energy table
      yet, and both estimates at 0. */
  function NewExperiment(requested: string): (x: State)
    ensures x.name == ExperimentName(requested)
    ensures x.datalog == [] && x.energyTable == None
    ensures x.planckEstimate == 0.0 && x.workFunction == 0.0
  {
    State(ExperimentName(requested), [], None, 0.0, 0.0)
  }

  /** The "display results" action: on a non-empty datalog, build the energy
      table (one sorted row per entry); on an empty one, change nothing. Only
      the table changes. */
  function DisplayResults(x: State): (y: State)
    ensures y.name == x.name && y.datalog == x.datalog
    ensures y.planckEstimate == x.planckEstimate && y.workFunction == x.workFunction
    ensures |x.datalog| == 0 ==> y == x
    ensures |x.datalog| > 0 ==>
              && y.energyTable.Some?
              && |y.energyTable.value| == |x.datalog|
              && SortedByWavelength(y.energyTable.value)
              && multiset(y.energyTable.value) == multiset(Rows(x.datalog))
  {
    if |x.datalog| > 0 then x.(energyTable := Some(EnergyTable(x.datalog))) else x
  }

  // ---------------------------------------------------------------------------
  // Properties of the name
  // ---------------------------------------------------------------------------

  lemma DefaultNameIsSlug()
    ensures IsSlug(DefaultName)
  {
    assert forall i :: 0 <= i < |DefaultName| ==> IsLower(DefaultName[i]);
  }

  /** The default argument names the experiment "unnamed". */
  lemma DefaultNameKept()
    ensures ExperimentName(DefaultName) == DefaultName
  {
    DefaultNameIsSlug();
    SlugFixedPoints(DefaultName);
  }

  /** Naming is stable: an experiment created with the name of another gets
      exactly that name. */
  lemma ExperimentNameStable(requested: string)
    ensures ExperimentName(ExperimentName(requested)) == ExperimentName(requested)
  {
    SlugFixedPoints(ExperimentName(requested));
  }

  /** A requested name with no ASCII letter or digit gives "unnamed"; any
      other request gives "unnamed" only by slugifying to it. */
  lemma UnnamedIff(requested: string)
    ensures Filter(IsAlnum, Filter(IsAscii, requested)) == [] ==> ExperimentName(requested) == DefaultName
    ensures (ExperimentName(requested) == DefaultName && Slugify(requested) != DefaultName)
              ==> Filter(IsAlnum, Filter(IsAscii, requested)) == []
  {
    SlugEmptyIff(requested);
  }
}
