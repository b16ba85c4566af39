/** The experiment's datalog: the ordered list of light-source entries and the
    menu actions that change or show it (Experiment.py, `__add_log_entry`,
    `__remove_log_entry`, `__update_log_entry`, `__display_log`,
    `__view_log_entry`, `__clear_log`).

    Every action is a pure function from the current log and the user's
    already-validated answers to a `Step`: the log afterwards and the notice the
    action prints. An index that `int()` could not parse is `None`. */
module Datalog {
  import opened Wrappers

  /** A wavelength in nanometres: a positive finite number. The add prompt asks
      again while the number it reads is `<= 0`, so it also lets through NaN
      and infinity, which this type does not contain. */
  type Wavelength = x: real | x > 0.0 witness 1.0

  datatype SourceKind = Led | Laser

  /** One light source in the datalog. The stopping voltage is produced by the
      light source's own data collection or file load, which this model does
      not contain: here it is the value that step delivered. */
  datatype Entry = Entry(wavelengthNm: Wavelength, kind: SourceKind, stoppingVoltage: real)

  type Log = seq<Entry>

  /** How an entry's measurements were obtained: collected on the spot, loaded
      from a csv file, or a load that raised. */
  datatype Acquisition = Collected(voltage: real) | Loaded(voltage: real) | LoadError

  /** A `y`/`n` answer after the prompt loop has rejected everything else. */
  datatype Confirmation = Yes | No

  /** One numbered line of the datalog listing. */
  datatype Line = Line(index: nat, entry: Entry)

  /** What an action reports back. */
  datatype Notice =
    | Added(entry: Entry)
    | Removed(entry: Entry)
    | Updated(entry: Entry)
    | Viewed(index: nat, entry: Entry)
    | Listed(lines: seq<Line>)
    | Cleared
    | Declined
    | AlreadyEmpty
    | InvalidIndex
    | LoadFailed

  datatype Step = Step(log: Log, notice: Notice)

  /** The bounds rule every index prompt applies: a parsed integer with
      `0 <= index < len(log)`. Python's negative indexing is never reached. */
  predicate ValidIndex(log: Log, index: Option<int>) {
    index.Some? && 0 <= index.value < |log|
  }

  /** Add a new source. Its entry joins the end of the log only once its data
      is in; a failed load leaves the log as it was. */
  function Add(log: Log, wavelengthNm: Wavelength, kind: SourceKind, data: Acquisition): (r: Step)
    ensures data.LoadError? ==> r == Step(log, LoadFailed)
    ensures !data.LoadError? ==>
              && |r.log| == |log| + 1
              && r.log[..|log|] == log
              && r.log[|log|] == Entry(wavelengthNm, kind, data.voltage)
              && r.notice == Added(r.log[|log|])
  {
    match data
    case LoadError => Step(log, LoadFailed)
    case _ =>
      var e := Entry(wavelengthNm, kind, data.voltage);
      Step(log + [e], Added(e))
  }

  /** Remove the entry at a chosen index; the later entries shift down by one.
      An empty log, an out-of-range index or an unparsable one changes
      nothing. */
  function Remove(log: Log, index: Option<int>): (r: Step)
    ensures |log| == 0 ==> r == Step(log, AlreadyEmpty)
    ensures |log| > 0 && !ValidIndex(log, index) ==> r == Step(log, InvalidIndex)
    ensures ValidIndex(log, index) ==>
              var i := index.value;
              && |r.log| == |log| - 1
              && r.log[..i] == log[..i]
              && r.log[i..] == log[i + 1..]
              && r.notice == Removed(log[i])
  {
    if |log| == 0 then Step(log, AlreadyEmpty)
    else if !ValidIndex(log, index) then Step(log, InvalidIndex)
    else
      var i := index.value;
      Step(log[..i] + log[i + 1..], Removed(log[i]))
  }

  /** Update the entry at a chosen index. The old entry is popped first; a new
      entry with the same wavelength and kind is then re-measured and appended
      at the END of the log, not put back in place. If the re-measurement is a
      load that fails, the popped entry is gone for good. */
  function Update(log: Log, index: Option<int>, data: Acquisition): (r: Step)
    ensures |log| == 0 ==> r == Step(log, AlreadyEmpty)
    ensures |log| > 0 && !ValidIndex(log, index) ==> r == Step(log, InvalidIndex)
    ensures ValidIndex(log, index) ==>
              var i, prev := index.value, log[index.value];
              && |r.log| == (if data.LoadError? then |log| - 1 else |log|)
              && r.log[..|log| - 1] == log[..i] + log[i + 1..]
              && (data.LoadError? ==> r.notice == LoadFailed)
              && (!data.LoadError? ==>
                    && r.log[|log| - 1] == Entry(prev.wavelengthNm, prev.kind, data.voltage)
                    && r.notice == Updated(r.log[|log| - 1]))
  {
    if |log| == 0 then Step(log, AlreadyEmpty)
    else if !ValidIndex(log, index) then Step(log, InvalidIndex)
    else
      var i := index.value;
      var prev := log[i];
      var rest := log[..i] + log[i + 1..];
      match data
      case LoadError => Step(rest, LoadFailed)
      case _ =>
        var e := Entry(prev.wavelengthNm, prev.kind, data.voltage);
        Step(rest + [e], Updated(e))
  }

  /** The numbered listing of the log. */
  function Display(log: Log): (r: Step)
    ensures r.log == log
    ensures r.notice == AlreadyEmpty <==> |log| == 0
    ensures r.notice.Listed? ==>
              && |r.notice.lines| == |log|
              && forall k :: 0 <= k < |log| ==> r.notice.lines[k] == Line(k, log[k])
    ensures r.notice.Listed? || r.notice == AlreadyEmpty
  {
    if |log| == 0 then Step(log, AlreadyEmpty)
    else Step(log, Listed(seq(|log|, k requires 0 <= k < |log| => Line(k, log[k]))))
  }

  /** Show one entry. Viewing never changes the log. */
  function View(log: Log, index: Option<int>): (r: Step)
    ensures r.log == log
    ensures r.notice.Viewed? <==> ValidIndex(log, index)
    ensures r.notice.Viewed? ==> r.notice.index == index.value && r.notice.entry == log[index.value]
    ensures !ValidIndex(log, index) ==> r.notice == (if |log| == 0 then AlreadyEmpty else InvalidIndex)
  {
    if |log| == 0 then Step(log, AlreadyEmpty)
    else if !ValidIndex(log, index) then Step(log, InvalidIndex)
    else Step(log, Viewed(index.value, log[index.value]))
  }

  /** Empty the log, but only after a `y`. */
  function Clear(log: Log, answer: Confirmation): (r: Step)
    ensures |r.log| == 0 || r.log == log
    ensures |r.log| == 0 <==> |log| == 0 || answer == Yes
    ensures r.notice == (if |log| == 0 then AlreadyEmpty else if answer == Yes then Cleared else Declined)
  {
    if |log| == 0 then Step(log, AlreadyEmpty)
    else if answer == Yes then Step([], Cleared)
    else Step(log, Declined)
  }

  // ---------------------------------------------------------------------------
  // Properties relating the actions
  // ---------------------------------------------------------------------------

  /** Remove has an inverse: putting the removed entry back at its index gives
      the original log. */
  lemma RemoveThenReinsert(log: Log, index: Option<int>)
    requires ValidIndex(log, index)
    ensures var r := Remove(log, index); var i := index.value;
            r.log[..i] + [r.notice.entry] + r.log[i..] == log
  {
    var i := index.value;
    assert log == log[..i] + [log[i]] + log[i + 1..];
  }

  /** Remove takes exactly one copy of the removed entry out of the log. */
  lemma RemoveTakesOneCopy(log: Log, index: Option<int>)
    requires ValidIndex(log, index)
    ensures multiset(Remove(log, index).log) + multiset{log[index.value]} == multiset(log)
  {
    var i := index.value;
    assert log == log[..i] + [log[i]] + log[i + 1..];
  }

  /** Add has an inverse: removing the last index right after a successful add
      gives back the original log and the added entry. */
  lemma AddThenRemoveLast(log: Log, wavelengthNm: Wavelength, kind: SourceKind, data: Acquisition)
    requires !data.LoadError?
    ensures var added := Add(log, wavelengthNm, kind, data);
            Remove(added.log, Some(|log|)) == Step(log, Removed(Entry(wavelengthNm, kind, data.voltage)))
  {
    var added := Add(log, wavelengthNm, kind, data);
    assert added.log[..|log|] == log;
  }

  /** Update is pop-then-append: on a valid index its log is exactly that of a
      remove at the index followed by an add of the same source with the new
      data, a failed load included. */
  lemma UpdateIsRemoveThenAdd(log: Log, index: Option<int>, data: Acquisition)
    requires ValidIndex(log, index)
    ensures var prev := log[index.value];
            Update(log, index, data).log
              == Add(Remove(log, index).log, prev.wavelengthNm, prev.kind, data).log
  {
  }

  /** Update displaces: every entry after the updated index moves down one
      place, and the re-measured entry ends up last. */
  lemma UpdateDisplaces(log: Log, index: Option<int>, data: Acquisition)
    requires ValidIndex(log, index)
    requires !data.LoadError?
    ensures var r := Update(log, index, data).log; var i := index.value;
            && (forall j :: 0 <= j < i ==> r[j] == log[j])
            && (forall j :: i <= j < |log| - 1 ==> r[j] == log[j + 1])
            && r[|log| - 1].wavelengthNm == log[i].wavelengthNm
            && r[|log| - 1].kind == log[i].kind
  {
    var r := Update(log, index, data).log;
    var i := index.value;
    forall j | i <= j < |log| - 1
      ensures r[j] == log[j + 1]
    {
      assert r[j] == (log[..i] + log[i + 1..])[j];
    }
  }

  /** A failed load during update loses the popped entry: the log is one
      shorter and the entry is not restored. */
  lemma UpdateLoadFailureLosesEntry(log: Log, index: Option<int>)
    requires ValidIndex(log, index)
    ensures var r := Update(log, index, LoadError);
            && r.log == Remove(log, index).log
            && |r.log| == |log| - 1
            && multiset(r.log) + multiset{log[index.value]} == multiset(log)
  {
    RemoveTakesOneCopy(log, index);
  }

  /** A rejected index leaves the log alone in every index-taking action. */
  lemma RejectedIndexChangesNothing(log: Log, index: Option<int>, data: Acquisition)
    requires !ValidIndex(log, index)
    ensures Remove(log, index).log == log
    ensures Update(log, index, data).log == log
    ensures View(log, index).log == log
  {
  }

  /** The numbers shown in the listing are exactly the indices the other
      prompts accept, and each one selects the entry shown beside it. */
  lemma ListingMatchesView(log: Log, k: int)
    requires |log| > 0
    ensures var lines := Display(log).notice.lines;
            (0 <= k < |lines| <==> ValidIndex(log, Some(k)))
            && (0 <= k < |lines| ==> View(log, Some(k)).notice == Viewed(k, lines[k].entry))
  {
  }

  /** Clearing twice with the same answer is clearing once. */
  lemma ClearIdempotent(log: Log, answer: Confirmation)
    ensures var once := Clear(log, answer).log;
            Clear(once, answer).log == once
  {
  }
}
