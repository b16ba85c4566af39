# Photoelectric-effect lab experiment — Dafny model

This project models the core of the `Experiment` class of a guided
photoelectric-effect laboratory program. An experiment has a name, a
datalog of light sources, and an energy table built from that datalog:

- **Name slug** (`Slug`, `Experiment.ExperimentName`). The requested
  experiment name goes through Django's `slugify` recipe. Non-ASCII
  characters are dropped and the rest is lower-cased. Everything outside
  `[\w\s-]` is deleted. Runs of `[-\s]` become one `-`, and `-`/`_` are
  stripped from both ends. An empty slug falls back to `"unnamed"`.
- **Datalog** (`Datalog`). This is an ordered list of entries; each entry has
  a wavelength in nm, a source kind (LED or laser) and a stopping voltage. The
  menu actions add, remove, update, display, view and clear are pure functions.
  Each one takes the log, the parsed index (`None` when `int()` failed), the
  outcome of the data acquisition and the `y`/`n` answer. It returns the new
  log and the notice it prints. Update pops the entry and appends its
  re-measured replacement at the end. A failed load during update loses the
  popped entry.
- **Energy table** (`Energy`). Each entry gives one row: λ = nm·1e-9,
  ν = c/(n_air·λ), V_s, and E = |q|·V_s. The rows are then sorted ascending by
  λ. The "display results" action builds the table only when the datalog is
  non-empty (`Experiment.DisplayResults`).

The modules are `Wrappers` (an `Option` type), `Slug`, `Datalog`, `Energy`
and `Experiment`.

The program declares a Planck constant and two estimate fields, the Planck
estimate and the work function. Both fields stay 0: `Experiment.py` computes no
stopping-voltage estimate and no fit, so the model has none either. Along the
way `Experiment.py` behaves as follows, and the model does the same:
- An invalid index prints a message and changes nothing; nothing is raised.
- A failed file load abandons an add.
- Clear asks for a `y`/`n` confirmation first.
- Update loses the popped entry when the reload fails.

## Model

| member | source | states |
|---|---|---|
| Slug.Filter | Experiment.py:85-86 | The result holds exactly the characters of the input that are in the class, and it is never longer than the input. If every character is in the class, the input comes back unchanged. Order and multiplicity follow from `Slug.FilterAppend`. The model uses this for both `encode('ascii', 'ignore')` and the deletion of `[^\w\s-]`. |
| Slug.ToLower | Experiment.py:86 | Lower-casing one character leaves no upper-case letter. An upper-case letter becomes the lower-case letter at the same place in the alphabet (`'A'` to `'a'`). It keeps letters and digits as letters and digits, keeps ASCII as ASCII, and fixes every character that is not upper-case. |
| Slug.FilterAppend | Experiment.py:85-86 | Filtering distributes over concatenation. Together with Filter's contract on one-character strings, this pins the result down: the kept characters, each occurrence once, in their original order. |
| Slug.Lower | Experiment.py:86 | `lower()` keeps the length and lower-cases each position on its own. |
| Slug.CollapseFrom | Experiment.py:87 | After collapsing separator runs there is no whitespace and no `--`. Every character is a `-` or a non-separator character of the input. The result starts with `-` exactly when the input starts with a separator outside a run. A string with no whitespace and no `--` is returned unchanged. |
| Slug.NonSeparatorsOfCollapse | Experiment.py:87 | Collapsing `[-\s]+` keeps every character outside `[-\s]`, `_` included, each occurrence once and in order. |
| Slug.CollapsePlain | Experiment.py:87 | A stretch with no `[-\s]` character passes through the collapse unchanged. |
| Slug.CollapseInRun | Experiment.py:87 | Separators that continue a run already replaced by a dash produce nothing more. |
| Slug.OpenRun | Experiment.py:87 | Outside a run, a separator emits one `-` and starts a run. |
| Slug.LeaveRun | Experiment.py:87 | Before a non-separator or at the end of the string, it makes no difference whether a run was open. |
| Slug.RunBecomesDash | Experiment.py:87 | A maximal run of `[-\s]` at the start becomes exactly one `-`, and the collapse continues after it as from the start. |
| Slug.CollapseRun | Experiment.py:87 | A maximal run of `[-\s]` after separator-free text becomes exactly one `-`: the text before it is kept and the rest collapses on its own. |
| Slug.LeadingRunEnd | Experiment.py:87 | The place where `lstrip('-_')` cuts: every character before it (from the start position) is `-` or `_`, and the character at it is not. |
| Slug.TrailingRunStart | Experiment.py:87 | The place where `rstrip('-_')` cuts: every character from it to the end is `-` or `_`, and the character just before it is not, unless the cut reached the lower bound. |
| Slug.Strip | Experiment.py:87 | `strip('-_')` returns a contiguous piece of the input, and only `-`/`_` lie outside it. The piece neither starts nor ends with `-` or `_`, and an input that already satisfies this comes back unchanged. |
| Slug.Slugify | Experiment.py:81-87 | Every slug has the slug shape: only `a-z`, `0-9`, `_` and `-`, never two adjacent `-`, and no `-` or `_` at either end. |
| Slug.StagesGiveSlug | Experiment.py:85-87 | Running the four stages in order (ASCII filter, lower-case and delete, collapse, strip) always ends in the slug shape. |
| Slug.KeptChars | Experiment.py:86 | After `lower()` and the deletion of `[^\w\s-]`, only lower-case members of `[\w\s-]` remain. |
| Slug.CollapsedChars | Experiment.py:87 | Collapsing `[-\s]+` in such a string leaves only `a-z`, `0-9`, `_` and `-`. |
| Slug.StrippedShape | Experiment.py:87 | Stripping `-`/`_` from a string of slug characters without `--` yields a slug. |
| Slug.LowerFixed | Experiment.py:86 | `lower()` leaves a string without upper-case letters unchanged. |
| Slug.SlugFixedPoints | Experiment.py:81-87 | A string is a slug if and only if slugify leaves it unchanged. |
| Slug.SlugifyIdempotent | Experiment.py:81-87 | Slugifying a slug returns it unchanged. |
| Slug.AlnumOfLower | Experiment.py:86 | Lower-casing commutes with keeping only letters and digits. |
| Slug.AlnumOfKept | Experiment.py:86 | Deleting `[^\w\s-]` never removes a letter or a digit. |
| Slug.AlnumOfCollapse | Experiment.py:87 | Collapsing `[-\s]+` keeps every letter and digit, in order. |
| Slug.AlnumOfStrippedRun | Experiment.py:87 | A run made only of `-` and `_` holds no letter or digit. |
| Slug.AlnumOfStrippedSlice | Experiment.py:87 | A slice made only of `-` and `_`, such as the pieces `strip('-_')` cuts away, holds no letter or digit. |
| Slug.AlnumOfStrip | Experiment.py:87 | `strip('-_')` keeps every letter and digit, in order. |
| Slug.SlugKeepsAlphanumerics | Experiment.py:85-87 | The slug's letters and digits are exactly the input's ASCII letters and digits, lower-cased and in order. |
| Slug.SlugEmptyIff | Experiment.py:85-87 | The slug is empty exactly when the input has no ASCII letter or digit. |
| Experiment.ExperimentName | Experiment.py:53-54 | The experiment name is never empty and always a slug. It is the slug when the slug is non-empty, and `"unnamed"` otherwise. |
| Experiment.NewExperiment | Experiment.py:51-59 | A new experiment has the derived name, an empty datalog and no energy table, and both estimates are 0. |
| Experiment.DefaultNameIsSlug | Experiment.py:51-54 | The fallback name `"unnamed"` is itself a slug. |
| Experiment.DefaultNameKept | Experiment.py:51-54 | The constructor's default argument gives the name `"unnamed"`. |
| Experiment.ExperimentNameStable | Experiment.py:53-54 | Creating an experiment with an existing experiment's name reproduces that name. |
| Experiment.UnnamedIff | Experiment.py:53-54 | A request with no ASCII letter or digit gives the name `"unnamed"`. Conversely, a request that gets `"unnamed"` without slugifying to it has no ASCII letter or digit. |
| Experiment.DisplayResults | Experiment.py:264-269 | On a non-empty datalog, "display results" stores a table with one row per entry. The table is sorted by wavelength and is a permutation of the entries' rows. On an empty datalog nothing changes. The name, the datalog and the estimates never change. |
| Datalog.Add | Experiment.py:143-159 | After a successful collection or load, add appends exactly one entry at the end: the new source with its stopping voltage. After a failed load, the log is unchanged. |
| Datalog.Remove | Experiment.py:162-178 | For `0 <= i < len`, remove yields `log[..i] + log[i+1..]` and reports `log[i]`. On an empty log, or with a negative, too large or unparsable index, the log is unchanged. |
| Datalog.Update | Experiment.py:180-212 | For a valid index, update drops position `i` and then appends a new entry with the old wavelength and kind and the new voltage, so the length is kept. If the load fails, the length drops by one. An empty log or a rejected index changes nothing. |
| Datalog.Display | Experiment.py:214-222 | The listing numbers each entry with its position, one line per entry, and leaves the log unchanged. An empty log gives the empty notice. |
| Datalog.View | Experiment.py:224-241 | View shows `log[i]` exactly when the index is valid, and it never changes the log. |
| Datalog.Clear | Experiment.py:278-290 | Clear empties the log only on `y`. On `n` or on an already-empty log it changes nothing. |
| Datalog.RemoveThenReinsert | Experiment.py:168-169 | Putting the removed entry back at its index restores the original log. |
| Datalog.RemoveTakesOneCopy | Experiment.py:168-169 | Remove takes exactly one copy of the chosen entry out of the log's multiset. |
| Datalog.AddThenRemoveLast | Experiment.py:143-175 | Removing the last index right after a successful add gives back the original log and the added entry. |
| Datalog.UpdateIsRemoveThenAdd | Experiment.py:186-205 | On a valid index, update's log equals a remove at that index followed by an add of the same source. This includes the failed-load case. |
| Datalog.UpdateDisplaces | Experiment.py:186-205 | After a successful update, entries before `i` stay in place and entries after `i` move down one position. The re-measured source, with the same wavelength and kind, is last. |
| Datalog.UpdateLoadFailureLosesEntry | Experiment.py:186-199 | When the reload fails, the popped entry is not restored: the log is the removal's log and one entry shorter. |
| Datalog.RejectedIndexChangesNothing | Experiment.py:162-241 | Remove, update and view leave the log unchanged for any index they reject. |
| Datalog.ListingMatchesView | Experiment.py:214-241 | The numbers in the listing are exactly the indices the prompts accept, and each one selects the entry listed beside it. |
| Datalog.ClearIdempotent | Experiment.py:278-290 | Clearing a second time with the same answer changes nothing more. |
| Energy.Abs | Experiment.py:102 | `abs` returns a non-negative value that is either the input or its negation. |
| Energy.RowOf | Experiment.py:97-102 | The value columns of a row depend on its own entry only. Dividing λ by 1e-9 gives back the entry's nm. ν·n_air·λ = c, ν > 0, V_s is the entry's voltage, E = |q|·V_s, and E ≥ 0 exactly when V_s ≥ 0. |
| Energy.Rows | Experiment.py:97 | There is one row per entry, in log order. |
| Energy.Insert | Experiment.py:103 | Inserting into a sorted table keeps it sorted and adds exactly one copy of the row (multiset). |
| Energy.SortByWavelength | Experiment.py:103 | `sort_values(by=['λ'])` returns a permutation of its rows (multiset) sorted ascending by λ. |
| Energy.InsertStrict | Experiment.py:103 | Inserting a row with a new wavelength keeps a strictly sorted table strictly sorted. |
| Energy.SortStrict | Experiment.py:103 | Rows with pairwise distinct wavelengths sort into strictly ascending order. |
| Energy.EnergyTable | Experiment.py:96-104 | Defined for a non-empty datalog only, like the source, whose column slicing fails on an empty one. The table has exactly one row per datalog entry, is sorted ascending by λ, and as a multiset equals the entries' rows. |
| Energy.TableRowsComeFromEntries | Experiment.py:97-103 | Every table row is the row of some entry, and every entry's row is in the table. |
| Energy.TableRowsConsistent | Experiment.py:99-103 | Every row of the sorted table still satisfies ν·n_air·λ = c with λ > 0, and E = |q|·V_s. Sorting never mixes columns across rows. |
| Energy.FrequencyFromWavelength | Experiment.py:100 | For such a row, recomputing c/(n_air·λ) from the row's own λ gives back its ν. |
| Energy.FrequencyFallsWithWavelength | Experiment.py:99-100 | For two consistent rows, the one with the longer wavelength has the lower or equal frequency. |
| Energy.TableFrequenciesDescend | Experiment.py:99-103 | Because the table is sorted ascending by λ, its frequencies descend. |
| Energy.RowsPermutation | Experiment.py:97 | Logs with the same entries in any order give the same rows in some order (multiset). |
| Energy.FirstIsLeast | Experiment.py:103 | The first row of a strictly sorted table is its only row with the least wavelength. |
| Energy.StrictlySortedUnique | Experiment.py:103 | Two strictly sorted tables with the same rows are equal. |
| Energy.DistinctSourcesDistinctRows | Experiment.py:99 | Distinct nm wavelengths give distinct metre wavelengths. |
| Energy.TableIgnoresLogOrder | Experiment.py:96-104 | Two logs with the same entries in any order, each with distinct wavelengths, produce the same value columns in the same order. |
| Energy.MoveToEndKeepsDistinct | Experiment.py:187-205 | Moving one entry to the end of the log keeps distinct wavelengths distinct. |
| Energy.UpdateSameVoltagePermutes | Experiment.py:186-205 | An update that re-measures the old voltage only reorders the log: the multiset is the same and distinct wavelengths stay distinct. |
| Energy.UpdateKeepsTable | Experiment.py:186-205 | The displacement done by update does not show in the table's value columns. With distinct wavelengths and an unchanged voltage, the rows after the update have the same values, in the same order, as before it. |
| Energy.TwoSourcesExample | Experiment.py:96-103 | A 650 nm entry followed by a 450 nm entry gives the table [450 nm row, 650 nm row]. |

## Left out

- The light source's data collection, csv loading and stopping-voltage
  computation are not modelled. The light-source class is not part of this
  model: the shipped `LightSource.py` is a stub that only stores a name. The
  outcome of these steps is a parameter (`Acquisition`), and the entry keeps
  the voltage it delivers.
- Unicode normalisation (`unicodedata.normalize('NFKD')`) and the
  `allow_unicode` branch belong to a foreign library. The model drops
  non-ASCII characters exactly as the ASCII encode does, and it treats the
  input as already decomposed. Upper-casing and lower-casing rules outside
  ASCII are therefore not needed.
- Interactive prompting is outside the model: the source-type and
  positive-wavelength retry loops, the `y`/`n` retry loops, `cprint`/`print`
  formatting and `plot_data`/`get_data`. Their validated results are
  parameters. The wavelength is a positive-real subtype, and the answer is
  `Yes`/`No`.
- `__save_log` is not modelled because it performs directory and file I/O.
- `__save_results` is not modelled because it is an empty stub.
- `__quit`, `display_options`, `process_option`, `get_option_range`, the
  option table and `PEF_Lab.py` are menu plumbing, so the model leaves them
  out.
- The fitted constants are not modelled: the linear fit, the Planck-constant
  and work-function estimates, and the percent error. The code has none of
  them. `planckEstimate` and `workFunction` only ever hold their initial 0.
- The model has no floating-point rounding. The energy arithmetic is exact
  `real` arithmetic.
- The DataFrame's row index is not modelled. The first column assignment
  labels the rows 0..n-1 in log order, and `sort_values` carries each label
  along with its row, so the program's table records where each entry sat in
  the log. An `EnergyRow` holds only the four value columns, so
  `Energy.TableIgnoresLogOrder` and `Energy.UpdateKeepsTable` speak about those
  columns: after an update that moves an entry, the program's labels differ
  even though the values do not.
- The model proves nothing about the order of rows with equal wavelengths,
  because `sort_values` does not fix it.
- Datalog.Add: the model does not cover an exception raised by
  `collect_data`, which nothing in `__add_log_entry` catches. Collection always
  succeeds in the model.
- Datalog.Update: the model does not cover an exception raised by
  `collect_data` during an update. The code catches it in the outer handler,
  loses the popped entry like a failed load, and prints the "no entries were
  updated" message. The model covers only the load-failure case.
- Wavelengths that are NaN or infinite are not modelled. The prompt's
  `while (wavelength_nm <= 0)` check lets `float('nan')` and `float('inf')`
  through, but the wavelength type holds positive finite numbers only. For an
  infinite wavelength the source's frequency would be 0, which `RowOf` rules
  out.
- Energy.EnergyTable: an empty datalog is excluded by its precondition. In the
  source, building the table from an empty datalog raises `IndexError` (the
  column slice of an empty array), and "display results" only builds it for a
  non-empty one.
- Datalog actions change the datalog, not the whole experiment state. The
  stored energy table is not rebuilt when the datalog changes; only "display
  results" rebuilds it.
