# Mixed-layer heat budget, modelled in Dafny

This project models the daily mixed-layer heat-budget engine of the
Mixed-Layer-Heat-budget repository, together with the small utilities that
sit around it, and proves what that code promises.

The engine, `process_d2nf.py`, reads one year of daily ocean fields. The
fields are temperature, velocity and mixed-layer depth on `(z, y, x)`
levels, plus surface heat fluxes. For every column it diagnoses:

- the mixed-layer mean temperature and velocity (`Tm`, `Um`, `Vm`);
- the temperature and vertical gradient at the layer base (`Tb`, `TzH`);
- the surface temperature extrapolated from the top two levels (`T0`).

For every day it then assembles the terms of the heat budget:

- net surface heating after shortwave penetration (QNET);
- lateral advection (ADV);
- entrainment (ENT), in one of four velocity modes with optional caps and a cooling-only rule;
- conservative lateral diffusion (DIFF) and vertical diffusion (DIFFV);
- forward and centred tendencies, and the closure residuals.

A rolling three-day window (`Tm_prev`, `Tm_prev_prev`, `H_prev`) carries state from one day to the next.

Module by module:

- `Floats` (floats.dfy). A floating-point value is a `Val = Option<real>`: `None` stands for NaN or an infinity, and arithmetic propagates it.
- `Grid` (grid.dfy). Fields, and the centred differences `ddx_c` and `ddy_c`.
- `MixedLayer` (column.dfy). The per-column diagnostics of `ml_avg_Tb_Tz_sfc`, the bottom-level (`topo`) search, and the imperative loops that fill the output grids.
- `Budget` (budget.dfy). The elementwise per-day terms and the DIFF stencil.
- `Year` (sequencer.dfy). The whole-year loop of `process_year`, the rolling window as a class, and `parse_years`.
- `Panel` (panel.dfy). The latitude and longitude shifts, the nine-point smoother `smth9` and the colour-bar tick selection of `source_panel.py`.
- `Journal` (journal.dfy). The section splice, step and task parsing and task carry-over of the journal scripts.
- `Patterns` (patterns.dfy). The tag-count alert tracker, as a class whose methods update its state.
- `Notes` (notes.dfy). `slugify`, note content, and note search and normalisation.
- `Slides` (slides.dfy). Text stripping, keyword counting and slide summaries.
- `Era5` (era5.dfy). The year-range file filter.
- `Dates`, `Text` and `Sorting`. Shared models of the Python calendar, string and sorting built-ins that the scripts rely on.

Where the source and its description disagree, the model follows the source:

- For depths 5, 15, 25, 35 and `h = 20` the half levels are 0, 10, 20, 30, 40. The overlap weights are therefore 10, 10, 0, 0 (`MixedLayer.OverlapWeightsExample`).
- The "centred" tendency uses `Tm_prev_prev`, two days back, over `2·DT`. Steady warming therefore reads as 1.5 times its slope (`Budget.CentredTendencyOfSteadyWarming`).
- The "centered" entrainment mode falls through to the branch that adds the divergence, as "full" does (`Budget.UncappedVelocity`).
- With a single valid level (`kbot = 1`) the containing-level index is `-1`, a Python negative index (`MixedLayer.ContainingLevel`, `MixedLayer.Pair`).
- In `journal_start.py` the section body starts at `find("\n") + 1`. That is 0 when no newline follows the marker, and the model keeps it.

## Model

| member | source | states |
|---|---|---|
| Floats.Clip | process_d2nf.py:326 | a clipped value is NaN exactly when its input is, lies within the bounds, and is the input itself when that is already within them |
| Grid.Centred | process_d2nf.py:96 | the centred difference is finite exactly when both neighbours are and the spacing is non-zero, and then times twice the spacing it equals the neighbours' difference |
| Grid.DdxC | process_d2nf.py:94-97 | `ddx_c` is NaN on the first and last column, and inside it is finite exactly when both x-neighbours are and the row spacing is non-zero |
| Grid.DdyC | process_d2nf.py:99-102 | `ddy_c` is NaN on the first and last row, and inside it is finite exactly when both y-neighbours are and the spacing is non-zero |
| Grid.DdxCOfRamp | process_d2nf.py:94-97 | on a field rising linearly in x with slope `s` per metre, `ddx_c` is exactly `s` at every interior point |
| Grid.DdyCOfRamp | process_d2nf.py:99-102 | on a field rising linearly in y with slope `s` per metre, `ddy_c` is exactly `s` at every interior point |
| MixedLayer.HalfLevels | process_d2nf.py:123-132 | there is one more half level than levels and the first is 0 |
| MixedLayer.HalfLevelsBracket | process_d2nf.py:124-132 | for increasing non-negative depths each level lies in its own half-level cell, `zhalf[k] <= depth[k] < zhalf[k+1]` |
| MixedLayer.ComputeHalfLevels | process_d2nf.py:123-132 | the loop that fills `zhalf` produces exactly the half levels |
| MixedLayer.LayerMean | process_d2nf.py:158-170 | the layer mean is defined exactly when `h > 0` and the overlap sum is finite, and then times `h` it equals that sum |
| MixedLayer.LayerMeanWithinBounds | process_d2nf.py:157-170 | with `h` capped within the valid levels, a column whose valid values lie in `[lo, hi]` has a finite mean in `[lo, hi]` |
| MixedLayer.WeightsSumToThickness | process_d2nf.py:157-166 | the overlap weights of the cells above `h` sum to exactly `h` |
| MixedLayer.OverlapWeightsExample | process_d2nf.py:124-166 | worked example, one input: for depths 5, 15, 25, 35 and `h = 20` the half levels are 0, 10, 20, 30, 40 and the weights are 10, 10, 0, 0 |
| MixedLayer.UniformMean | process_d2nf.py:157-170 | a column that is constant over its valid levels has that constant as its layer mean |
| MixedLayer.AccumulateLayer | process_d2nf.py:158-166 | the `k` loop accumulating `ts`, `us` and `vs` produces the three overlap sums |
| MixedLayer.SurfaceTemp | process_d2nf.py:146-155 | when two top levels are valid and increase, `T0` lies on the line through them at depth 0; otherwise it is `T[0]` |
| MixedLayer.SurfaceTempExample | process_d2nf.py:147-155 | worked example, one input: depths 1 and 3 with temperatures 20 and 18 give `T0 = 21` |
| MixedLayer.UniformSurface | process_d2nf.py:146-155 | a column constant over its valid levels extrapolates to that constant |
| MixedLayer.ExtrapolateSurface | process_d2nf.py:146-155 | the imperative extrapolation computes `SurfaceTemp` |
| MixedLayer.SearchRight | process_d2nf.py:174 | `searchsorted(side="right")`: every entry before the result is `<= h`, and the entry at the result is `> h` |
| MixedLayer.SearchRightSorted | process_d2nf.py:174 | on increasing depths every entry from the result on is `> h` |
| MixedLayer.ContainingLevel | process_d2nf.py:172-176 | `pos` lies in `[0, kbot-2]` when `kbot >= 2`, is `-1` when `kbot = 1`, and its depth is `<= h` once `h` reaches the top level |
| MixedLayer.ContainingLevelBrackets | process_d2nf.py:172-177 | for `h` between the top and the last valid depth, `depth[pos] <= h <= depth[pos+1]` |
| MixedLayer.Pair | process_d2nf.py:174-177 | the interpolation pair is two adjacent levels when `kbot >= 2`, and the last level with the first (the Python index `-1`) when `kbot = 1` |
| MixedLayer.BaseValues | process_d2nf.py:177-185 | with a valid increasing pair, `TzH` is the pair's slope and `Tb` lies on that line at `h`; otherwise `Tb = Tm` and `TzH = 0` |
| MixedLayer.BaseBetweenPair | process_d2nf.py:177-181 | when `h` lies between the pair's depths, `Tb` lies between the pair's temperatures |
| MixedLayer.BaseValuesExample | process_d2nf.py:177-181 | worked example, one input: depths 10 and 20 with temperatures 15 and 10 and `h = 15` give `Tb = 12.5` and `TzH = -0.5` |
| MixedLayer.SingleLevelFallsBack | process_d2nf.py:174-185 | with one valid level the base values fall back to `Tm` and a zero gradient |
| MixedLayer.UniformBase | process_d2nf.py:177-185 | a constant column has that constant at its base and a zero gradient |
| MixedLayer.BaseOfColumn | process_d2nf.py:172-185 | the imperative base search computes `BaseValues` |
| MixedLayer.ColumnDiag | process_d2nf.py:134-185 | a column with no valid level or a non-finite or non-positive `h` has all six diagnostics NaN; otherwise `TzH` is finite and `T0` is the extrapolated surface value |
| MixedLayer.UniformColumn | process_d2nf.py:143-185 | a constant column of positive depths with positive `h` has `Tm = Tb = T0` equal to the constant and `TzH = 0` |
| MixedLayer.DiagnoseColumn | process_d2nf.py:136-185 | the imperative column body computes `ColumnDiag` |
| MixedLayer.Diagnostics | process_d2nf.py:134-187 | the diagnostic grid holds each column's diagnostics at its own position |
| MixedLayer.ColumnLocality | process_d2nf.py:134-185 | a column's diagnostics depend only on that column's inputs, its `h` and its `topo` |
| MixedLayer.DiagnoseGrid | process_d2nf.py:115-187 | the nested `j, i` loops fill the output grid with `Diagnostics` |
| MixedLayer.FirstNonFinite | process_d2nf.py:245-247 | the result is the index of the first non-finite level, or the column length when there is none |
| MixedLayer.TopoOf | process_d2nf.py:241-247 | `topo[j,i]` counts the leading finite levels of column `(j,i)`, and the level it points to, if any, is non-finite |
| MixedLayer.Topo | process_d2nf.py:241-247 | the topo loop fills the array with `TopoOf` |
| Budget.Floor | process_d2nf.py:298 | the floored thickness is finite exactly when the thickness is, is at least `hmin`, and is unchanged when already at least `hmin` |
| Budget.Denominator | process_d2nf.py:297-303 | `hden` is at least `hmin` wherever it is finite; without hbar it is the floored `H0`, with hbar it lies between the two floored thicknesses |
| Budget.Transmittance | process_d2nf.py:306 | the penetration factor is finite exactly when the thickness is |
| Budget.Qnet | process_d2nf.py:305-307 | QNET is finite exactly when every flux, `H0` and a non-zero `hden` are, and then `ρ·cp·hden·QNET` is the net surface flux minus the penetrating shortwave |
| Budget.PenetrationBounded | process_d2nf.py:306 | with `exp` in `(0, 1]` on non-positive arguments, the penetrating shortwave lies between 0 and the incoming shortwave |
| Budget.ZeroThicknessLosesShortwave | process_d2nf.py:305-307 | at zero thickness all shortwave penetrates, leaving longwave plus latent plus sensible heat |
| Budget.Advection | process_d2nf.py:309-311 | ADV is finite exactly when its four inputs are, and equals `-(Um·dTm/dx + Vm·dTm/dy)` |
| Budget.ThicknessTendency | process_d2nf.py:313-317 | the centred `dh/dt` spans `H1 - H_prev` over `2·DT`, the forward one spans `H1 - H0` over `DT`, each finite exactly when both ends are |
| Budget.UncappedVelocity | process_d2nf.py:318-323 | "dhdt" is `dh/dt`; "deepening" is non-negative and keeps a positive `dh/dt + div`; "full" and "centered" add the divergence |
| Budget.EntrainmentVelocity | process_d2nf.py:318-326 | a cap keeps `|we|` within it and leaves a velocity already within it unchanged; "deepening" stays non-negative; with no cap the velocity is uncapped |
| Budget.EffectiveJump | process_d2nf.py:328-332 | a ΔT cap keeps `|dT_eff|` within `|dT_cap|` and leaves a jump already within it unchanged; with no cap the jump is unchanged |
| Budget.RawEntrainment | process_d2nf.py:334 | ENT times `hden` is `-(we·dT_eff)`, finite exactly when its inputs are and `hden` is non-zero |
| Budget.Entrainment | process_d2nf.py:334-339 | cooling-only ENT is finite and never positive, with NaN and warming replaced by 0; an ENT cap bounds it by `[-cap, 0]` when cooling-only and by `[-cap, cap]` otherwise |
| Budget.CoolingOnlyRule | process_d2nf.py:334-336 | with `we >= 0` and `hden > 0` under cooling-only, a non-positive jump gives `ENT = 0` and a positive jump with positive `we` gives `ENT < 0` |
| Budget.DiffCell | process_d2nf.py:346-357 | the diffusion stencil is NaN wherever `Tm` or `H0` is non-finite at the centre |
| Budget.DiffField | process_d2nf.py:341-357 | DIFF is NaN on every edge row and column and equals the stencil inside |
| Budget.Diffusion | process_d2nf.py:341-357 | the loops that fill the DIFF array compute `DiffField` |
| Budget.UniformFieldsDoNotDiffuse | process_d2nf.py:341-357 | uniform `Tm`, `H0` and `dT` fields give zero diffusion at every interior point |
| Budget.VerticalDiffusion | process_d2nf.py:360 | DIFFV times `hden` is `-kv·TzH`, finite exactly when `TzH` and a non-zero `hden` are |
| Budget.Tendency | process_d2nf.py:362-373 | a tendency times its span is the temperature difference, finite exactly when both ends are and the span is non-zero |
| Budget.CentredTendencyOfSteadyWarming | process_d2nf.py:368-373 | for temperatures rising by `s·DT` a day, the centred tendency over `Tm_prev_prev` reads `1.5·s` |
| Budget.Rhs | process_d2nf.py:375 | the right-hand side is the sum of the five terms, finite exactly when all of them are |
| Budget.Closure | process_d2nf.py:375-377 | the closure residual plus the right-hand side is the tendency, finite exactly when both are |
| Year.CellThicknessTendency | process_d2nf.py:314-317 | the centred `dh/dt` is used only in "centered" mode with `H_prev` present; otherwise the forward one is used |
| Year.CellRecord | process_d2nf.py:293-377 | a cell's record copies the diagnostics, makes ADV the advection, keeps cooling-only ENT non-positive, leaves TEN_F NaN on the first step and TEN_C NaN on the first two, and makes each CLOS close its tendency |
| Year.DayCell | process_d2nf.py:293-377 | the record of cell `(j, i)` takes that cell's diagnostics, thickness, advection inputs and DIFF, keeps cooling-only ENT non-positive, and closes both tendencies |
| Year.LateralTerms | process_d2nf.py:309-357 | `dTm/dx` is NaN on the edge columns, `dTm/dy` on the edge rows, and DIFF on every edge |
| Year.DayRecords | process_d2nf.py:291-377 | the day's record grid holds each cell's record at its own position |
| Year.DayRecordsPromise | process_d2nf.py:294-377 | every cell of a day meets the record promises: copied diagnostics, windowed tendencies, closures, non-positive cooling-only ENT and NaN DIFF on the edges |
| Year.DiagnoseDay | process_d2nf.py:294 | the day's diagnostics are the diagnostic grid of that day's fields |
| Year.YearTopo | process_d2nf.py:241-247 | the bottom levels of the year come from the first day's temperature |
| Year.YearBottom | process_d2nf.py:241-247 | the imperative topo step computes `YearTopo` |
| Year.YearRecords | process_d2nf.py:279-405 | a year of `n` days yields `n - 1` daily record grids, one per step |
| Year.TendencyWindow | process_d2nf.py:363-405 | on step `n`, TEN_F is NaN for `n = 0` and otherwise spans days `n` and `n-1`; TEN_C is NaN for `n <= 1` and otherwise spans days `n+1` and `n-2` |
| Year.Window.constructor | process_d2nf.py:274-276 | the window starts empty |
| Year.Window.Roll | process_d2nf.py:401-404 | after a step `Tm_prev_prev` is the old `Tm_prev`, `Tm_prev` is today's `Tm`, and `H_prev` is today's `H0` |
| Year.Step | process_d2nf.py:279-405 | one loop iteration computes that day's records and moves the window on by one day |
| Year.RunDays | process_d2nf.py:279-405 | the day loop produces the records of every step in order |
| Year.ProcessYear | process_d2nf.py:273-405 | fewer than three days is an error; otherwise the result is the year's records |
| Year.ParseShowInt | process_d2nf.py:412-414 | every integer written in decimal reads back as itself |
| Year.ParseAllValues | process_d2nf.py:414 | a comma list parses exactly when every item does, and then item by item |
| Year.ParseYears | process_d2nf.py:410-414 | a range yields consecutive years, a range with other than two parts fails, and a comma list yields one year per item |
| Year.YearRangeRoundTrip | process_d2nf.py:410-413 | `"a:b"` yields every year from `a` to `b` inclusive |
| Year.ParseYearsPair | process_d2nf.py:411-413 | a two-part range is decided by its two parsed ends |
| Year.YearsBetweenSome | process_d2nf.py:413 | two parsed ends give the inclusive range between them |
| Year.Range | process_d2nf.py:413 | `range(a, b)` has `b - a` entries (none when `a >= b`), counting up from `a` |
| Dates.ParseFormatIso | scripts/journal_start.py:43 | a valid date formatted as `%Y-%m-%d` parses back to itself |
| Dates.OrdinalOrder | scripts/journal_start.py:46 | comparing dates agrees with comparing their day ordinals, and equal ordinals mean equal dates |
| Dates.ParseIso | scripts/pattern_tracker.py:124 | a parsed date is a valid calendar date |
| Journal.SectionBounds | scripts/journal_start.py:54-61 | no bounds exactly when the marker is absent; otherwise the body starts at a line start and ends at the first `"\n## "` after it, or at the end of the text |
| Journal.Checkboxes | scripts/journal_start.py:82 | each item becomes its own `- [ ] ` line, in order |
| Journal.ReplaceSection | scripts/journal_start.py:73-83 | with the marker absent the text is unchanged |
| Journal.ExtractAfterReplace | scripts/journal_start.py:73-83 | after a replacement the section reads back as exactly the new checkbox lines, starting where it did before |
| Journal.StepsAfterReplace | scripts/journal_start.py:73-83 | after a replacement the section's steps are the steps of the new checkbox lines |
| Journal.PlaceholderIsBullets | scripts/journal_start.py:96 | the placeholder body is the checkbox lines of the two `<TODO>` items |
| Journal.StepOf | scripts/journal_start.py:63-69 | a line that does not start with `- [` once stripped yields no step, and a kept step never holds `<TODO` or `carried forward` |
| Journal.StepsClean | scripts/journal_start.py:63-69 | no extracted step holds `<TODO` or `carried forward` |
| Journal.StepsTotal | scripts/journal_start.py:63-69 | extraction succeeds whenever no line breaks the `]` split |
| Journal.StepsFrom | scripts/journal_start.py:63-69 | each line in turn is skipped, kept in order or stops the extraction |
| Journal.ReadSteps | scripts/journal_start.py:62-70 | the imperative step loop computes `StepsOf` |
| Journal.NoNextSteps | scripts/journal_start.py:53-56 | without a "Next Steps" section there are no steps |
| Journal.ExtractNextSteps | scripts/journal_start.py:51-70 | the imperative extraction computes the section's steps, and gives none when the section is absent |
| Journal.TodoLinesSkipped | scripts/journal_start.py:66 | the `<TODO>` placeholder lines are skipped |
| Journal.ResetNextSteps | scripts/journal_start.py:86-98 | the reset fails exactly when there is no "Next Steps" section |
| Journal.PlaceholderSteps | scripts/journal_start.py:96 | the placeholder body yields no steps |
| Journal.ResetIsReplace | scripts/journal_start.py:86-97 | the reset replaces the section body with the two placeholders |
| Journal.ResetClearsSteps | scripts/journal_start.py:86-97 | after a reset the journal has no next steps |
| Journal.StemDate | scripts/journal_start.py:39-45 | a parsed journal name is a valid date of the 2000s |
| Journal.StemOfFormat | scripts/journal_start.py:30 | the file name of a date of the 2000s is a journal name that parses back to that date |
| Journal.LastBefore | scripts/journal_start.py:38-48 | the chosen name is the last one whose date is strictly earlier than the target, and none is chosen only when none qualifies |
| Journal.GetPreviousJournal | scripts/journal_start.py:38-48 | the backwards loop returns the name `LastBefore` chooses, or nothing |
| Journal.FillTemplate | scripts/journal_start.py:33-35 | a template without the date placeholder is unchanged |
| Journal.FillOnePlaceholder | scripts/journal_start.py:35 | a single `<YYYY-MM-DD>` is replaced by the formatted date and the rest is kept |
| Journal.ExtractSection | scripts/journal_end.py:29-38 | `("", -1, -1)` when the marker is missing; otherwise `text[start:end]` is the body |
| Journal.TaskOf | scripts/journal_end.py:44-48 | a line is a task exactly when its stripped form starts with `- [`; the task keeps the line, takes its status from index 3, and has stripped text |
| Journal.TasksTrimmed | scripts/journal_end.py:41-49 | every parsed task text is stripped |
| Journal.TasksOneLine | scripts/journal_end.py:41-49 | tasks parsed from single lines have single-line texts |
| Journal.TasksTotal | scripts/journal_end.py:41-49 | parsing succeeds whenever no task line breaks the `]` split |
| Journal.TasksFrom | scripts/journal_end.py:41-49 | each line in turn is skipped, kept in order as a task, or stops the parse |
| Journal.ParseTasks | scripts/journal_end.py:41-49 | the imperative parse loop computes `TasksOf` over the block's lines |
| Journal.TaskOfCheckbox | scripts/journal_end.py:44-48 | an unchecked checkbox line parses to an open task with that item's text |
| Journal.TasksOfCheckboxes | scripts/journal_end.py:41-49 | the checkbox lines of some items parse back to those items as open tasks |
| Journal.SectionTasksClean | scripts/journal_end.py:61-65 | tasks read from a section have stripped, single-line texts |
| Journal.WithoutTodo | scripts/journal_end.py:65 | exactly the tasks without `<TODO` are kept |
| Journal.CarriedFresh | scripts/journal_end.py:67-74 | every carried task is an open focus task whose text was not present, and no two carried texts are equal |
| Journal.Carried | scripts/journal_end.py:67-74 | at most one carried task per focus task |
| Journal.CarriedComplete | scripts/journal_end.py:67-74 | every open focus task is either already present or carried |
| Journal.CarryOver | scripts/journal_end.py:67-74 | the merge loop appends the carried tasks after the next tasks and reports their texts |
| Journal.CarriedFrom | scripts/journal_end.py:69-74 | a focus task is carried exactly when it is open and its text is new, and later copies of that text are not |
| Journal.Cut | scripts/journal_end.py:81 | a slice bound within the text is kept as it is |
| Journal.EndOfDay | scripts/journal_end.py:60-83 | the imperative wrap-up computes `WrapUp` |
| Journal.WrapUp | scripts/journal_end.py:60-83 | the wrap-up fails exactly when one of the two sections does not parse; the file is written exactly when the text changes; no more tasks are carried than the focus section has |
| Journal.WrapUpFromParts | scripts/journal_end.py:60-83 | the wrap-up splices the merged checkbox lines into the Next Steps body and writes only if the text changed |
| Journal.MergedClean | scripts/journal_end.py:65-79 | the merged tasks have stripped, single-line texts |
| Journal.Merged | scripts/journal_end.py:65-74 | every merged task is a kept next task without `<TODO`, or an open focus task whose text was not among them; no kept next task is lost |
| Journal.MergedItemsClean | scripts/journal_end.py:65-79 | the items written back are stripped and single-line |
| Journal.WrapUpIsReplace | scripts/journal_end.py:76-81 | with the section present, the wrap-up is a section replacement by the merged items |
| Journal.RereadAfterReplace | scripts/journal_end.py:76-81 | a replaced section reads back as the written items, as open tasks |
| Journal.WrapUpRereads | scripts/journal_end.py:76-83 | after the wrap-up, Next Steps reads back as the merged items, as open tasks |
| Journal.WrapUpWithoutNextSteps | scripts/journal_end.py:81 | without the section the index `-1` splices the new body before the last character |
| Patterns.ParseTags | scripts/pattern_tracker.py:44-47 | no input or an empty input gives no tags; every tag is non-empty, stripped and free of commas |
| Patterns.ParseTagsMembers | scripts/pattern_tracker.py:44-47 | a tag is kept exactly when it is the non-empty stripped form of a comma-separated piece |
| Patterns.OccursCounted | scripts/pattern_tracker.py:92 | a tag occurs exactly when its count is positive |
| Patterns.LoggedTagCounted | scripts/pattern_tracker.py:82-92 | logging an entry raises the count of each of its tags by at least one |
| Patterns.EffectiveThreshold | scripts/pattern_tracker.py:87 | a missing or zero threshold becomes the default 3, any other is kept |
| Patterns.RaisedAt | scripts/pattern_tracker.py:91-101 | a logged tag's stored level becomes the larger of the old level and `count // threshold`; other tags keep theirs |
| Patterns.AlertStep | scripts/pattern_tracker.py:91-101 | one tag step raises the level and fires an alert exactly when the new level exceeds the stored one |
| Patterns.LevelsNeverDecrease | scripts/pattern_tracker.py:95-101 | stored alert levels never decrease |
| Patterns.FiredExactly | scripts/pattern_tracker.py:95-99 | an alert fires for a tag exactly when it was logged and its level exceeds the stored one, and it reports the tag's count |
| Patterns.FiredOnce | scripts/pattern_tracker.py:91-99 | no tag fires twice in one entry |
| Patterns.RaiseAlerts | scripts/pattern_tracker.py:88-101 | the tag loop computes the raised levels and fired alerts for a positive threshold, and changes nothing for a negative one |
| Patterns.WeeklyReviewDue | scripts/pattern_tracker.py:119-127 | a review is due when none was recorded |
| Patterns.ReviewDueAfter | scripts/pattern_tracker.py:123-127 | a review recorded on a date is due again exactly when at least 7 days have passed |
| Patterns.NotDueSameDay | scripts/pattern_tracker.py:127 | a review recorded today is not due |
| Patterns.Tracker.Load | scripts/pattern_tracker.py:19-37 | a missing file gives the defaults; each missing key gets its default, and `next_id` defaults to the entry count plus one |
| Patterns.Tracker.AddEntry | scripts/pattern_tracker.py:59-101 | the entry is appended with the old `next_id`, the id advances by one, and the alert levels and fired alerts follow the effective threshold |
| Patterns.Tracker.WeeklyReview | scripts/pattern_tracker.py:149-171 | with no entries the last review date is kept, otherwise it becomes today; nothing else changes |
| Notes.KeepSlugChars | scripts/log_error_note.py:24 | only `[a-z0-9-]` and whitespace survive |
| Notes.CollapseSpaces | scripts/log_error_note.py:25 | the result has no whitespace, and from slug characters and spaces it is all slug characters |
| Notes.StripChar | scripts/log_error_note.py:25 | the result neither starts nor ends with the stripped character |
| Notes.CollapseRun | scripts/log_error_note.py:25 | a maximal whitespace run becomes exactly one `-` |
| Notes.CollapseWord | scripts/log_error_note.py:25 | a non-space character is kept as it is |
| Notes.SlugLower | scripts/log_error_note.py:23 | lower-casing as the slug filter sees it: ASCII capitals fold, U+0130 becomes `i` plus a combining dot and the Kelvin sign becomes `k`; on text without those two it is the ASCII lowering |
| Notes.Slugify | scripts/log_error_note.py:22-26 | a slug is never empty |
| Notes.SlugifyNonAsciiCapitals | scripts/log_error_note.py:22-26 | worked example, two inputs: the capital I with dot above slugs to `i` and the Kelvin sign to `k` |
| Notes.SlugifyShape | scripts/log_error_note.py:22-26 | a slug is non-empty, made of `[a-z0-9-]` only, and neither starts nor ends with `-` |
| Notes.SlugifyFallback | scripts/log_error_note.py:22-26 | a title none of whose characters lowers to a slug character or is whitespace gives `note` |
| Notes.NothingKept | scripts/log_error_note.py:24 | a text of dropped characters filters to nothing |
| Notes.Or | scripts/log_error_note.py:60-71 | an empty field is replaced by its placeholder and a non-empty one is kept |
| Notes.NoteContent | scripts/log_error_note.py:44-76 | the note opens its front matter with `---` and the `title:` line, and ends with a newline |
| Notes.RelatedBlock | scripts/log_error_note.py:47-48 | no related items give the block `"  -"` |
| Notes.RelatedBlockLines | scripts/log_error_note.py:48 | the block reads back as one `"  - "` line per related item, or `"  -"` for none |
| Notes.TagsRoundTrip | scripts/log_error_note.py:46-54 | writing the tags joined by `, ` and splitting them again gives the same tags |
| Notes.NotePath | scripts/log_error_note.py:86-90 | the note lives directly under its category directory |
| Notes.NoteTitle | scripts/log_error_note.py:50-51 | searching a written note reads back its stripped title |
| Notes.TitleAfterRule | scripts/log_error_note.py:50-51 | the `title:` line after the front-matter rule is the one the search reads |
| Notes.NotePathNotIgnored | scripts/search_error_notes.py:11-22 | a note named by a timestamp is never on the ignore list |
| Notes.Normalise | scripts/search_error_notes.py:26-27 | normalised text has no `_`, no `-` and no upper-case ASCII letter |
| Notes.NormaliseIdempotent | scripts/search_error_notes.py:26-27 | normalising twice is normalising once |
| Notes.Keywords | scripts/search_error_notes.py:31 | there are never more keywords than inputs |
| Notes.TitleOfLineShape | scripts/search_error_notes.py:39-40 | a line gives a title exactly when it starts with `title:` ignoring case, and the title is the stripped rest |
| Notes.TitleLine | scripts/search_error_notes.py:39-40 | `title: t` gives the stripped `t` |
| Notes.ScanTitle | scripts/search_error_notes.py:37-41 | the line scan with `break` computes the first title line's title |
| Notes.SearchNotes | scripts/search_error_notes.py:30-43 | the search loop computes `Found` over the normalised non-empty keywords |
| Notes.EmptyKeywordsIgnored | scripts/search_error_notes.py:31 | empty keywords do not change the keyword list |
| Notes.NoKeywordsFindsAll | scripts/search_error_notes.py:31-36 | with no keywords every note not ignored is found |
| Notes.FoundMembers | scripts/search_error_notes.py:30-43 | a note is found, with its title, exactly when it is not ignored and holds every keyword |
| Notes.Found | scripts/search_error_notes.py:30-43 | at most one result per note, and no result is one of the ignored names |
| Notes.FoundPaths | scripts/search_error_notes.py:33-42 | every result is the path of a searched note |
| Notes.IgnoredNeverFound | scripts/search_error_notes.py:11-22 | `README.md`, `_categories.yml` and `note_template.md` are never found |
| Slides.StripText | scripts/extract_presentations.py:17-21 | the result holds no `\r` |
| Slides.TextLines | scripts/extract_presentations.py:21 | the kept lines are non-empty, stripped, and hold no line break |
| Slides.StripTextLines | scripts/extract_presentations.py:17-21 | empty input gives `""`, and otherwise the result splits back into the kept lines |
| Slides.StripTextIdempotent | scripts/extract_presentations.py:17-21 | stripping twice is stripping once |
| Slides.KeptLinesFixed | scripts/extract_presentations.py:21 | lines already stripped, non-empty and single are kept as they are |
| Slides.Tokens | scripts/extract_presentations.py:102 | each token is a non-empty run of ASCII letters, of digits, or of Hangul syllables |
| Slides.TokensJoin | scripts/extract_presentations.py:102 | tokens joined by spaces tokenise back to themselves |
| Slides.Words | scripts/extract_presentations.py:103-104 | no kept word is a stopword or a single character |
| Slides.WordsMembers | scripts/extract_presentations.py:103-104 | a word is kept exactly when it is the lower-cased form of a token and is neither a stopword nor a single character |
| Slides.CountPositive | scripts/extract_presentations.py:105 | a word occurs exactly when its count is positive |
| Slides.MostCommon | scripts/extract_presentations.py:105 | at most `topn` pairs are returned |
| Slides.KeywordCounts | scripts/extract_presentations.py:99-105 | at most `topn` pairs, each a kept word with its count, distinct words, counts never increasing |
| Slides.MostCommonPairs | scripts/extract_presentations.py:105 | each pair is a word with its count, the words are distinct, and the counts never increase |
| Slides.MostCommonTop | scripts/extract_presentations.py:105 | a word left out counts no more than the last one listed |
| Slides.MostCommonAll | scripts/extract_presentations.py:105 | when fewer than `topn` pairs are returned, every word is listed |
| Slides.SortedKeysFacts | scripts/extract_presentations.py:111 | the slide numbers are visited in ascending order, each exactly once |
| Slides.SlideLines | scripts/extract_presentations.py:113 | empty content gives no lines |
| Slides.FirstTitle | scripts/extract_presentations.py:114 | the title is stripped |
| Slides.FirstTitleBlank | scripts/extract_presentations.py:114 | the title is empty exactly when every line is blank |
| Slides.Items | scripts/extract_presentations.py:110-115 | one item per slide, in ascending slide number |
| Slides.Summarize | scripts/extract_presentations.py:108-118 | at most ten keyword pairs are reported |
| Slides.SummaryItems | scripts/extract_presentations.py:110-115 | every slide is listed in ascending number with the title of its own text |
| Slides.SummaryListsAll | scripts/extract_presentations.py:111-115 | a slide number is listed exactly when it is a slide |
| Slides.StrippedSlideTitle | scripts/extract_presentations.py:113-114 | the title of a stripped slide text is its first kept line, or `""` when none is kept |
| Era5.Stem | src/analysis/process_era5_monthly_eof.py:18 | the stem is a prefix of the name |
| Era5.YearOf | src/analysis/process_era5_monthly_eof.py:17-21 | an extracted year has four digits |
| Era5.YearOfShape | src/analysis/process_era5_monthly_eof.py:17-21 | a year is extracted exactly when the stem starts with `download` and four digits, and it is their value |
| Era5.FilterFiles | src/analysis/process_era5_monthly_eof.py:16-33 | the loop with `continue` selects exactly the files that pass, in order |
| Era5.SelectedIsSubsequence | src/analysis/process_era5_monthly_eof.py:23-33 | the result keeps the input's order |
| Era5.SelectedMembers | src/analysis/process_era5_monthly_eof.py:24-32 | a file is selected exactly when it has a year within the inclusive bounds, and a missing bound imposes nothing |
| Era5.DownloadYear | src/analysis/process_era5_monthly_eof.py:17-21 | worked example, one input: `download2001.nc` has the year 2001 |
| Era5.OtherNameDropped | src/analysis/process_era5_monthly_eof.py:17-21 | worked example, one input: `era5_2001.nc` is dropped whatever the bounds |
| Panel.LatShifted | src/analysis/source_panel.py:146-155 | row `j` of the shifted field is row `j - offset` of the input, or NaN where that row does not exist |
| Panel.ShiftLat | src/analysis/source_panel.py:146-155 | the shifted array is a fresh array of the same shape holding `LatShifted` |
| Panel.LatShiftBack | src/analysis/source_panel.py:146-155 | shifting back restores every row that stayed in range and leaves the rest NaN |
| Panel.ShiftByZero | src/analysis/source_panel.py:148-161 | a zero offset gives an equal copy |
| Panel.LonShifted | src/analysis/source_panel.py:158-170 | each cell of the shifted field is the rotated or filled longitude cell |
| Panel.ShiftLon | src/analysis/source_panel.py:158-170 | the shifted array is a fresh array of the same shape holding `LonShifted` |
| Panel.LonShiftBack | src/analysis/source_panel.py:165-170 | without wrap, shifting back restores every column that stayed in range and leaves the rest NaN |
| Panel.RollBack | src/analysis/source_panel.py:162-164 | with wrap, shifting back restores the field, so no value is lost |
| Panel.Roll | src/analysis/source_panel.py:162-164 | the roll is a fresh array holding the cyclic shift |
| Panel.FillLon | src/analysis/source_panel.py:165-170 | the filled shift is a fresh array holding the NaN-filled shift |
| Panel.Smoothed | src/analysis/source_panel.py:190-227 | each cell of the smoothed plane is the nine-point value at that cell |
| Panel.SmoothedKeepsMask | src/analysis/source_panel.py:202-226 | a smoothed cell is NaN exactly when the input cell is |
| Panel.InvalidNeighbourUnchanged | src/analysis/source_panel.py:202-214 | a cell with any non-finite neighbour among the eight keeps its value |
| Panel.ValidCellSmoothed | src/analysis/source_panel.py:215-225 | a fully valid cell becomes `c + p/4·(sides − 4c) + q/4·(corners − 4c)` |
| Panel.ConstantFixedPoint | src/analysis/source_panel.py:215-225 | a constant field is a fixed point of the smoother |
| Panel.EdgeRowsUnchanged | src/analysis/source_panel.py:192-214 | the first and last latitude rows are unchanged |
| Panel.EdgeColumnsUnchanged | src/analysis/source_panel.py:194-214 | without wrap the first and last longitude columns are unchanged |
| Panel.SmoothPlane | src/analysis/source_panel.py:191-227 | smoothing one plane gives a fresh array holding `Smoothed` |
| Panel.SmoothCells | src/analysis/source_panel.py:214-226 | every cell gets the nine-point value of its centre and eight shifted neighbours |
| Panel.Smth9 | src/analysis/source_panel.py:173-229 | input with fewer than two dimensions is an error; otherwise a fresh array of the input's shape, each plane smoothed |
| Panel.SmallestStep | src/analysis/source_panel.py:68-70 | the `while` loop stops at the smallest step whose label count fits `max_labels` |
| Panel.Candidates | src/analysis/source_panel.py:74-76 | there is always a candidate step, and each one fits `max_labels` |
| Panel.Dividing | src/analysis/source_panel.py:83-90 | the candidates kept are exactly those that divide the given index |
| Panel.ChosenStep | src/analysis/source_panel.py:78-92 | the chosen step is a candidate |
| Panel.ChosenStepDivides | src/analysis/source_panel.py:79-92 | if some candidate divides the zero index (or, with no zero, the last index), the chosen step divides it too |
| Panel.RangeStep | src/analysis/source_panel.py:94 | `range(lo, size, step)` increases within `[lo, size)` and starts at `lo` |
| Panel.ArgMinAbs | src/analysis/source_panel.py:72 | `argmin(abs(values))` is the first index of smallest magnitude |
| Panel.WithEnds | src/analysis/source_panel.py:94-99 | the indices are distinct and in range, and include the first, the last and the zero index |
| Panel.IndicesOf | src/analysis/source_panel.py:94-101 | the final indices lie within the levels and include the first, the last and the zero index |
| Panel.IndicesFacts | src/analysis/source_panel.py:101 | the final indices ascend strictly |
| Panel.BuildIndices | src/analysis/source_panel.py:94-101 | the appending code builds exactly those indices |
| Panel.TickIndices | src/analysis/source_panel.py:72-101 | the selected indices include both ends and, when the levels straddle zero, the index nearest zero |
| Panel.Mirror | src/analysis/source_panel.py:106-111 | the mirrored list holds exactly the negations of the levels of the chosen sign |
| Panel.TickValues | src/analysis/source_panel.py:63-64 | at most `max_labels` levels are returned unchanged |
| Panel.TicksSorted | src/analysis/source_panel.py:115 | the ticks are sorted |
| Panel.TicksKeepEnds | src/analysis/source_panel.py:94-115 | without a zero crossing the ticks include the first and last levels and hold only levels |
| Panel.SymmetricTicks | src/analysis/source_panel.py:104-115 | with a zero crossing the ticks are the rounded, de-duplicated mirrored set, strictly increasing |
| Panel.Symmetric | src/analysis/source_panel.py:104-115 | the symmetric tick set increases strictly and holds the rounded zero level |
| Panel.TicksAroundZero | src/analysis/source_panel.py:104-115 | with a zero crossing the ticks strictly increase and include the rounded first, last and nearest-to-zero levels |
| Panel.TicksMirrored | src/analysis/source_panel.py:98-113 | with a zero crossing every selected level and, when non-zero, its negation are ticks after rounding |
| Panel.InSymmetric | src/analysis/source_panel.py:110-113 | each base value, its non-zero negation and the zero value appear in the symmetric set after rounding |
| Panel.SortedUnchanged | src/analysis/source_panel.py:113-115 | sorting an already increasing list changes nothing |
| Panel.SelectTickValues | src/analysis/source_panel.py:61-115 | the imperative selection computes `TickValues` |
| Sorting.SortIntsFacts | src/analysis/source_panel.py:101 | sorting distinct indices gives an ascending list of the same members |
| Sorting.SortRealsFacts | src/analysis/source_panel.py:115 | sorting gives a non-decreasing permutation |
| Sorting.UniqueRealsFacts | src/analysis/source_panel.py:113 | `np.unique` gives a strictly increasing list of the same members |

## Left out

- File and process I/O is not modelled: netCDF loading, binary records, output deletion, journal reads and writes, JSON state files, zip and XML reading of presentations, note files, `input()` and printing. The operations receive the data these would produce.
- The variable and dimension heuristics `pick_var`, `find_dim`, `to_zyx` and `to_yx` are not modelled. The model takes fields already in `(z, y, x)` order.
- `write_append`, `read_rec_2d` and `read_fbinary` are binary file I/O and are not modelled.
- The `ProcessPoolExecutor` dispatch over years and the worker-count choice are not modelled, because they are concurrency; `Year.ProcessYear` handles one year.
- Floating point is modelled over exact reals. NaN and the infinities are both `None`, and a division by zero gives `None` where IEEE gives an infinity. IEEE rounding is not modelled.
- `exp` in the shortwave penetration and `cos` in the grid metric are parameters. The model takes the per-row `dx` and the `dy` spacing as inputs.
- Rounding to six decimals in the tick selection is a parameter `round6`.
- The clock comes in as parameters: the date of today, the current time and the file timestamp.
- Float statistics are not modelled: the regression slope, anomalies, budget fields, SVD, EOF and MCA. They are numpy linear algebra.
- Plotting, colour-bar helpers, label formatting, `src/visualization/map_plot.py` and `scripts/log_tmp_note.py` are not modelled. They are user interface, or a single file append.
- `extract_pptx` and `extract_docx` are zip and XML readers and are not modelled. A slide dictionary is modelled as its sequence of `(number, text)` items with distinct numbers.
- Dates.ParseIso: reads only the date form `YYYY-MM-DD` of `fromisoformat`; forms with a time part are treated as unparseable.
- Notes.Normalise and Slides.WordsMembers: lower-casing folds ASCII letters only. Python's `str.lower` also folds other scripts.
- MixedLayer.SearchRight: a linear scan for the first depth above `h`. It agrees with numpy's binary-search `searchsorted` only on increasing depths, which ocean depth levels are; the column diagnostics do not require that. For depths 5, 1, 10 and `h = 3` numpy gives 2 and the model 0.
- Era5.YearOf: `\d{4}` is read as four ASCII digits. Python's `\d` and `int()` also accept other Unicode decimal digits, so a name such as `download` followed by four full-width digits is kept by the script and dropped by the model.
- Era5.YearOfShape: its if-and-only-if is about ASCII digits, for the same reason as `Era5.YearOf`.
- Journal.StemDate: the `%Y/%m/%d` digits of `strptime` are ASCII only; Python also accepts other Unicode decimal digits there.
- Year.ParseYears: `int()` is modelled on ASCII digits, with signs, surrounding whitespace and `_` separators; Python's `int()` also reads other Unicode decimal digits.
- Patterns.Tracker.Load: a stored entry without `tags` reads as having no tags. A `next_id` stored as JSON null is not modelled.
- Panel.TickValues: requires `max_labels >= 1` when there are more levels than labels, because the source's step search never ends otherwise.
- Panel.ArgMinAbs: levels are finite. `argmin` over NaN levels is not modelled.
- Panel.ZeroIndex: the zero crossing is the strict test `values[0] < 0 < values[-1]`, as written.
- Panel.Smth9: takes the data already viewed as `(leading, ny, nx)`, with the shape as a separate parameter. The final NaN reset of each plane changes nothing in this value model, and `Panel.SmoothedKeepsMask` proves that.
- Slides.StripText: states only that no `\r` survives. Its lines, its empty case and its idempotence are the lemmas `Slides.StripTextLines` and `Slides.StripTextIdempotent`.
- Journal.ReplaceSection: states only the unchanged case. What a replacement writes is stated by `Journal.ExtractAfterReplace` and `Journal.StepsAfterReplace`.
- Journal.WrapUpWithoutNextSteps: models the splice at index `-1` as written, when the Next Steps section is missing.
