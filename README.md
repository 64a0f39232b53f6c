# slo-plot: burn-rate alert curves, modelled in Dafny

slo-plot draws, for a service-level objective and a set of multi-window
burn-rate alerting rules, how long each rule takes to fire as a function of the
observed error rate. It draws one curve for the rules that open a ticket and one
for those that page. This project models the computational core of `main.go`:

- **Windows and thresholds** (`thresholds.dfy`, module `Thresholds`). Each
  alerting window becomes a `ThresholdData` entry:
  - its length in whole hours, by Go's truncating `Duration / time.Hour`;
  - its error threshold, `BurnRate * errorBudget * hours`.

  The first loop of `genSLOAlertPoints` appends each entry to the list kept
  under the window's kind. It is the method `BuildThresholdMap`, proved equal
  to a grouping by kind (`GroupByKind`) that keeps input order.
- **Detection time** (`detection.dfy`, module `Detection`).
  `detectionTimeForErrorRate` is the nested-loop method
  `DetectionTimeForErrorRate`.
  - Go ranges over a map in an unspecified order. The order is therefore a
    parameter: any enumeration of the keys.
  - The method is proved equal to a fold (`Scan`) over the candidates in that
    order.
  - The fold is proved to be a filter-then-minimum search. Its value does not
    depend on the order provided no accepted entry has detection time 0. An
    accepted window shorter than an hour has threshold 0 and hence time 0; it
    is then confused with the "nothing yet" value 0, and the value can depend
    on the order (`ZeroEntryFollowsOrder`).
- **Sample partitioning** (`curves.dfy`, module `Curves`). The second loop of
  `genSLOAlertPoints` is the method `SampleCurves`. It appends `(x*100, value)`
  to the ticket or the page curve according to the kind returned, and drops any
  other kind.
  - The swept error rates are an input sequence.
  - Each sample carries its own map order, because Go chooses one afresh for
    every `range`.
- **Tick labels** (`ticks.dfy`, module `Ticks`). The label loop of
  `DurationTicks.Ticks` is the method `RelabelTicks`, over an array of ticks.
  - Each labelled tick's value, in hours, is converted to whole seconds, split
    into hours, minutes and seconds by truncating division and subtraction, and
    printed as `%02d:%02d:%02d`.
  - Ticks with an empty label are left alone.
- **Go integer semantics** (`goint.dfy`, module `GoInt`): truncating integer
  division and float-to-integer truncation.
- **Grouping by key** (`grouping.dfy`, module `Grouping`): the positions of a
  sequence that carry a key, in order. Both the threshold table and the two
  curves are such groupings.
- **The reference policy** (`reference.dfy`, module `ReferencePolicy`). This
  is the 99.9% objective with its four windows that `main` passes to
  `genSLOAlertPoints`. Its table and its two curves are characterised
  exactly, for every sweep and every map order.

`float64` is modelled as `real` and `time.Duration` as `int` nanoseconds. The
only integer behaviour that matters, truncation toward zero, is written out.

## Model

| member | source | states |
|---|---|---|
| GoInt.Quo | main.go:180 | Go's `/` on integers: for a positive divisor, the quotient truncated toward zero (floor for a non-negative dividend, ceiling for a negative one) |
| GoInt.Trunc | main.go:37 | Go's float-to-int conversion discards the fraction toward zero: the result is within 1 of the value, on the value's side of zero |
| Grouping.PositionsSound | main.go:186-188 | every selected position is an index carrying the key |
| Grouping.PositionsComplete | main.go:186-188 | every index carrying the key is selected |
| Grouping.PositionsIncreasing | main.go:186-188 | selected positions keep input order |
| Grouping.PositionsSnoc | main.go:186-188 | one more element extends exactly the positions of its own key |
| Grouping.PositionsAbsent | main.go:199-203 | a key that occurs nowhere has no positions |
| Grouping.PositionsDisjoint | main.go:199-203 | two different keys never share a position, so together they select at most as many positions as there are elements |
| Thresholds.ToThreshold | main.go:180-185 | the entry a window contributes: its whole hours and `BurnRate * errorBudget * hours`; its properties are stated by `SubHourWindow`, `ThresholdProportional` and `ThresholdPositive` |
| Thresholds.WholeHours | main.go:180 | `w.Duration / time.Hour` is the whole number of hours, truncated toward zero, for either sign |
| Thresholds.SubHourWindow | main.go:180-184 | a window shorter than an hour gets length 0 and threshold 0 |
| Thresholds.ThresholdProportional | main.go:180-184 | an entry's length is the window's whole hours, and its threshold scales linearly with the burn rate |
| Thresholds.ThresholdPositive | main.go:180-184 | a window of at least an hour, with positive burn rate and budget, gets length at least 1 and a positive threshold |
| Thresholds.GroupByKind | main.go:178-189 | the declarative threshold table: each kind some window carries, mapped to the entries of that kind's windows in input order; its properties are stated by `GroupByKindSnoc`, `GroupByKindMembers`, `GroupByKindPositive` and `GroupByKindEmpty` |
| Thresholds.EntriesForSnoc | main.go:186-188 | one more window extends the list of its own kind by its entry and leaves every other kind's list as it was |
| Thresholds.EntriesForAbsent | main.go:186 | a kind no window carries has an empty list, as a missing key reads as a nil slice |
| Thresholds.GroupByKindSnoc | main.go:179-189 | one loop iteration: the window's entry is appended to its kind's list (which is created if the kind is new); no other key changes |
| Thresholds.GroupByKindMembers | main.go:179-189 | every table entry comes from a window of that kind, and every window's entry is in its kind's list |
| Thresholds.GroupByKindPositive | main.go:179-189 | windows of at least an hour with positive burn rates and budget give a table of positive thresholds |
| Thresholds.GroupByKindEmpty | main.go:178 | with no windows the table is empty |
| Thresholds.ThresholdTable | main.go:178-189 | the table as the loop builds it, window by window, appending each entry to its kind's list; `ThresholdTableGroups` proves it equal to `GroupByKind` |
| Thresholds.ThresholdTableGroups | main.go:178-189 | appending entries window by window yields the grouping by kind, in input order |
| Thresholds.BuildThresholdMap | main.go:178-189 | the loop builds exactly the grouping by kind: one entry per window, under its kind, in input order |
| Detection.TimeToDetect | main.go:158 | `th.ErrorThreshold / x`: the time one window needs to detect error rate x; `DetectionNonIncreasing` and `ReferencePolicy.EligibleFrom` state its properties |
| Detection.Eligible | main.go:159-161 | the negation of the reject test `v > th.Duration`: the window detects within its own length, equality included; `ReferencePolicy.EligibleFrom` states it as a lower bound on x |
| Detection.CandidatesMembers | main.go:156-157 | ranging over the table meets exactly the (kind, entry) pairs of the visited kinds |
| Detection.CandidatesStep | main.go:156-157 | visiting one more kind appends that kind's entries, in list order |
| Detection.Consider | main.go:158-165 | one inner-loop step: a rejected entry leaves the running best as it was, and otherwise the result is either the running best or the entry's kind and detection time |
| Detection.Scan | main.go:156-167 | the running best after a sequence of candidates, folded with `Consider` from ("", 0); its properties are stated by `ScanAttained`, `ScanNone` and `ScanMinimum` |
| Detection.DetectionTime | main.go:151-170 | the result of detectionTimeForErrorRate with the keys visited in a given order (the scan of all candidates); its properties are stated by `DetectionSpec`, `DetectionOrderFree`, `DetectionNonIncreasing`, `TieBreakFollowsOrder` and `ZeroEntryFollowsOrder` |
| Detection.ScanAttained | main.go:158-165 | the running best is ("", 0) or the kind and detection time of an entry that passed the filter |
| Detection.ScanNone | main.go:152-154 | when no entry passes the filter the result is ("", 0) |
| Detection.ScanMinimum | main.go:156-167 | when no passing entry has time 0, the value is at most every passing entry's time, and it is non-zero exactly when some entry passes; with `ScanAttained` (the value is some passing entry's time) it is the least one |
| Detection.DetectionSpec | main.go:151-170 | for every visiting order: ("", 0) with no accepted entry; otherwise the kind is a key whose list holds an accepted entry with that detection time, which is no more than the entry's length; and the value is the minimum over accepted entries when none of them is 0 |
| Detection.DetectionOrderFree | main.go:156 | the detected value is the same for every visiting order (no accepted entry at time 0) |
| Detection.ScanTwoKinds | main.go:156-167 | the scan of a table with two one-entry kinds, in a given order |
| Detection.ScanFirstMinimum | main.go:156-167 | the tie-break, for any candidate sequence: when no eligible candidate has time 0, the scan returns the first eligible candidate of least time (every earlier eligible one strictly slower, every later one no faster), because a candidate replaces the running best only when strictly faster |
| Detection.TieBreakFollowsOrder | main.go:162 | with one equally fast entry per kind in a two-kind table, the kind visited first wins, so the kind can depend on the order; the general rule is `ScanFirstMinimum` |
| Detection.ZeroEntryFollowsOrder | main.go:154-163 | an accepted entry with time 0 is confused with "nothing yet", so both value and kind then depend on the order |
| Detection.DetectionNonIncreasing | main.go:158-165 | with positive thresholds, a larger error rate is detected too, and no more slowly, whatever the orders |
| Detection.InnerStep | main.go:157-166 | one inner-loop step is one step of the scan |
| Detection.ScanKind | main.go:157-166 | the inner loop over one kind's entries continues the scan by exactly that kind's entries |
| Detection.DetectionTimeForErrorRate | main.go:151-170 | the nested loops return the scan of the table's entries, visited in the given order |
| Curves.ClassPoints | main.go:195-203 | the curve of one kind: the points `(x*100, value)` of the samples whose detection named that kind, in sample order; its properties are stated by `ClassPointsSnoc`, `ClassPointsMembers`, `ClassPointsOrdered`, `CurvesDisjoint` and `CurveNonIncreasing` |
| Curves.ClassPointsSnoc | main.go:199-203 | a new sample adds its point to the curve of its kind only |
| Curves.ClassPointsStep | main.go:195-203 | the same, for the next sample of a sweep |
| Curves.SampleStep | main.go:193-203 | one loop iteration appends the sample's point to the ticket curve, the page curve, or neither |
| Curves.SweepDone | main.go:191-206 | after the last sample both curves are those of the whole sweep, with at most one point per sample between them |
| Curves.ClassPointsMembers | main.go:195-203 | a curve holds exactly the points `(x*100, value)` of the samples whose kind is the curve's |
| Curves.ClassPointsOrdered | main.go:191-203 | points keep sample order: on an increasing sweep each curve is strictly increasing in x |
| Curves.CurvesDisjoint | main.go:199-203 | the two curves together have at most as many points as there are samples |
| Curves.SampleCurves | main.go:191-206 | the loop produces the ticket and page curves of the sweep's detection results, with at most one point per sample between them |
| Curves.GenSloAlertPoints | main.go:172-206 | the two curves of n = 1000 samples over the table grouped from the windows; together at most 1000 points |
| Curves.NoWindowsNoPoints | main.go:172-206 | with no windows both curves are empty |
| Curves.CurveNonIncreasing | main.go:191-204 | on an increasing sweep with positive thresholds, detection time is positive and never grows along a curve |
| ReferencePolicy.ReferenceThresholds | main.go:52-73 | the four reference windows give entries (0.0144, 1), (0.036, 6), (0.072, 24) and (0.072, 72) |
| ReferencePolicy.TableStep | main.go:179-189 | one iteration of the table loop over the reference windows |
| ReferencePolicy.TableAfterOne | main.go:52-73 | the table after the first reference window |
| ReferencePolicy.TableAfterTwo | main.go:52-73 | the table after two reference windows |
| ReferencePolicy.TableAfterThree | main.go:52-73 | the table after three reference windows |
| ReferencePolicy.TableAfterFour | main.go:52-73 | the table after all four reference windows |
| ReferencePolicy.ReferenceTable | main.go:52-73 | the reference table: page lists the 1h then the 6h entry; ticket lists the 24h then the 72h entry |
| ReferencePolicy.EligibleFrom | main.go:158-161 | a window of positive length accepts error rate x exactly from threshold/length upward |
| ReferencePolicy.ReferenceAccepts | main.go:158-161 | which reference entries accept x: 1h from 1.44%, 6h from 0.6%, 72h from 0.1%; none has time 0 |
| ReferencePolicy.ReferenceQuiet | main.go:151-170 | below a 0.1% error rate nothing is detected |
| ReferencePolicy.ReferenceAttained | main.go:151-170 | from 0.1% upward, the result is an accepted entry's time under its kind, and no accepted entry is faster |
| ReferencePolicy.ReferenceDetection | main.go:151-170 | for every order: ("", 0) below 0.1%; ticket at 0.072/x up to 0.6%; page at 0.036/x up to 1.44%; page at 0.0144/x from there |
| ReferencePolicy.ReferencePoint | main.go:193-203 | each reference sample's kind is fixed by its rate; in percent its point is at 7.2/x (ticket), 3.6/x or 1.44/x (page) |
| ReferencePolicy.TicketCurve | main.go:191-204 | the reference ticket curve holds exactly the samples from 0.1% to below 0.6%, at 7.2/x hours |
| ReferencePolicy.PageCurveMembers | main.go:191-204 | every sample from 0.6% upward is on the reference page curve at its detection time |
| ReferencePolicy.PageCurveShape | main.go:191-204 | every reference page point is at 0.6% or more, at 3.6/x hours below 1.44% and 1.44/x hours from there |
| ReferencePolicy.ReferenceCurves | main.go:52-73 | the two curves the program plots, for any sweep of positive rates and any map orders, characterised point by point |
| Ticks.SplitNat | main.go:38-42 | a non-negative count is 3600 h + 60 m + s with m and s in 0..59 |
| Ticks.ClockOf | main.go:38-42 | the clock reading sums back to the count; minutes and seconds are in 0..59 for a non-negative count and in -59..0 for a negative one |
| Ticks.ClockUnique | main.go:38-42 | for a non-negative count, that split is the only one with minutes and seconds in 0..59 |
| Ticks.SplitSeconds | main.go:37-42 | truncating division and subtraction, step by step, give the clock reading of the count |
| Ticks.Pad2 | main.go:43 | `%02d` of one field; its properties are stated by `Pad2RoundTrip` |
| Ticks.FormatClock | main.go:43 | the `%02d:%02d:%02d` label of a clock reading; its properties are stated by `ClockLabelRoundTrip` and `FormatClockLength` |
| Ticks.DecimalShape | main.go:43 | a natural number prints as digits only: one digit below 10, two from 10 to 99 |
| Ticks.DecimalRoundTrip | main.go:43 | the printed digits read back as the number |
| Ticks.LeadingZero | main.go:43 | a leading zero pad does not change the value read back |
| Ticks.Pad2RoundTrip | main.go:43 | `%02d` of a non-negative field is at least two digits, exactly two below 100, and reads back as the field |
| Ticks.ParseFields | main.go:43 | a label with two-character minute and second fields reads back field by field |
| Ticks.ClockLabelRoundTrip | main.go:43 | the HH:MM:SS label of a non-negative reading reads back as that reading |
| Ticks.FormatClockLength | main.go:43 | every label is at least eight characters long |
| Ticks.SecondsOf | main.go:37 | `int64(tick.Value * 60 * 60)`: the value in hours as whole seconds, truncated toward zero |
| Ticks.SecondsOfBounds | main.go:37 | the whole seconds are within one second of the value times 3600, on the value's side of zero |
| Ticks.ClockLabel | main.go:37-43 | the label of a tick at a given value: its whole seconds, split into a clock reading and printed as HH:MM:SS; `RelabelledSpec` and `ClockLabelRoundTrip` state its properties |
| Ticks.Relabelled | main.go:33-43 | what the loop makes of one tick: unchanged if its label is empty, otherwise relabelled with the clock label of its value; its properties are stated by `RelabelledSpec` |
| Ticks.RelabelledSpec | main.go:31-44 | a tick keeps its value; an unlabelled tick is untouched; a labelled tick of non-negative value gets a label that reads back as its value in whole seconds, truncated |
| Ticks.Relabel | main.go:36-43 | the loop body for a labelled tick produces the tick relabelled with its clock reading |
| Ticks.RelabelAll | main.go:31-45 | the tick list as the loop leaves it, each tick passed through `Relabelled`; `RelabelAllPointwise` and `RelabelAllStep` state its properties |
| Ticks.RelabelAllPointwise | main.go:31-45 | relabelling the list keeps its length and treats each tick on its own |
| Ticks.RelabelAllStep | main.go:31-44 | one more iteration of the loop appends the next tick, relabelled, to the ticks already processed |
| Ticks.RelabelTicks | main.go:27-46 | the loop rewrites the array in place into the relabelled list: same length, same values, unlabelled ticks unchanged |

## Left out

- `main`'s plotting (main.go:75-124) and `SavePng` (main.go:127-144): drawing, colours, legend and file output. The reference configuration `main` passes in (main.go:49-73) is modelled.
- `plot.LogTicks.Ticks`: foreign library code. `RelabelTicks` takes the tick array that call returns as its input.
- `math.Pow(0.995, ...)` (main.go:192): the swept error rates are an input sequence of positive reals, `xs`. Most proofs need only positivity; `ClassPointsOrdered` and `CurveNonIncreasing` also require the sweep to be strictly increasing, as the program's sweep is.
- Floating point: `float64` is `real`, so IEEE rounding, infinities and NaN are not modelled. Error rate 0 is excluded by the precondition `x != 0`; the sweep never produces it. In Go it would give two cases: a positive threshold divided by 0 is +Inf, which fails the test at main.go:159 and is skipped, so a table of positive thresholds yields ("", 0); a zero or negative threshold (a window under an hour, a window of -1h or less, or a negative burn rate) gives NaN or -Inf; neither is rejected at main.go:159, so the first such entry met is kept (every positive threshold having been skipped), nothing replaces it, and the result is (its kind, NaN or -Inf).
- Detection.DetectionTimeForErrorRate: the visiting order of Go's map is a parameter (any enumeration of the keys) rather than randomised.
- ReferencePolicy.ReferenceThresholds: `1 - 99.9/100` is exactly 0.001 as a real, while float64 gives a value a few ulps away. Equalities such as the 0.1% bound hold only up to that rounding in the program.
- Ticks.SecondsOf: `int64(...)` of a value beyond the int64 range is implementation-defined in Go and is not modelled. Integer overflow in general is not modelled; the values involved are small.
- Ticks.Pad2: for a negative field, `%02d` is modelled as sign then digits, which is what Go prints for the values that arise here (-1 prints as "-1"). Parsing back is proved only for non-negative readings.
- Ticks.RelabelTicks: the tick list is an array rewritten in place. Aliasing with other slices of the same backing array is not modelled.
