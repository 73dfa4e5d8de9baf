# Bulgarian battery-storage market study, modelled in Dafny

The study asks what a large battery (up to 15 GWh / 3.75 GW) does to the Bulgarian
day-ahead market. The model covers four parts of it.

- **The hourly table** (`preprocess.py`).
  - ENTSO-E documents are converted from XML to dictionaries.
  - Their time series are placed on an hourly clock.
  - Generation is summed per fuel category.
  - The net cross-border flow of each neighbour is computed.
  - Everything is merged into one record per hour, and hours missing from the nuclear series are forward-filled.
- **The scenario helpers** (`bess_analysis.py`): residual load, the validity filter, solar scaling, the structural price stack and the merit-order price response.
- **The dispatch**:
  - the daily linear program (its construction and the handling of the solver's result);
  - the year-long loop that threads the state of charge from day to day and moves prices along the merit order.
- **The accounting**: the saturation sweep over battery sizes, and the key indicators of one scenario.

Modules, in dependency order:

- `Wrappers`: Option, map lookups and an order-preserving concat-map.
- `XmlDict` (`root_to_dict`, `parse_xml_to_dict`).
- `EntsoeFields` (`get_text`, `ensure_list`).
- `Points` (`parse_points_by_timestamp` and the series parsers that wrap it).
- `Generation` (`parse_generation`).
- `Flows` (`parse_bilateral_flows`).
- `HourlyTable` (the merge and forward-fill of `process_year`).
- `Scenario`, `StructuralPrices`, `MeritOrder`.
- `DailyLp` (`run_daily_lp`).
- `AnnualLp` (`run_annual_lp`).
- `Kpi` (`run_saturation_sweep`, `extract_kpis`).

In `Points`, `Generation`, `Flows`, `HourlyTable`, `DailyLp`, `AnnualLp` and `Kpi`, loops that fill dictionaries, arrays or lists in the source are methods with loop invariants. Each is proved equal to a specification function, and the properties are lemmas about that function. The XML conversion in `XmlDict` (the recursion of `root_to_dict` with its loop over children, and the tag rewrite over `root.iter()` in `parse_xml_to_dict`) is written as pure recursive functions over the element tree instead; `EntsoeFields`, `Scenario`, `StructuralPrices` and `MeritOrder` have no such loops.

- Timestamps are whole hours (`int`).
- Prices, quantities and efficiencies are `real`.
- A missing value (None, or NaN in a frame) is `None`.

Two behaviours of the code that the model keeps:

- **Breakpoints.** A residual load exactly on a merit-order breakpoint takes the slope of the segment *above* it, because the comparisons are strict `<` (bess_analysis.py:350-355; `MeritOrder.BreakpointGoesUp`).
- **Filled prices.** A missing hourly price is filled with the day's median (bess_analysis.py:508), and the filled value is the hour's reported baseline price (bess_analysis.py:570; `AnnualLp.AnnualFollowsHours`).

## Model

| member | source | states |
|---|---|---|
| XmlDict.TrimLeft | download_entsoe.py:113-114 | leading whitespace is dropped: the result is a suffix, everything dropped is whitespace, and the result does not start with whitespace |
| XmlDict.TrimRight | download_entsoe.py:113-114 | trailing whitespace is dropped: the result is a prefix, everything dropped is whitespace, and the result does not end with whitespace |
| XmlDict.Strip | download_entsoe.py:113-114 | `str.strip()`, with the whitespace of `str.isspace()`: the result neither starts nor ends with whitespace, and it is empty exactly when the text is all whitespace |
| XmlDict.StripIsSlice | download_entsoe.py:113-114 | the stripped text is a contiguous slice of the original |
| XmlDict.FirstBrace | download_entsoe.py:102-103 | the index of the first `}`: no `}` before it, and a `}` at it when it is inside the tag |
| XmlDict.StripNsClark | download_entsoe.py:101-103 | a Clark-notation tag `{ns}local` loses its namespace and keeps its local name, and stripping again changes nothing |
| XmlDict.StripAll | download_entsoe.py:101-103 | the pass over every element rewrites each tag and leaves text, attributes and the number and order of children unchanged |
| XmlDict.AttribFieldsExact | download_entsoe.py:115-116 | each attribute `k = v` appears as `@k` mapped to `v`, and no other key appears |
| XmlDict.RawText | download_entsoe.py:130 | an element with nothing to record converts to its raw text (None when absent), never to a list or a dictionary |
| XmlDict.RootToDict | download_entsoe.py:110-130 | an element never converts to a list; only a group of same-tag children does |
| XmlDict.ChildPairs | download_entsoe.py:118-121 | one (stripped tag, converted child) pair per child, in document order |
| XmlDict.TaggedNonEmpty | download_entsoe.py:122-127 | the children carrying a tag are non-empty exactly when the tag occurs, and each comes from a child with that tag |
| XmlDict.GroupExact | download_entsoe.py:122-127 | a tag is a key of the children map exactly when some child has it; its value is the one child, or the list of all such children in order |
| XmlDict.ChildEntries | download_entsoe.py:117-129 | the children map of an element has exactly its children's stripped tags as keys, each collapsing that tag's children |
| XmlDict.RootToDictKind | download_entsoe.py:112-130 | an element converts to a dictionary exactly when it has non-blank text, attributes or children; otherwise it converts to its raw text |
| XmlDict.FieldsKeys | download_entsoe.py:112-129 | the dictionary's keys are `text` (when there is text), the `@` attribute keys and the child tags |
| XmlDict.FieldsAttribute | download_entsoe.py:115-116 | an attribute not shadowed by a child appears under `@name` with its value |
| XmlDict.FieldsText | download_entsoe.py:113-114 | non-blank text not shadowed by a child appears under `text`, stripped |
| XmlDict.AttribFieldsKeys | download_entsoe.py:116 | every attribute key starts with `@` |
| XmlDict.FieldsChild | download_entsoe.py:128-129 | children win over a same-named text or attribute entry |
| XmlDict.ParseXmlToDict | download_entsoe.py:97-107 | a document that does not parse gives the empty dictionary; one that parses gives the conversion of its namespace-stripped root |
| EntsoeFields.GetText | preprocess.py:52-56 | None gives `""`, a string gives itself, and a dictionary gives its `text` entry or `""` |
| EntsoeFields.EnsureList | preprocess.py:59-65 | None gives `[]`, a list is returned unchanged, and anything else becomes a one-element list |
| EntsoeFields.GetTextLeaf | preprocess.py:52-56 | `get_text` of a converted leaf element is its (stripped) text |
| EntsoeFields.GetTextOfText | preprocess.py:52-56 | `get_text` of an element with non-blank text is the stripped text |
| EntsoeFields.GetTextNoText | preprocess.py:52-56 | `get_text` of a dictionary-valued element without text is `""` |
| EntsoeFields.EnsureListCollapse | preprocess.py:59-65 | `ensure_list` of a collapsed group of same-tag children gives back the children (a lone None child gives `[]`) |
| EntsoeFields.EnsureListChildren | preprocess.py:59-65 | `ensure_list` of a child entry is the list of all children carrying that tag, in order |
| Points.FoldUpdatesKeys | preprocess.py:99 | after the writes, a key is present exactly when some write used it |
| Points.FoldUpdatesLastWins | preprocess.py:99 | the last write to a key decides its value |
| Points.FoldUpdatesAppend | preprocess.py:80-100 | the writes of two stretches give the first map overridden by the second |
| Points.PointWritesExact | preprocess.py:86-99 | a period writes exactly its points that have a value, each at start + position − 1 |
| Points.PlacedExact | preprocess.py:81-99 | the writes are exactly the valued points of periods with a non-empty start |
| Points.PointsByTimestampKeys | preprocess.py:78-100 | the keys of the result are exactly the hours of valued points of periods with a start |
| Points.FoldUpdatesStep | preprocess.py:99 | one more write updates exactly one key |
| Points.PointWritesStep | preprocess.py:87-99 | one more point adds its write exactly when it has a value (quantity, then `price.amount`, then the nested price) |
| Points.ParsePointsByTimestamp | preprocess.py:78-100 | the loop over periods and points returns the map of the specification |
| Points.WritePoints | preprocess.py:86-99 | the inner loop writes one period's valued points over the map left by the earlier writes, giving the map of all writes so far |
| Points.ParseSeries | preprocess.py:123-142 | `parse_prices` and `parse_demand` return the map of all periods of all series, later series overriding earlier ones |
| Points.ParseFlowDirection | preprocess.py:145-155 | absent direction data gives the empty map; otherwise the map of all periods of all series |
| Generation.CategoriesComplete | preprocess.py:48 | every fuel category is listed |
| Generation.Contributions | preprocess.py:107-116 | one contribution per time series |
| Generation.SumByCategory | preprocess.py:105-118 | the totals have exactly one entry per category, starting empty |
| Generation.GenerationSpec | preprocess.py:103-120 | the result of `parse_generation` has exactly one map per category |
| Generation.MergeAddGet | preprocess.py:117-118 | adding a series into the totals keeps the hours of both and adds values, a missing side counting 0 |
| Generation.CategoryHasStep | preprocess.py:108-118 | some contribution has the hour exactly when an earlier one or the last one has it |
| Generation.CategoryKeys | preprocess.py:108-118 | an hour is in a category's totals exactly when some series of that category has it |
| Generation.CategoryTotals | preprocess.py:108-118 | a category's total at an hour is the sum over its series of their value at that hour |
| Generation.AddInto | preprocess.py:117-118 | the inner loop adds a series' values into the totals |
| Generation.ParseGeneration | preprocess.py:103-120 | the loop over series returns the specification; unmapped PSR codes are skipped |
| Flows.PeakUnique | preprocess.py:176-183 | the peak export is determined by the exports |
| Flows.NetFlow | preprocess.py:174-183 | net flow on the union of hours, export minus import with a missing side counting 0; peak export floored at 0 |
| Flows.NetFlowIsNetMap | preprocess.py:174-183 | the net flow map is determined by the two directions: it is `NetMap` of them |
| Flows.ParseBilateralFlows | preprocess.py:158-188 | one net-flow map and one peak export per country, each the net flow of that country's two directions (absent data counting as empty) |
| HourlyTable.GenMaps | preprocess.py:222-223 | one generation map per category |
| HourlyTable.FlowMaps | preprocess.py:226-227 | one flow map per country, empty when the country is absent |
| HourlyTable.KeysOfMember | preprocess.py:221-227 | an hour is in the union exactly when one of the maps has it |
| HourlyTable.GenMapsMember | preprocess.py:222-223 | an hour is in some generation map exactly when some category has it |
| HourlyTable.FlowMapsMember | preprocess.py:226-227 | an hour is in some flow map exactly when some country's flows have it |
| HourlyTable.AllKeysMember | preprocess.py:221-227 | an hour is in the table exactly when a category, the prices, the demand or a country's flows have it |
| HourlyTable.CollectKeys | preprocess.py:221-227 | the collecting loop returns the union of all hours |
| HourlyTable.SortKeys | preprocess.py:230 | the hours in strictly increasing order, each hour of the set exactly once |
| HourlyTable.RecordAtConsistent | preprocess.py:233-262 | a record's generation is the sum of its categories; its net is generation minus demand exactly when demand is known; price and demand are missing exactly when their source lacks the hour |
| HourlyTable.CategoryValuesAt | preprocess.py:237-242 | the category loop gives each category's value (0 when missing) and their total |
| HourlyTable.FlowValuesAt | preprocess.py:248-251 | the country loop gives each country's flow (0 when missing) |
| HourlyTable.BuildRecord | preprocess.py:233-262 | building one record gives the specification's record for the hour |
| HourlyTable.LastKnownNone | preprocess.py:267-274 | no value is carried exactly when no earlier record is a nuclear hour |
| HourlyTable.SumFirstNuclear | preprocess.py:275 | replacing the nuclear value changes the generation total by the difference |
| HourlyTable.FillConsistent | preprocess.py:270-277 | the fill keeps a record consistent: generation grows by the filled value and net follows |
| HourlyTable.FillFrame | preprocess.py:270-278 | the fill changes only nuclear, generation and net, and only on a gap (a non-nuclear hour with nuclear 0 and a value known) |
| HourlyTable.FillNuclearGaps | preprocess.py:267-278 | the in-place loop fills each record from the last nuclear value before it and counts the gaps |
| HourlyTable.Times | preprocess.py:233-262 | one hour per record |
| HourlyTable.MergeRecords | preprocess.py:232-262 | one record per sorted hour, in that order |
| HourlyTable.GenKeys | preprocess.py:215-223 | the categories the table reads cover exactly the hours of the parsed generation |
| HourlyTable.FlowKeys | preprocess.py:218-227 | a country's net flow has an hour exactly when one of its directions has it |
| HourlyTable.SourceKeys | preprocess.py:214-227 | the union of the parsed sources' hours is the set of hours of the raw sources |
| HourlyTable.FilledTable | preprocess.py:232-278 | the filled table keeps the sorted hours, every record consistent, and the nuclear value carried into gaps |
| HourlyTable.Merged | preprocess.py:232-262 | one merged record per hour, each labelled with its hour |
| HourlyTable.FillAll | preprocess.py:267-278 | the fill keeps the number of records and their hours |
| HourlyTable.FilledRecord | preprocess.py:232-278 | a filled record holds the sources' demand and price at its hour (None when missing), their flows and non-nuclear categories (0 when missing), and is the merged record unchanged when its hour is nuclear or no nuclear hour precedes it; a changed record is a gap carrying the last known value |
| HourlyTable.BuildTable | preprocess.py:220-278 | the table is strictly increasing in time and covers exactly the hours of some source; it is the filled merge of those hours (`FillAll(Merged(...))`), the gap count is `GapCount` of the merge, records are consistent and nuclear is carried forward |
| HourlyTable.ParsedFlows | preprocess.py:158-188 | the flows the parser returns are the net flow maps of the two directions of each country |
| HourlyTable.ProcessYear | preprocess.py:191-278 | from the raw series: the peak export of each country; a time-ordered table over exactly the hours present in some raw source, equal to the filled merge of the parsed sources (`ParsedSources`) over those hours, with the gap count of that merge; consistent records and nuclear carried forward |
| HourlyTable.FilledLastKnown | preprocess.py:270-274 | filling leaves the nuclear hours alone, so the carried value is the same before and after the fill |
| Scenario.ResidualLoad | bess_analysis.py:257-259 | demand minus solar, wind and nuclear, missing exactly when one of them is missing |
| Scenario.Clean | bess_analysis.py:107-116 | no more rows than the input, and every kept row passes the filter |
| Scenario.CleanMember | bess_analysis.py:109-116 | a row survives exactly when it is in the frame and passes the filter |
| Scenario.CleanAppend | bess_analysis.py:116 | the filter keeps row order: filtering a concatenation is concatenating the filtered parts |
| Scenario.CleanIdempotent | bess_analysis.py:107-116 | cleaning twice is cleaning once |
| Scenario.ScaleSolar | bess_analysis.py:123-136 | no add-on leaves the frame as it is; a zero installed base with an add-on is a division by zero |
| Scenario.ScaleSolarFrame | bess_analysis.py:133-135 | only solar changes, and each solar value grows by (base + add-on) / base |
| Scenario.ScaleSolarLowersResidual | bess_analysis.py:131-135 | with non-negative solar, adding capacity never raises an hour's residual load |
| StructuralPrices.PriceFromRes | bess_analysis.py:228-248 | `price_from_res`, band by band: a negative load gives a negative price of at least −100 and a load in [0, 300) gives 10; the band lemmas below state every band, and PriceMonotone that the price never falls as load rises |
| StructuralPrices.StructuralPrice | bess_analysis.py:228-250 | the price of one hour of the load column: a known load is `price_from_res` of it; a missing one (NaN) gets the gas floor plus the full eroded premium, within [gas_vc, gas_vc + 400] for coverage in [0, 1] (see MissingLoadPrice, MissingLoadIsCeiling) |
| StructuralPrices.CurtailmentBand | bess_analysis.py:229-231 | negative residual load gives a price in [−100, 0) |
| StructuralPrices.MustRunBand | bess_analysis.py:232-233 | residual load in [0, 300) gives 10 EUR/MWh |
| StructuralPrices.RampBand | bess_analysis.py:234-237 | the regulated-coal band ramps between 10 EUR/MWh and the coal floor |
| StructuralPrices.FloorBands | bess_analysis.py:238-243 | the deregulated-coal band gives the coal floor and the gas band the gas floor |
| StructuralPrices.ScarcityBand | bess_analysis.py:244-248 | above the stack the price is the gas floor plus a premium of at most 400, which is 0 at full coverage |
| StructuralPrices.RampMonotone | bess_analysis.py:234-237 | the ramp rises with load when the coal floor is at least 10 |
| StructuralPrices.PremiumMonotone | bess_analysis.py:245-247 | the premium rises with the excess load |
| StructuralPrices.MissingLoadPrice | bess_analysis.py:228-250 | a missing residual load (NaN fails every band test, and the premium cap wins the minimum) is priced like a known load at least 400 / 0.15 MW above the stack |
| StructuralPrices.MissingLoadIsCeiling | bess_analysis.py:244-250 | with coverage in [0, 1], no known load above the stack is priced higher than a missing one |
| StructuralPrices.PriceMonotone | bess_analysis.py:228-248 | with ordered floors (10 ≤ coal ≤ gas) and coverage in [0, 1], the price never falls as residual load rises |
| StructuralPrices.Bounds | bess_analysis.py:228-248 | lower bounds by band: at least 10 from 0 MW, at least the coal floor past the regulated band, at least the gas floor past the coal capacity |
| MeritOrder.PriceImpact | bess_analysis.py:337-359 | no injection, no price change |
| MeritOrder.FirstAbove | bess_analysis.py:350-355 | the reference search returns a position within the breakpoint list |
| MeritOrder.ImpactBySearch | bess_analysis.py:348-358 | the impact is −net times the slope at the first breakpoint strictly above the load |
| MeritOrder.SegmentSlope | bess_analysis.py:350-355 | the segment choice by strict `<` in breakpoint order: always one of the three slopes, and the last one at or above both breakpoints (ImpactSegments, BreakpointGoesUp and ImpactBySearch state the rest) |
| MeritOrder.ImpactSegments | bess_analysis.py:350-355 | each of the three segments applies under its condition |
| MeritOrder.BreakpointGoesUp | bess_analysis.py:350-355 | a load exactly on a breakpoint takes the slope above it |
| MeritOrder.ImpactLinear | bess_analysis.py:358 | the impact scales with the injection, and charging moves the price opposite to discharging |
| MeritOrder.ImpactSign | bess_analysis.py:357-358 | with non-negative slopes, discharging never raises the price and charging never lowers it |
| DailyLp.EffPrices | bess_analysis.py:401-407 | the discharge price is the better of domestic and export with export prices and a positive cap, the domestic price otherwise |
| DailyLp.Objective | bess_analysis.py:409-412 | charge costs price / ηc, discharge earns −price · ηd, state of charge costs nothing |
| DailyLp.EqRow | bess_analysis.py:414-422 | the continuity row of hour t |
| DailyLp.EqRhs | bess_analysis.py:416-423 | the continuity right-hand side is the initial state in hour 0 and 0 after |
| DailyLp.UbRow | bess_analysis.py:425-430 | the simultaneity row of hour t |
| DailyLp.VarBounds | bess_analysis.py:432-437 | charge and discharge within [0, power], state of charge within [0, capacity] |
| DailyLp.EqRowPartial | bess_analysis.py:417-422 | the continuity row's product over a prefix of the variables |
| DailyLp.EqRowDot | bess_analysis.py:417-422 | the continuity row times x is soc_t − soc_{t−1} − ηc·c_t + d_t/ηd |
| DailyLp.EqRowHolds | bess_analysis.py:414-423 | the continuity row holds exactly when hour t's state follows from the previous one |
| DailyLp.UbRowPartial | bess_analysis.py:428-430 | the simultaneity row times x is c_t + d_t |
| DailyLp.DailyProblem | bess_analysis.py:394-437 | the program handed to the solver: 3H variables and bounds, H inequality and H equality rows with their right-hand sides; DailyFeasible states that its feasible points are exactly the dispatches within the box, sharing power and keeping the state of charge continuous |
| DailyLp.DailyShaped | bess_analysis.py:394-437 | the program has 3H variables, H rows of each kind and 3H bounds |
| DailyLp.DailyBounds | bess_analysis.py:432-437 | the bounds hold exactly when the dispatch is within its box |
| DailyLp.DailyUb | bess_analysis.py:425-430 | the inequality rows hold exactly when charge plus discharge is at most the power |
| DailyLp.DailyEq | bess_analysis.py:414-423 | the equality rows hold exactly when soc_t = soc_{t−1} + ηc·c_t − d_t/ηd with soc_{−1} the initial state |
| DailyLp.DailyFeasible | bess_analysis.py:387-437 | a vector is feasible exactly when it is within its box, shares the power, and keeps the state of charge continuous |
| DailyLp.ObjectiveChargeBlock | bess_analysis.py:411 | the objective over the charge block is the charging cost |
| DailyLp.ObjectiveDischargeBlock | bess_analysis.py:412 | the objective over the discharge block is minus the discharge revenue |
| DailyLp.ObjectiveSocBlock | bess_analysis.py:410 | the state-of-charge block adds nothing to the objective |
| DailyLp.ChargeCostSame | bess_analysis.py:411 | the charging cost depends only on the charge block |
| DailyLp.DischargeRevenueSame | bess_analysis.py:412 | the discharge revenue depends only on the discharge block |
| DailyLp.ObjectiveIsProfit | bess_analysis.py:409-412 | minus the objective is revenue at the discharge prices less cost at the domestic prices |
| DailyLp.EffPricesAtLeast | bess_analysis.py:401-407 | the discharge price is never below the domestic price |
| DailyLp.Clip | bess_analysis.py:457-459 | `np.clip`: within the bounds, and equal to the value when it is already within them |
| DailyLp.HandleOutcome | bess_analysis.py:448-462 | H values per series, and the final state is the last hour's |
| DailyLp.FallbackIdle | bess_analysis.py:448-454 | a failed solve gives zero dispatch, the initial state held every hour, profit 0 and the initial state handed on |
| DailyLp.OutcomeWithinBounds | bess_analysis.py:448-462 | with non-negative capacity and power, every result is within [0, power] and [0, capacity], including the state handed on |
| DailyLp.UnclippedInBox | bess_analysis.py:456-459 | a solution already within its box is not changed by the clipping |
| DailyLp.FeasibleUnclipped | bess_analysis.py:439-462 | a feasible solution comes back unchanged: shared power and continuity hold for the result |
| DailyLp.BlocksFollowVector | bess_analysis.py:456-459 | for a vector that shares power and keeps the state of charge continuous, its charge, discharge and SoC blocks satisfy c_t + d_t ≤ P and the SoC step of every hour |
| DailyLp.ProfitIsRevenueLessCost | bess_analysis.py:461 | the reported profit is discharge revenue less charging cost of the solution |
| DailyLp.BuildObjective | bess_analysis.py:409-412 | the filled array is the objective |
| DailyLp.SetEqRow | bess_analysis.py:417-422 | writes the four coefficients of row t and changes nothing else |
| DailyLp.BuildEq | bess_analysis.py:414-423 | the filled matrix and right-hand side are the continuity rows |
| DailyLp.BuildUb | bess_analysis.py:425-430 | the filled matrix and right-hand side are the simultaneity rows |
| DailyLp.Rows | bess_analysis.py:439-446 | the matrix handed to the solver, row by row |
| DailyLp.RunDailyLp | bess_analysis.py:366-470 | the day's result is the handling of the solver's outcome on the day's program |
| AnnualLp.ExportCap | bess_analysis.py:494-500 | the summed export limits of the given neighbours, never negative |
| AnnualLp.ClampedCap | bess_analysis.py:513 | the requested capacity, at most 15 GWh |
| AnnualLp.ClampedPower | bess_analysis.py:514 | the requested power, at most 3.75 GW |
| AnnualLp.KnownPrices | bess_analysis.py:508 | the known prices of a day, no more than its hours |
| AnnualLp.DayPrices | bess_analysis.py:508 | known prices kept, missing ones filled with the median of the known |
| AnnualLp.DayExport | bess_analysis.py:516-522 | export prices exactly when neighbours are given, one per hour |
| AnnualLp.FeedbackImpact | bess_analysis.py:540-548 | the merit-order impact; a missing load takes the top segment |
| AnnualLp.DaySolved | bess_analysis.py:524-534 | H values per series, and the state handed on is the last hour's |
| AnnualLp.Adjusted | bess_analysis.py:539-550 | one adjusted price per hour |
| AnnualLp.DayRows | bess_analysis.py:562-571 | one row per hour |
| AnnualLp.AdjustPrices | bess_analysis.py:540-550 | the in-place loop gives the adjusted prices |
| AnnualLp.AppendDayRows | bess_analysis.py:562-571 | the append loop adds the day's rows in order |
| AnnualLp.RunAnnualLp | bess_analysis.py:473-574 | fails (None) exactly when the frame has no hours, since the empty result cannot be indexed by hour; otherwise returns the rows of the fold over days |
| AnnualLp.DayRowsFollow | bess_analysis.py:505-571 | every row of a day follows its hour, and its baseline is the day's price with a missing one filled by the day's median |
| AnnualLp.Annual | bess_analysis.py:505-571 | the day loop as a fold: one row per hour of the frame; days without hours are skipped and every other day is solved from the state the previous day handed on (RunAnnualLp is proved equal to it; AnnualFollowsHours, AnnualWithinLimits and AnnualSocIsLastRow state its rows and state) |
| AnnualLp.AnnualFollowsHours | bess_analysis.py:505-571 | one row per input hour in order: same hour, baseline equal to the hour's price or, when missing, its day's median (`AllPrices`), net = discharge − charge, adjusted = baseline + impact under feedback and = baseline otherwise |
| AnnualLp.AnnualWithinLimits | bess_analysis.py:513-534 | with non-negative requests, every row is within the clamped power and capacity, and so is the state handed on |
| AnnualLp.AnnualSocIsLastRow | bess_analysis.py:502-534 | the state handed to the next day is the last row's state of charge, 0 before any row |
| AnnualLp.AnnualEmptyDay | bess_analysis.py:509-511 | a day without hours changes nothing |
| AnnualLp.AnnualFirstDay | bess_analysis.py:503 | the first day starts from an empty battery |
| AnnualLp.ExportCapAtMost | bess_analysis.py:494-495 | distinct neighbours add up to at most 3267 MW |
| AnnualLp.ExportCapKnown | bess_analysis.py:495 | distinct neighbours outside a set add up to at most the limits of the known neighbours outside it |
| AnnualLp.LimitOutside | bess_analysis.py:64 | the limits of the known neighbours outside a set, never negative |
| AnnualLp.LimitOutsideSplit | bess_analysis.py:64 | taking a neighbour out removes exactly its limit |
| Kpi.NetSplits | bess_analysis.py:673-675 | the summed net position is the energy discharged less the energy charged |
| Kpi.CappedSumBounds | bess_analysis.py:669-670 | the curtailment saved is between 0 and both the energy charged and the surplus available |
| Kpi.ProfitGap | bess_analysis.py:770-777 | realized less arbitrage profit is the price shift weighted by each hour's ηd·d − c/ηc |
| Kpi.CannibalHour | bess_analysis.py:540-548 | an hour that only charges or only discharges never gains from its own price impact |
| Kpi.ImpactSlope | bess_analysis.py:350-355 | the feedback slope is one of the three, and the top one for a missing load |
| Kpi.ImpactHasSlope | bess_analysis.py:350-358 | the feedback impact is −net times that slope |
| Kpi.RealizedAtMostArbitrage | bess_analysis.py:539-571 | with non-negative slopes and no hour both charging and discharging, the profit at adjusted prices never exceeds the profit at baseline prices |
| Kpi.GainNonPositive | bess_analysis.py:540-548 | the summed price-shift gain of feedback rows is never positive |
| Kpi.HourGain | bess_analysis.py:540-548 | one hour's price-shift gain under feedback is never positive |
| Kpi.SweepSurplus | bess_analysis.py:669 | the surplus is non-negative, positive exactly when the residual load is negative, and then its magnitude |
| Kpi.SurplusColumn | bess_analysis.py:669 | the surplus aligned to the simulation, 0 where the frame has no hour |
| Kpi.FrameSurplus | bess_analysis.py:744-753 | the indicators' surplus is never negative |
| Kpi.SurplusWaysAgree | bess_analysis.py:744-753 | both ways of measuring the surplus agree when the residual load is demand less the three components |
| Kpi.StepSettings | bess_analysis.py:607-608 | four hours of power at the step's capacity, with price feedback and the merit model |
| Kpi.BaselineOf | bess_analysis.py:612-615 | the baseline spread is peak minus trough |
| Kpi.StepRow | bess_analysis.py:648-693 | the row carries its capacity; decay · baseline spread = (baseline spread − spread) · 100; peak reduction and floor increase against the baseline |
| Kpi.SaturatedThreshold | bess_analysis.py:679-695 | saturated exactly when the spread is below 80/7 EUR/MWh (10 / 0.875) |
| Kpi.RunSaturationSweep | bess_analysis.py:581-700 | no steps fail (the empty table cannot be indexed by capacity); otherwise the sweep loop returns the fold of the steps, stopping at the first error; a finished sweep has one row per step |
| Kpi.SweepOnce | bess_analysis.py:606-693 | one pass: baseline at capacity 0; otherwise a simulation, failing on a frame without hours, then measured against the baseline |
| Kpi.SweepExtends | bess_analysis.py:606 | one more step is one more step of the fold |
| Kpi.SweepStopsForGood | bess_analysis.py:606-693 | once stopped, the sweep stays stopped with the same error |
| Kpi.SweepStep | bess_analysis.py:606-693 | one step of the sweep loop: a stopped sweep stays as it is; a running result appends exactly one row, for the step's capacity, to the rows before it |
| Kpi.Sweep | bess_analysis.py:606-693 | the sweep loop as a fold over the steps: a running sweep has one row per step (SweepRowsPerStep adds the capacities and the baseline, SweepStopsForGood that a stop is final) |
| Kpi.SweepRowsPerStep | bess_analysis.py:606-693 | a running sweep has one row per step labelled with its capacity, and has a baseline exactly when some step was 0 |
| Kpi.SweepZeroStepRow | bess_analysis.py:610-640 | a capacity-0 row has zero profit, cycles, decay, curtailment saved and net change, and spread = peak − trough |
| Kpi.DefaultStepsHaveBaseline | bess_analysis.py:598-599 | with the default steps the sweep can only stop on a zero baseline spread or a frame without hours |
| Kpi.ContinuesWithBaseline | bess_analysis.py:636-653 | once a baseline is recorded, only a zero baseline spread or a frame without hours stops the sweep |
| Kpi.StepRowBounds | bess_analysis.py:661-670 | for a positive capacity, the curtailment saved is between 0 and the energy charged, and cycling is non-negative |
| Kpi.SelectTo | bess_analysis.py:733-736 | a mask selects at most the hours it is given |
| Kpi.SelectSameHours | bess_analysis.py:730-736 | the baseline and adjusted peak (floor) prices are averaged over the same number of hours |
| Kpi.MaskedPricesBeyond | bess_analysis.py:727-731 | peak hours have baseline prices at or above the threshold, and floor hours at or below it |
| Kpi.KpiDays | bess_analysis.py:765 | the day count is at least 1, and at least the span of the frame |
| Kpi.ExtractKpis | bess_analysis.py:707-796 | price delta, peak reduction and floor increase are simulated-minus-baseline differences |
| Kpi.BasePrices | bess_analysis.py:721-722 | one baseline price per hour of the frame |
| Kpi.KpiRealizedAtMost | bess_analysis.py:721-777 | when every hour of the frame has a price and the simulation follows those hours under feedback with non-negative slopes and exclusive dispatch, the indicators' realized profit is at most their arbitrage profit (the frame's filled prices are then the simulation's baseline prices) |
| Kpi.KpiProfitGap | bess_analysis.py:770-777 | realized less arbitrage profit is the weighted price shift; without feedback the two are equal |
| Kpi.KpiBounds | bess_analysis.py:755-766 | the curtailment saved is between 0 and the energy charged; cycling is non-negative; the net position is discharge less charge |

## Left out

- The LP solve (`linprog` with HiGHS) is a foreign numerical solver. It is the parameter `solve`, and no optimality is claimed. The only thing assumed of it is that a successful status comes with a solution vector of the right length.
- DailyLp.RunDailyLp: requires a non-empty day, because the source reads the last hour's state and its only caller skips empty days. It also requires that a successful solver outcome has a vector of length 3H; the source would fail on indexing otherwise. AnnualLp and Kpi state the same assumption for every program (`SolverShaped`).
- The merit-order fit (`piecewise_linear_fit`, `build_merit_order_model`) is not modelled; the breakpoints and slopes are given. This fit is statistics: percentiles, least squares and outlier masks.
- Pandas quantiles, medians and means are the function parameters `quantile`, `median` and `mean`. They are library numerics.
- Floating point: every value is an exact real. The `round(...)` calls of the hourly table are not modelled.
- The efficiencies √0.875 are irrational. They are parameters `ec`, `ed` in (0, 1], and the round-trip constant 0.875 appears only in the saturation threshold.
- Pandas plumbing is not modelled:
  - sorting the frame and grouping it into calendar days (`normalize().unique()`);
  - the nearest-timestamp reindex of neighbour prices with a one-hour tolerance;
  - `df.reindex(sim.index)`.
- The sweep's residual load: `run_saturation_sweep` recomputes the residual-load column with `compute_residual_load` before every run (bess_analysis.py:603). The model takes each hour's residual load in `days` as an input, assumed to be demand − solar − wind − nuclear (`Scenario.ResidualLoad`); nothing ties the two.
- The annual loop takes its days already grouped and in order, with each hour's best neighbour price already aligned. The indicators take the frame already aligned one-to-one with the simulation rows.
- Kpi.RunSaturationSweep: requires that the frame's first hour is not after its last, as a time-ordered frame guarantees. The day count then is at least 1. An unsorted frame could give a zero or negative count, which is not modelled.
- Text-to-number and date parsing (`int()`, `float()`, `parse_iso`, `ts_key`) is not modelled. Points carry their position and values already typed, and timestamps are whole hours.
- EntsoeFields.GetText: the source returns the printed form `str(list)` for a list. That case is not modelled and yields None.
- The annual loop's daily revenue, cost, profit and cycle count are not modelled, because nothing reads them. The same holds for the sweep's baseline average price and per-cycle cost.
- The sweep's saturation flag is only printed. It is modelled as the predicate `Kpi.Saturated`.
- The XML parser itself (`ET.fromstring`) is not modelled. Its result is an optional element tree, None for a document that does not parse. Logging the warning is left out.
- File and network I/O is left out, along with the prints and the charts:
  - `process_year`'s file reading and JSON writing;
  - the downloaders' HTTP requests and rate limiter;
  - `load_year`, `load_years` and `load_neighbor_prices`;
  - the plots, `print_kpi_report` and `main`.
- `compute_structural_prices` applies `price_from_res` to every hour of a column (pandas `apply`). Only the per-hour price `StructuralPrices.StructuralPrice` is modelled, a missing load included; the column loop is not.
- `nuclear_economics.py` is a script of printed cost tables. It is not part of this model.
- The copies of `root_to_dict` in `download_bilateral_flows.py` and `download_demand.py` are the same code and are covered by `XmlDict.RootToDict`.
