# FinOps agent tools: a verified model

The FinOps agent answers cost questions with two tools. This project models the two data-shaping routines behind them, in `theOGagent.py`:

- `fetch_optimized_trusted_advisor_data` (Trusted Advisor).
  - Keeps the checks whose category contains "cost", ignoring case.
  - Builds one row per flagged resource: the check name, the resource id, the status, and one column per metadata key.
  - Loads the rows into a DataFrame and drops every column with exactly one distinct non-null value.
  - If some column label contains "saving" (ignoring case), takes the first such column, cleans it (removes `,` and `$`), coerces it to numbers, and sorts the rows by it in descending order.
  - Returns the records, or `None` when nothing was flagged.
- `fetch_cost_optimization_hub_recommendations` (Cost Optimization Hub).
  - Maps each recommendation to a fixed thirteen-label record, with `0.0` or `"N/A"` for missing fields.
  - Passes the records through a DataFrame and back.
  - Returns `"No recommendations found."` when the listing is empty.

## Modules

- `values.dfy` (`Values`): the shared values.
  - Cells are `Str`, `Num`, `Bool` or `Null`. `Null` stands for Python's `None` and for pandas' `NaN`.
  - A Python dict is an insertion-ordered association list, with `d.get` and `d[k] = v`.
  - `ToolOutput` is what a tool returns.
- `text.dfy` (`Text`): the string operations.
  - `str.lower` and the substring test `in`.
  - `str.replace(c, '')`.
  - The decimal grammar `pd.to_numeric` accepts for a cleaned string.
- `frames.dfy` (`Frames`): the DataFrame operations.
  - `pd.DataFrame(list_of_dicts)` and `to_dict(orient="records")`.
  - `nunique`, `drop(columns=...)` and `sort_values(ascending=False)`.
- `trusted_advisor.dfy` (`TrustedAdvisor`): the Trusted Advisor routine.
- `hub.dfy` (`CostOptimizationHub`): the Cost Optimization Hub routine.

The AWS calls are inputs:
- The check catalog is a parameter.
- `describe_trusted_advisor_check_result` is a function parameter `describe` from check id to result.
- The Hub listing is an `Option<seq<Item>>`, where `None` stands for a response without `items`.

Where the source loops, the model is a method with a loop, proved equal to a specification function: `BuildEntry`, `CollectFindings`, `DropConstantColumns` and `FetchHub`. `FetchTrustedAdvisor` is a method that calls `CollectFindings` (which calls `BuildEntry`) and `DropConstantColumns`, and reassigns the frame step by step, as lines 67-84 reassign `df`. The rest is functions and lemmas.

## Model

| member | source | states |
|---|---|---|
| Values.Lookup | theOGagent.py:68 | reading record `d` under key `k`, as the DataFrame constructor does per column: the value of the first pair with key `k`, or none |
| Values.Set | theOGagent.py:64 | `d[k] = v`: overwrite in place when `k` is present, append otherwise |
| Values.LookupIn | theOGagent.py:68 | a value found under `k` is paired with `k` in the dict |
| Values.LookupFound | theOGagent.py:68 | a value is found under `k` exactly when `k` is one of the dict's keys |
| Values.SetKeys | theOGagent.py:64 | `entry[key] = v` keeps the key order; a new key goes at the end, an existing one stays in place |
| Values.SetLookup | theOGagent.py:64 | after `entry[key] = v`, `entry[key]` is `v` and every other key reads as before |
| Values.SetKeepsKeysDistinct | theOGagent.py:64 | assigning into a dict never creates a second entry for a key |
| Values.LookupAt | theOGagent.py:84 | in a dict with distinct keys, the i-th key looks up the i-th value |
| Text.Lower | theOGagent.py:44 | `s.lower()` on ASCII letters, character by character |
| Text.Contains | theOGagent.py:44 | Python's `p in s`: `p` is a prefix of `s` or of some suffix of it |
| Text.ContainsIffOccurs | theOGagent.py:44 | the `in` test on strings holds exactly when the pattern occurs at some position |
| Text.RemoveChar | theOGagent.py:79 | `str.replace(ch, '')` leaves no `ch` behind |
| Text.RemoveCharCounts | theOGagent.py:79 | every `ch` is removed and every other character stays as often as it was |
| Text.RemoveCharConcat | theOGagent.py:79 | removal works piece by piece, so the kept characters keep their order |
| Text.RemoveCharAbsent | theOGagent.py:79 | a string without `ch` is unchanged |
| Text.StripCurrency | theOGagent.py:79 | the cleaned string holds neither `,` nor `$` |
| Text.StripCurrencyCounts | theOGagent.py:79 | cleaning keeps every other character as often as it was |
| Text.StripConcat | theOGagent.py:79 | cleaning a concatenation cleans each part |
| Text.StripCurrencyClean | theOGagent.py:79 | a string without `,` or `$` is unchanged by cleaning |
| Text.StripSymbol | theOGagent.py:79 | a lone `,` or `$` is removed |
| Text.StripThousands | theOGagent.py:79 | `"$" + w + "," + d` cleans to `w + d` when neither part holds `,` or `$` |
| Text.DigitsClean | theOGagent.py:79 | digit strings contain no `,`, `$` or `.` |
| Text.DigitsValueConcat | theOGagent.py:78-80 | appending digits shifts the leading digits by a power of ten |
| Text.DecimalValue | theOGagent.py:78-80 | the number `whole.frac` denotes, `whole + frac / 10^len(frac)`, is non-negative |
| Text.ParseNumber | theOGagent.py:78-80 | `pd.to_numeric(s, errors='coerce')` on one cleaned string: an optionally signed decimal, or none (NaN) |
| Text.ParseUnsigned | theOGagent.py:78-80 | an unsigned decimal parses to a non-negative number |
| Text.DigitsValueShowNat | theOGagent.py:78-80 | the digits of `str(n)` denote `n` |
| Text.ParseDigits | theOGagent.py:78-80 | a plain digit string parses to the number it denotes |
| Text.ParseShowNat | theOGagent.py:78-80 | round trip: `to_numeric(str(n)) == n` for every natural `n` |
| Text.ParseNegative | theOGagent.py:78-80 | a leading minus negates what the rest denotes |
| Text.DotAfter | theOGagent.py:78-80 | in `w + "." + d` with no dot in `w`, the first dot follows `w` |
| Text.ParseDecimal | theOGagent.py:78-80 | `"w.d"` over digits parses to `w + d / 10^len(d)`, e.g. "1234.56" to 1234.56 |
| Text.ParseNonNumeric | theOGagent.py:78-80 | a string that starts with neither a sign nor a digit is not numeric (`errors='coerce'` turns it into null) |
| Frames.AddKeysConcat | theOGagent.py:68 | keys met one after another are added in the order they come |
| Frames.AddKeysSnoc | theOGagent.py:68 | adding one more key appends it exactly when it is not yet a label |
| Frames.FirstSeen | theOGagent.py:68 | first-seen order, defined independently: each element at its first occurrence only; every kept element occurs in the input |
| Frames.FirstSeenMembers | theOGagent.py:68 | first-seen order keeps exactly the elements of the input |
| Frames.FirstSeenDistinct | theOGagent.py:68 | first-seen order has no repeats |
| Frames.FirstSeenOfDistinct | theOGagent.py:68 | a sequence without repeats is its own first-seen order |
| Frames.FirstSeenOrder | theOGagent.py:68 | of two kept elements, the one kept first occurs first in the input |
| Frames.AddKeysFirstSeen | theOGagent.py:68 | adding keys to distinct labels gives the first-seen order of labels and keys together |
| Frames.ColumnsFromAll | theOGagent.py:68 | collecting keys record by record is adding all the keys at once |
| Frames.ColumnsOfFirstSeen | theOGagent.py:68 | the DataFrame's columns are the records' keys in first-seen order: of two labels, the one met first (record by record, key by key) comes first |
| Frames.ColumnsOfProps | theOGagent.py:68 | the DataFrame's columns are distinct and are exactly the keys that occur in some record; the first record's keys come first, in its order |
| Frames.AddKeys | theOGagent.py:68 | how pandas merges one record's keys into the labels seen so far: each key not yet a label is appended, in the record's order |
| Frames.AddKeysProps | theOGagent.py:68 | merging a record's keys into the labels seen so far keeps them distinct, keeps the earlier labels in place and adds exactly the new keys |
| Frames.ColumnsOf | theOGagent.py:68 | the column labels of `pd.DataFrame(final_data)`: every key of every record, in the order first seen |
| Frames.FromRecords | theOGagent.py:68 | well-formed, one row per record; a label is a column exactly when some record has that key |
| Frames.FromRecordsCell | theOGagent.py:68 | cell (i, j) holds record i's value for column j, or null when record i lacks that key |
| Frames.ToRecords | theOGagent.py:84 | one record per row, each keyed by the column labels in order; no records at all when the frame has no columns |
| Frames.ToRecordsLookup | theOGagent.py:84 | each record maps every label to its row's cell |
| Frames.UniformRoundTrip | theOGagent.py:135-137 | records that all share the same distinct, non-empty keys come back unchanged from `DataFrame(...).to_dict("records")`; records without keys come back as no records |
| Frames.Column | theOGagent.py:72 | `df[col]`: the column's cells, one per row |
| Frames.NUnique | theOGagent.py:72 | `series.nunique()`: the number of distinct values, nulls not counted |
| Frames.NUniqueSingleton | theOGagent.py:72 | a one-row column has one distinct value unless that value is null |
| Frames.IndexOf | theOGagent.py:73 | finds the first position of a label |
| Frames.DropColumn | theOGagent.py:73 | `drop(columns=[c])` leaves the other labels in order, removes that label and its column, shifts the later columns left and keeps the rows |
| Frames.Precedes | theOGagent.py:82 | the order of `sort_values(ascending=False)`: larger numbers first, nulls last |
| Frames.PrecedesTotal | theOGagent.py:82 | the descending order with nulls last is total |
| Frames.InsertSorted | theOGagent.py:82 | inserting into a descending sequence keeps it descending |
| Frames.SortRows | theOGagent.py:82 | the rows are reordered, not changed (same multiset), and come out non-increasing by the column with nulls last |
| Frames.SortDescending | theOGagent.py:82 | `sort_values(by=c, ascending=False)` keeps the labels and the row count, permutes the rows and sorts them by `c` |
| Frames.PermutationKeepsColumnValues | theOGagent.py:82 | reordering rows keeps each column's values and its `nunique` |
| TrustedAdvisor.IsCostCheck | theOGagent.py:44 | the filter `'cost' in check['category'].lower()` |
| TrustedAdvisor.CostChecks | theOGagent.py:44 | a check is kept exactly when its lower-cased category contains "cost" |
| TrustedAdvisor.CostChecksConcat | theOGagent.py:44 | the filter keeps the catalog's order |
| TrustedAdvisor.CostCategoryExamples | theOGagent.py:44 | "cost_optimizing" and "Cost Optimizing" count as cost checks; "security" does not |
| TrustedAdvisor.MetadataKeys | theOGagent.py:51 | `check.get('metadata', [])` |
| TrustedAdvisor.Flagged | theOGagent.py:54 | `result['result'].get('flaggedResources', [])` |
| TrustedAdvisor.BaseEntry | theOGagent.py:57-61 | the dict literal: check name, then resource id and status with "N/A" when missing |
| TrustedAdvisor.MetadataAt | theOGagent.py:64 | `metadata[i] if i < len(metadata) else 'N/A'` |
| TrustedAdvisor.WithMetadata | theOGagent.py:63-64 | the entry after the loop has assigned its first `n` metadata keys, one `entry[key] = ...` at a time |
| TrustedAdvisor.BuildEntry | theOGagent.py:57-64 | the loop builds the entry `Entry` describes |
| TrustedAdvisor.WithMetadataKeys | theOGagent.py:63-64 | the metadata loop keeps the keys distinct and the fixed ones first, in their order |
| TrustedAdvisor.WithMetadataKeyOrder | theOGagent.py:63-64 | the loop adds each assigned key at the end the first time it meets it, in `metadata_keys` order |
| TrustedAdvisor.WithMetadataKeyMembers | theOGagent.py:63-64 | after assigning the first `n` metadata keys, a key is present exactly when it is a fixed key or one of those `n` |
| TrustedAdvisor.WithMetadataValue | theOGagent.py:63-64 | a key holds the value assigned at its last occurrence |
| TrustedAdvisor.WithMetadataOther | theOGagent.py:63-64 | keys the loop never assigns keep their value |
| TrustedAdvisor.WithMetadataAgree | theOGagent.py:63-64 | the entry depends only on the first `len(metadata_keys)` values |
| TrustedAdvisor.Entry | theOGagent.py:57-64 | the dict built for one flagged resource: the literal, then each metadata key assigned in turn |
| TrustedAdvisor.EntryKeys | theOGagent.py:57-64 | a row has "Check Name", "Resource ID" and "Status" first, then the metadata keys, each once; its keys are the first-seen order of the fixed keys followed by the metadata keys |
| TrustedAdvisor.EntryMetadata | theOGagent.py:63-64 | metadata key i holds metadata value i, or "N/A" past the end of the values |
| TrustedAdvisor.EntryFixedFields | theOGagent.py:57-61 | the fixed fields hold the check name, the resource id and the status, or "N/A" when missing, unless a metadata key overwrites them |
| TrustedAdvisor.EntryIgnoresExtraMetadata | theOGagent.py:63-64 | metadata values beyond the number of keys are ignored |
| TrustedAdvisor.EntryPaddingExample | theOGagent.py:64 | keys ["A","B"] against values ["x"] give A = "x" and B = "N/A" |
| TrustedAdvisor.CheckRows | theOGagent.py:54-65 | the rows one check appends: one entry per flagged resource, in order |
| TrustedAdvisor.Findings | theOGagent.py:46-65 | `final_data` after the loop over the cost checks: each check's rows, in catalog order |
| TrustedAdvisor.FindingsConcat | theOGagent.py:48-65 | the rows of a catalog are the rows of its parts, in order |
| TrustedAdvisor.FindingsCount | theOGagent.py:56-65 | there is exactly one row per flagged resource |
| TrustedAdvisor.NonCostCheckContributesNothing | theOGagent.py:44-65 | a non-cost check contributes no rows, wherever it stands |
| TrustedAdvisor.CostCheckContributesItsRows | theOGagent.py:44-65 | a cost check contributes its own rows, in its place |
| TrustedAdvisor.CollectFindings | theOGagent.py:46-65 | the nested loops produce `Findings` of the cost checks |
| TrustedAdvisor.KeptBefore | theOGagent.py:71-73 | the indices kept so far are increasing and in range |
| TrustedAdvisor.KeptBeforeMembers | theOGagent.py:71-73 | a column is listed exactly when it does not have one distinct non-null value |
| TrustedAdvisor.Project | theOGagent.py:71-73 | restricting to increasing indices keeps the rows and the selected labels and columns |
| TrustedAdvisor.PlanStep | theOGagent.py:71-73 | when the loop reaches label `i`, that label sits right after the kept columns; the next plan keeps it or removes it |
| TrustedAdvisor.PlanBounds | theOGagent.py:70-73 | before the loop every column is planned; after it, exactly the kept ones |
| TrustedAdvisor.DropStep | theOGagent.py:71-73 | one pass finds the label right after the kept columns and drops it exactly when it is constant |
| TrustedAdvisor.DropStepAt | theOGagent.py:71-73 | after `i` passes, the planned frame is the loop body applied to the frame after `i - 1` passes |
| TrustedAdvisor.StageStep | theOGagent.py:71-73 | a pass that starts from the planned columns ends at the next plan |
| TrustedAdvisor.DropIfConstant | theOGagent.py:72-73 | one pass of the loop body: drop the named column when it has exactly one distinct non-null value, otherwise leave the frame as is |
| TrustedAdvisor.Stage | theOGagent.py:71-73 | the frame after the loop has made its passes over the first `i` original labels |
| TrustedAdvisor.StageIsPlan | theOGagent.py:71-73 | after the passes over the first `i` labels, the frame is the original restricted to the kept columns among them and all later ones |
| TrustedAdvisor.StagePresent | theOGagent.py:71-73 | every label is still present when its pass comes, so `drop` never looks for a missing column |
| TrustedAdvisor.StageIsPrune | theOGagent.py:70-73 | after all the passes exactly the columns whose `nunique` is not 1 remain, in their original order |
| TrustedAdvisor.DropConstantColumns | theOGagent.py:70-73 | the loop over the original labels, dropping by name, leaves `Prune(f)` |
| TrustedAdvisor.Prune | theOGagent.py:70-73 | the frame restricted to the columns whose `nunique` is not 1, in order; rows kept |
| TrustedAdvisor.PruneNoConstant | theOGagent.py:71-73 | no remaining column has exactly one distinct non-null value |
| TrustedAdvisor.PruneKeepsExactly | theOGagent.py:71-73 | a column survives exactly when its `nunique` is not 1 |
| TrustedAdvisor.PruneKeepsColumns | theOGagent.py:71-73 | survivors keep their values and their relative order |
| TrustedAdvisor.PruneSingleRow | theOGagent.py:67-73 | with one flagged resource, only all-null columns survive |
| TrustedAdvisor.IsSavingName | theOGagent.py:76 | the filter `'saving' in c.lower()` |
| TrustedAdvisor.FirstSaving | theOGagent.py:76-77 | `saving_cols[0]` is the first label containing "saving" (ignoring case), and there is none when no label does |
| TrustedAdvisor.CoerceCell | theOGagent.py:78-81 | the coerced cell is a number or null; a number stays as it is |
| TrustedAdvisor.CoerceColumn | theOGagent.py:78-81 | only the savings column changes, cell by cell |
| TrustedAdvisor.CoerceDollars | theOGagent.py:78-81 | `"$" + str(n)` coerces to `n` |
| TrustedAdvisor.CoerceThousands | theOGagent.py:78-81 | `"$" + str(t) + "," + ddd` coerces to `t * 1000 + ddd` |
| TrustedAdvisor.CoerceCents | theOGagent.py:78-81 | `"$" + w + "," + ttt + "." + cc` coerces to `w * 1000 + ttt` plus `cc / 10^len(cc)`, e.g. "$1,234.56" to 1234.56 |
| TrustedAdvisor.CoerceWord | theOGagent.py:78-81 | a word without `,` or `$` that starts with neither a sign nor a digit, such as the "N/A" padding of line 64, coerces to null |
| TrustedAdvisor.SavingNameExample | theOGagent.py:76 | "Estimated Monthly Savings" is a savings label; "Status" is not |
| TrustedAdvisor.Reshape | theOGagent.py:67-82 | the frame of the findings, pruned, then coerced and sorted by its first savings column when it has one |
| TrustedAdvisor.Report | theOGagent.py:44-84 | `None` when nothing was flagged, otherwise the records of the reshaped frame |
| TrustedAdvisor.FetchTrustedAdvisor | theOGagent.py:42-84 | the routine returns `Report(checks, describe)` |
| TrustedAdvisor.ReportNoneIffNothingFlagged | theOGagent.py:67-84 | the result is `None` exactly when no cost check flagged anything, and never a message |
| TrustedAdvisor.ReportRecords | theOGagent.py:84 | otherwise there is one record per flagged resource, each keyed by the surviving labels, or no record when no column survives |
| TrustedAdvisor.SingleFullFindingDropsAll | theOGagent.py:67-73 | a single finding without a null value has every column dropped |
| TrustedAdvisor.SingleFullFindingGivesNoRecords | theOGagent.py:67-84 | one flagged resource with every field present gives an empty list of records |
| TrustedAdvisor.PruneNames | theOGagent.py:71-73 | pruning only removes labels |
| TrustedAdvisor.ReshapeShape | theOGagent.py:68-82 | the reshaped frame is well formed, has one row per finding, and each label is some finding's key |
| TrustedAdvisor.ReshapeNoConstantColumn | theOGagent.py:71-82 | after coercion and sorting, no column other than the savings column has one distinct non-null value |
| TrustedAdvisor.ReshapeSortedBySavings | theOGagent.py:76-82 | with a savings column, the rows are a permutation of the coerced rows, sorted non-increasing with nulls last, and that column holds only numbers and nulls |
| TrustedAdvisor.ReshapeWithoutSavingsKeepsOrder | theOGagent.py:68-77 | without a savings column the result is the pruned frame: row i is finding i, and its cell under each surviving label is that finding's value for it, or null |
| TrustedAdvisor.SingleFindingKeepsOnlyNulls | theOGagent.py:67-84 | a single flagged resource leaves only null cells |
| CostOptimizationHub.Get | theOGagent.py:120-132 | `rec.get(field, default)` |
| CostOptimizationHub.DefaultFor | theOGagent.py:120-132 | the default of each label: 0.0 for the two dollar amounts, "N/A" for the rest |
| CostOptimizationHub.MapItem | theOGagent.py:119-133 | the thirteen-label dict for one recommendation, with `rec.get` and its defaults |
| CostOptimizationHub.HubReport | theOGagent.py:113-138 | the message when nothing was listed, otherwise one mapped record per recommendation |
| CostOptimizationHub.LabelsDistinct | theOGagent.py:119-133 | the thirteen labels are distinct |
| CostOptimizationHub.MapItemKeys | theOGagent.py:119-133 | every record has the thirteen labels, in the literal's order |
| CostOptimizationHub.MapItemAt | theOGagent.py:120-132 | position i holds label i and `rec.get(field_i, default_i)` |
| CostOptimizationHub.MapItemField | theOGagent.py:120-132 | label i holds SDK field i when present, otherwise 0.0 for the two dollar amounts and "N/A" for everything else |
| CostOptimizationHub.MapItemIgnoresOtherFields | theOGagent.py:119-133 | fields outside the thirteen do not affect the record |
| CostOptimizationHub.MapItemExample | theOGagent.py:120-132 | an item with only an id and a saving keeps both; cost defaults to 0.0 and action to "N/A" |
| CostOptimizationHub.FetchHub | theOGagent.py:113-138 | the routine returns `HubReport` of the listed items: the DataFrame round trip hands back exactly the mapped records |
| CostOptimizationHub.HubRoundTrip | theOGagent.py:135-137 | the DataFrame built from the mapped records hands them back unchanged |
| CostOptimizationHub.AllKeyedByLabels | theOGagent.py:117-133 | every mapped record shares the thirteen labels |
| CostOptimizationHub.HubReportShape | theOGagent.py:135-138 | the message is returned exactly when nothing was listed; otherwise one record per recommendation, each with the thirteen labels |

## Left out

- AWS access.
  - The boto3 clients, the credentials read from the environment (lines 17-22) and the region are not modelled.
  - Both AWS responses are inputs.
  - `describe` is a total function, so a failing AWS call or a missing `result` key (an exception in the source) is not modelled.
- Agent and UI: the LLM agent, the tool registration and the Streamlit interface (lines 1-31 and after line 138) are not part of this model.
- Pagination: `list_recommendations` is called once (line 114), so only what that single call returned is processed. The model takes that list as its input.
- Floating point: numbers are exact reals.
- Text.ParseNumber: `to_numeric` is modelled on optionally signed decimals of the form `digits` or `digits.digits`. Exponents, surrounding whitespace, `inf`/`nan` spellings, `"1."` and `".5"` are treated as not numeric.
- TrustedAdvisor.CoerceCell: a number is taken to print as a string that parses back to itself, and a boolean as `"True"`/`"False"`, which is not numeric.
- Text.Lower: lower-cases ASCII letters only. Python's Unicode case mapping is not modelled.
- Missing values. `Null` stands for both `None` and `NaN`.
  - pandas dtype inference is not modelled. This includes `None` becoming `NaN` in numeric columns and integers widening to floats.
- Frames.NUnique: Python's cross-type equality (`True == 1`) is not modelled; such values count as distinct.
- Frames.SortDescending: the order among rows with equal savings (pandas' default sort is not stable) is left open. The model proves sortedness and permutation only.
- TrustedAdvisor.DropConstantColumns: `drop(inplace=True)` mutates the DataFrame. The model replaces it with a new value each pass, so aliasing of the DataFrame is not modelled.
- Frames.FromRecords: the DataFrame index is not modelled. `to_dict(orient="records")` does not show it.
