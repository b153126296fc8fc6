# Monumenta charm-set optimiser, modelled in Dafny

This project models the core of the Monumenta charm evaluator. From a catalog of charms, each with a power cost, an upgrade flag and one raw value per ability, the evaluator finds the set of at most seven charms that maximises a weighted utility within a power budget. The model covers:

- `prepare_charm_data`, the reduction step. It keeps the important abilities and the charms that are nonzero in one of them, and encodes each value as truncation of `raw / cap * (2^26 - 1)`.
- The recursive branch-and-bound search `eval_charm<left>`, which uses upgrade offsets `has_upgrade ? 2 : 1`.
- The serial search and the parallel search. The parallel search hands out first picks from an atomic job cursor and keeps the strictly greater result of each worker.
- The dispatch table, which pads the search to `TABLE_SIZE_FOR<n>` abilities.
- `evaluate_naive`, which translates compacted indices back to catalog positions.
- The older engine of src/eval_naive.cpp, as written and corrected.
- The command-line helpers `trim`, `split_string_view` and `config::to_weights` (both copies of the header), with `NAME_TO_ID`.
- The bot's promise-based `BlockingQueue`.
- The in-memory part of the bot's `UserData` store.

Modules follow the source:

| module | file | models |
|---|---|---|
| `Charms` | charm.dfy | charm records, the ability table, `CHARM_COUNT_MAX`, `MISSING_ID`, `NAME_TO_ID` |
| `Aligned` | aligned_eval.dfy | `ENCODED_CHARM_STAT_SCALE`, `table_t`, `charm_set_buffer` |
| `Stats` | eval_stats.dfy | `eval_stats` and the utility function |
| `Prepare` | prepare.dfy | `prepare_charm_data` |
| `Search` | search.dfy | `eval_charm<left>`, `eval_charms_serial` |
| `Enumeration` | enumeration.dfy | the search as a fold over its pre-order candidates; optimality and tie-break |
| `Parallel` | parallel.dfy | `eval_charms_parallel`, `eval_charms` |
| `Width` | width.dfy | `TABLE_SIZE_FOR` and zero padding |
| `Build` | build.dfy | `eval_charms_dyn` (tables and offsets) and result translation |
| `CatalogValue` | catalog_value.dfy | utility over the whole ability table, and losslessness of the reduction |
| `CatalogOptimality` | catalog_optimal.dfy | compacted selections against catalog selections |
| `Engine` | engine.dfy | `evaluate_naive` |
| `EngineCases` | engine_cases.dfy | `evaluate_naive` on one-charm catalogs |
| `Legacy`, `LegacyFindings` | legacy.dfy, legacy_findings.dfy | the older engine |
| `StringViews` | sv_manip.dfy | `trim`, `split_string_view` |
| `Weights` | weights.dfy | `config`, `to_weights` |
| `BlockingQueues` | blocking_queue.dfy | `BlockingQueue<T>` |
| `UserStore` | user_data.dfy | the in-memory `UserData` |

The main results:

- The search returns the maximum utility over every valid selection: at most seven picks, following the offsets, within budget (`Enumeration.SerialOptimal`). Ties go to the first selection in pre-order (`Enumeration.SerialFirst`).
- The parallel search agrees with the serial search on the utility, for any assignment of jobs to workers (`Parallel.ReduceMatchesSerial`).
- Padding to the dispatch width changes nothing (`Width.SerialPadded`).
- The reduction loses nothing (`CatalogValue.Lossless`).
- What `evaluate_naive` reports is an admissible catalog selection whose whole-table utility equals the reported utility (`Engine.EvaluateSound`). On catalogs whose upgrade twins cover their base entries, that selection is optimal over the whole catalog (`Engine.EvaluateCatalogOptimal`).

Five behaviours of the code are easy to misread. The model keeps each as the code has it:

- **No clamp when encoding.** `prepare_charm_data` converts `raw / cap * SCALE` with a plain `(int32_t)` cast (src/common/eval_naive.cpp:299-301). Nothing bounds raw / cap to [-1, 1], so a value twice its cap encodes to `2 * SCALE` (`Prepare.EncodeAtCap`). The only clamp is the upper one, `min(v, SCALE)`, in `eval_stats` (src/common/eval_naive.cpp:64; `Stats.ClampHigh`).
- **A selection of utility 0 or less is never reported.** The serial helper's running best starts at -1 (src/common/eval_naive.cpp:49), and the empty selection at the root is worth 0 (113-117). The parallel reduction starts at utility 0 with an empty buffer (161-162). Only a strictly greater utility replaces the running best. So when no selection has positive utility, the answer is no charms at utility 0 (`Engine.EvaluateNoGain`).
- **Negative raw values can still gain.** Encoding keeps the sign of raw / cap (`Prepare.EncodeSign`), and a negative cap marks an ability where lower is better (src/main.cpp:102). The case `single` of src/test/test_naive.cpp:26-38 has one charm with raw value -30 under weight 1 and expects `[0]`. That answer follows when the cap of ability 0 is negative: `EngineCases.SingleNegativeReported` proves it for a cap of -30 and any budget of at least 1.
- **The upgrade offset can skip a charm that is not a twin.** The offset table is `has_upgrade ? 2 : 1` over the compacted charms (src/common/eval_naive.cpp:209). The charm reader places an upgraded copy right after its base (src/cli/cli.cpp:337-345), but the reduction may drop that copy and keep the base. The offset then skips the next surviving charm instead (`Engine.UpgradeSkipsNonTwin`).
- **No early exit.** With no important ability, `evaluate_naive` still dispatches through the table, at width 0 (src/common/eval_naive.cpp:350-352). The answer is utility 0 and no charms (`Engine.EvaluateNoImportant`).

## Model

| member | source | states |
|---|---|---|
| `Charms.NameToId` | include/common/charm.h:29-36 | The keys of NAME_TO_ID are exactly the ability names; each maps to an index holding that name; when a name repeats, the later index wins |
| `Charms.NameToIdInjective` | include/common/charm.h:29-36 | Two different known names never share an ability index |
| `Aligned.ScaleValue` | include/common/aligned_eval.h:18-19 | ENCODED_CHARM_STAT_SCALE is `(1 << 26) - 1` = 0x3FFFFFF |
| `Aligned.EmptySlots` | include/common/aligned_eval.h:38-43 | A default-constructed id buffer has eight slots, all MISSING_ID |
| `Aligned.Zeros` | src/common/eval_naive.cpp:114 | A value-initialised stat table of width n holds n zeros |
| `Aligned.Pad` | src/common/eval_naive.cpp:205-214 | Copying a shorter table into a fresh zero table of width w: the prefix is the copied table and the rest is zero |
| `Stats.ClampHigh` | src/common/eval_naive.cpp:64 | `min(stat, SCALE)` is at most both inputs and equals one of them |
| `Stats.Add` | src/common/eval_naive.cpp:98-102 | Accumulating a charm's stats adds them slot by slot |
| `Stats.EvalStats` | src/common/eval_naive.cpp:57-68 | The accumulation loop computes the reference utility: the sum of `min(stat, SCALE) * weight` |
| `Stats.Utility` | src/common/eval_naive.cpp:57-68 | The reference utility, the sum over abilities of `min(stat, SCALE) * weight`; `Stats.EvalStats` proves the loop of `eval_stats` computes it |
| `Stats.UtilityOfZeros` | src/common/eval_naive.cpp:114-117 | The empty selection's zero table has utility 0 under any weights |
| `Stats.UtilityUnclampedIsDot` | src/common/eval_naive.cpp:64 | The clamp is upper-only: with no stat above SCALE, the utility is the plain dot product, negative terms included |
| `Stats.UtilityOfPadded` | src/common/eval_naive.cpp:205-214 | Zero-padded slots add nothing: padding the stats and the weights to a wider table keeps the utility |
| `Stats.AddPadded` | src/common/eval_naive.cpp:98-102 | Adding padded tables equals padding their sum |
| `Stats.AddZerosLeft` | src/common/eval_naive.cpp:146 | Adding a charm to the zero table gives that charm's stats |
| `Stats.Project` | src/common/eval_naive.cpp:310-315 | Restricting a table to listed abilities keeps their entries, in list order: the compact weights are the weights at the important abilities |
| `Stats.UtilityProjected` | src/common/eval_naive.cpp:258-281 | Dropping abilities whose term is zero keeps the utility: over an ascending list covering every nonzero term, the utility equals the full utility |
| `Prepare.TruncBounds` | src/common/eval_naive.cpp:301 | The `(int32_t)` cast truncates toward zero: the result lies within one of the value, on the side of zero |
| `Prepare.Trunc` | src/common/eval_naive.cpp:301 | The cast to an integer lies within one of its argument, on the side of zero |
| `Prepare.Encode` | src/common/eval_naive.cpp:299-301 | The encoded value lies within one of raw / cap * SCALE, whatever the size of raw / cap |
| `Prepare.EncodeSign` | src/common/eval_naive.cpp:299-301 | A zero raw value encodes to 0, and the code keeps the sign of raw / cap |
| `Prepare.EncodeAtCap` | src/common/eval_naive.cpp:299-301 | A value at its cap encodes to SCALE, and twice the cap to twice SCALE: there is no clamp |
| `Prepare.AnyNonzero` | src/common/eval_naive.cpp:265-273 | The scan for a nonzero value is true exactly when some catalog charm is nonzero at that ability |
| `Prepare.ImportantAbilities` | src/common/eval_naive.cpp:258-281 | The important abilities are exactly those with a nonzero weight and a nonzero value in some charm, ascending and without repeats |
| `Prepare.EncodeRow` | src/common/eval_naive.cpp:297-302 | A charm's compact stats are its encoded values at the listed abilities, in order |
| `Prepare.NonzeroIn` | src/common/eval_naive.cpp:295-300 | `has_nonzero` is true exactly when the charm is nonzero at some listed ability |
| `Prepare.Survivors` | src/common/eval_naive.cpp:286-308 | The kept catalog positions are exactly the charms nonzero at some listed ability, ascending |
| `Prepare.CompactCharms` | src/common/eval_naive.cpp:286-308 | One compact charm per surviving catalog entry, in catalog order, each carrying that entry's position, power, upgrade flag and encoded row |
| `Prepare.PrepareCharmData` | src/common/eval_naive.cpp:254-322 | The reduction returns the important abilities, the compact form of the survivors and the compact weights, which are all nonzero |
| `Prepare.PrepareKeeps` | src/common/eval_naive.cpp:283-308 | Each compact charm is the compact form of its catalog position, positions strictly increase, and a catalog charm is kept exactly when it is nonzero at an important ability |
| `Prepare.ImportantNone` | src/common/eval_naive.cpp:260-263 | All-zero weights make no ability important |
| `Prepare.SurvivorsNone` | src/common/eval_naive.cpp:295-307 | No charm survives an empty ability list |
| `Prepare.PrepareNoImportant` | src/common/eval_naive.cpp:283-308 | Without important abilities the reduction keeps no charm |
| `Search.EvalCharm` | src/common/eval_naive.cpp:70-107 | A node never lowers the running best, and keeps a best made of MISSING_ID and compacted indices so; `Enumeration.SearchIsFold` states the node is the fold over its pre-order candidates |
| `Search.Extend` | src/common/eval_naive.cpp:89-106 | The candidate loop never lowers the running best and keeps its slots in range; `Enumeration.ExtendIsFold` states it is the fold over the siblings' subtrees |
| `Search.InitialBest` | src/common/eval_naive.cpp:49 | A helper's running best starts below 0 with no pick, so the root, worth 0, always replaces it |
| `Search.Serial` | src/common/eval_naive.cpp:110-119 | `eval_charms_serial` returns eight slots, each MISSING_ID or a compacted index; `Enumeration.SerialOptimal` and `Enumeration.SerialFirst` state which selection it is |
| `Enumeration.FillAt` | src/common/eval_naive.cpp:93-94 | Writing picks into the id buffer sets exactly the slots from `pos` on and leaves the rest |
| `Enumeration.FoldAppend` | src/common/eval_naive.cpp:89-106 | Visiting two candidate lists in turn is visiting their concatenation |
| `Enumeration.FoldOverBudget` | src/common/eval_naive.cpp:73-76 | Below a node over budget nothing is recorded: the running best is returned unchanged |
| `Enumeration.SearchIsFold` | src/common/eval_naive.cpp:70-107 | `eval_charm<left>` equals visiting its pre-order candidate list from the current node |
| `Enumeration.ExtendIsFold` | src/common/eval_naive.cpp:89-106 | The candidate loop from i equals visiting the candidates of subtrees i, i+1, ... in order |
| `Enumeration.FoldBest` | src/common/eval_naive.cpp:78-87 | Strict-greater recording: the result beats every fitting candidate; unless the start survives, it is the first fitting candidate to reach the final utility, and it beats the start |
| `Enumeration.CandsComplete` | src/common/eval_naive.cpp:89-106 | Every chain of at most `left` picks from the lower bound is enumerated |
| `Enumeration.CandsMembers` | src/common/eval_naive.cpp:89-106 | The enumeration below a node is exactly the chains of at most `left` picks from its lower bound |
| `Enumeration.ChainIsFlat` | src/common/eval_naive.cpp:104 | With positive offsets, the recursive chain condition equals the flat one: each pick is at least the previous pick plus its offset |
| `Enumeration.SerialIsFold` | src/common/eval_naive.cpp:110-119 | The serial search is the fold over all candidates from the root, starting at utility -1 |
| `Enumeration.SerialCands` | src/common/eval_naive.cpp:110-119 | The serial candidates are exactly the chains of at most seven picks from 0 |
| `Enumeration.SerialOptimal` | src/common/eval_naive.cpp:110-119 | The serial result is at least 0 and at least every valid selection's value, and its buffer holds a valid selection that reaches it |
| `Enumeration.SerialFirst` | src/common/eval_naive.cpp:83-87 | Ties go to pre-order: the result records a valid selection, and every valid selection visited earlier is worth strictly less |
| `Enumeration.SerialNoGain` | src/common/eval_naive.cpp:110-119 | When no valid selection is worth more than 0, the serial search reports 0 and an all-MISSING_ID buffer |
| `Enumeration.SerialZero` | src/common/eval_naive.cpp:78-87 | A serial result worth 0 or less is the record of the empty selection |
| `Parallel.WorkerJobs` | src/common/eval_naive.cpp:137-144 | A worker's jobs are exactly the charms the assignment gives it, in increasing cursor order |
| `Parallel.ReduceInit` | src/common/eval_naive.cpp:161-162 | The reduction starts at utility 0 with no pick |
| `Parallel.Job` | src/common/eval_naive.cpp:146-150 | A job never lowers its worker's running best; `Parallel.JobIsFold` states it is the fold over the subtree of its first pick |
| `Parallel.RunJobs` | src/common/eval_naive.cpp:137-151 | A worker's loop never lowers its running best; `Parallel.RunJobsIsFold` states it is the fold over its jobs' candidates |
| `Parallel.Worker` | src/common/eval_naive.cpp:134-152 | A worker's final best is at least the one it started from |
| `Parallel.ParallelSearch` | src/common/eval_naive.cpp:121-174 | `eval_charms_parallel` never reports a negative utility; `Parallel.ReduceMatchesSerial` states it equals the serial utility |
| `Parallel.Reduce` | src/common/eval_naive.cpp:161-173 | The reduction is at least its start and at least every worker; it is either its start or, with a strictly greater utility, one worker's result |
| `Parallel.JobIsFold` | src/common/eval_naive.cpp:146-150 | Job j equals visiting, from the root, the chains that start with j and continue from `j + offset[j]` |
| `Parallel.RunJobsIsFold` | src/common/eval_naive.cpp:137-151 | A worker's loop equals visiting the candidates of its jobs in turn |
| `Parallel.JobCandsMembers` | src/common/eval_naive.cpp:139-150 | A job list's candidates are exactly the nonempty chains of at most seven picks whose first pick is one of the jobs |
| `Parallel.ChainSelection` | src/common/eval_naive.cpp:150 | A worker's chain from its seeded first pick is a selection the serial search considers |
| `Parallel.WorkerBounds` | src/common/eval_naive.cpp:134-154 | A worker's result is at least every valid nonempty selection whose first pick it owns, and is its start or the record of such a selection |
| `Parallel.EmptySelection` | src/common/eval_naive.cpp:161-162 | The empty selection is valid and worth 0, and its record is the reduction's start: 0 with an all-MISSING_ID buffer |
| `Parallel.NoCharmsOnlyEmpty` | src/common/eval_naive.cpp:141-144 | With no compact charms, every worker exits at once and only the empty selection is valid |
| `Parallel.ReduceMatchesSerial` | src/common/eval_naive.cpp:121-174 | For any job assignment, the parallel search reports the serial search's utility |
| `Parallel.ReduceShape` | src/common/eval_naive.cpp:161-173 | The reduction keeps its start exactly when no valid nonempty selection has positive value; otherwise it holds such a selection at its value |
| `Parallel.ReachedSlots` | src/common/eval_naive.cpp:354-364 | A reported buffer holds only MISSING_ID or compact indices, so the translation never indexes out of range |
| `Parallel.EvalCharms` | src/common/eval_naive.cpp:176-180 | On both paths: the best utility of any valid selection, a buffer reaching it, and 0 with an empty buffer when nothing gains |
| `Width.TableSizeForLeast` | src/common/eval_naive.cpp:230-231 | TABLE_SIZE_FOR<n> is the least multiple of the alignment that holds n, less than n plus the alignment |
| `Width.TableSizeFor` | src/common/eval_naive.cpp:230-231 | `TABLE_SIZE_FOR<n>`, n rounded up to a multiple of the alignment; `Width.TableSizeForLeast` states it is the least such multiple |
| `Width.TableSizeForZero` | src/common/eval_naive.cpp:230-231 | TABLE_SIZE_FOR<0> is 0 |
| `Width.PadKernel` | src/common/eval_naive.cpp:191-214 | Padding the tables to width w keeps every charm, power, offset and the budget |
| `Width.SumFromPadded` | src/common/eval_naive.cpp:95-102 | Accumulating padded stats is padding the accumulated stats |
| `Width.StepPadded` | src/common/eval_naive.cpp:78-87 | Padding changes neither a candidate's score, its budget test nor its record |
| `Width.FoldPadded` | src/common/eval_naive.cpp:70-107 | Padding leaves every visit of a candidate list unchanged |
| `Width.SerialPadded` | src/common/eval_naive.cpp:238-244 | The serial search at any wider table returns exactly what it returns at the important-ability count |
| `Width.RootPadded` | src/common/eval_naive.cpp:113-117 | The padded kernel's root is the padded root |
| `Width.ValuePadded` | src/common/eval_naive.cpp:238-244 | A selection is valid for the padded tables exactly when it is valid for the unpadded ones, and it has the same value |
| `Build.UpgradeOffsets` | src/common/eval_naive.cpp:209 | The offset of each compact charm is 2 exactly when it has an upgrade, and 1 otherwise |
| `Build.BuildKernel` | src/common/eval_naive.cpp:191-224 | The search tables hold each compact charm's stats and power, in order, with the given weights, offsets and budget |
| `Build.PrepareShape` | src/common/eval_naive.cpp:254-322 | The reduction keeps at most as many charms as the catalog has, each with one stat per compact weight, and there are no more compact weights than abilities |
| `Build.CompactKernel` | src/common/eval_naive.cpp:327-352 | The tables `evaluate_naive` hands to the search are the reduction's weights and its charms' stats and powers |
| `Build.Originals` | src/common/eval_naive.cpp:362 | Translation maps each compacted pick to the catalog position it carries, in order |
| `Build.TranslatePicks` | src/common/eval_naive.cpp:354-364 | A buffer of n compacted picks followed by MISSING_ID translates to those picks' catalog positions |
| `Build.Translate` | src/common/eval_naive.cpp:354-364 | At most one position per slot, each the catalog position of some compacted charm |
| `Build.TranslateFilled` | src/common/eval_naive.cpp:354-364 | The buffer a selection of at most eight picks fills holds only MISSING_ID or compact indices, and translates to the selection's catalog positions |
| `CatalogValue.FullSum` | src/common/eval_naive.cpp:95-102 | The accumulated encoded stats of catalog positions, one per ability of the whole table |
| `CatalogValue.ColumnZero` | src/common/eval_naive.cpp:275-278 | An ability with no nonzero value sums to 0 over any selection |
| `CatalogValue.Lossless` | src/common/eval_naive.cpp:254-322 | The reduction loses nothing: whole-table utility with the full weights equals compact utility with the compact weights, for every catalog selection |
| `CatalogValue.PrepareEncodes` | src/common/eval_naive.cpp:286-308 | The reduction's charms are encoded catalog entries |
| `CatalogValue.SumFromColumns` | src/common/eval_naive.cpp:95-102 | Compact slot q of the accumulated stats is the column sum of important ability q over the picks' catalog positions |
| `CatalogValue.CostIsCatalogCost` | src/common/eval_naive.cpp:104 | The power charged for compacted picks is the catalog power of their positions |
| `CatalogValue.SumIsProjection` | src/common/eval_naive.cpp:114-117 | Accumulated from the zero table, the compact stats are the important columns of the whole-table sum |
| `CatalogValue.ValueIsFullValue` | src/common/eval_naive.cpp:254-322 | The search's value of a compacted selection is the whole-table utility of its catalog positions |
| `CatalogOptimality.PrepareCompaction` | src/common/eval_naive.cpp:283-308 | The reduction's output is a compaction: encoded survivors, in catalog order, each nonzero at an important ability |
| `CatalogOptimality.TwinsExcluded` | src/common/eval_naive.cpp:104 | Offsets that skip every surviving twin never let a chain hold a charm with an upgrade together with the catalog entry right after it |
| `CatalogOptimality.SelectionSound` | src/common/eval_naive.cpp:354-364 | A valid compacted selection translates to an admissible catalog selection, and its search value is that selection's whole-table utility |
| `CatalogOptimality.OriginalsAscend` | src/common/eval_naive.cpp:290 | Increasing compacted picks translate to increasing catalog positions |
| `CatalogOptimality.OriginalsTwinFree` | src/common/eval_naive.cpp:209 | The translated positions of a chain hold no charm with an upgrade together with its twin |
| `CatalogOptimality.IndexOf` | src/common/eval_naive.cpp:290 | The first compacted index from a bound that carries a given catalog position, or the end when there is none |
| `CatalogOptimality.Lifted` | src/common/eval_naive.cpp:304-307 | The surviving picks of a catalog selection, as compacted indices in order |
| `CatalogOptimality.LiftedAscends` | src/common/eval_naive.cpp:286-308 | The lifted picks of an ascending catalog selection ascend |
| `CatalogOptimality.LiftedCost` | src/common/eval_naive.cpp:304-307 | Dropping the picks that did not survive never raises the power |
| `CatalogOptimality.LiftedColumns` | src/common/eval_naive.cpp:295-307 | Dropping the picks that did not survive keeps every important ability's column sum |
| `CatalogOptimality.LiftChains` | src/common/eval_naive.cpp:104 | When the offsets skip only surviving twins, the lifted picks of an admissible selection form a chain of the search |
| `CatalogOptimality.LiftedValid` | src/common/eval_naive.cpp:286-308 | The lifted picks of an admissible catalog selection form a valid selection that agrees with it on every important ability |
| `CatalogOptimality.SameImportantSums` | src/common/eval_naive.cpp:258-281 | Catalog selections that agree on every important ability have the same whole-table utility |
| `CatalogOptimality.SelectionComplete` | src/common/eval_naive.cpp:286-308 | When the offsets skip only surviving twins, every admissible catalog selection is matched by a valid compacted selection of the same value |
| `CatalogOptimality.CatalogOptimal` | src/common/eval_naive.cpp:325-370 | A result that beats every valid compacted selection beats every admissible catalog selection, when the offsets skip only surviving twins |
| `CatalogOptimality.TwinSurvives` | src/common/eval_naive.cpp:304-307 | On catalogs whose twins cover their base entries, the twin of a surviving upgradable charm survives, right after it |
| `CatalogOptimality.UpgradeSkipsOnlyTwins` | src/common/eval_naive.cpp:209 | On such catalogs, `has_upgrade ? 2 : 1` skips nothing but surviving twins |
| `Engine.ReachedPadded` | src/common/eval_naive.cpp:241 | A buffer reached on the padded tables is reached on the unpadded ones |
| `Engine.SearchAtWidth` | src/common/eval_naive.cpp:238-244 | The search at a dispatch width reports the best utility over the unpadded tables and a reached buffer, and 0 with an empty buffer when nothing gains |
| `Engine.EngineKernel` | src/common/eval_naive.cpp:205-212 | `evaluate_naive` builds tables over the compact charms with `has_upgrade ? 2 : 1` offsets |
| `Engine.DispatchWidth` | src/common/eval_naive.cpp:351-352 | The dispatch width holds every important ability |
| `Engine.EvaluateNaive` | src/common/eval_naive.cpp:325-370 | The reported utility is at least every valid compacted selection's value, and is the value of a valid selection whose catalog positions are reported |
| `Engine.UpgradeSkipsTwins` | src/common/eval_naive.cpp:209 | `has_upgrade ? 2 : 1` skips every surviving upgrade twin |
| `Engine.EvaluateSound` | src/common/eval_naive.cpp:325-370 | The reported charms are admissible: at most seven, strictly increasing, within budget, never an upgradable charm with the next entry. The reported utility is their whole-table utility, never negative |
| `Engine.EvaluateNoGain` | src/common/eval_naive.cpp:325-370 | When no admissible catalog selection has positive utility, the result is utility 0 and no charms |
| `Engine.NoCharmsNoGain` | src/common/eval_naive.cpp:141-144 | Tables without charms admit only the empty selection, worth nothing |
| `Engine.NothingKept` | src/common/eval_naive.cpp:325-370 | When the reduction keeps no charm, the result is utility 0 and no charms |
| `Engine.EvaluateEmptyCatalog` | src/common/eval_naive.cpp:325-370 | An empty catalog gives utility 0 and no charms, for every budget |
| `Engine.EvaluateNoImportant` | src/common/eval_naive.cpp:350-352 | With no important ability the dispatch width is 0 and the result is utility 0 and no charms |
| `Engine.EvaluateZeroWeights` | src/common/eval_naive.cpp:258-263 | All-zero weights give utility 0 and no charms |
| `Engine.EvaluateCatalogOptimal` | src/common/eval_naive.cpp:325-370 | On catalogs whose twins cover their base entries, no admissible selection has a larger whole-table utility than the one reported |
| `Engine.CompactTwo` | src/common/eval_naive.cpp:286-308 | When exactly two catalog entries survive, the compact list is their two compact forms, in order |
| `Engine.ExamplePrepared` | src/common/eval_naive.cpp:254-322 | On the three-entry example, the reduction keeps both abilities and entries 0 and 2 |
| `Engine.TwoCharmKernel` | src/common/eval_naive.cpp:205-212 | Two kept charms, the first upgradable, give offset 2 after the first |
| `Engine.PairBarred` | src/common/eval_naive.cpp:104 | With offset 2 after the first of two charms, no valid selection holds both, so none is worth more than SCALE |
| `Engine.ExampleBestCompacted` | src/common/eval_naive.cpp:104 | On the example, no valid compacted selection is worth more than SCALE |
| `Engine.ExampleFullValue` | src/common/eval_naive.cpp:258-281 | The example catalog selection {0, 2} is worth SCALE in each of the two abilities |
| `Engine.UpgradeSkipsNonTwin` | src/common/eval_naive.cpp:209 | When the reduction drops an upgrade twin, the offset skips the next survivor: on the example the report is at most SCALE although the admissible selection {0, 2} is worth 2 * SCALE |
| `EngineCases.SingleNegativeKept` | src/common/eval_naive.cpp:258-308 | In the one-charm catalog with raw value -30, the only ability is important and the charm survives |
| `EngineCases.SingleNegativeEncoded` | src/common/eval_naive.cpp:299-301 | Under a cap of -30, raw value -30 encodes to SCALE |
| `EngineCases.SingleNegativePrepared` | src/common/eval_naive.cpp:258-322 | The reduction of that catalog gives one compact charm of power 1 worth SCALE, at catalog position 0, and weights [1] |
| `EngineCases.SingleNegativeKernel` | src/common/eval_naive.cpp:196-214 | The search tables for it hold one charm of power 1 worth SCALE with offset 1 |
| `EngineCases.OneCharmReported` | src/common/eval_naive.cpp:325-370 | When the tables hold one charm that fits and gains, `evaluate_naive` reports that charm's catalog position at its utility |
| `EngineCases.SingleNegativeReported` | src/test/test_naive.cpp:26-38 | The case `single` under a cap of -30: `evaluate_naive` reports `[0]` at utility SCALE for any budget of at least 1 |
| `Legacy.ZeroSlots` | src/eval_naive.cpp:209-210 | The older `charm_set_buffer best_charm_set{}` has no constructor, so it holds eight 0 ids |
| `Legacy.PrepareResult` | src/eval_naive.cpp:128-142 | `prepare_result` keeps only ids other than MISSING_ID, taken from the buffer |
| `Legacy.PrepareResultPicks` | src/eval_naive.cpp:128-142 | A buffer of n ids followed by MISSING_ID gives back exactly those n ids |
| `Legacy.FilledGivesBack` | src/eval_naive.cpp:128-142 | Ids written into a buffer of MISSING_ID come back in order |
| `Legacy.PrepareResultFilled` | src/eval_naive.cpp:128-142 | The buffer a selection fills gives back that selection |
| `Legacy.PrepareResultZeros` | src/eval_naive.cpp:128-142 | A buffer of zeros holds no MISSING_ID, so all eight 0 ids come back |
| `Legacy.NextOffsets` | src/eval_naive.cpp:122 | The older recursion's lower bound `i + 1` is an offset of 1 for every charm |
| `Legacy.NextOffsetsSkipNothing` | src/eval_naive.cpp:122 | Offset 1 skips nothing: the older engine ignores upgrades |
| `Legacy.LegacyKernel` | src/eval_naive.cpp:232-255 | The older tables hold the compact charms at the important-ability width |
| `Legacy.LegacySerialIsSerial` | src/eval_naive.cpp:148-162 | The older serial path is the serial search: the root replaces the zero buffer before anything reads it |
| `Legacy.LegacySerial` | src/eval_naive.cpp:148-162 | The older serial path never ends below utility 0: the root always replaces the starting -1 |
| `Legacy.LegacyParallel` | src/eval_naive.cpp:163-221 | The older parallel path never ends below utility 0, the start of its reduction |
| `Legacy.LegacyEvalCharms` | src/eval_naive.cpp:144-223 | The older `eval_charms` returns an optimal valid selection, except on the parallel path when no nonempty selection gains, where it returns eight 0 ids |
| `Legacy.LegacyAtWidth` | src/eval_naive.cpp:261-275 | The same holds at every dispatch width, stated against the unpadded tables |
| `Legacy.LegacyEvaluateNaive` | src/eval_naive.cpp:354-376 | The older `evaluate_naive`: no important ability gives the empty list; otherwise it returns compacted indices of an optimal selection, or eight 0 ids as above |
| `Legacy.LegacyEvalCharmsFixed` | src/eval_naive.cpp:209-221 | With the reduction started from an all-MISSING_ID buffer, both paths give an optimal reached selection, and 0 with an empty buffer when nothing gains |
| `Legacy.LegacyFixedAtWidth` | src/eval_naive.cpp:261-275 | The corrected search at any dispatch width, against the unpadded tables |
| `Legacy.LegacyEvaluateFixed` | src/eval_naive.cpp:354-376 | The corrected older engine returns the catalog positions of an optimal valid selection |
| `LegacyFindings.LegacyFixedOptimal` | src/eval_naive.cpp:354-376 | The corrected older engine reports an admissible catalog selection that no admissible selection beats |
| `LegacyFindings.LegacyFixedNoGain` | src/eval_naive.cpp:209-221 | When no admissible selection gains, the corrected older engine returns no charms |
| `LegacyFindings.NothingFits` | src/eval_naive.cpp:91-94 | At budget 0, with every power positive, only the empty selection fits |
| `LegacyFindings.ZeroBudgetOnlyEmpty` | src/eval_naive.cpp:91-94 | At budget 0, with every kept power positive, the older tables admit only the empty selection |
| `LegacyFindings.OnlyEmptyParallel` | src/eval_naive.cpp:209-221 | When only the empty selection is valid, the older parallel path returns eight 0 ids and the corrected one returns none |
| `LegacyFindings.LegacyZeroIds` | src/eval_naive.cpp:209-221 | With budget 0 and two threads, the older engine returns eight copies of id 0 costing 8, where the corrected one returns no charm |
| `LegacyFindings.SingleGain` | src/eval_naive.cpp:101-105 | On one-charm tables whose charm fits and gains, the optimal valid selection is that charm |
| `LegacyFindings.SingleKept` | src/eval_naive.cpp:354-376 | When one charm is kept and gains, the older serial path returns compacted index 0 and the corrected engine returns its catalog position |
| `LegacyFindings.ZeroThenFullValues` | src/eval_naive.cpp:316-337 | In the zero-then-full catalog, entry 0 is worth nothing and entry 1 is worth SCALE |
| `LegacyFindings.LegacyCompactedIds` | src/eval_naive.cpp:354-376 | When the reduction drops the first entry, the older engine returns id 0 (the dropped, worthless entry) where the corrected one returns position 1 |
| `StringViews.Lead` | include/cli/sv_manip.h:16 | `find_if_not` from the front: everything before it is whitespace and it stops at a non-whitespace character |
| `StringViews.TailEnd` | include/cli/sv_manip.h:17 | The reverse `find_if_not`: everything from it on is whitespace and the character before it is not |
| `StringViews.EndsAround` | include/cli/sv_manip.h:16-17 | Every non-whitespace character lies between the two ends |
| `StringViews.EndsCross` | include/cli/sv_manip.h:19-22 | The ends cross exactly when the string is all whitespace |
| `StringViews.Trim` | include/cli/sv_manip.h:13-25 | `trim` returns an infix with no whitespace at either edge, framed by whitespace only; it is empty exactly when the input is all whitespace |
| `StringViews.TrimUnchanged` | include/cli/sv_manip.h:13-25 | A string with no edge whitespace comes back unchanged |
| `StringViews.TrimIdempotent` | include/cli/sv_manip.h:13-25 | Trimming twice is trimming once |
| `StringViews.FindFrom` | include/cli/sv_manip.h:34 | `find` from a cursor returns a position at or after it |
| `StringViews.FindSpec` | include/cli/sv_manip.h:34-35 | `find` stops at the first delimiter: none before it, and one at it unless it is the end |
| `StringViews.SplitFrom` | include/cli/sv_manip.h:32-42 | The reference split produces no pieces exactly when the cursor is at the end |
| `StringViews.Split` | include/cli/sv_manip.h:27-45 | `split_string_view` gives no pieces exactly for the empty string, and no piece contains the delimiter |
| `StringViews.Join` | include/cli/sv_manip.h:27-45 | The inverse of the split: pieces joined with one delimiter between neighbours; `StringViews.SplitJoin` states the round trip |
| `StringViews.SplitEmpty` | include/cli/sv_manip.h:32 | The empty string splits into no pieces |
| `StringViews.SplitPiecesClean` | include/cli/sv_manip.h:34-40 | No piece contains the delimiter |
| `StringViews.SplitLeading` | include/cli/sv_manip.h:40 | A leading delimiter gives an empty first piece |
| `StringViews.SplitConsecutive` | include/cli/sv_manip.h:40-41 | Two adjacent delimiters give an empty piece |
| `StringViews.SplitJoin` | include/cli/sv_manip.h:27-45 | Without a trailing delimiter, joining the pieces gives the input back and there is one more piece than delimiters; with one, the join drops only that delimiter and the counts are equal |
| `StringViews.SplitJoinWhole` | include/cli/sv_manip.h:27-45 | A nonempty string not ending with the delimiter is the join of its pieces, one more than its delimiters |
| `StringViews.SplitStringView` | include/cli/sv_manip.h:27-45 | The cursor loop returns exactly the reference split |
| `Weights.DefaultConfig` | include/cli/cli.h:25-26 | A default config has budget CHARM_POWER_MAX and no weights |
| `Weights.ZeroWeights` | include/cli/cli.h:30 | `charm_weights{}` is one zero per ability |
| `Weights.AssignEffect` | include/cli/cli.h:32-38 | Over distinct names, an index owned by a visited known name holds that name's weight and every other index is unchanged |
| `Weights.Assign` | include/cli/cli.h:32-38 | The loop body over a visit order keeps one weight per ability; `Weights.AssignEffect` states which entries it writes |
| `Weights.ToWeights` | include/cli/cli.h:28-41 | `to_weights` (also src/cli.h:34-47) gives one weight per ability; `Weights.ToWeightsProjects` and `Weights.ToWeightsAnyOrder` state its content |
| `Weights.ToWeightsProjects` | include/cli/cli.h:28-41 | `to_weights` equals the reference layout for any iteration order |
| `Weights.ToWeightsAnyOrder` | src/cli.h:34-47 | The result does not depend on the map's iteration order |
| `Weights.ToWeightsKnown` | include/cli/cli.h:34-37 | A known name's weight lands at its NAME_TO_ID index |
| `Weights.ToWeightsUnnamed` | include/cli/cli.h:30 | An index that no map entry names stays 0 |
| `Weights.ToWeightsKnownOnly` | include/cli/cli.h:34 | Unknown names are ignored: the result equals that of the map restricted to known names |
| `Weights.DefaultWeightsZero` | include/cli/cli.h:25-41 | A default config gives all-zero weights |
| `BlockingQueues.Empty` | bot/blocking_queue.ts:5-8 | A new queue has no items and no waiters |
| `BlockingQueues.Poll` | bot/blocking_queue.ts:14-25 | `poll` takes the head item at once when there is one; otherwise its waiter joins the back of the pending list |
| `BlockingQueues.Push` | bot/blocking_queue.ts:31-39 | `push` hands the item to the oldest waiter and drops that waiter; with none, the item joins the back of the queue |
| `BlockingQueues.Entries` | bot/blocking_queue.ts:41-43 | A copy of the queued items, front first; `BlockingQueues.FifoOrder` states the order |
| `BlockingQueues.Size` | bot/blocking_queue.ts:49-51 | The number of queued items; `BlockingQueues.IsEmpty` relates it to `entries` |
| `BlockingQueues.IsEmpty` | bot/blocking_queue.ts:57-59 | `isEmpty` holds exactly when size is 0, and exactly when `entries` is empty |
| `BlockingQueues.Clear` | bot/blocking_queue.ts:64-66 | `clear` drops every item and leaves pending polls pending |
| `BlockingQueues.PushAll` | bot/blocking_queue.ts:31-39 | Pushes in a row keep items and waiters from waiting together, with one event per item |
| `BlockingQueues.PollAll` | bot/blocking_queue.ts:14-25 | Polls in a row keep items and waiters from waiting together, with one result per poll |
| `BlockingQueues.PushAllQueues` | bot/blocking_queue.ts:36-38 | With nobody waiting, pushes queue their items at the back, in order |
| `BlockingQueues.PollAllFifo` | bot/blocking_queue.ts:16-19 | Polls take queued items from the front, first in first out |
| `BlockingQueues.FifoOrder` | bot/blocking_queue.ts:14-39 | Items pushed with nobody waiting come out of later polls in the order they went in |
| `BlockingQueues.PollAllWaits` | bot/blocking_queue.ts:22-24 | With nothing queued, polls wait at the back of the pending list, in order |
| `BlockingQueues.PushAllHandsOff` | bot/blocking_queue.ts:32-35 | Pushes serve pending polls from the oldest, one item each |
| `BlockingQueues.WaitersServedInOrder` | bot/blocking_queue.ts:14-39 | Polls that had to wait are served by later pushes in the order they polled |
| `UserStore.Fresh` | bot/data.ts:22-27 | A new store holds nothing and is not dirty |
| `UserStore.MapSet` | bot/data.ts:150 | `Map.set` stores the value; a new key goes to the back of the order and an existing one keeps its place |
| `UserStore.Without` | bot/data.ts:129 | Removing a name from an order keeps every other name and no repeats, and leaves an order without the name as it is |
| `UserStore.WithoutAt` | bot/data.ts:129 | Removing a name that occurs once, at position i, gives the order with just that position cut out: the other names keep their order |
| `UserStore.WithoutDistinct` | bot/data.ts:129 | In an order without repeats, removing a name cuts out exactly its position |
| `UserStore.MapDelete` | bot/data.ts:129 | `Map.delete` is true, with the key removed, exactly when the key was there. The insertion order loses exactly that key's position and nothing else; a missing key changes nothing |
| `UserStore.FetchConfig` | bot/data.ts:119-121 | The user's config of that name when both exist, otherwise none; every operation of this module states its effect through it |
| `UserStore.FetchConfigs` | bot/data.ts:123-125 | `fetchConfigs` lists, without repeats, exactly the names `fetchConfig` finds for that user |
| `UserStore.CreateConfig0` | bot/data.ts:138-152 | `createConfig0` fails without any change when the name exists. Otherwise it adds the config at the back of the user's names, touches no other config, and leaves jobs, admins and `dirty` alone |
| `UserStore.CreateConfig` | bot/data.ts:154-164 | `createConfig` marks the store dirty either way and otherwise acts as `createConfig0` |
| `UserStore.DeleteConfig` | bot/data.ts:127-136 | `deleteConfig` marks dirty and is true exactly when the config existed. Afterwards it is gone, every other config is unchanged, and the user's map stays even when empty. `fetchConfigs` afterwards is the old list with that name's position cut out, unchanged when the name was absent, and unchanged for every other user |
| `UserStore.SetConfig` | bot/data.ts:166-170 | `setConfig` marks dirty. It writes the config only for a user who already has a map, and touches no other config. `fetchConfigs` keeps an existing name in its place, appends a new name for a user with a map, and is unchanged for every other user |
| `UserStore.SetLatestJob` | bot/data.ts:172-175 | `setLatestJob` changes no other user's job, no config, no admin, and not `dirty` |
| `UserStore.GetLatestJob` | bot/data.ts:177-179 | The user's latest job, if one was recorded; `UserStore.LatestJobRoundTrip` pairs it with `setLatestJob` |
| `UserStore.IsAdmin` | bot/data.ts:181-183 | Membership in the admin set; `UserStore.AdminsStable` states no operation changes it |
| `UserStore.LatestJobRoundTrip` | bot/data.ts:172-179 | The job just recorded for a user is the one `getLatestJob` returns |
| `UserStore.CreateThenFetch` | bot/data.ts:138-164 | A config just created is fetched back, and creating it again fails with no change |
| `UserStore.CreateThenDelete` | bot/data.ts:127-164 | Deleting a config just created leaves every fetch as it was, and the user's list of names too when the user already had a map |
| `UserStore.SetAfterDelete` | bot/data.ts:127-170 | A user's map outlives the deletion of its last config: `setConfig` then still writes, though it would not for a user who never had one |
| `UserStore.AdminsStable` | bot/data.ts:127-183 | No in-memory operation changes who is an admin |

## Left out

- Threads, `std::atomic` and `join`: the job cursor is a function `assign` from job to worker, and each worker takes its jobs in increasing order. Scheduling is not modelled beyond that.
- The trace callback of `evaluate_naive` (src/common/eval_naive.cpp:329-348) and the console printing of the older engine (src/eval_naive.cpp:358-368): output only.
- Floating point: raw values and caps are exact reals. `raw / cap * SCALE` has no rounding, and the `(int32_t)` cast is truncation toward zero with no overflow.
- Integer widths: stats, utilities, powers and ids are unbounded integers. The int64 accumulator of `eval_stats`, the int32 stat sums, the uint32 power sums and the `uint8_t max_cp` cannot overflow in the model; `DefaultConfig` requires the budget to fit a byte.
- The generated ability table (`EFFECT_NAMES`, `EFFECT_CAPS`, `ABILITY_COUNT`) and `CHARM_POWER_MAX` are parameters: the generated header is not part of this model. Caps are assumed nonzero.
- `TABLE_SIZE_ALIGN` of the current engine is a parameter `align`: it depends on a build setting that is not part of this model. Both engines switch it on `IS_LANGUAGE_SERVER` (src/eval_naive.cpp:22-32), using `ABILITY_COUNT` in language-server builds. The model of the older engine fixes the other branch, `512 / 8 / 4` = 16 (`Legacy.LEGACY_ALIGN`). The choice does not change its answer, because `Legacy.LegacyAtWidth` holds at every width of at least the important-ability count.
- Strings as bytes: `trim` and `split_string_view` work on the bytes of a `std::string_view`, and `trim` tests them with `std::isspace` in the C locale. The model works on Dafny characters, and `StringViews.IsSpace` is the C locale's six whitespace characters. The two agree on single-byte text and single-byte delimiters; multi-byte encodings are not modelled.
- Charm names and colours play no part in the search and are not modelled.
- `UserData.read`, `beginAutoSave` and `prepareSaveData`: file persistence and JSON. `structuredClone` in `fetchConfig` is a value copy, which immutable values make implicit. The audit logger is left out.
- `UserStore.SetLatestJob`: the job's `cp`, a JavaScript number, is an integer.
- `BlockingQueue` promises: a pending poll is a waiter id and resolving it is a reported event. Microtask timing is not modelled.
- `Weights.ToWeights`: the `unordered_map` iteration order is a parameter, and the result is proved independent of it.
- `Engine.EvaluateCatalogOptimal`: optimality over the whole catalog is proved only on catalogs where the upgrade twin of an upgradable charm is nonzero wherever the charm is. Without that hypothesis `Engine.UpgradeSkipsNonTwin` shows the code can miss the optimum.
- `Parallel.Reduce`: states that a replacing worker is strictly better than the accumulator. It does not state that ties between workers go to the lowest worker index, although the model computes it so.
- `Parallel.EvalCharms`: on the parallel path, which of several equally good selections is reported depends on the job assignment. Only the serial path's tie-break is stated (`Enumeration.SerialFirst`).
- `Engine.EvaluateNaive`: states the reported utility and that the reported positions reach it, not which of several optimal selections is reported.

## Findings

| source | as written | input that shows it | evidently intended | confidence | as-written member | corrected member |
|---|---|---|---|---|---|---|
| src/eval_naive.cpp:209-221 | On the parallel path the reduction starts from `charm_set_buffer best_charm_set{}`. The older buffer has no constructor, so it holds eight 0 ids rather than MISSING_ID. When no worker beats utility 0, `prepare_result` returns eight copies of id 0 | one charm of power 1, the only important ability nonzero in it, budget 0, two threads: the result is eight copies of id 0, costing 8 against a budget of 0 | an empty result, as on the serial path, from a buffer filled with MISSING_ID | not executed | `LegacyFindings.LegacyZeroIds` | `LegacyFindings.LegacyFixedNoGain` |
| src/eval_naive.cpp:354-376 | `evaluate_naive` returns the search's compacted indices without mapping them through `original_index`. The caller (src/main.cpp:79-81) indexes the catalog with them | catalog [zero charm, charm worth SCALE], weight 1, budget 1, one thread: the reduction drops entry 0, and the result is id 0, the zero charm, instead of position 1 | the catalog positions of the chosen charms, as the current engine returns (src/common/eval_naive.cpp:354-364) | not executed | `LegacyFindings.LegacyCompactedIds` | `LegacyFindings.LegacyFixedOptimal` |
