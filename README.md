# ExportUIFromFlash: image collection, atlas search and the component registry

ExportUIFromFlash is a set of scripts for the Flash authoring tool that export
a document's UI library. This project models and proves two parts of it:

- **The image parser** (`ImageParser`):
  - `checkItem` walks a library item's timeline. It covers normal layers only, keyframes only, and bitmap instances only. It files one image record (`ImageInfo`) per distinct bitmap, in a dictionary and in a list, and records which items reference each bitmap.
  - `parse` searches for a packing of the records into one atlas. It tries every rotation of the list, then the nine base sorts applied to the list in turn, then twenty random reorderings. Each attempt is packed and scored by `doPacking`. The lowest score wins, and the first such attempt wins ties.
  - The comparators of the `sort` object, including the cascading `msort`, are modelled too.
- **The component registry** (`ComWillCheck`):
  - a pattern that recognises one kind of control by its linkage class name;
  - the items of that kind, filed by library name;
  - their class names, by registration index.

The modules:

| file | module | contents |
|---|---|---|
| wrappers.dfy | Wrappers | `Option`, standing for JavaScript's `undefined` |
| flash.dfy | Flash | the document model that is read: items, timelines, layers, frames, elements; which instances a walk hits |
| images.dfy | Images | the `ImageInfo` class; `View`, the value of a list of records; placements; total area |
| collection.dfy | Collection | one `checkItem` call stated on values: `Step` for each hit, `Fold` over the hits |
| sorting.dfy | Sorting | the stable sort behind `Array.prototype.sort` |
| comparators.dfy | BlockSort | the `sort` object: five primitive comparators, `msort`, and four cascades |
| search.dfy | Search | the `parse` search on values: the attempts, the packer's effect, the scoring, the selection |
| image_parser.dfy | Parsers | the `ImageParser` class, with its methods proved against Collection and Search |
| com_will_check.dfy | Core | `RegExp.prototype.test`, and the `ComWillCheck` class |

How the model is built:

- **Image records.** `ImageInfo` is a class, because `checkItem` and `packer.fit` change records in place. `bitmaps` is a field of the `ImageParser` object.
  - `checkItem` pushes onto the caller's array. The model returns the extended list `nb` instead.
  - Every imperative method is proved against a value-level function. For example, `View(nb) == Fold(old(View(blocks)), item, hits)`. The lemmas in Collection then state what that fold does.
- **The search.** It is stated as `Run(packer, state, Plan(len, shuffles))`.
  - The state is the order of the block list, the placement of every record (by identity), and the results so far.
  - `Parse` is proved to end in the state `Run` describes, and to select `Select(results)`.
- **The registry.** `ComWillCheck` keeps a ghost history of its registrations. The dictionary, the name order, the class-name list and the next index are all functions of that history (`Valid`).

Behaviour of `parse` the model keeps as the code has it:

- The result keys are `"areaI" + ki` for the rotations (src/parsers/ImageParser.ts:86), the comparator names for the base sorts, and `"random" + t` for the random reorderings.
- A rotation attempt packs a new list. The base sorts and the random reorderings instead sort the caller's array in place, each starting from the order the previous attempt left (lines 96 and 102).
- No record is cloned before an attempt. Clones are made only when a result is recorded (line 219).
- No placement is cleared between attempts. A record the packer does not place keeps the placement from an earlier attempt, so that attempt can still count as complete (`Search.StaleFitCompletesAttempt`).

## Model

| member | source | states |
|---|---|---|
| `Parsers.ImageParser.constructor` | src/parsers/ImageParser.ts:14-16 | The dictionary starts empty, in step with an empty record list. |
| `Parsers.ImageParser.CheckItem` | src/parsers/ImageParser.ts:24-70 | An item without a timeline is refused, with nothing changed. Otherwise the records become the collection pass over exactly the item's hits. The list only grows at its end, every new record is fresh and unplaced, every existing record keeps its placement, and the dictionary stays in step with the list. |
| `Parsers.ImageParser.VisitLayers` | src/parsers/ImageParser.ts:29-34 | The layer loop performs the steps for the hits of the normal layers only, in layer order. |
| `Parsers.ImageParser.VisitFrames` | src/parsers/ImageParser.ts:35-40 | The frame loop performs the steps for the hits of the keyframes only, skipping a slot whose `startFrame` is not its own index. |
| `Parsers.ImageParser.VisitElements` | src/parsers/ImageParser.ts:41-47 | The element loop performs one step for each bitmap instance, in element order. |
| `Parsers.ImageParser.Visit` | src/parsers/ImageParser.ts:48-63 | A bitmap instance has exactly the effect of one `Step` on the list's value, and the dictionary stays consistent. |
| `Parsers.ImageParser.FindOrCreate` | src/parsers/ImageParser.ts:48-59 | Returns the record filed under the instance's library name, at the first position with that name. When there is none, it appends a new record sized by the instance, with no references. |
| `Parsers.ImageParser.Create` | src/parsers/ImageParser.ts:51-59 | A fresh record is filed under the new name and appended to the list; nothing else changes. |
| `Parsers.ImageParser.AddReference` | src/parsers/ImageParser.ts:60-63 | The item is appended to the record's references only when it is not already there. No other record changes. |
| `Parsers.ImageParser.LookupAgrees` | src/parsers/ImageParser.ts:50-51 | A name is in the dictionary exactly when some record carries it, and the lookup gives the first such record. |
| `Flash.ElementHitsIff` | src/parsers/ImageParser.ts:42-47 | An element is a hit exactly when it is an `instance` of type `bitmap`. |
| `Flash.FrameHitsIff` | src/parsers/ImageParser.ts:35-47 | A frame-list hit is exactly a bitmap instance on a keyframe. |
| `Flash.LayerHitsIff` | src/parsers/ImageParser.ts:30-47 | The walk hits exactly the bitmap instances on keyframes of normal layers. |
| `Collection.Find` | src/parsers/ImageParser.ts:50 | The position found is the first entry with the name, or the end when there is none. |
| `Collection.StepSpec` | src/parsers/ImageParser.ts:48-63 | One step adds the name, and creates a record (holding the item) only for a new name. An existing record gains the item once. All other records are unchanged. Distinct names and duplicate-free references are kept. |
| `Collection.FoldInvariants` | src/parsers/ImageParser.ts:24-70 | A pass keeps names unique and references duplicate-free, and ends with the old names plus the hit names. |
| `Collection.FoldExisting` | src/parsers/ImageParser.ts:60-63 | A record that existed before the pass keeps its name, item, size and placement. It gains the item, once, exactly when the pass hits its name. |
| `Collection.FoldNew` | src/parsers/ImageParser.ts:51-59 | A record created by the pass is named by a hit not seen before, is sized by the first instance of that name, is referenced by the item alone, and has no placement. |
| `Collection.FoldKeepsPlacements` | src/parsers/ImageParser.ts:51-63 | A collection pass places nothing: earlier records keep their placements and new ones have none. |
| `Collection.CountAfterFold` | src/parsers/ImageParser.ts:51-58 | A pass adds one record per hit name not already present, however often that name is instanced. |
| `Parsers.ImageParser.IdxHandler` | src/parsers/ImageParser.ts:184-195 | The new list is the rotation of the input by `idx`. |
| `Search.RotationSplit` | src/parsers/ImageParser.ts:184-195 | A rotation by `k` is the elements from `k` on, followed by those before `k`. |
| `Search.RotationPermutation` | src/parsers/ImageParser.ts:184-195 | A rotation rearranges the list, and a rotation by 0 is the identity. |
| `Parsers.ImageParser.PackerFit` | src/parsers/ImageParser.ts:212 | The packer's decision for each position is written onto that record, and an undecided record keeps its placement. References are untouched. |
| `Search.DecidedSpec` | src/parsers/ImageParser.ts:212 | After packing, a record has its earlier placement or one the packer chose for one of its positions. The packer never clears a placement. |
| `Parsers.ImageParser.DoPacking` | src/parsers/ImageParser.ts:205-233 | Packs the records, then appends one result holding every record and scored by their total area when all are placed. It appends nothing when any record is unplaced. |
| `Parsers.ImageParser.Score` | src/parsers/ImageParser.ts:213-232 | The scan stops at the first unplaced record and appends nothing. Otherwise it appends the clones and the summed areas. |
| `Images.SumAreaPermutation` | src/parsers/ImageParser.ts:220 | The score does not depend on the order of the records. |
| `Parsers.ImageParser.Parse` | src/parsers/ImageParser.ts:80-112 | The list and the placements end as the whole plan leaves them. The chosen result is the first of the lowest score, or `None` when no attempt packed every record. |
| `Parsers.ImageParser.Rotate` | src/parsers/ImageParser.ts:84-87 | Every rotation is packed and scored in turn, and the caller's list keeps its order. |
| `Parsers.ImageParser.Reorder` | src/parsers/ImageParser.ts:90-104 | Each sort or reordering is applied to the list as the previous one left it, then packed and scored. |
| `Parsers.ImageParser.ReorderAndPack` | src/parsers/ImageParser.ts:94-97 | One in-place attempt: it rearranges the array, then packs and scores the new order, keeping the same records. |
| `Parsers.ImageParser.Rearrange` | src/parsers/ImageParser.ts:96-102 | The array becomes the base sort of its order, or the reordering given by the draws. |
| `Parsers.ImageParser.SortBlocks` | src/parsers/ImageParser.ts:96 | `blocks.sort(sort[key])` leaves the stable sort of the array by that comparator. |
| `Parsers.ImageParser.ShuffleBlocks` | src/parsers/ImageParser.ts:102 | `blocks.sort(sort.random)` leaves the reordering given by the draws. |
| `Search.ShuffleOf` | src/parsers/ImageParser.ts:242-244 | A random reordering is a rearrangement of the list. |
| `Search.EveryOrderDrawn` | src/parsers/ImageParser.ts:102 | Every rearrangement of the list is the reordering of some draws. |
| `Search.CandidatePermutation` | src/parsers/ImageParser.ts:84-104 | Every ordering tried holds the same records. |
| `Search.PlanOrder` | src/parsers/ImageParser.ts:84-104 | The attempts come in this order: `len` rotations labelled `areaI0..`, then `a, area, h, height, max, maxside, min, w, width`, then `random0..random19`. |
| `Search.RunScores` | src/parsers/ImageParser.ts:80-104 | The search only rearranges the list and only appends results, and scores every result by the total area. |
| `Search.SelectFirst` | src/parsers/ImageParser.ts:106-111 | Since every score ties, the stable sort keeps generation order and `results[0]` is the first result. |
| `Search.SelectsEarliestSuccess` | src/parsers/ImageParser.ts:106-111 | The chosen result is the one from the earliest attempt that placed every record, whatever later attempts do. |
| `Search.ExhaustedIffNoResult` | src/parsers/ImageParser.ts:106-113 | Nothing is chosen exactly when no attempt placed every record. |
| `Search.FirstRotationWins` | src/parsers/ImageParser.ts:84-111 | When the identity rotation packs completely, `areaI0` is chosen. |
| `Search.NoBlocksChoosesA` | src/parsers/ImageParser.ts:82-111 | With no records there are no rotations. Each of the 29 other attempts succeeds with score 0, and `a` is chosen. |
| `Search.StaleFitCompletesAttempt` | src/parsers/ImageParser.ts:212-226 | A placement left by an earlier attempt counts in a later one. A packer that places only the first record makes `areaI1` a complete packing. |
| `BlockSort.Msort` | src/parsers/ImageParser.ts:272-280 | `msort` is 0 exactly when every criterion ties. Otherwise it gives the first nonzero difference, in criteria order. |
| `BlockSort.MultiSort` | src/parsers/ImageParser.ts:272-280 | The loop returns the cascade's value. |
| `BlockSort.CompareIsCascade` | src/parsers/ImageParser.ts:245-271 | Each of the nine comparators is the cascade over its criteria. |
| `BlockSort.MsortAntisymmetric` | src/parsers/ImageParser.ts:272-280 | Swapping the arguments negates the cascade. |
| `BlockSort.MsortTransitive` | src/parsers/ImageParser.ts:272-280 | "Not after" by the cascade is transitive. |
| `BlockSort.CompareConsistent` | src/parsers/ImageParser.ts:245-271 | Every comparator is antisymmetric and transitive, so the sort by it is well defined. |
| `BlockSort.SortDescending` | src/parsers/ImageParser.ts:245-271 | After a base sort, the list runs in lexicographically descending order of the comparator's criteria. |
| `BlockSort.BaseSortStable` | src/parsers/ImageParser.ts:94-96 | Two blocks equal in every measure of the comparator's criteria keep their order through the base sort. |
| `BlockSort.HeightTieBreak` | src/parsers/ImageParser.ts:260-262 | `height` orders blocks of equal height by descending width. |
| `BlockSort.AreaTieBreak` | src/parsers/ImageParser.ts:266-268 | `area` orders blocks of equal area by descending height, then by descending width. |
| `Sorting.SortSorted` | src/parsers/ImageParser.ts:96 | The sort's output is ordered by any consistent comparator. |
| `Sorting.SortStable` | src/parsers/ImageParser.ts:96 | The sort is stable: of two elements that tie, the one given first comes first. |
| `Sorting.SortAllTies` | src/parsers/ImageParser.ts:106-108 | When every two elements tie, the order is kept. |
| `Core.RunTest` | src/core/ComWillCheck.ts:66 | `test` follows ECMAScript's rules. A non-global pattern matches from 0 and leaves `lastIndex` alone. A global pattern starts at `lastIndex` and answers yes exactly when a match begins there or later; a match moves `lastIndex` to its end, and a failure resets it to 0. |
| `Core.RegExp.Test` | src/core/ComWillCheck.ts:66 | Answers and updates `lastIndex` as `RunTest` says. |
| `Core.ComWillCheck.constructor` | src/core/ComWillCheck.ts:48-56 | The key, pattern and component name are stored. The dictionary and the class-name list start empty, and `idx` starts at 0. |
| `Core.ComWillCheck.Check` | src/core/ComWillCheck.ts:63-67 | The answer is whether the pattern matches the linkage class name from its start, whatever earlier tests did. |
| `Core.ResetTestIsStateless` | src/core/ComWillCheck.ts:64-66 | After the reset, the answer and the new `lastIndex` depend only on the string. |
| `Core.StaleIndexMissesMatch` | src/core/ComWillCheck.ts:65 | Without the reset, a global pattern tested twice on the same name answers yes, then no. |
| `Core.NonGlobalIgnoresIndex` | src/core/ComWillCheck.ts:66 | A non-global pattern gives the same answer whatever its `lastIndex`. |
| `Core.ComWillCheck.Add` | src/core/ComWillCheck.ts:73-79 | The item is filed under its name, replacing any earlier one. `idx` rises by one and the old value is stamped on the item. The class name is appended at that index, and earlier entries are unchanged. |
| `Core.ComWillCheck.Stamp` | src/core/ComWillCheck.ts:76-77 | The item's `$idx` and `$key` are set. |
| `Core.HistorySnoc` | src/core/ComWillCheck.ts:73-79 | One registration updates the dictionary, the name order and the class names, and only those. |
| `Core.DictOf` | src/core/ComWillCheck.ts:74 | The dictionary built by a history files every item under its own name. |
| `Core.DictOfLast` | src/core/ComWillCheck.ts:74 | A name is filed exactly when some registration used it. It holds the item of the last such registration. |
| `Core.KeyOrder` | src/core/ComWillCheck.ts:89 | The names of the dictionary, each once, in first-insertion order. |
| `Core.ComWillCheck.ForEach` | src/core/ComWillCheck.ts:87-93 | The handler is called once per dictionary name, with the item filed under it. The registry is not changed. |

## Left out

- `exportImage` (src/parsers/ImageParser.ts:118-173) is all calls into the authoring tool and the file system. `Parse` returns the chosen result instead of exporting it.
- Parsers.ImageParser.Parse: when no attempt placed every record, the code reads `results[0].blocks` from `undefined` and throws. The model returns `None` there.
- Parsers.ImageParser.CheckItem: requires the dictionary and the record list to be in step (`Consistent`). That is, one list is threaded through every call on one parser. The code accepts any array: a name already in the dictionary finds its record there, gains the reference and pushes nothing, however the array was filled. The model does not cover a caller that passes a fresh array, or a list out of step with the dictionary.
- Parsers.ImageParser.CheckItem: an item without a timeline makes the code throw at line 28 before anything changes. The model returns `false` and changes nothing.
- The packer's algorithm (`IBlockPacker`) is not part of this model. It is a parameter: a function from a list of records to a decision per position.
- `Math.random` and the random comparator are left out. What `blocks.sort(sort.random)` produces is engine-defined, so each reordering is given by a list of draws passed to `Parse`.
- `Array.prototype.sort` is modelled as a stable insertion sort, as ECMAScript has required since its 2019 edition. The authoring tool's script engine may predate that requirement; the model assumes a stable sort. `CompareConsistent` proves the nine comparators consistent. For a consistent comparator on a list without repeats, `SortSorted`, `SortStable` and the multiset contract fix the output, so the sorting algorithm does not matter.
- `ImageInfo.clone` is modelled as a value holding the record and its placement.
- `Log.trace` is left out.
- JavaScript numbers are modelled as unbounded integers. Floating-point rounding of large areas is not modelled.
- `ComWillCheck.parseHandler`, the `ComWillCheckParser` callback type, and the `param` and `solution` arguments are foreign code. `ForEach` returns the items it would hand to the handler, in call order, and the handler's own effects are not modelled.
- The regular-expression engine is left out. A pattern is an abstract matcher giving the end of the first match at or after a position. The sticky flag and the clamp of `lastIndex` to 2^53 - 1 are not modelled.
- Core.ComWillCheck.ForEach: visits the names in first-insertion order. JavaScript's `for ... in` visits integer-like names first, in ascending order, and that order is not modelled.
- Core.ComWillCheck.Add: assumes that `idx` and `classNames` are written by `add` alone. The fields are public in the code, and outside writes, which would leave holes in the array, are not modelled.
- Object dictionaries are modelled as maps. Names that clash with `Object.prototype` properties are not modelled.
