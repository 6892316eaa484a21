# Verified models of mdstats

Dafny models of seven algorithms of the mdstats repository that carry the hardest promises, with
proofs of those promises for all inputs, all runs and all schedules.

- **Pairwise scorer** (`PairwiseSum`, `PairwiseOrder`, `PairwiseRounding`, `ScoreBatch`,
  `ParallelScoring`): the tree of additions the recursive eight-accumulator summation performs; its
  order, and its value under any addition, under exact addition and under rounded addition; the
  validated batch call; and the parallel scoring loop as a transition system in which any worker may
  take any step.
- **Block statistics** (`Grid`, `Reachability`, `FloodFill`, `BlockProfile`): a flood fill that eats its
  own work set on a periodic block grid, against connected components; and the counting of the same
  blocks through flat indices.
- **Documentation builder** (`DocPaths`, `DocPublications`, `DocPlan`, `DocBuild`, `DocSteady`,
  `DocIncremental`, `DocDivergence`, `DocFingerprint`, `DocExamples`): which publications a tree has, the
  plan for a range of commits, its execution on a working tree, and exactly when the incremental build
  agrees with the full one. A tree is a map from paths to contents; assembler, renderer and manifest
  writer are arbitrary functions of the declared inputs they are shown.
- **Stage meter** (`ProcessTree`, `StageMeter`, `StageRows`, `MeterProgram`): the process-tree worklist,
  the tracker of vanishing processes, and the stage rows of every run, read off its events and in
  their conservation laws.
- **Target bitsets and vertex reconciliation** (`Bits`, `TargetBitsets`, `Reconcile`).
- **Exposure envelope** (`Envelope`, `EnvelopeOrder`): brute force over nested survivors, in order,
  against a closed form.
- **Frame selection** (`FrameSelection`, `Wrapping`, `Frames`, `FrameRuns`, `FramePositions`,
  `FrameExamples`): index resolution, in-place wrapping over the reals, selection as a validated
  construction, and sequences of selections of any length.

`Options` and `Counting` hold what several of them share. Code that the sources write as loops over
mutable state is a method (or a class) proved against a function; the laws are lemmas about that
function. `dafny verify dfyconfig.toml` checks everything.

## Findings

Places where the code does less than its surroundings suggest; the models keep the code's behaviour.

- A fingerprint does not see a change of a publication's own source when the publication declares
  dependencies without it (and the source is not one of the three build files or the last assembler
  argument): `DocFingerprint.SourceChangeSeen` gives the exact condition, `BlindExample` an input.
- The incremental build can leave other PDFs than the full one. `DocDivergence.IncrementalExactly` says
  exactly when, in configurations where no two publications of a tree write the same file, from an old
  tree that holds every source and output and for a new one in which every source is there or made: the
  two builds end alike under all tools that had brought the old tree up to date if and only if the plan
  is a full one anyway or, at its turn in the full plan, no untouched publication is new, replaced, or
  meets a file it reads or writes that may differ from the old tree. (`OrderedExactly` and
  `PlainExactly` spell this out for tamer ranges.) Three ways to fail it:
  - The source of a target is removed and another, untouched file takes the target over: it is neither
    rebuilt nor deleted (`DocExamples.TakeoverOnTrees`, `TakeoverExample`).
  - A publication is made from the PDF of another one, which the range rebuilds: only the changed paths
    select, so it is left as it was (`DocExamples.ChainOnTrees`, `ChainExample`).
  - A PDF is added beside an untouched Markdown file: it is published from then on, but never rendered
    by the incremental plan (`DocExamples.AddedOnTrees`, `AddedExample`).
- Two tracked Markdown sources share a target only in the shape `docs/.md` and `docs/.md.md`
  (`DocPaths.SharedTarget`, `SharedTargetExample`); then the first in sorted order wins.
- A deleted PDF may be an input of a current composite, or one of its other outputs: only current
  targets are protected (`DocPlan.DeletionsAre`, `DocIncremental.LossUnsettles`; `DocExamples.DeletedInput` is a family of
  inputs and `CollectsExample` one of them).
- A process whose stat file can be read while its io file cannot counts as zero bytes, so byte totals
  can fall, by exactly what `ProcessTree.TotalFallsExactly` says (`BytesFallExample`).
- Selecting an ensemble twice records `velocity_source` as "unavailable" where selecting once records
  "discarded_for_ensemble" (`FrameRuns.ProvenanceTwice`: exactly then the records differ;
  `FrameExamples.ProvenanceExample`).
- Reversing a trajectory fails although reversing twice is the identity (`FrameRuns.BackwardsRejected`,
  `FrameRuns.BackwardsTwice`, `FrameRuns.IdentityAccepted`, `FrameExamples.BackwardsExample`), so composed
  selections can be accepted where the first step is not.

## Model

| member | source | states |
|---|---|---|
| `PairwiseSum.EachPositionOnce` | mdstats/_mvsel2_native.c:31-81 | in the tree of additions for any row length every position of the row is read exactly once, across lanes, tail and both halves, and no other position is read |
| `PairwiseSum.Split` | mdstats/_mvsel2_native.c:73-80 | the split point of a long row is a multiple of 8 from 64 to below n, at most half, and leaves at most 15 more than half: both recursive calls are on shorter rows |
| `PairwiseSum.SplitScore` | mdstats/_mvsel2_native.c:73-81 | a long row scores as the sum of the scores of its two halves cut out as rows of their own, for any addition |
| `PairwiseSum.PartScore` | mdstats/_mvsel2_native.c:77-81 | the recursive call on a moved row pointer computes what the part of the row would on its own, for any addition |
| `PairwiseSum.BlockSum` | mdstats/_mvsel2_native.c:42-71 | the unrolled eight-accumulator loop with its tail computes the value of the tree for that length |
| `PairwiseSum.PairwiseSumGather` | mdstats/_mvsel2_native.c:24-82 | lazy gathering through the witness indices gives exactly the score of the materialised row terms[row], for an arbitrary non-associative addition; all reads are in bounds |
| `PairwiseOrder.EmptyRow` | mdstats/_mvsel2_native.c:32-34 | a row without terms scores zero |
| `PairwiseOrder.SingleTerm` | mdstats/_mvsel2_native.c:35-41 | one term is added to the negative zero |
| `PairwiseOrder.LastAdded` | mdstats/_mvsel2_native.c:35-71 | in rows below 8 terms, and behind the whole rounds of a block, the score of a row is that of the row without its last term, with the last term added to it: terms are added first to last |
| `PairwiseOrder.BlockOfLanes` | mdstats/_mvsel2_native.c:42-66 | a block of whole rounds scores as eight left-to-right sums of every eighth term, added in pairs, then pairs of pairs, then halves, in that order |
| `PairwiseRounding.TreeExact` | mdstats/_mvsel2_native.c:31-81 | with exact addition the tree evaluates to the plain left-to-right sum, for every row |
| `PairwiseRounding.BlockHeight` | mdstats/_mvsel2_native.c:42-71 | the exact number of additions on the longest path in a block of n terms: n/8 + 2 + n%8 |
| `PairwiseRounding.HeightBound` | mdstats/_mvsel2_native.c:24-82 | with at most 16 + 112 * 2^L terms no addend passes through more than 24 + L additions |
| `PairwiseRounding.HeightBoundIsTight` | mdstats/_mvsel2_native.c:42-81 | for every L a row of 15 + 112 * 2^L terms reaches exactly 24 + L additions, so the bound cannot be lowered at any level |
| `PairwiseRounding.TreeError` | mdstats/_mvsel2_native.c:31-81 | the rounded value of any tree is off by at most the errors its additions accumulate, for any error scale |
| `PairwiseRounding.ScoreError` | mdstats/_mvsel2_native.c:12-82 | with relative error u per addition the score of a row of at most 16 + 112 * 2^L terms differs from the exact sum by at most ((1+u)^(24+L) - 1) times the sum of absolute values |
| `ScoreBatch.Validate` | mdstats/_mvsel2_native.c:209-224 | accepts exactly when every requested CSR row is in range and ordered, counts the terms modulo 2^64, and otherwise reports the first bad row's error |
| `ScoreBatch.RowsAre` | mdstats/_mvsel2_native.c:237-246 | row p holds, in order, the terms at the witnesses between the two offsets of candidate p |
| `ScoreBatch.TermsReadIs` | mdstats/_mvsel2_native.c:209-224 | the edge count before truncation is the total length of the requested rows |
| `ScoreBatch.ScoreRows` | mdstats/_mvsel2_native.c:237-246 | in whichever order the iterations run, slot p ends with the score of row p and later slots keep their value |
| `ScoreBatch.ScoreFamilyBatch` | mdstats/_mvsel2_native.c:142-251 | the whole call, with witness indices assumed in range only when it gets as far as scoring: exactly when it is accepted, the first failing check in order, untouched output on rejection, all scores and the number of terms read modulo 2^64 on success |
| `ParallelScoring.NextKeepsInv` | mdstats/_mvsel2_native.c:233-246 | each step of any worker keeps every slot either original or final |
| `ParallelScoring.Unblocked` | mdstats/_mvsel2_native.c:234-236 | no assignment of iterations to workers can leave an unfinished loop without an enabled step |
| `ParallelScoring.EverySchedule` | mdstats/_mvsel2_native.c:233-246 | every interleaved run takes at most two steps per iteration, is stuck exactly when all are stored, and then holds all scores with later slots unchanged |
| `Grid.UnravelRavel` | benchmarks/density_ld8_p0_benchmark.py:97-107 | unravelling the flat number of a cell gives the cell back |
| `Grid.RavelUnravel` | benchmarks/density_ld8_p0_benchmark.py:97-97 | every flat index below the volume is the number of the cell it unravels to |
| `Grid.BlockAndLocal` | benchmarks/interpreter_hotpath_stage2_benchmark.py:59-60 | a cell is determined by its block and its place in the block, for negative coordinates too |
| `Grid.RavelInOrder` | benchmarks/density_ld8_p0_benchmark.py:103-107 | the numbering follows the order of cells, x slowest and z fastest, in both directions |
| `Grid.CeilDivExact` | benchmarks/density_ld8_p0_benchmark.py:99-101 | the blocks along an axis cover it and one block fewer would not |
| `Grid.BlockReached` | benchmarks/density_ld8_p0_benchmark.py:99-102 | every block of the block grid holds some cell of the grid |
| `FloodFill.CandidatesAreAdjacent` | benchmarks/density_ld8_p0_benchmark.py:148-152 | the six candidates tried from a block are exactly its neighbours on the periodic grid, axes of length one and two included |
| `FloodFill.RingTurns` | benchmarks/density_ld8_p0_benchmark.py:148-151 | being next to one another on an axis is unchanged by turning the ring by one, and 0 is next to exactly 1 and the last place |
| `FloodFill.SixNeighbours` | benchmarks/density_ld8_p0_benchmark.py:148-151 | a block is adjacent exactly to the blocks one step up or down along one axis, modulo the block grid |
| `FloodFill.Expand` | benchmarks/density_ld8_p0_benchmark.py:148-155 | one pass over axes and steps moves exactly the unseen occupied neighbours from the work set to the stack |
| `FloodFill.FillingStep` | benchmarks/density_ld8_p0_benchmark.py:145-155 | each popped block keeps what the fill maintains: taken blocks belong to the seed's component and only the stack still borders the rest |
| `FloodFill.Fill` | benchmarks/density_ld8_p0_benchmark.py:142-156 | the inner loop removes exactly the connected component of the seed and counts it, whatever is popped |
| `FloodFill.ComponentSizes` | benchmarks/density_ld8_p0_benchmark.py:140-157 | the loops terminate with the sizes of all connected components, largest first, each as often as it occurs |
| `FloodFill.ConnectedBlockComponents` | benchmarks/density_ld8_p0_benchmark.py:129-162 | the report lists the component profile of the occupied blocks, its length and its maximum (0 when there are none); it fails exactly for an index outside the grid |
| `FloodFill.ProfileUnique` | benchmarks/density_ld8_p0_benchmark.py:142-157 | the descending list is determined by the blocks alone, not by what pop returns |
| `FloodFill.ComponentsAddUp` | benchmarks/density_ld8_p0_benchmark.py:138-161 | the component sizes add up to the number of occupied blocks |
| `BlockProfile.CountIsNodes` | benchmarks/density_ld8_p0_benchmark.py:102-108 | for distinct nodes the count of a block is the number of nodes in it |
| `BlockProfile.CountsSum` | benchmarks/density_ld8_p0_benchmark.py:108-117 | the counts of the unique values add up to the number of values |
| `BlockProfile.BlockCapacity` | benchmarks/density_ld8_p0_benchmark.py:97-109 | no block holds more than edge^3 nodes |
| `BlockProfile.BlockCount` | benchmarks/density_ld8_p0_benchmark.py:102-116 | the flat route and the set of block coordinates count the same blocks |
| `BlockProfile.ProfileConsistent` | benchmarks/density_ld8_p0_benchmark.py:92-162 | for distinct nodes the counts add up to the nodes, no block exceeds its volume, the occupied fraction lies in [0, 1], and the block count is the sum of the flood fill's component sizes |
| `BlockProfile.FullestBlock` | benchmarks/density_ld8_p0_benchmark.py:108-117 | the reported maximum bounds the nodes of every block and one block reaches it; it is 0 without nodes |
| `BlockProfile.ReportFigures` | benchmarks/density_ld8_p0_benchmark.py:109-126 | slots, bytes of both storage forms with the bit set rounded up to whole bytes, and the occupied fraction, from the number of blocks and nodes |
| `DocPaths.PdfOfMarkdown` | docs/build_pdfs.py:121-124 | what with_suffix makes of a Markdown path, hidden names included |
| `DocPaths.SharedTarget` | docs/build_pdfs.py:121-131 | two Markdown paths share a PDF target exactly when one is a bare ".md" name and the other the same name with a second suffix |
| `DocPaths.FirstDifference` | docs/build_pdfs.py:121-121 | in the sort order the first differing character decides and a proper prefix comes first |
| `DocPaths.PdfOfSuffix` | docs/build_pdfs.py:112-124 | the extension of any file name is replaced by .pdf |
| `DocPaths.PdfOfPlain` | docs/build_pdfs.py:112-124 | a file name without an extension (no dot inside it) gets .pdf appended |
| `DocPaths.SharedTargetExample` | docs/build_pdfs.py:121-131 | docs/.md and docs/.md.md share the target docs/.md.pdf |
| `DocPublications.PublicationsOf` | docs/build_pdfs.py:106-132 | the loop gives the explicit declarations completed, per target, by the first source in sorted order that claims it |
| `DocPublications.AllFound` | docs/build_pdfs.py:121-131 | what the loop has after the last source is the completed map, independent of the loop |
| `DocPublications.FreeExactly` | docs/build_pdfs.py:110-131 | besides the declarations, a target is published exactly when some tracked Markdown file with tracked PDF has it and is neither the source of a composite or manual entry nor has the target of a manual one; its first such file in sorted order is the source |
| `DocPublications.ManualLeftAlone` | docs/build_pdfs.py:111-116 | no publication but a declared one has the source or the target of a manual entry |
| `DocPublications.CompositeCounts` | docs/build_pdfs.py:93-102 | a composite entry is published as declared at every ref unless a later composite has its target |
| `DocPublications.DirectCounts` | docs/build_pdfs.py:86-92 | a direct entry with a tracked source is published with its declared inputs, by default its source, unless a composite or a later tracked direct entry has its target |
| `DocPublications.CompositesAlwaysPublished` | docs/build_pdfs.py:55-60 | a publication present at one ref and gone at another has its target as only output |
| `DocPublications.StillPublished` | docs/build_pdfs.py:117-131 | a target stays published as long as its source and its PDF stay tracked |
| `DocPublications.SourceTracked` | docs/build_pdfs.py:117-131 | every publication that is not composite has a tracked source |
| `DocPublications.SamePublication` | docs/build_pdfs.py:106-132 | a target published at two refs, itself and its later source tracked alike at both, has the same publication at both exactly when the source it had stays tracked |
| `DocPlan.DiffNameStatus` | docs/build_pdfs.py:135-151 | the index loop parses the NUL-separated fields record by record and fails exactly on a record cut short |
| `DocPlan.ParsePrint` | docs/build_pdfs.py:135-151 | parsing a printed stream returns its records, statuses cut to their first letter |
| `DocPlan.OneRecord` | docs/build_pdfs.py:143-150 | a record of status R or C takes two paths and fails with one, any other takes one |
| `DocPlan.ReadExactly` | docs/build_pdfs.py:135-151 | a stream is accepted exactly when it prints some records, its last NUL aside, and then gives those records |
| `DocPlan.ChangedPaths` | docs/build_pdfs.py:154-160 | the set of all old and new paths of the changes |
| `DocPlan.ChangedIs` | docs/build_pdfs.py:135-160 | the changed paths of a printed diff are the paths of all records and, of renames and copies, the new ones |
| `DocPlan.TouchedIs` | docs/build_pdfs.py:180-187 | a publication is touched exactly when its source or a declared dependency changed |
| `DocPlan.FollowRenames` | docs/build_pdfs.py:190-199 | the rename loop adds nothing that the selection and deletion loops have not added already |
| `DocPlan.PlanRange` | docs/build_pdfs.py:163-200 | the loops compute the plan defined from the two publication maps and the set of changed paths, in any dictionary order |
| `DocPlan.RangePlanIs` | docs/build_pdfs.py:163-222 | the plan names its reason, the changed paths, the targets (all, or those touched) and one record for each touched publication that is gone, each in the order of paths |
| `DocPlan.PathsPlanIs` | docs/build_pdfs.py:203-209 | plan_paths rebuilds by the same rule, and deletes and records nothing |
| `DocPlan.WholePlansAre` | docs/build_pdfs.py:163-167 | the plans without a range rebuild everything published and delete nothing |
| `DocPlan.RenameAsDeleteAndAdd` | docs/build_pdfs.py:154-199 | replacing a rename by a deletion and an addition leaves the changed paths and the plan for any two trees as they were |
| `DocPlan.SameTargetsAsPaths` | docs/build_pdfs.py:180-209 | the targets of a range plan are those of plan_paths on its changed paths |
| `DocPlan.DeletionIsSafe` | docs/build_pdfs.py:186-195 | whatever is deleted was a target before and is no target after |
| `DocPlan.DeletionsAre` | docs/build_pdfs.py:186-195 | exactly the targets of touched publications that are gone are deleted, unless the plan is a full one; this decides when a deletion hits an input or another output of a current publication |
| `DocPlan.DeletionIsComplete` | docs/build_pdfs.py:186-195 | every output of a touched publication that is gone is deleted, unless the plan is a full one |
| `DocBuild.BuildFrame` | docs/build_pdfs.py:314-331 | building a publication changes only the files it writes |
| `DocBuild.BuildLocal` | docs/build_pdfs.py:314-331 | on trees that agree on what it reads, a publication succeeds alike and writes alike |
| `DocBuild.AssemblerFails` | docs/build_pdfs.py:314-316 | the build stops at the assembler, leaving every file, exactly when there is one and it fails on the declared inputs |
| `DocBuild.RendersFrom` | docs/build_pdfs.py:314-319 | otherwise the rendering starts from the tree with exactly the generated files replaced |
| `DocBuild.RenderedIs` | docs/build_pdfs.py:317-331 | a missing source, and a renderer that fails or leaves an empty file, change nothing more; otherwise the target holds the PDF, and the manifest, if declared, describes the source and that PDF; it can still fail after the target is replaced |
| `DocBuild.OutputsWritten` | docs/build_pdfs.py:55-60 | the outputs a plan names are the files a build writes |
| `DocBuild.LastBuilt` | docs/build_pdfs.py:334-343 | the targets are built in order, each from what the ones before it left, up to the first failure |
| `DocBuild.DeletesLast` | docs/build_pdfs.py:344-350 | files are deleted only after all targets were built, and then exactly those of the plan |
| `DocBuild.BuildAllPointwise` | docs/build_pdfs.py:334-343 | independent publications succeed together exactly when each would alone, and leave what each would alone |
| `DocSteady.SteadySame` | docs/build_pdfs.py:334-343 | leaving the untouched publications out of any run has the same outcome, failures included, if all old publications were up to date and at its turn each untouched one is an old one and meets nothing dirty in what it reads or writes; which paths are dirty is followed from build to build |
| `DocBuild.BuildTwice` | docs/build_pdfs.py:314-331 | building a publication a second time changes nothing, if it does not write over what it is made from |
| `DocBuild.UpToDateDelivers` | docs/build_pdfs.py:314-331 | an up-to-date publication has its target, its manifest and its generated sources in the tree |
| `DocBuild.UpToDateRenders` | docs/build_pdfs.py:322-330 | its PDF is the rendering of the tree's own files and its manifest describes that source and that PDF |
| `DocBuild.BuildAllSettles` | docs/build_pdfs.py:334-343 | after a successful run a publication that does not write over what it is made from is up to date, unless a later one writes what it reads or writes |
| `DocBuild.Workspace.BuildPublication` | docs/build_pdfs.py:314-331 | the step-by-step build leaves the specified tree; on failure only generated sources may have changed, and after a failed manifest writer also the target, which is replaced before |
| `DocBuild.Workspace.ExecutePlan` | docs/build_pdfs.py:334-350 | builds in plan order, stops at the first failure, deletes only after all builds |
| `DocIncremental.UntouchedWasPublished` | docs/build_pdfs.py:106-132 | a publication whose inputs and target the range did not touch was published before |
| `DocIncremental.SelectedTargets` | docs/build_pdfs.py:180-185 | a plan that is not a full one rebuilds exactly the touched publications |
| `DocIncremental.PlansInOrder` | docs/build_pdfs.py:180-221 | the incremental targets are the full plan with the untouched ones left out, in the same order |
| `DocIncremental.IncrementalEqualsFull` | docs/build_pdfs.py:163-200 | from an up-to-date tree, if the full plan is steady in the sense of SteadySame, the incremental plan ends exactly as the full one, failures included, but for the planned deletions |
| `DocIncremental.TidyIsSteady` | docs/build_pdfs.py:106-132 | when the changed paths cover all differences, the full plan is steady if the range changes no output of an untouched publication, removes no source of a target an untouched one keeps, and no touched publication writes what a later untouched one reads or writes |
| `DocIncremental.SameOutputs` | docs/build_pdfs.py:163-200 | under the premises of IncrementalEqualsFull every current publication's output is the one the full rebuild gives, unless it is the target of one that is gone |
| `DocIncremental.IncrementalSettles` | docs/build_pdfs.py:163-200 | under the premises of IncrementalEqualsFull a current publication that does not write over what it is made from is up to date again after a successful incremental build, unless a later publication writes what it reads or writes or the plan deletes such a file: the premise carries over from range to range |
| `DocIncremental.LossUnsettles` | docs/build_pdfs.py:186-195 | if the deleted target is the source or an output of a current publication that does not write over what it is made from, that publication is not up to date after a successful incremental build |
| `DocIncremental.NoStaleTarget` | docs/build_pdfs.py:186-195 | when the changed paths cover all differences and the plan is incremental, no target of a publication that is gone is left after a successful build, unless a current publication writes that path |
| `DocDivergence.PresentIff` | docs/build_pdfs.py:314-331 | some tools bring a tree up to date exactly when every publication has its source, its outputs and a PDF that is not empty |
| `DocDivergence.UnknownDiverges` | docs/build_pdfs.py:180-199 | from an old tree that holds every source and output, when no two current publications write the same file and every current source is there or made: whenever an untouched publication is new or not the old one of its target there are tools under which everything was up to date and both builds succeed, with different PDFs at that target |
| `DocDivergence.TakenOverIsUnknown` | docs/build_pdfs.py:117-131 | a target that is taken over is such a case when the changed paths cover all differences |
| `DocDivergence.IncrementalExactly` | docs/build_pdfs.py:163-200 | for all configurations in which no two publications of a tree write the same file, all old trees that hold every source and output, all new trees in which every source is there or made, and all ranges: incremental and full build end alike under all tools that had brought the old tree up to date if and only if the plan is a full one anyway or the full plan is steady; publications may read each other's outputs |
| `DocDivergence.OrderedExactly` | docs/build_pdfs.py:163-200 | under the premises of IncrementalExactly, for changed paths that cover all differences: if no touched publication writes what a later untouched one reads or writes, the builds end alike if and only if the plan is a full one or every untouched publication was published before, is the same, and what it writes agrees in both trees |
| `DocDivergence.PlainExactly` | docs/build_pdfs.py:163-200 | under the premises of IncrementalExactly, for ranges whose changed paths are exactly the differences and include no output, when every source is a declared input or made by its assembler: the builds end alike if and only if the plan is a full one, or no untouched publication takes over a target whose old source is gone and no touched one writes what a later untouched one reads or writes |
| `DocExamples.EditIsReady` | docs/build_pdfs.py:163-200 | two documents of which one is edited meet every premise of IncrementalEqualsFull |
| `DocExamples.EditExample` | docs/build_pdfs.py:163-200 | docs/report.md edited beside docs/guide.md is an instance |
| `DocExamples.TakeoverOnTrees` | docs/build_pdfs.py:117-131 | with tools that copy the source, removing the declared source leaves the incremental PDF showing it and the full one showing the Markdown file beside; Markdown and other declared sources alike |
| `DocExamples.TakeoverMeetsPremises` | docs/build_pdfs.py:117-131 | these trees meet the premises of UnknownDiverges and IncrementalExactly |
| `DocExamples.TakeoverExample` | docs/build_pdfs.py:117-131 | docs/report_v2.md declared for docs/report.pdf beside docs/report.md is an instance |
| `DocExamples.ChainOnTrees` | docs/build_pdfs.py:180-185 | a composite whose first input is the PDF of a document: when the document is edited the incremental build leaves the composite as it was, the full one makes it from the new PDF |
| `DocExamples.ChainMeetsPremises` | docs/build_pdfs.py:180-185 | these trees meet the premises of PlainExactly, nothing is taken over, and only the order fails |
| `DocExamples.ChainExample` | docs/build_pdfs.py:180-185 | docs/zbook.pdf made from docs/report.pdf is an instance |
| `DocExamples.AddedOnTrees` | docs/build_pdfs.py:121-131 | a PDF added beside an untouched Markdown file is left as it was added by the incremental build and rendered by the full one |
| `DocExamples.AddedExample` | docs/build_pdfs.py:121-131 | docs/report.pdf added beside docs/report.md is an instance |
| `DocExamples.DeletedInput` | docs/build_pdfs.py:186-195 | removing a document deletes its PDF although a composite that is still published reads it |
| `DocExamples.CollectsExample` | docs/build_pdfs.py:186-195 | a book collecting docs/report.pdf is such a composite |
| `DocFingerprint.Fingerprint` | docs/build_pdfs.py:353-366 | the pieces fed to the hash are the framed path and blob id of every input in sorted order |
| `DocFingerprint.PreimageInjective` | docs/build_pdfs.py:359-365 | two hashed byte strings are equal exactly when the input paths and every blob id or missing marker agree |
| `DocFingerprint.BuilderPaths` | docs/build_pdfs.py:356-356 | the three files every fingerprint covers |
| `DocFingerprint.PreimageIs` | docs/build_pdfs.py:360-366 | the bytes begin with the first input in sorted order, a NUL, its blob or the missing marker, a NUL; those of the other inputs follow |
| `DocFingerprint.ChangeSeen` | docs/build_pdfs.py:353-366 | a change of one path alone alters the bytes exactly when it is a declared dependency, the source where none is declared, one of the three builder files or the last word of the assembler |
| `DocFingerprint.SourceChangeSeen` | docs/build_pdfs.py:353-366 | a change of the source alone changes the hashed bytes exactly when the source is among the fingerprint's inputs |
| `DocFingerprint.BlindExample` | docs/build_pdfs.py:353-366 | a manual that lists a part but not its own source: the source changes, the planner would rebuild, the hashed bytes are the same |
| `ProcessTree.ProcessTreeOf` | benchmarks/benchmark_mlff_prepare_o0.py:66-75 | against any child relation, with cycles and duplicates, the worklist ends with exactly the reachable processes, sorted without repeats |
| `ProcessTree.WorkDone` | benchmarks/benchmark_mlff_prepare_o0.py:69-75 | when nothing is pending, what was seen is the whole set of descendants |
| `ProcessTree.ListingUnique` | benchmarks/benchmark_mlff_prepare_o0.py:75-75 | any increasing listing of the reachable processes is the one returned |
| `ProcessTree.Tracker.TakeSnapshot` | benchmarks/benchmark_mlff_prepare_o0.py:141-166 | a snapshot overwrites the readings of the processes it can read, keeps those of the vanished, raises the peaks and reports totals over all |
| `ProcessTree.CurrentIs` | benchmarks/benchmark_mlff_prepare_o0.py:141-163 | current memory and threads are the sums of the status entries (0 without one) of the processes of the tree whose stat entry can be read; current processes counts the whole tree |
| `ProcessTree.SeenIs` | benchmarks/benchmark_mlff_prepare_o0.py:141-163 | the processes seen are all those ever read |
| `ProcessTree.TotalMovesByGains` | benchmarks/benchmark_mlff_prepare_o0.py:145-162 | a snapshot moves each total by the gains of the processes it reads and by nothing else |
| `ProcessTree.TotalsNeverDecrease` | benchmarks/benchmark_mlff_prepare_o0.py:141-163 | while no process the snapshot reads counts backwards in a counter its total never falls, though processes vanish |
| `ProcessTree.CpuForward` | benchmarks/benchmark_mlff_prepare_o0.py:78-90 | for CPU times that premise is exactly that the stat entries never fall below the last readings |
| `ProcessTree.TotalFallsExactly` | benchmarks/benchmark_mlff_prepare_o0.py:110-163 | with monotone counters a total falls exactly when the last readings of processes whose io file cannot be read this time, and is taken as zero, outweigh what the others gained; and by how much it moves |
| `ProcessTree.BytesFallExample` | benchmarks/benchmark_mlff_prepare_o0.py:110-163 | a lone process seen again while its io file cannot be read takes all its bytes out of the total |
| `StageMeter.RunAccounted` | benchmarks/benchmark_mlff_prepare_o0.py:281-324 | at every point of every run the closed rows account for time, counters and peaks up to the open stage, and chain with the transitions |
| `StageMeter.Conservation` | benchmarks/benchmark_mlff_prepare_o0.py:260-356 | wall times add up to the total, counters to final minus baseline, the greatest stage peak is the tracker's, rows number transitions plus one, adjacent stages differ, the first is "startup" |
| `StageMeter.NoNegativeStage` | benchmarks/benchmark_mlff_prepare_o0.py:169-198 | while a total never falls no stage row is negative in it |
| `StageRows.RunReadOff` | benchmarks/benchmark_mlff_prepare_o0.py:260-324 | every variable of the loop is determined by the events alone: the stage is the last one named, the stage variables are those of the line that opened it, the next sample is due an interval after the last due tick |
| `StageRows.RowsAre` | benchmarks/benchmark_mlff_prepare_o0.py:289-356 | one row for the start and one for each line that opens a stage, with the stage, times, counters and line of that stage; its peaks bound exactly the snapshots of its own stage (opening or baseline, due ticks, the final one for the last) and each component is reached by one |
| `StageRows.OverallPeaks` | benchmarks/benchmark_mlff_prepare_o0.py:158-160 | the peaks of the run bound those of every row and each component is reached by some row |
| `StageRows.SnapsExactly` | benchmarks/benchmark_mlff_prepare_o0.py:289-324 | a snapshot is taken exactly at the lines that open a stage and at due ticks |
| `StageRows.LastNamed` | benchmarks/benchmark_mlff_prepare_o0.py:288-311 | the current stage is that of the last line that names one, or startup |
| `StageRows.LastDue` | benchmarks/benchmark_mlff_prepare_o0.py:318-324 | after a due tick with none behind it the next sample is due an interval later |
| `StageRows.NoneDue` | benchmarks/benchmark_mlff_prepare_o0.py:268-268 | before any due tick the first sample is due an interval after the start |
| `MeterProgram.Meter.Open` | benchmarks/benchmark_mlff_prepare_o0.py:289-316 | opening a stage closes a row and a transition and restarts the stage variables |
| `MeterProgram.Meter.Sample` | benchmarks/benchmark_mlff_prepare_o0.py:318-324 | a due sample raises the stage peaks only |
| `MeterProgram.Meter.Close` | benchmarks/benchmark_mlff_prepare_o0.py:338-356 | the last row and the payload |
| `MeterProgram.Measure` | benchmarks/benchmark_mlff_prepare_o0.py:242-356 | the program, cut off anywhere, is a run of the state machine on snapshots the tracker took one after another, ended by the final one |
| `MeterProgram.StagesNonNegative` | benchmarks/benchmark_mlff_prepare_o0.py:141-356 | in the whole program, if no process counts backwards in a counter no stage reports a negative amount of it |
| `Bits.OrBit` | benchmarks/interpreter_hotpath_stage2_benchmark.py:65-65 | a bit of a or b is a bit of one of them |
| `Bits.Pow2Bit` | benchmarks/interpreter_hotpath_stage2_benchmark.py:65-65 | 1 << n has bit n and no other |
| `Bits.ReassembleIff` | benchmarks/interpreter_hotpath_stage2_benchmark.py:67-71 | the words of an integer join to it again exactly when it fits into them |
| `Bits.ReassembleWords` | benchmarks/interpreter_hotpath_stage2_benchmark.py:70-71 | in general they join to the integer without the bits beyond the last word |
| `TargetBitsets.TargetInjective` | benchmarks/interpreter_hotpath_stage2_benchmark.py:58-62 | block number and local number identify the wrapped coordinate |
| `TargetBitsets.GlobalIs` | benchmarks/interpreter_hotpath_stage2_benchmark.py:57-58 | the wrapped coordinate is the only cell of the logical grid that lies whole turns, axis by axis, from source block corner plus brick coordinate plus signed minimum |
| `TargetBitsets.TargetReadBack` | benchmarks/interpreter_hotpath_stage2_benchmark.py:59-62 | unravelling block and local number gives a block and a place whose cell is the coordinate again |
| `TargetBitsets.OwnCells` | benchmarks/interpreter_hotpath_stage2_benchmark.py:55-62 | without a minimum the cells of the source block go to the source block, each to its own place |
| `TargetBitsets.MaskBit` | benchmarks/interpreter_hotpath_stage2_benchmark.py:63-65 | a bit of a grouped mask is set exactly when some coordinate went to that place of that block |
| `TargetBitsets.OldTargetBitsets` | benchmarks/interpreter_hotpath_stage2_benchmark.py:54-72 | rows are the touched blocks in strictly increasing order, each filled with the words of its mask |
| `TargetBitsets.BitMeaning` | benchmarks/interpreter_hotpath_stage2_benchmark.py:63-71 | bit l%64 of word l/64 of block b is set exactly when some input coordinate wraps to local index l of block b |
| `TargetBitsets.RowsReassemble` | benchmarks/interpreter_hotpath_stage2_benchmark.py:66-71 | when 64 * word count covers the block volume the words of a row give the grouped integer back |
| `TargetBitsets.BitsConserved` | benchmarks/interpreter_hotpath_stage2_benchmark.py:57-71 | the set bits of all rows number the distinct wrapped coordinates, negative offsets included |
| `Reconcile.Old` | benchmarks/interpreter_hotpath_stage2_benchmark.py:91-99 | ids are shared exactly by equal rows and new ones are handed out as 0, 1, 2, ...; the count is the number of distinct rows |
| `Reconcile.IdsAreDense` | benchmarks/interpreter_hotpath_stage2_benchmark.py:95-99 | the ids in use are 0..k-1 for the number k of distinct rows |
| `Reconcile.NumberingUnique` | benchmarks/interpreter_hotpath_stage2_benchmark.py:92-99 | there is only one numbering in order of first occurrence |
| `Reconcile.OldMatchesNew` | benchmarks/interpreter_hotpath_stage2_benchmark.py:100-105 | the sorted-unique ids are the first-occurrence ids under a one-to-one renaming of 0..k-1, whatever total order sorts the rows |
| `Envelope.CombinationsAreSubsets` | benchmarks/benchmark_mlff_size_halve1.py:58-59 | over an increasing ladder the combinations of k are exactly the increasing k-element selections |
| `Envelope.CandidatesAreNested` | benchmarks/benchmark_mlff_size_halve1.py:55-60 | the candidates are exactly the nested pairs of survivors and finalists with their exposure |
| `Envelope.CandidatesDistinct` | benchmarks/benchmark_mlff_size_halve1.py:58-60 | no nested pair is enumerated twice |
| `EnvelopeOrder.CombinationsByPosition` | benchmarks/benchmark_mlff_size_halve1.py:58-59 | for any numbers, repeated or unsorted, combination i takes the entries at the positions of combination i of the positions |
| `EnvelopeOrder.CombinationsInOrder` | benchmarks/benchmark_mlff_size_halve1.py:58-59 | of two combinations the earlier has the smaller entry where they first differ |
| `EnvelopeOrder.CandidatesByPosition` | benchmarks/benchmark_mlff_size_halve1.py:55-60 | for any numbers the candidates are those of the positions, all nested choices once, ordered by survivors and then finalists: this fixes which of equal candidates min and max keep |
| `Envelope.SubsetTotals` | benchmarks/benchmark_mlff_size_halve1.py:51-52 | exchange: among selections of one size the first entries have the least and the last the greatest total, and none ties with either |
| `Envelope.Extremes` | benchmarks/benchmark_mlff_size_halve1.py:61-62 | the least exposure is that of the smallest survivors, the greatest that of the largest, each reached by one candidate only |
| `Envelope.ExposureBounds` | benchmarks/benchmark_mlff_size_halve1.py:51-63 | every exposure is above 3 and at most 30 times the ladder's sum, reaching 30 exactly for two sizes |
| `Envelope.EnvelopeOf` | benchmarks/benchmark_mlff_size_halve1.py:55-78 | for any input: the first least and first greatest candidate with their reductions; an error exactly for fewer than two sizes or a zero sum |
| `Envelope.EnvelopeOfLadder` | benchmarks/benchmark_mlff_size_halve1.py:55-78 | on an increasing ladder the brute-force best and worst are the closed forms "smallest survive" and "largest survive" |
| `Envelope.PackIs` | benchmarks/benchmark_mlff_size_halve1.py:64-71 | a packed candidate keeps its choices, and its percentage of the full work is what the work lacks of it |
| `Envelope.ReductionBounds` | benchmarks/benchmark_mlff_size_halve1.py:64-71 | every reduction of a positive ladder lies from 0 to below 90 percent and is 0 exactly for two sizes |
| `Envelope.DefaultEnvelope` | audits/analysis/mlff_size_halve1_exposure_analysis_2026-08-15.md:47-49 | on the default ladder the brute-force best and worst give the published 85.67 and 17.56 percent |
| `FrameSelection.RangeIs` | mdstats/collection.py:271-272 | a slice lists the whole arithmetic progression between its clamped bounds, for either sign of the step |
| `FrameSelection.PlainSlice` | mdstats/collection.py:271-272 | a slice with bounds inside the array takes the subsequence between them |
| `FrameSelection.BoundsFromTheEnd` | mdstats/collection.py:271-272 | negative bounds count from the end, bounds past an end mean that end |
| `FrameSelection.SteppedSlice` | mdstats/collection.py:271-272 | bounds inside the array and any step other than 0 pick every step-th frame from the start up to but without the stop |
| `FrameSelection.BoundsBackwards` | mdstats/collection.py:271-272 | with a negative step no start means the last frame, and a bound before the first picks nothing as a start and everything as a stop |
| `FrameSelection.BoundsLeftOut` | mdstats/collection.py:271-272 | with a positive step missing bounds are the ends and a missing step is 1 |
| `FrameSelection.ResolveFails` | mdstats/collection.py:271-272 | a selection fails exactly for a step of 0 or an index out of range |
| `FrameSelection.NormalizedAllIs` | mdstats/collection.py:271-272 | an index list resolves exactly when every entry is from -n to below n, negative ones counting from the end |
| `FrameSelection.ClimbsTwice` | mdstats/collection.py:271-272 | out of increasing indices, the composed selection increases exactly when the second does |
| `Wrapping.WrapIs` | mdstats/collection.py:245-248 | the wrapped vector is the only one with periodic coordinates in [0, 1), each off by an integer, and the others unchanged |
| `Wrapping.WrapFramesTwice` | mdstats/collection.py:293-297 | wrapping is idempotent |
| `Wrapping.WrappedPosition` | mdstats/collection.py:251-257 | wrapping moves an atom by an integer combination of the periodic cell rows |
| `Wrapping.UnitIsRow` | mdstats/collection.py:235-239 | one step along a fractional axis is that row of the cell |
| `Wrapping.CartesianPlus` | mdstats/collection.py:235-239 | Cartesian positions add up as fractional ones do |
| `Wrapping.CartesianScaled` | mdstats/collection.py:235-239 | and scale as fractional ones do |
| `Wrapping.WrapInPlace` | mdstats/collection.py:246-248 | the in-place loop over the axes wraps every coordinate of every frame |
| `Frames.SelectAccepts` | mdstats/collection.py:271-340 | a selection succeeds exactly when it resolves to at least one frame, an ensemble stays an ensemble, and a trajectory keeps its frames in increasing order: all other checks of mdstats/preprocess/validate.py pass on their own |
| `Frames.SelectFails` | mdstats/collection.py:271-288 | which error is raised, in the order of the checks |
| `Frames.SelectedFrame` | mdstats/collection.py:293-330 | frame k of the selection is frame index[k] of the source, numbered k, wrapped in an ensemble; the atoms stay |
| `Frames.SelectedArrays` | mdstats/collection.py:290-336 | the optional arrays follow frame by frame; an ensemble has no velocities |
| `Frames.SelectedRecords` | mdstats/collection.py:300-317 | the recorded parents, semantics and provenance, and the field semantics that an ensemble replaces |
| `Frames.DeterminantIs` | mdstats/preprocess/validate.py:112-118 | the determinant is linear in each row, changes sign under exchange and is 1 for the unit cell |
| `Frames.AsEnsembleAccepted` | mdstats/collection.py:342-344 | every valid collection has an ensemble |
| `FrameRuns.SelectTwice` | mdstats/collection.py:271-340 | two selections give the data of one with composed indices; after the first, the second is accepted exactly when the composed one is and no trajectory is asked back from an ensemble |
| `FrameRuns.RunIsOneSelection` | mdstats/collection.py:259-340 | any sequence of selections gives the data of one selection of the source frames, in order if still a trajectory |
| `FrameRuns.ParentsTraceBack` | mdstats/collection.py:316-317 | following the recorded parent ids back through any sequence of selections ends at the frame's original id |
| `FrameRuns.EnsembleAbsorbs` | mdstats/collection.py:280-308 | over every sequence the result is an ensemble exactly when the start was or some step asked for it; then it has no velocities, and wrapped coordinates once selected |
| `FrameRuns.ProvenanceTwice` | mdstats/collection.py:298-308 | the provenance of two steps equals that of one exactly when not both the first step made an ensemble and there were velocities |
| `FrameRuns.BackwardsRejected` | mdstats/preprocess/validate.py:92-95 | reversing a trajectory of two or more frames is rejected by validation |
| `FrameRuns.BackwardsTwice` | mdstats/collection.py:271-272 | two reversals compose to the identity indices |
| `FrameRuns.IdentityAccepted` | mdstats/collection.py:319-340 | selecting all frames of a trajectory is accepted and keeps its data, frame ids renumbered |
| `FrameExamples.TwoFramesValid` | mdstats/preprocess/validate.py:25-157 | a concrete two-frame trajectory passes the whole validation |
| `FrameExamples.BackwardsExample` | mdstats/preprocess/validate.py:92-95 | its reversal is rejected |
| `FrameExamples.ProvenanceExample` | mdstats/collection.py:298-308 | selecting it as an ensemble once records "discarded_for_ensemble", twice "unavailable" |
| `FramePositions.GetWrappedFractional` | mdstats/collection.py:241-249 | copying and wrapping in place returns the wrapped selected frames, for one frame or many |
| `FramePositions.SelectFrames` | mdstats/collection.py:259-340 | the statement-by-statement selection is the specified one |
| `FramePositions.SelectedPositions` | mdstats/collection.py:229-257 | positions of selected frames are the selected positions, wrapped exactly when an ensemble was made |
| `FramePositions.EnsemblePositions` | mdstats/collection.py:342-344 | as_ensemble().get_positions equals get_wrapped_positions for every selection, errors included |
| `FramePositions.WrappedPositionsShift` | mdstats/collection.py:251-257 | wrapped and plain positions of a frame differ, atom by atom, by whole periodic cell rows |
| `FramePositions.PositionOf` | mdstats/collection.py:229-257 | an integer gives one frame, atom k at the product of its fractional coordinates and the cell of that frame, wrapped first or not; integers out of range raise IndexError |
| `FramePositions.PositionsFrameByFrame` | mdstats/collection.py:229-257 | a slice or index list gives, frame after frame, what its indices give one at a time, for plain, wrapped and wrapped fractional positions, with the errors of the selection |

## Left out

- Buffer acquisition, the interpreter lock and module set-up of the C extension; buffers are arrays of the checked element types.
- IEEE bit patterns, overflow and NaN: addition is arbitrary, exact, or rounded with a relative error.
- The static chunking of the parallel loop: every assignment of iterations to workers is allowed instead.
- Git, Pandoc, Typst, SHA-256, JSON and atomic file replacement; the object existence checks of plan_range; paths that Git would quote; loading and schema check of the configuration.
- Temporary files, and directories made before a build fails.
- Files an assembler, renderer or manifest writer reads beyond the declared inputs; an assembler that fails leaves the tree as it was, and one that succeeds writes its generated sources only.
- `DocPublications.PublicationsOf`: takes the declarations as values, with "" where the JSON has no target, id or manifest.
- Looking a publication up by id, and the plan for explicitly named targets.
- Reading /proc, selectors, signals, real clocks and log teeing; the stage pattern, and the cut of a transition line to 500 characters; readings, times and stages are inputs, counters are reals, and an interrupt arrives between turns of the loop.
- `ProcessTree.ProcessTreeOf`: the child relation does not change during one walk.
- The mean number of nodes per occupied block (undefined for no block) and the grid's integer widths.
- numpy's own loops behind unique, ravel and unravel; they are functions with their meaning.
- `Reconcile.OldMatchesNew`: rows are values of any type with a total order; the lexicographic order of numpy is one of them.
- Floating rounding of x - floor(x): wrapping is over the reals, so a wrapped coordinate is always below 1.
- Which validation error is raised first; finiteness checks; boolean or many-dimensional index arrays; an unknown semantics name.
- `FrameRuns.SelectTwice`: says nothing of metadata; parent ids are treated by ParentsTraceBack and provenance by ProvenanceTwice.
- The optional per-frame arrays that no check looks into (forces, pressures, temperatures, energies) are carried by name with their frame axis only.
- Everything behind the package imports: analysis, plotting, training data, schedulers.
