# Lagaam, modelled in Dafny

Lagaam refuses a query before it runs when an upper bound on its cost is over budget. These modules model the
code that computes the bound and the code that guards the query text, and prove what that code is for: the
bound is never below what the engine does, and what passes a check has the property the check names.
`dafny verify dfyconfig.toml` checks everything.

| part | modules | main results |
|---|---|---|
| the plan bound | `Rels`, `JoinKeys`, `KeyCoverage`, `PlanBound`, `Execution`, `Provenance`, `PlanSoundness`, `TwoTables`, `CorrelateLoops`, `PlanMonotone` | `PlanBoundIsSound`, `CoveredIffKeyed`, `LoopIsChargedIff`, `MaxIntermediateRows`, `RightMatchesOnce`, `BoundGrowsWithLeaves` |
| the evidence it uses | `KeyOrdinals`, `CatalogKeys`, `PlanEvidence` | `LearnedHoldsIff`, `LearnableIff`, `ProvedKeysAreUnique`, `UniqueColumnsAre`, `CatalogEvidenceHolds` |
| the scan quote | `Quote`, `QuoteLaws`, `Survivors`, `ScanSoundness`, `TableReports` | `RowsAreExact`, `BytesAreExact`, `ChargeCoversSurvivors`, `ChargeIsAttained`, `PriceCoversTouchedIff`, `TableRowsCovered`, `TableBytesCovered`, `FactsHoldTableIff` |
| the metadata it is built from | `Batching`, `MetadataFetch` | `MetadataBatches`, `AllGreedyIsFewest`, `BatchSucceedsIff`, `CompleteSegmentMetadata` |
| the shape of the SQL | `CteBodies`, `ReadCounts`, `Sequences`, `Generators`, `GeneratorCaps`, `GeneratorTotals`, `Fanout`, `BranchRows` | `ReadsAreInlinedOccurrences`, `MultipliesIff`, `ProductReadIff`, `RefusedIff`, `MultiplierIs`, `EmitsArriving`, `FanoutIsExactIff`, `FanoutCoversUnion`, `LiteralBranchIsPriced` |
| the gate | `Admission`, `PlanTerms`, `AdmittedQueries` | `AdmittedIffKnownAndWithin`, `IncompleteIsDenied`, `AdmittedScansFit`, `AdmittedPlansFit`, `AdmittedMirrorsFit` |
| the allowlist | `CteScope` | `CteInScope`, `EnvIsScope`, `PermittedIff`, `UnboundReferencesAreGranted` |
| raw text and cache | `BracketScanner`, `BracketText`, `TableCache` | `BracketDepth`, `ScannedByPieces`, `InsertionIsInvisible`, `ServedValuesAreRecentAnswers` |

`Prelude` holds the arithmetic and sequence facts they share.

How the parts meet: `PlanEvidence.CatalogEvidenceHolds` takes what `CatalogKeys` and `KeyOrdinals` read off the
documents to what `Execution.Respects` asks of a database; `PlanSoundness` turns that into the plan bound;
`AdmittedQueries.PrunedIsAllowed` takes the counters of `Survivors` to what `ScanSoundness.Allowed` asks of a scan;
`ReadCounts` says how often each table's scan happens; `PlanTerms` finds the branches that `Fanout` prices in the plan
that `PlanBound` prices; `AdmittedQueries` carries all of it to the gate. What is claimed of rows rests on doc counts,
thresholds and pruning alone; what is claimed of bytes also on how the reports describe them.

Plans are given a bag semantics (`Execution`): rows are sequences of values with a NULL, joins follow section 7.7
of ISO/IEC 9075-2:2003, and a run assigns every node an output its operator can emit, under every environment of
enclosing left rows. A correlate is a nested loop: its right side emits anew for each left row. A bound inside a
loop is a bound per iteration (`PlanSoundness.LoopedRowsAtMost` has the sum, `LoopedRowsAreChargedIff` says when the
correlate's own charge holds it). A condition that is not an equality may hold or fail at will. Nothing is assumed of
a plan's graph: cycles, dangling ids, repeated ids and missing fields are all representable, and the code's own answer
to each is what is proved.

Code that works step by step stays that way: the memoised walks, the batching and retry loops, the upward scope
walk, the scanner and the cache are methods and classes, each proved against a specification function, with the
lemmas about that function carrying the claim. What such a function answers is also told without it, both ways: which
sides are keyed from the plan's nodes (`KeyCoverage`), which names are bound from their places (`CteScope.EnvIsScope`),
what a text nests to from its pieces (`BracketText`), what a branch builds from what each node does with the rows under
it (`BranchRows`), what the walk over generators answers from the way up from each of them (`GeneratorCaps`) and from all of them
together (`GeneratorTotals`), and what a quote is from the segments (`QuoteLaws`) and from the documents (`TableReports`).

## Where the code falls short of its words

- The plan bound on a correlate. `_join_rows` cheapens a correlate as it does a join. A unique left side lets no two
  left rows match one right row, but a nested loop shows each left row right rows of its own.
  `PlanSoundness.LoopIsChargedIff`: the charge covers loops of every size if and only if the left side is not the
  only one proved unique. `CorrelateLoops.ChargeHoldsIff` is a plan where 100 left rows and 5 right rows at a time
  are charged 110 for 500. `PlanBoundIsSound` asks of a plan that each correlate is charged for the largest loop of its
  sides' row counts; it always is unless the left side alone is proved unique (`LoopIsChargedUnlessLeftOnly`), and so
  whenever its condition names no usable equality (`UnconditionalLoopIsCharged`).
- `key_ordinals` (keys.py:82-118) promises None for any shape but one project over one scan. The code reads the top
  project of any pass-through chain and does not look below it. `KeyOrdinals.LearnedHoldsIff`: the position it reads
  is the stored column if and only if the projects below copy that column and leave it where it is, whatever else
  they compute. `StackedProjectsMisleadIff` says which two-project plans mislead it.
- The price of a segment when no referenced column was resolved (quote.py:126-144). One listed column of several is
  then charged alone. `ScanSoundness.PriceCoversTouchedIff` gives the exact condition, and
  `UnlistedColumnIsNotCharged` the input that misses it. Facts built as `table_facts` asks for them never miss it: with
  nothing resolved the request names no columns (engine.py:447-450), so none is listed
  (`ScanSoundness.RequestedHidesNothing`), and that is what the end-to-end byte results take for granted. The failing
  input is of facts built some other way; for those `ScanSoundness.DescribesBytes` takes the condition as a hypothesis.
- More evidence should only tighten the plan bound. `PlanMonotone.CoverageLowersUnlessEmpty` gives the exact
  condition at a join: `left * right + left + right` becomes `right + left + right` when the left side is proved
  unique, which is more when the left side has no rows. `PlanMonotone.KeyOnEmptyLeafRaisesBound` is a whole plan
  where it happens (5 becomes 10).
- Completeness counts a body under its key and under the name it states, but `segment_facts` prices it under one of
  them (metadata.py:186-195, 283-311). `TableReports.FactsHoldTableIff`: the quote covers the table if and only if some
  body goes by the name of every sealed segment, which completeness says exactly where bodies are listed under the names
  they state (`CompleteIffSpokenFor`). `CrossedNamesCountTwice` is the document that passes without it.
- A null entry counts as missing so that it is fetched (metadata.py:289-293), but merging lets the bulk answer's null
  win over what was fetched (metadata.py:361-376): `MetadataFetch.BodyAfterIff` says when a name has a body after the
  fetch, and `NullInBulkStays` that it then has none. Such a table stays incomplete and is denied.
- A literal `sequence` whose step points away from its end has no elements, yet counts as one or more
  (`Sequences.LengthIsExactIffPointing`), so the multiplier is exact if and only if none that is counted does
  (`Fanout.FanoutIsExactIff`); it is never too small.

## Model

| member | source | states |
|---|---|---|
| Rels.IndexRels | server/src/lagaam/adapters/pinot/rels.py:31-47 | a node list is indexed exactly when every node carries an id and no id repeats; the index then holds every node under its id, in list order, with the id of the node before it |
| Rels.IndexesOnce | server/src/lagaam/adapters/pinot/rels.py:31-47 | a list has at most one index: the nodes, their predecessors and their order are all determined |
| Rels.ChildrenInList | server/src/lagaam/adapters/pinot/rels.py:50-63 | a node that names no inputs is fed by the node before it in the list, the first by none; a node that names readable ones by those |
| JoinKeys.WalkSide | server/src/lagaam/adapters/pinot/keys.py:289-337 | the downward walk through project, exchange and filter returns the side's width, operator chain and scanned table of the recursive definition, or nothing on a broken input, an unreadable project or the depth cap |
| JoinKeys.ReadProject | server/src/lagaam/adapters/pinot/keys.py:265-286 | a project's sources are read exactly when each expression is a bare input or a computed one, the computed ones only after the bare prefix |
| JoinKeys.ComposeOrdinal | server/src/lagaam/adapters/pinot/keys.py:238-262 | pushing one index down the chain, project by project, gives the composed index of the recursive definition |
| JoinKeys.ReadEqualities | server/src/lagaam/adapters/pinot/keys.py:351-377 | a condition yields its one equality, or all equalities of an AND when every operand is usable, and nothing otherwise |
| JoinKeys.ReadJoinKeyPairs | server/src/lagaam/adapters/pinot/keys.py:184-235 | a join's located pairs: every equality straddles the two sides or the list is empty |
| JoinKeys.ReadCoveredSides | server/src/lagaam/adapters/pinot/keys.py:121-149 | a side is covered when some unique key's columns are all among those its located equalities reach |
| KeyCoverage.WidthIff | server/src/lagaam/adapters/pinot/keys.py:289-337 | a side has a width exactly when a walk down single inputs through projects, filters and exchanges, at most 400 nodes long, ends at a first project whose fields are all named; the width is their number |
| KeyCoverage.CoveredIffKeyed | server/src/lagaam/adapters/pinot/keys.py:121-181 | each verdict told from the plan alone: a side is covered if and only if both sides have widths, every conjunct of the condition (itself, or all members of its AND) equates a column of one with a column of the other, one scan lies below the side on such a walk, and every column of some non-empty claimed key of its table is where the walk leads from an equated column, each project on it copying an input into every field |
| PlanBound.RowWalk.Rows | server/src/lagaam/adapters/pinot/plan.py:84-131 | one memoised call: any number it returns is the recursive row count of that node, a remembered answer is repeated without change, and it answers exactly when the specified call does, knowing the specified nodes afterwards and leaving the same ones open |
| PlanBound.RowWalk.InputRows | server/src/lagaam/adapters/pinot/plan.py:107-115 | the inputs' row counts in order, None at the first unknown one; it answers exactly when the specified calls do |
| PlanBound.RowWalk.Settle | server/src/lagaam/adapters/pinot/plan.py:116-131 | the node's charge from its children's charges, recorded once in the memo and, when known, once among the widths; unknown only for an unsized leaf |
| PlanBound.RowWalk.JoinCharge | server/src/lagaam/adapters/pinot/plan.py:162-187 | product plus sum, cheapened by each covered side |
| PlanBound.WalkInOrder | server/src/lagaam/adapters/pinot/plan.py:73-81 | over all ids: a number exactly when the specified walk answers, and then the maximum of the recursive row counts of all nodes |
| PlanBound.MaxIntermediateRows | server/src/lagaam/adapters/pinot/plan.py:44-81 | from the raw list: a number if and only if the list has an index and the depth-capped walk of it answers, which depends on the graph and on which leaves are sized alone; every node then has a row count at most the number, attained by one of them |
| PlanBound.OrderedAnswers | server/src/lagaam/adapters/pinot/plan.py:84-131 | on a dependency-ordered list with all leaves sized the walk always answers, however long: the cap cannot stop it |
| PlanBound.ShallowPlansAnswerIff | server/src/lagaam/adapters/pinot/plan.py:84-131 | on a plan no deeper than the cap, in any order, the walk answers if and only if every node has a row count |
| PlanBound.AnsweredAreSizable | server/src/lagaam/adapters/pinot/plan.py:84-131 | every node the walk answers has a row count |
| PlanBound.RowsStable | server/src/lagaam/adapters/pinot/plan.py:84-131 | a row count found within some height is the same within every greater one |
| PlanBound.RowsUnique | server/src/lagaam/adapters/pinot/plan.py:84-131 | a node has at most one row count, whatever order the memo was filled in |
| PlanBound.HasRowsFromChildren | server/src/lagaam/adapters/pinot/plan.py:101-131 | children with row counts and a chargeable operator give the node its row count, at a common height |
| PlanBound.ChargedByKind | server/src/lagaam/adapters/pinot/plan.py:101-187 | the charge of each kind of operator, given its inputs' charges, with the four cases of a two-sided join spelled out |
| PlanBound.DescendingRows | server/src/lagaam/adapters/pinot/plan.py:84-131 | along any path of inputs below a node with a row count, the path is no longer than the height and its end has a row count |
| PlanBound.SizedNodesAreAcyclic | server/src/lagaam/adapters/pinot/plan.py:84-100 | a node with a row count is on no cycle: a cycle anywhere makes the answer None |
| Provenance.TraceOfProject | server/src/lagaam/adapters/pinot/keys.py:238-286 | one project: if the input's columns are traced to stored columns along a chain, the output's are along the longer chain, whatever else the project computes |
| Provenance.ComposedIsColumn | server/src/lagaam/adapters/pinot/keys.py:238-286 | where the readers compose an index at all, it is the column followed down project by project |
| Provenance.ChainProvenance | server/src/lagaam/adapters/pinot/keys.py:238-337 | every row at the top of a resolved chain comes from its own stored row of the table, and every column not computed on the way equals that row's column, inside every loop the chain runs in |
| Provenance.SideProvenance | server/src/lagaam/adapters/pinot/keys.py:289-337 | in every run, a resolved side's rows are as wide as its field count, and trace to distinct rows of the table it names |
| PlanSoundness.CoveredRowsDiffer | server/src/lagaam/adapters/pinot/keys.py:152-181 | two rows of a covered side differ at a column whose ordinal the equalities reach |
| PlanSoundness.RightPartnersAgree | server/src/lagaam/adapters/pinot/keys.py:184-262 | two right rows matching the same left row agree at every located right ordinal |
| PlanSoundness.LeftPartnersAgree | server/src/lagaam/adapters/pinot/keys.py:184-262 | the same for two left rows matching one right row |
| PlanSoundness.RightMatchesOnce | server/src/lagaam/adapters/pinot/keys.py:121-181 | when the right side is covered, no left row has two partners in any bag the right side emits, in whichever loop it runs |
| PlanSoundness.LeftMatchesOnce | server/src/lagaam/adapters/pinot/keys.py:121-181 | when the left side is covered, no row of one right bag has two partners on the left |
| PlanSoundness.PairsAtMostRight | server/src/lagaam/adapters/pinot/plan.py:162-187 | if no right row has two partners, the matched pairs are at most the right rows |
| PlanSoundness.PairsWithinCharge | server/src/lagaam/adapters/pinot/plan.py:162-187 | the matched pairs together with every row of both sides are within the charge at the real sizes |
| PlanSoundness.JoinOutputAtMost | server/src/lagaam/adapters/pinot/plan.py:162-187 | inner, left, right, full, semi and anti: the rows a join emits are within its charge |
| PlanSoundness.LoopIsChargedIff | server/src/lagaam/adapters/pinot/plan.py:162-187 | the charge covers a nested loop of every size if and only if the left side is not the only one proved unique |
| PlanSoundness.CorrelateAtMost | server/src/lagaam/adapters/pinot/plan.py:162-187 | a correlate, run as a nested loop whose right side emits anew for every left row, emits at most the largest loop of those sizes |
| PlanSoundness.LoopedRowsAtMost | server/src/lagaam/adapters/pinot/plan.py:162-187 | rows inside a loop are bounded per iteration; summed over the iterations they are at most the left rows times that bound |
| PlanSoundness.LoopedRowsAreChargedIff | server/src/lagaam/adapters/pinot/plan.py:162-187 | the charge of the correlate itself holds that sum at every size if and only if neither side is proved unique |
| PlanSoundness.UnconditionalLoopIsCharged | server/src/lagaam/adapters/pinot/keys.py:351-377 | a correlate whose condition names no usable equality is always one the charge covers |
| PlanSoundness.LoopIsChargedUnlessLeftOnly | server/src/lagaam/adapters/pinot/plan.py:162-187 | at any sizes, a correlate is charged for its largest loop unless its left side alone is proved unique |
| PlanSoundness.PairingSound | server/src/lagaam/adapters/pinot/plan.py:162-187 | joins, and correlates charged for the largest loop of their sizes: within the charge whenever both sides stay within theirs in every loop |
| PlanSoundness.GroupsAtMost | server/src/lagaam/adapters/pinot/plan.py:126-127 | a grouped aggregate, one row for each distinct key, emits no more rows than it reads |
| CorrelateLoops.LoopAttains | server/src/lagaam/adapters/pinot/plan.py:162-187 | a correlate with a unique left side and a recomputed right column emits the whole product, at every size |
| CorrelateLoops.ChargeHoldsIff | server/src/lagaam/adapters/pinot/plan.py:162-187 | on that plan the charge is left + 2 * right, and covers every run if and only if left * right is at most that, which is also exactly when the hypothesis of PlanBoundIsSound holds of it |
| PlanSoundness.CrossSize | server/src/lagaam/adapters/pinot/plan.py:162-187 | a join node with other than two inputs emits the product of its inputs' sizes |
| PlanSoundness.OperatorSound | server/src/lagaam/adapters/pinot/plan.py:101-131 | if every input is within its charge in every loop, each operator's output is within the charge of the node |
| PlanSoundness.NodeSound | server/src/lagaam/adapters/pinot/plan.py:84-131 | by induction on the plan, every node of every run, under every environment of enclosing left rows, is within its row count |
| PlanSoundness.PlanBoundIsSound | server/src/lagaam/adapters/pinot/plan.py:44-81 | the number bounds every node's real output at each turn of every loop, in every run over every database that keeps the leaf bounds and the claimed unique keys, whenever every correlate is charged for the largest loop of its sides' row counts |
| PlanMonotone.CoverageGrows | server/src/lagaam/adapters/pinot/keys.py:121-181 | adding keys or key ordinals never uncovers a side |
| PlanMonotone.CoverageLowersUnlessEmpty | server/src/lagaam/adapters/pinot/plan.py:162-187 | at one join, more coverage lowers or keeps the charge if and only if the side newly proved is not the empty one facing a non-empty one |
| PlanMonotone.BoundGrowsWithLeaves | server/src/lagaam/adapters/pinot/plan.py:44-144 | of the answer itself: raising any leaf bound keeps a number a number and never lowers it |
| PlanMonotone.BoundShrinksWithEvidence | server/src/lagaam/adapters/pinot/plan.py:44-187 | of the answer itself: more evidence never turns a number into None nor None into a number, and with every leaf bound at least 1 never raises it |
| PlanMonotone.OrderStays | server/src/lagaam/adapters/pinot/plan.py:73-131 | the depth-capped walk that answers still answers when more tables are sized |
| PlanMonotone.KeyOnEmptyLeafRaisesBound | server/src/lagaam/adapters/pinot/plan.py:162-187 | the condition is needed: a plan with a zero-row leaf whose bound goes from 5 to 10 when a key is added |
| PlanTerms.TermsAreCharged | server/src/lagaam/adapters/pinot/plan.py:101-187 | a node written out as a union of cross joins of tables (unions, single inputs, joins with no side proved unique) is charged at least the rows those have |
| PlanTerms.EmitsIsProduct | server/src/lagaam/core/scans.py:234-267 | the rows a branch's plan counts are the product of the tables whose rows reach the top of it, CTEs written out |
| PlanTerms.MirroredRowsAreCharged | server/src/lagaam/adapters/pinot/plan.py:44-187 | so a plan node crossing the same tables as each branch, in any order, is charged for all the rows the branches cross to |
| KeyOrdinals.LearnOrdinals | server/src/lagaam/adapters/pinot/keys.py:82-118 | ordinals are learned exactly from a list whose last node resolves to a table through a readable top project whose output names are all present and non-empty |
| KeyOrdinals.LearnableIff | server/src/lagaam/adapters/pinot/keys.py:82-118 | told from the plan alone: ordinals are learned if and only if the last node leads down single inputs to one scan and the first project on the way copies an input into each of its fields, all of them named |
| KeyOrdinals.LearnedIs | server/src/lagaam/adapters/pinot/keys.py:82-118 | what is learned of a name is the input that the last field of that name copies, and nothing else is learned |
| KeyOrdinals.NameColumns | server/src/lagaam/adapters/pinot/keys.py:108-118 | names are folded to lower case and paired with the project's positions, a later duplicate winning |
| KeyOrdinals.ComposedIsTrue | server/src/lagaam/adapters/pinot/keys.py:238-262 | the composed index of an output field is its true stored ordinal in every run |
| KeyOrdinals.ColumnIsTrue | server/src/lagaam/adapters/pinot/keys.py:238-286 | so is the column followed down project by project, whatever the projects compute beside it |
| KeyOrdinals.LearnedHoldsIff | server/src/lagaam/adapters/pinot/keys.py:82-118 | in any run that emits a row, over data that tells its columns apart and computes only values stored nowhere, the position read off the top project is the stored column if and only if the projects below copy that column and leave it where it is |
| KeyOrdinals.LearnedIsTrueIff | server/src/lagaam/adapters/pinot/keys.py:82-118 | so wherever such a run exists, the learned position is true of every run exactly then |
| KeyOrdinals.LearnedOrdinalsAreTrue | server/src/lagaam/adapters/pinot/keys.py:82-118 | for the named map that is returned: where positions stay, each learned ordinal is the stored column of a field of that name |
| KeyOrdinals.SingleProjectStays | server/src/lagaam/adapters/pinot/keys.py:82-118 | with no second project in the chain every position stays |
| KeyOrdinals.StackedProjectsMisleadIff | server/src/lagaam/adapters/pinot/keys.py:82-118 | over two stacked projects the learner always answers, and is right if and only if the lower one copies its first input to its first column; reading another column or computing it both mislead |
| CatalogKeys.UniqueColumns | server/src/lagaam/adapters/pinot/keys.py:479-572 | when the metadata and the size report agree on one sealed segment and nothing else, its proved columns; otherwise none |
| CatalogKeys.UniqueColumnsAre | server/src/lagaam/adapters/pinot/keys.py:479-589 | told from the documents alone: a key is returned if and only if it is one named single-valued dictionary column with as many distinct values as documents, of the only body, about the only segment the size report names |
| CatalogKeys.ProvesIffDistinct | server/src/lagaam/adapters/pinot/keys.py:559-589 | a faithfully described single-valued dictionary column has cardinality equal to its row count if and only if no two rows share a value |
| CatalogKeys.SoleSegmentIsTable | server/src/lagaam/adapters/pinot/keys.py:526-558 | when the documents pass, the one segment is the whole table |
| CatalogKeys.ProvedKeysAreUnique | server/src/lagaam/adapters/pinot/keys.py:479-572 | each returned column set is one column with one value a row, which no two rows of the whole table share |
| PlanEvidence.UniqueColumnIsKey | server/src/lagaam/adapters/pinot/keys.py:175-181 | such a column, stored at its learned ordinal, is a unique key in the sense the plan bound relies on |
| PlanEvidence.LearnedIsPosition | server/src/lagaam/adapters/pinot/keys.py:82-118 | a learned ordinal is the scan position of the catalog column it is named for |
| PlanEvidence.ProvedKeyHolds | server/src/lagaam/adapters/pinot/keys.py:479-572 | a key read off the documents, at the ordinals read off the EXPLAIN, is unique on the rows the scans read |
| PlanEvidence.CatalogEvidenceHolds | server/src/lagaam/adapters/pinot/engine.py:850-917 | evidence read off the catalog holds of every database the catalog tells the truth about: the hypothesis the plan bound makes |
| Quote.SumParts | server/src/lagaam/adapters/pinot/quote.py:203-210 | the sum of all parts, or nothing as soon as one is unknown |
| Quote.DescendingSorts | server/src/lagaam/adapters/pinot/quote.py:44-47 | the sorted list is descending and a permutation of the input |
| Quote.TopDominates | server/src/lagaam/adapters/pinot/quote.py:26-47 | no choice of at most k segments weighs more than the k first of the sorted list |
| Quote.TopAttained | server/src/lagaam/adapters/pinot/quote.py:26-47 | some choice of exactly k segments weighs exactly that: the bound is tight |
| Quote.PriceSegment | server/src/lagaam/adapters/pinot/quote.py:113-144 | a segment's price: its matching columns when all referenced names resolve and some column matches, the whole segment otherwise |
| Quote.ColumnSizes | server/src/lagaam/adapters/pinot/quote.py:113-144 | every segment's price, with unresolved columns charging whole segments table-wide |
| Quote.WorstRatio | server/src/lagaam/adapters/pinot/quote.py:183-192 | the cross-multiplying loop returns the specified worst density |
| Quote.WorstIsDensest | server/src/lagaam/adapters/pinot/quote.py:183-192 | that density is one of the sealed segments with docs, none of them is denser, and there is none exactly when no segment has docs |
| Quote.ProjectedIsCeiling | server/src/lagaam/adapters/pinot/quote.py:193-200 | the projection is the least whole number of bytes not below rows times the density |
| Quote.ProjectedMonotone | server/src/lagaam/adapters/pinot/quote.py:193-200 | projecting at a denser ratio never gives fewer bytes |
| Quote.ProjectConsumingBytes | server/src/lagaam/adapters/pinot/quote.py:162-200 | nothing consuming costs nothing; otherwise every threshold and every doc count must be known, and each consuming segment is projected on its own |
| Quote.ProjectionCoversEveryRatio | server/src/lagaam/adapters/pinot/quote.py:183-200 | a projection that is known is, segment by rated segment, at least the consuming thresholds projected at that density |
| Quote.ChargeBytes | server/src/lagaam/adapters/pinot/quote.py:50-78 | bytes of the k largest prices plus the projection, or nothing |
| Quote.MakeQuote | server/src/lagaam/adapters/pinot/quote.py:81-102 | rows and bytes each whole or not at all; low confidence exactly when bytes are unknown or nothing is read |
| QuoteLaws.ChargeIsWorstChoice | server/src/lagaam/adapters/pinot/quote.py:26-47 | the sealed charge is the most any choice of segments could weigh that the surviving count allows, and some choice weighs as much |
| QuoteLaws.RowsAreExact | server/src/lagaam/adapters/pinot/quote.py:26-47 | there is a row quote if and only if the metadata is complete, every doc count and every consuming threshold is known and there is something to count; it is the worst choice of sealed segments plus every threshold |
| QuoteLaws.PriceIsExact | server/src/lagaam/adapters/pinot/quote.py:113-144 | a segment is priced by column if and only if it lists every resolved name and some referenced one, at the listed bytes of the referenced ones; whole otherwise |
| QuoteLaws.BytesAreExact | server/src/lagaam/adapters/pinot/quote.py:50-78 | there is a byte quote if and only if the metadata is complete, every segment has a price and consuming segments have thresholds and a density to project from; it is the worst choice of prices plus each threshold at the worst density, rounded up |
| QuoteLaws.QuoteIsExact | server/src/lagaam/adapters/pinot/quote.py:81-102 | no table is quoted at nothing with low confidence; otherwise rows and bytes are each the sum over every table or absent if any is unknown, and confidence is low if and only if bytes are absent |
| Survivors.SurvivingSegments | server/src/lagaam/adapters/pinot/response.py:158-203 | an answer exactly when the EXPLAIN is a planned, failure-free one with a positive queried count; then queried less the largest believed counter, at least 1 |
| Survivors.Surviving | server/src/lagaam/adapters/pinot/engine.py:806-834 | one table and an oracle give the sealed charge; anything else gives none, which charges every segment |
| Survivors.PrunedIsLargest | server/src/lagaam/adapters/pinot/response.py:196-203 | the loop's pruned count is the largest of the believed counters |
| Survivors.OracleIff | server/src/lagaam/adapters/pinot/response.py:158-203 | an oracle is an answer without exceptions that scanned nothing and queried something |
| Survivors.ChargeIsExact | server/src/lagaam/adapters/pinot/response.py:158-228 | the number from the counters themselves: queried less the largest believed one, at least one, less the consuming segments that many prunings cannot all have removed |
| Survivors.ChargeCoversSurvivors | server/src/lagaam/adapters/pinot/engine.py:806-834 | however the pruned segments split into consuming and sealed, the sealed survivors are at most max(1, k) |
| Survivors.QuoteChargesEverySurvivor | server/src/lagaam/adapters/pinot/quote.py:105-110 | so the number of segments the quote charges is at least the number that can be read |
| Survivors.ChargeIsAttained | server/src/lagaam/adapters/pinot/response.py:206-253 | when not everything was pruned, some split leaves exactly k sealed survivors, so no smaller k is safe |
| ScanSoundness.PriceCoversTouchedIff | server/src/lagaam/adapters/pinot/quote.py:113-144 | the price of a segment covers the stored bytes of every scan of the referenced columns if and only if nothing is hidden: some column was resolved, or none of the referenced ones is listed, or none of their bytes is left out |
| ScanSoundness.UnlistedColumnIsNotCharged | server/src/lagaam/adapters/pinot/quote.py:128-144 | with no schema and one of two referenced columns listed, that one alone is charged where both are read |
| ScanSoundness.RequestedHidesNothing | server/src/lagaam/adapters/pinot/engine.py:447-450 | facts built from the metadata asked for hide nothing: with no column resolved the request names none and none is listed |
| ScanSoundness.RowsCovered | server/src/lagaam/adapters/pinot/quote.py:26-47 | every allowed scan of segments with at most the reported docs and thresholds reads at most the quoted rows, whatever its bytes |
| ScanSoundness.ProjectionCovers | server/src/lagaam/adapters/pinot/quote.py:162-200 | a consuming segment within its threshold and no denser than some sealed one is within its projection |
| ScanSoundness.BytesCovered | server/src/lagaam/adapters/pinot/quote.py:50-78 | every allowed scan of a table whose bytes are as described touches at most the quoted bytes |
| TableReports.ReadColumnBytes | server/src/lagaam/adapters/pinot/metadata.py:551-575 | every named column with an index map, at its total, a later entry of the same name replacing an earlier one |
| TableReports.SegmentFacts | server/src/lagaam/adapters/pinot/metadata.py:168-205 | one fact for every named body that does not carry all four marks of a consuming segment, and no other |
| TableReports.PricedIff | server/src/lagaam/adapters/pinot/metadata.py:168-205 | a body makes a fact if and only if it speaks for some segment by stated name or key and does not report no documents, no columns, the consuming CRC and a size of -1 all together |
| TableReports.ColumnBytesAre | server/src/lagaam/adapters/pinot/metadata.py:551-575 | each name once, at the bytes of its last entry that carries any |
| TableReports.FactIsExact | server/src/lagaam/adapters/pinot/metadata.py:168-205 | the docs, the reported size and the column bytes of a fact, each known if and only if the documents report it and not negative |
| TableReports.BuildFacts | server/src/lagaam/adapters/pinot/metadata.py:466-503 | the facts of a table, complete exactly when no sealed segment of the size report is missing |
| TableReports.CompleteIffSpokenFor | server/src/lagaam/adapters/pinot/metadata.py:267-311 | where every body is listed under the name it states, complete means that a priced body speaks for every sealed segment of the size report |
| TableReports.CrossedNamesCountTwice | server/src/lagaam/adapters/pinot/metadata.py:283-311 | a body listed under one sealed name and stating another makes both complete and prices one |
| TableReports.TableRowsCovered | server/src/lagaam/adapters/pinot/quote.py:26-47 | a row quote built from the documents covers every read of the table they are about; where the metadata left a sealed segment out there is none |
| TableReports.TableBytesCovered | server/src/lagaam/adapters/pinot/quote.py:50-78 | and so does a byte quote, where the documents report the bytes as the adapter asked for them |
| TableReports.FactsHoldTableIff | server/src/lagaam/adapters/pinot/metadata.py:168-205 | a row quote covers every table the documents could be about if and only if some body goes by the name of every sealed segment of the size report |
| ReadCounts.ReadWalk.Walk | server/src/lagaam/core/scans.py:1819-1850 | with budget left the memoised walk returns the inlining multiset of a subtree; the budget only falls |
| ReadCounts.ReadWalk.CostOf | server/src/lagaam/core/scans.py:1833-1845 | a name's bodies are walked once per (name, pending): the memo holds exactly their reads, and a second call spends nothing and changes nothing |
| ReadCounts.CountedReads | server/src/lagaam/core/scans.py:1802-1864 | unsaturated counts are the inlining multiset; they are saturated if and only if the walk, remembering what it has walked, takes 10,000 steps or more or some table is read over 1,000,000 times |
| ReadCounts.SpendingAtMostSteps | server/src/lagaam/core/scans.py:1833-1845 | remembering never takes more steps than walking every reference anew |
| ReadCounts.ReadsInlineBelow | server/src/lagaam/core/scans.py:1802-1864 | for a query that may name only the first m CTEs, the reads are the occurrences after writing those out |
| ReadCounts.ReadsAreInlinedOccurrences | server/src/lagaam/core/scans.py:1802-1864 | with names bound once and each body naming earlier ones only, every table is counted exactly as often as it occurs in the fully inlined query |
| Admission.ChargeIsOwed | server/src/lagaam/adapters/pinot/engine.py:389-401 | the charges of a repeated list add up exactly when every table's part is known, to each part times its reads, once at least |
| Admission.QuoteIsOwed | server/src/lagaam/adapters/pinot/engine.py:389-401 | the estimate of the repeated list, dimension by dimension |
| Admission.OwedByTable | server/src/lagaam/adapters/pinot/engine.py:389-401 | what is owed, table by table: its part as often as it is read, and once where it was not counted |
| Admission.QuoteCoversRows | server/src/lagaam/adapters/pinot/engine.py:389-401 | the quoted rows cover every execution of the inlined query, all its reads together, whatever the bytes |
| Admission.QuoteCoversBytes | server/src/lagaam/adapters/pinot/engine.py:389-401 | and the quoted bytes, where the tables' bytes are as described |
| AdmittedQueries.PrunedIsAllowed | server/src/lagaam/adapters/pinot/engine.py:806-834 | a scan pruned as the EXPLAIN allows is one the quote charged for |
| AdmittedQueries.AdmittedScansFit | server/src/lagaam/core/budget.py:114-163 | end to end from the EXPLAIN: what the gate admits scans, over all its inlined reads pruned as the EXPLAIN allows, no more rows than the row ceiling, and no more bytes than the byte ceiling where the tables' bytes are as the reports describe them |
| AdmittedQueries.ReadScansAreWithin | server/src/lagaam/adapters/pinot/engine.py:860-866 | scans that emit rows of an allowed read stay within the leaf bounds the plan is priced with, whatever their bytes |
| AdmittedQueries.PlanIsWithin | server/src/lagaam/adapters/pinot/engine.py:850-917 | the number a plan is priced at, from the facts and the catalog, bounds every node of every run they allow |
| AdmittedQueries.AdmittedPlansFit | server/src/lagaam/core/budget.py:149-163 | end to end from the table facts, the catalog documents and the plan: under an intermediate-row ceiling the gate admits no query with a plan node wider than the ceiling, by itself or times the generator multiplier |
| AdmittedQueries.AdmittedRowsFit | server/src/lagaam/core/budget.py:149-163 | what the generators multiply the counted rows into stays under the same ceiling, where the plan counts the tables of the branches |
| AdmittedQueries.AdmittedMirrorsFit | server/src/lagaam/core/budget.py:149-163 | the same of any plan with a node that, written out, crosses the tables of each branch: what that node is charged is then proved |
| Admission.AdmittedIffKnownAndWithin | server/src/lagaam/core/budget.py:114-163 | a query is admitted if and only if nothing is gated, or its shape is priceable, all tables' bytes are known and each gated dimension is wholly known and within its ceiling |
| Admission.IncompleteIsDenied | server/src/lagaam/core/budget.py:114-163 | with the metadata of one table incomplete, the gate opens if and only if no dimension is gated |
| Batching.StretchFits | server/src/lagaam/adapters/pinot/engine.py:700-707 | any contiguous part of a batch that fits fits too |
| Batching.GreedyIsSplit | server/src/lagaam/adapters/pinot/engine.py:646-692 | greedy batches are non-empty, each fits, and together they are the names in order |
| Batching.GreedyIsFewest | server/src/lagaam/adapters/pinot/engine.py:646-692 | no contiguous split into fitting batches has fewer batches |
| Batching.AllGreedyIsFewest | server/src/lagaam/adapters/pinot/engine.py:646-692 | nor does any split server by server |
| Batching.JoinName | server/src/lagaam/adapters/pinot/engine.py:675-687 | one step of the inner loop: the running size stays the size of the batch in hand, and what is done so far stays a prefix of the greedy answer |
| Batching.BatchServer | server/src/lagaam/adapters/pinot/engine.py:672-691 | one server's names appended greedily, or None because a name alone is too long or the count is over the cap |
| Batching.MetadataBatches | server/src/lagaam/adapters/pinot/engine.py:646-692 | an answer if and only if there is something to ask, no name alone is too long and the greedy split needs at most 21 batches; it is then that split |
| Batching.EveryBatchFits | server/src/lagaam/adapters/pinot/engine.py:646-707 | every request is at most 6144 bytes, and the batches together are every server's names in order |
| Batching.BytesAreRequest | server/src/lagaam/adapters/pinot/engine.py:694-725 | what is measured for a batch is the length of its request: the path, the bulk query and one repeated parameter a name, joined by ampersands |
| Batching.EveryRequestFits | server/src/lagaam/adapters/pinot/engine.py:646-725 | so every request made is at most 6144 bytes long |
| Batching.TooLongIffRequest | server/src/lagaam/adapters/pinot/engine.py:676-679 | a name is given up on exactly when the request for it alone is longer than that |
| MetadataFetch.AssignMissing | server/src/lagaam/adapters/pinot/metadata.py:340-358 | the shares are those of the recursive definition |
| MetadataFetch.ShareOfFirstHolder | server/src/lagaam/adapters/pinot/metadata.py:340-358 | a missing name is in a server's share if and only if that server holds it and no earlier one does |
| MetadataFetch.SharesCoverHeld | server/src/lagaam/adapters/pinot/metadata.py:340-358 | the shares together are exactly the missing names some server holds |
| MetadataFetch.AskUntilWhole | server/src/lagaam/adapters/pinot/engine.py:616-643 | the requests made and the outcome are exactly what the replies amount to: whatever a short reply leaves out is asked for again, at most three requests in all, each within the length cap, and nothing is asked once a reply is unreadable or nothing is outstanding |
| MetadataFetch.BatchSucceedsIff | server/src/lagaam/adapters/pinot/engine.py:616-643 | a batch succeeds if and only if, within three replies, readable ones hold every name of it between them |
| MetadataFetch.AskAll | server/src/lagaam/adapters/pinot/engine.py:606-611 | the batches in turn: requests and outcome are exactly what the replies amount to, and the first batch to fail ends the fetch |
| MetadataFetch.MergeOnlyAdds | server/src/lagaam/adapters/pinot/metadata.py:361-376 | merging never makes a sealed segment missing that the bulk answer had |
| MetadataFetch.MissingIffNoBody | server/src/lagaam/adapters/pinot/metadata.py:283-311 | a name is missing if and only if the size report gives it a size and no body is listed under it or states it |
| MetadataFetch.CompleteIffAllBodies | server/src/lagaam/adapters/pinot/metadata.py:267-280 | nothing is missing if and only if every sealed segment of the size report has such a body |
| MetadataFetch.BodyAfterIff | server/src/lagaam/adapters/pinot/metadata.py:361-376 | after merging a name has a body if and only if some key, by the bulk answer where it speaks and by the last other answer where not, holds one listed under the name or stating it |
| MetadataFetch.FetchedBodyStands | server/src/lagaam/adapters/pinot/metadata.py:361-376 | a body fetched under its name stands where the bulk answer says nothing under that name |
| MetadataFetch.NullInBulkStays | server/src/lagaam/adapters/pinot/metadata.py:361-376 | a null entry of the bulk answer outlives any fetch of that name |
| MetadataFetch.FetchMissing | server/src/lagaam/adapters/pinot/engine.py:593-614 | the holders are asked for once; with the batches and retries at most 64 requests against any controller, and the outcome is exactly what its listing and replies amount to |
| MetadataFetch.FetchedHoldsAsked | server/src/lagaam/adapters/pinot/engine.py:593-614 | a fetch that succeeds holds every missing name some server holds |
| MetadataFetch.CompleteSegmentMetadata | server/src/lagaam/adapters/pinot/engine.py:535-614 | nothing is asked if and only if every sealed segment of the size report has a body in the bulk answer, and a name is asked for only if it is sealed and has none; at most 64 requests; the document is decided by the listing and the replies: the bulk answer as it was when the fetch comes to nothing, else the fetched answers under the entries of the bulk one, where every body fetched under a name the bulk answer is silent on stands, and nothing new is missing |
| CteScope.TraversalBindsByEnv | server/src/lagaam/core/allowlist.py:60-103 | a reference is bound by the top-down traversal if and only if it is a bare name in its node's environment |
| CteScope.EnvIsScope | server/src/lagaam/core/allowlist.py:60-103 | lexical scoping told by place: a name is bound at a node if and only if an item of an enclosing WITH list declares it and the node is in the query outside the list, in a later item, or in that very item of a RECURSIVE list |
| CteScope.FirstIndexIs | server/src/lagaam/core/allowlist.py:79-86 | the declared table holds exactly the aliases of the list, each at its first position |
| CteScope.Resolver.Declared | server/src/lagaam/core/allowlist.py:79-86 | computed the first time a WITH clause is met and remembered unchanged ever after |
| CteScope.VisibleHere | server/src/lagaam/core/allowlist.py:87-101 | one step of the walk answers for its WITH clause exactly what the environment at that node adds over its parent's |
| CteScope.StepUp | server/src/lagaam/core/allowlist.py:102-103 | a step upward that finds nothing leaves the question unchanged |
| CteScope.Resolver.CteInScope | server/src/lagaam/core/allowlist.py:60-103 | the upward walk answers true if and only if the environment at the reference binds its name |
| CteScope.CheckTablesAllowed | server/src/lagaam/core/allowlist.py:18-57 | it passes exactly when every reference is bound or spells a granted name, and a denial names one that is neither |
| CteScope.PermittedIff | server/src/lagaam/core/identifiers.py:30-75 | a reference is let through if and only if it is one name bound that way, or three plain non-empty ASCII names that spell, up to case, a lowercase name of the grant |
| CteScope.GrantMatchesPartwise | server/src/lagaam/core/identifiers.py:57-75 | matching the joined spelling is matching part by part: no dot inside a part can imitate a boundary |
| CteScope.UnboundReferencesAreGranted | server/src/lagaam/core/allowlist.py:36-57 | after a pass, every reference not bound to a CTE is a three-part name whose folded parts are one grant's |
| BracketScanner.Find | server/src/lagaam/core/safety.py:90-101 | the first occurrence from a position, or -1 |
| BracketScanner.ScanLiteral | server/src/lagaam/core/safety.py:81-89 | one step inside a literal: a doubled quote stays inside, a single one leaves |
| BracketScanner.BracketDepth | server/src/lagaam/core/safety.py:54-114 | the scanner refuses exactly when the lexer ends inside a literal or block comment, and otherwise returns the largest prefix excess of the code brackets |
| BracketScanner.InsertionIsInvisible | server/src/lagaam/core/safety.py:54-114 | a space-padded whole literal or ended comment inserted where code stands changes neither the brackets nor the refusal |
| BracketScanner.TooDeeplyNested | server/src/lagaam/core/safety.py:117-132 | the explicit-stack loop answers true if and only if the tree is deeper than 100 |
| BracketText.EveryTextIsTokens | server/src/lagaam/core/safety.py:54-114 | every text is a run of whole literals, comments and characters of code, and a tail |
| BracketText.ScannedByPieces | server/src/lagaam/core/safety.py:54-114 | what the scanner answers on such a text: the quote or comment its tail is inside, or the deepest nesting of the brackets among its characters of code |
| BracketText.InsertionByPieces | server/src/lagaam/core/safety.py:54-114 | a literal or comment put with spaces between any two pieces of any text leaves brackets and refusal as they were |
| BracketText.DeepIffLongPath | server/src/lagaam/core/safety.py:117-132 | a tree is too deep if and only if some way down from its root is more than 100 steps long |
| TableCache.RunKeepsInvariant | server/src/lagaam/core/caching.py:53-85 | over any interleaving: bounded, one entry a key, every entry an earlier answer for its key at its time |
| TableCache.CacheStaysBounded | server/src/lagaam/core/caching.py:76-85 | the table never exceeds max_entries |
| TableCache.KeysAgreeIff | server/src/lagaam/core/caching.py:67-67 | two requests share a key if and only if their catalogs, schemas and tables agree letter by letter up to case |
| TableCache.ServedValuesAreRecentAnswers | server/src/lagaam/core/caching.py:63-74 | every value served is the latest engine answer for the table asked for, named alike up to case, and stored at most ttl before |
| TableCache.LookupIsServedIff | server/src/lagaam/core/caching.py:63-70 | a lookup is served if and only if an entry for that table, named alike up to case, is in the cache and at most ttl old |
| TableCache.FreshEntriesGoLast | server/src/lagaam/core/caching.py:76-85 | a fresh entry is evicted only when everything kept is fresh, later stored, and exactly fills the room |
| TableCache.NothingEvictedWithRoom | server/src/lagaam/core/caching.py:76-79 | nothing is evicted while there is room, or for a table already held |
| TableCache.Cache.constructor | server/src/lagaam/core/caching.py:25-37 | an empty, valid cache |
| TableCache.Cache.Lookup | server/src/lagaam/core/caching.py:63-70 | a lookup is a step of the state machine: a fresh entry is served, anything else is a miss, and nothing is stored |
| TableCache.Cache.Sweep | server/src/lagaam/core/caching.py:80-82 | keeps exactly the entries fresh at the reading taken for each |
| TableCache.Cache.Trim | server/src/lagaam/core/caching.py:83-85 | drops from the front until there is room for one |
| TableCache.Cache.EvictFor | server/src/lagaam/core/caching.py:76-85 | nothing when the key is held or there is room, else sweep and trim |
| TableCache.Cache.Finish | server/src/lagaam/core/caching.py:71-74 | an answer evicts and stores as one step; a failure stores nothing |
| Sequences.LengthIsExactIffPointing | server/src/lagaam/core/scans.py:1641-1669 | numbers, dates and fixed-day intervals: the computed length is the number of elements stepped through if and only if the step points from start to end, and is never less |
| Sequences.LengthIffReadable | server/src/lagaam/core/scans.py:1641-1700 | a length is computed if and only if both ends are known and the step is a non-zero number, none, or a positive whole number of days or weeks |
| Sequences.ElementsAreSteps | server/src/lagaam/core/scans.py:1641-1669 | the elements are the steps from the start that do not pass the end |
| Generators.MultipliesItsBranch | server/src/lagaam/core/scans.py:1146-1189 | the upward loop answers exactly what the recursive way up does: a value in a select list, a scope that narrows what it built alone and a predicate stop the rows |
| Generators.ScopeLandsInOneRow | server/src/lagaam/core/scans.py:1192-1235 | the same for the stricter question, with the table met on the way carried along |
| Generators.TableReader.Asks | server/src/lagaam/core/scans.py:306-344 | the memo with its provisional "no" answers exactly as the plain recursion |
| Generators.GeneratorWalk.Product | server/src/lagaam/core/scans.py:347-491 | given how each name or call feeding a generator resolves, the walk returns the specified product, or None with it, and leaves the specified budget |
| Generators.GeneratorWalk.VisitNodes | server/src/lagaam/core/scans.py:391-427 | the node pass, given those resolutions: one step a node, a generator's resolution and size charged, unmet generators skipped when pricing, and the series inside counted ones remembered |
| Generators.GeneratorWalk.ApplySeries | server/src/lagaam/core/scans.py:429-448 | the loose-series pass |
| Generators.GeneratorWalk.ApplyReferences | server/src/lagaam/core/scans.py:448-491 | the reference pass: a name is walked once and applied once per reference |
| Generators.GeneratorWalk.WidestBinding | server/src/lagaam/core/scans.py:455-487 | a name costs its dearest body |
| Generators.HasUnpriceableShape | server/src/lagaam/core/scans.py:166-183 | the refusal loop over the branches |
| Generators.Fanout | server/src/lagaam/core/scans.py:251-267 | the pricing loop over the branches, 1 when some product is None |
| Generators.MeetsPassesUp | server/src/lagaam/core/scans.py:1146-1189 | what lies inside a generator meets the branch only if the generator does |
| Generators.ProductAhead | server/src/lagaam/core/scans.py:347-491 | two runs of one tree: if the refusal run has a product, so has the pricing run, no larger and with no less budget left |
| Generators.UnrefusedIsPriced | server/src/lagaam/core/scans.py:146-267 | if no branch is refused the multiplier is read |
| Generators.FallbackIsRefused | server/src/lagaam/core/scans.py:250-267 | whenever the multiplier falls back to 1, the same query was refused |
| Generators.FanoutIsPositive | server/src/lagaam/core/scans.py:251-267 | the multiplier is at least 1 |
| GeneratorCaps.MultipliesIff | server/src/lagaam/core/scans.py:1146-1189 | rows multiply their branch if and only if no step up from them goes to a predicate, out of a select list, or to a scope that narrows what it built alone |
| GeneratorCaps.LandsIff | server/src/lagaam/core/scans.py:1192-1235 | the stricter loop finds a one-row landing if and only if some ancestor below no predicate is one, with no table beside the rows on the way |
| GeneratorCaps.MetIff | server/src/lagaam/core/scans.py:270-303 | a reference meets a table if and only if at every step up FROM or a join puts the rows beside it |
| GeneratorCaps.BoundedIff | server/src/lagaam/core/scans.py:1255-1281 | a generator passes if and only if it has inputs and each is a list of at most 1000, a readable sequence within 1000, or within 10,000,000 where a table prices it, or was so resolved |
| GeneratorCaps.ReadsIff | server/src/lagaam/core/scans.py:306-344 | a subtree reads a table if and only if some node of it is one, or a name, unbound or with a body that reads one |
| GeneratorCaps.NamedCostIs | server/src/lagaam/core/scans.py:448-491 | what a name met for the first time costs: the product of its body, one at least, and one where the body narrows what it built without a table |
| GeneratorCaps.ProductIsCapped | server/src/lagaam/core/scans.py:347-491 | whatever product is read is at most 10,000,000 |
| GeneratorCaps.RefusedIff | server/src/lagaam/core/scans.py:166-183 | a query is refused if and only if the product of some branch, walked with what earlier ones left of the budget, cannot be read, or is over 1000 with no table read |
| GeneratorCaps.MultiplierIs | server/src/lagaam/core/scans.py:251-267 | the multiplier is the largest product of a table-reading branch, one at least, and there is none if and only if some such product cannot be read |
| GeneratorCaps.FanoutIs | server/src/lagaam/core/scans.py:234-267 | a query's multiplier, walked in 10,000 steps: 1 if the product of some table-reading branch cannot be read, else the largest of them, one at least |
| GeneratorCaps.GeneratesRowsIff | server/src/lagaam/core/scans.py:146-183 | a query is refused if and only if some branch is one to refuse, walked with what those before it left of 10,000 steps |
| GeneratorTotals.RowsAreWidest | server/src/lagaam/core/scans.py:1703-1741 | a generator makes as many rows as the widest literal list, readable sequence or followed column anywhere under it, one at least |
| GeneratorTotals.NodesReadIff | server/src/lagaam/core/scans.py:384-427 | the pass over the nodes reads a product if and only if the steps are fewer than the budget, every generator is bounded and the counted rows multiply to at most 10,000,000; whatever their order |
| GeneratorTotals.SeriesReadIff | server/src/lagaam/core/scans.py:429-448 | the pass over loose series multiplies their lengths on, if and only if each is readable and within its cap and the whole within 10,000,000 |
| GeneratorTotals.ReferencesReadIff | server/src/lagaam/core/scans.py:449-491 | each name is walked where first met and charged once per reference; an answer if and only if every name costs something and the whole is within 10,000,000 |
| GeneratorTotals.DearestIs | server/src/lagaam/core/scans.py:454-487 | a name costs what its dearest body costs, one at least, if and only if every body of it can be read |
| GeneratorTotals.ProductReadIff | server/src/lagaam/core/scans.py:347-491 | the product of a subtree: when there is one, what it is, and what is left of the budget |
| Fanout.BuiltIsProduct | server/src/lagaam/core/scans.py:234-267 | what the engine builds is what the plan counts times what the generators make, CTEs written out at each reference |
| Fanout.ProductIsCounted | server/src/lagaam/core/scans.py:347-491 | a product that is read is exactly the product of what the branch's generators and loose series are counted as making, CTEs written out |
| Fanout.GeneratorIsExactIff | server/src/lagaam/core/scans.py:1703-1741 | a literal generator makes at most what it is counted for, and exactly that if and only if some list, or some sequence that points towards its end, is that long |
| Fanout.MadeIsCountedIff | server/src/lagaam/core/scans.py:347-491 | the same for a whole branch, through every CTE it references |
| BranchRows.EmitsArriving | server/src/lagaam/core/scans.py:1146-1189 | the rows a node hands up, by what it does with the rows under it (a FROM or a join crosses them, a select list and a predicate do not, a scope that narrows what it built alone hands on one), are the product of what is made at the nodes whose rows arrive there |
| BranchRows.EmitsIsTally | server/src/lagaam/core/scans.py:234-267 | so a branch of literal generators builds, and its plan counts, just what meets the branch |
| BranchRows.FanoutIsExactIff | server/src/lagaam/core/scans.py:234-267 | for such a branch the multiplier times the rows its plan counts is never below the rows really built, and where the plan counts any equals them if and only if everything counted points towards its end |
| BranchRows.FanoutCoversUnion | server/src/lagaam/core/scans.py:234-267 | an unrefused UNION ALL of such branches, each reading a table, builds at most the fanout times the sum of the plan counts |
| BranchRows.LiteralBranchIsPriced | server/src/lagaam/core/scans.py:146-267 | a table-reading branch of literal generators within the caps (1000 elements, 10,000,000 where a table is joined), crossing to at most 10,000,000 in under 10,000 steps, is never refused and its multiplier is read |

## Left out

- HTTP, deadlines, the Trino and Pinot clients, the MCP server, environment parsing and error texts. The
  controller is a `Controller` object that may answer anything; a transport failure is one of its answers.
- Parsing and rendering of SQL and of JSON: trees, plan nodes and documents are datatypes with optional fields.
  A JSON value of the wrong shape is the absent or unreadable case of its field.
- `relOp` strings: operators are constructors. Ungrouped aggregates emit a row over nothing and are not in the
  semantics; operators other than those of `Rels.Op` have no run.
- PlanSoundness.PlanBoundIsSound: a run in which a scan has inputs, or a node without inputs is neither a scan nor
  a list of values, is no run of the semantics; the planner writes neither. A
  correlate charged less than the largest loop of its sides' row counts is not covered (`LoopsAreCharged`): the charge
  is too low there.
- PlanEvidence.CatalogEvidenceHolds: keys of one-segment tables only. Upsert primary keys (keys.py:420-468) and the
  nesting of the broker's pruning counters are measured facts about Pinot, hypotheses here (`Execution.Respects`,
  `Survivors.Explains`). That the EXPLAIN of a SELECT of bare names gives each field the column of its name, and
  that a scan's columns are in schema order, is part of `PlanEvidence.TrueOf`.
- ScanSoundness.BytesCovered: that a consuming segment is no denser than some sealed segment of its table is a hypothesis
  (`ScanSoundness.NoDenser`); the code projects from the same premise. So is that the size and column reports describe
  the stored bytes and, for facts not built by `table_facts`, that no segment hides referenced ones (`DescribesBytes`).
- TableReports.TableBytesCovered: the same premises, for the real sealed segments.
- TableReports.SegmentFacts: the order of a JSON object's members is not modelled, and a segment named in both halves of the size
  report has one size. Start and end times (metadata.py:199-200) price nothing.
- TableReports.BuildFacts: the consuming count and thresholds come from other documents (metadata.py:208-264, 506-526) and are parameters.
- ScanSoundness.RowsCovered: a sealed segment is assumed to hold no more rows than its reported docs, and a consuming one to
  be within its own stored threshold.
- AdmittedQueries.AdmittedScansFit: the read counts are those of a query with WITH at the top, names bound once, each body naming
  earlier CTEs only. Shadowed and self-naming CTEs are counted by the code but not claimed exact.
- BranchRows.FanoutIsExactIff: branches over literal lists and series only, and CTEs bound once to such bodies that do not narrow.
  A scope that narrows what it built alone hands on one row: how many groups a GROUP BY makes is the plan's to count.
  The three questions put to a select alone (scans.py:514-576, 1113-1143) and the resolution of a generator's column or
  call (scans.py:1542-1638) are recorded answers and step counts on the node.
- Generators.GeneratorWalk.Product: following a name or a call that feeds a generator (scans.py:1542-1638) is not modelled: whether it
  is bounded, how many rows it stands for and the steps that takes are recorded on its node.
- Generators.GeneratorWalk.VisitNodes: the same recorded resolutions.
- AdmittedQueries.AdmittedRowsFit: that some plan node counts the branches' table rows is a hypothesis; `AdmittedMirrorsFit` derives it.
- AdmittedQueries.AdmittedMirrorsFit: that some plan node crosses the tables each branch crosses is a hypothesis, since the plan
  comes from the engine's own planner. A join with a side proved unique is not written out; its charge is below the
  cross product.
- MetadataFetch.CompleteSegmentMetadata: an answer may carry a name with a null body, which counts as answered and may still be
  missing, so the table is not claimed complete. The ten-second deadline is not modelled.
- CteScope.Resolver.CteInScope: identifiers fold case as ASCII does; the code's folding of other letters is not modelled, and a
  reference part that is not ASCII is refused by `TableFqn` as the code does.
- TableCache.ServedValuesAreRecentAnswers: `max_entries` is at least 1. With 0 or less the eviction loop of the code raises
  on an empty table. Key folding is ASCII. The catalogue cache (caching.py:56-61) has one entry and no eviction
  and is not modelled.
- BracketScanner.InsertionIsInvisible: the insertion point is one the lexer reaches as code with every earlier line comment ended.
  Inside a literal or comment an insertion is of course visible.
- `_clamp_limit` and the rest of `validate_query`: they edit the parser's own tree.
- `adapters/trino`: its row numbers are the optimizer's estimates, and no data semantics bounds them.
- `core/audit.py`, `core/cards.py`, `core/verification.py`, `core/cost.py`, `core/query_errors.py`: formatting.
