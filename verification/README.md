# Verified models of the diff engine's core algorithms

IntentumDiff compares two versions of a source tree or an image and reports edits. Its passes pair nodes, rewrite and
drop raw edits, route files to parsers, parse Git and command-line text, and cache results. This project models the
passes whose mistakes would lose, invent or mislabel an edit, and proves what each of them keeps. Imperative code is
modelled by methods with the same loops and branches; each is proved equal to, or characterised by, a specification
function or predicate, and the results about all inputs or all runs are lemmas about that specification.

| file | models |
|---|---|
| `AssetRegions`, `PixelComparison` | changed-pixel regions, the area filter, masks and metrics of an image comparison |
| `FilenameSelection`, `FilenameProtocol`, `FilenameOrder` | the host and engine protocol that picks a parser for a file, re-derived from its event log on every call |
| `ClojureRename`, `ClojurePass`, `ClojureTerms` | the pass that replaces raw edits by parameter renames, against an evaluator and in plain terms |
| `Reorders`, `StatementUpdates`, `ContainerNoise` | passes that rewrite or drop edit drafts |
| `KeyedMatching`, `CallableRenames` | extending a node matching by identity keys and by renamed callables |
| `SymbolTables` | symbol and reference tables, and the difference of two symbol tables |
| `MarkdownReconcile` | replacing raw edits by proven section moves and renames, and renumbering the groups |
| `CommandLine`, `PathNames`, `JsonDepth`, `JsonTree`, `GitInventory`, `GitBatch` | readers of command lines and paths, JSON trees and Git output |
| `CacheKeys`, `CacheStore`, `CacheRegistry` | key encoding, table contents and eviction, and the registry shared by threads |
| `SemanticTree`, `Common` | the tree and draft types, stock definitions |

Where the code does less than its documentation says, the model follows the code, and the exact condition is proved:

- Parameter renames (draft_promotions.rs:218-225 calls them proof-gated): the pass also accepts names that are special
  forms, such as `(defn f [if] (if if if))`, and parameters that a form outside its list of excluded heads reads as
  syntax, such as `(defn f [a] (def a a))`. `Honest` is the condition on the old form under which meaning is kept, for
  any choice of special forms, syntax-reading forms and macros; `HonestIffSameMeaning` proves it exact,
  `RenamingASpecialFormChangesMeaning` and `RenamingADefinitionChangesMeaning` give the counterexamples.
- Command lines: a backslash and newline between words becomes an empty argument, where section 2.2.1 of the POSIX Shell
  Command Language removes it, and white space that is no blank, such as a no-break space, separates arguments.
  `ArgumentsAreFields` proves exactly when the arguments are the shell's fields.
- Paths: normalising is idempotent except where the normal form looks like a Windows path and still holds a backslash,
  as for `./c:\x` (`NormalizeTwice`, `SecondRunChanges`).
- Eviction: one run can leave the tables over the cap (`CapCanStayExceeded`); `CapMetIff` proves exactly when it does not.
- Wrapper suppression (draft_suppressors.rs:1142-1150): a childless `block` or `module` that is itself content loses its
  only draft. `CoverageKept` proves that this is the only way coverage is lost.
- Markdown phases: running moves and then renames can keep style evidence that running both at once drops, exactly when
  its old side lies in a move only and its new side in a rename only, or the other way round (`PhasesCompose`,
  `EvidenceCanCross`).
- Symbol renames: group keys join file, kind and scope with bars, so a bar in a file name can make a rename of two
  unrelated symbols (`BarsJoinGroups`); without bars the groups are exact (`RenamesAreAlike`).
- Structural hashes: a colon in a node kind can make different leaves hash alike (`ColonCollides`); without colons and
  bars in kinds the hash identifies the structure (`HashIsStructural`).
- Cache keys: the encoding is injective for parts below 2^32 bytes; at 2^32 the length wraps (`LongPartCollides`).

## Model

| member | source | states |
|---|---|---|
| AssetRegions.CollectRegions | crates/rust-core-host/src/asset_diff.rs:731-780 | the regions are exactly the 4-connected components of the mask: duplicate-free, disjoint, covering all true pixels, connected inside, closed outwards, with tight boxes, ordered by first pixel |
| AssetRegions.FloodFill | crates/rust-core-host/src/asset_diff.rs:739-770 | one breadth-first run collects the component of its start pixel and leaves other visited marks alone |
| AssetRegions.VisitNeighbours | crates/rust-core-host/src/asset_diff.rs:754-769 | marks exactly the unvisited lit neighbours of a pixel and queues each once |
| AssetRegions.CandidatesAreNeighbours | crates/rust-core-host/src/asset_diff.rs:754-759 | the four candidates that pass the border checks are neighbours inside the grid |
| AssetRegions.NeighboursAreCandidates | crates/rust-core-host/src/asset_diff.rs:754-759 | every neighbour inside the grid is one of the candidates that pass |
| PixelComparison.RegionIsComponent | crates/rust-core-host/src/asset_diff.rs:731-780 | a region lists the whole component of each of its pixels and nothing else |
| PixelComparison.SameRegionIffConnected | crates/rust-core-host/src/asset_diff.rs:731-780 | two pixels share a region exactly when a walk over lit pixels joins them |
| PixelComparison.RegionsAreUnique | crates/rust-core-host/src/asset_diff.rs:731-780 | the specification determines number, order, pixels and boxes of the regions |
| PixelComparison.FilterRegions | crates/rust-core-host/src/asset_diff.rs:716-729 | a pixel survives exactly when its component has at least the minimum area |
| PixelComparison.SurvivingComponent | crates/rust-core-host/src/asset_diff.rs:716-729 | a component passes the filter whole or not at all |
| PixelComparison.FilterComposes | crates/rust-core-host/src/asset_diff.rs:716-729 | filtering twice is filtering once at the larger area, so the filter is idempotent and shrinks as the area grows |
| PixelComparison.KeptRegionsCoverChangedPixels | crates/rust-core-host/src/asset_diff.rs:387-391 | the pixel counts of the kept regions add up to the reported changed pixels |
| PixelComparison.CountsSplit | crates/rust-core-host/src/asset_diff.rs:666-676 | the raw mask is the disjoint union of the filtered and the tiny mask, and so are the counts |
| PixelComparison.ScanPixels | crates/rust-core-host/src/asset_diff.rs:636-664 | the first pass computes the raw mask, its count and both error sums |
| PixelComparison.SumCoordinates | crates/rust-core-host/src/asset_diff.rs:677-690 | the second pass computes the changed count and the coordinate sums of the filtered mask |
| PixelComparison.ComparePixels | crates/rust-core-host/src/asset_diff.rs:628-714 | masks and metrics of a comparison, tied to the reference measurement of both images |
| PixelComparison.MetricsAreConsistent | crates/rust-core-host/src/asset_diff.rs:691-714 | mean absolute error is 0 exactly for images equal on the compared channels, never exceeds the root mean squared error, and the centroid lies in the unit square |
| PixelComparison.MeasuredSymmetric | crates/rust-core-host/src/asset_diff.rs:628-714 | comparing the other way round reports the same numbers |
| PixelComparison.RawMaskMeans | crates/rust-core-host/src/asset_diff.rs:644-661 | a pixel is raw-changed exactly when one side exceeds the other by more than the threshold on red, green, blue, or alpha unless alpha is ignored |
| PixelComparison.AbsSumIsRise | crates/rust-core-host/src/asset_diff.rs:652-655 | the absolute sum is the sum over the greater of each pair of compared channels less the sum over the lesser |
| PixelComparison.RisingLevel | crates/rust-core-host/src/asset_diff.rs:652-655 | where no compared channel falls, the absolute sum is the sum of all channels afterwards less the sum before |
| PixelComparison.SquareSumIsSquaredError | crates/rust-core-host/src/asset_diff.rs:652-657 | the squared sum adds up the squares of the signed channel differences of all pixels |
| PixelComparison.OneChannelChange | crates/rust-core-host/src/asset_diff.rs:652-657 | changing one channel of one pixel from x to y gives the squared sum (x-y)*(x-y) and the absolute sum of the two |
| PixelComparison.UniformChange | crates/rust-core-host/src/asset_diff.rs:690-701 | images that differ by exactly d on every compared channel have the mean absolute error d and the mean squared error d*d |
| PixelComparison.LonePixelIsCentroid | crates/rust-core-host/src/asset_diff.rs:677-711 | a single pixel left after the filter is the centroid, as shares of width and height |
| FilenameSelection.NextAction | crates/rust-core-host/src/filename_selection.rs:49-150 | one call re-derives from the log what the event-by-event machine answers, errors included |
| FilenameSelection.LoadPhase | crates/rust-core-host/src/filename_selection.rs:87-104 | the load loop of a phase answers like the machine |
| FilenameSelection.ProbePhase | crates/rust-core-host/src/filename_selection.rs:111-147 | hint matching, deferral and probing of a phase answer like the machine |
| FilenameSelection.SortBySorted | crates/rust-core-host/src/parser_routing.rs:35-42 | the sorting used for shortlists and ranking yields a sorted list of the same indices |
| FilenameSelection.Sample | crates/rust-core-host/src/filename_selection.rs:77-80 | the probe sample is the longest prefix of at most 2048 bytes that ends at a character boundary |
| FilenameSelection.SampleMeans | crates/rust-core-host/src/filename_selection.rs:77-80 | content of up to 2048 bytes is offered whole; otherwise the sample does not end in front of a continuation byte, and only continuation bytes are left out |
| FilenameProtocol.PrefixAsksForNext | crates/rust-core-host/src/filename_selection.rs:49-150 | every proper prefix of an accepted log asks for exactly the event that comes next |
| FilenameProtocol.OutcomeIsFinal | crates/rust-core-host/src/filename_selection.rs:39-42 | any extension of a log with an outcome is refused |
| FilenameProtocol.EachParserOnce | crates/rust-core-host/src/filename_selection.rs:88-127 | an accepted log loads and probes each parser at most once |
| FilenameProtocol.WaitingLogHasRoom | crates/rust-core-host/src/filename_selection.rs:50-52 | the bound on the log never refuses a log that is still waiting |
| FilenameProtocol.HonestReplyAccepted | crates/rust-core-host/src/filename_selection.rs:89-142 | a matching well-formed answer to what was asked is accepted |
| FilenameProtocol.ConversationTerminates | crates/rust-core-host/src/filename_selection.rs:49-150 | with every well-behaved host, over every catalogue, the conversation never errs and ends within two events per parser |
| FilenameProtocol.PhasesCover | crates/rust-core-host/src/filename_selection.rs:61-71 | without an explicit plugin every parser has its turn in some probing phase |
| FilenameProtocol.SelectionIsDeclared | crates/rust-core-host/src/filename_selection.rs:114-136 | a selected language was declared by the selected parser, or is its catalogue alias for the hint |
| FilenameOrder.LoadsInOrder | crates/rust-core-host/src/filename_selection.rs:58-87 | a parser is asked for only when every admitted parser of an earlier stage (hinted, file name matching, other specific, generic), and every one of its stage that outranks it, has been tried; a plugin admits its own entries only |
| FilenameOrder.DeclineBeforeNextLoad | crates/rust-core-host/src/filename_selection.rs:82-145 | before a parser of a later stage is asked for, every loaded and permitted parser whose probing stage is earlier has declined |
| FilenameOrder.ProbesInOrder | crates/rust-core-host/src/filename_selection.rs:105-127 | a parser is probed only when all admitted parsers of its stage and earlier ones have been tried, and every loaded and permitted one of an earlier stage or ahead of it by genericness, declared priority and identity has declined |
| FilenameOrder.ProbedWasLoaded | crates/rust-core-host/src/filename_selection.rs:105-128 | what is probed is admitted, loaded, permitted and has not declined; a plugin request with a hint never probes |
| FilenameOrder.HintDecides | crates/rust-core-host/src/filename_selection.rs:61-66 | a hint comes first: its parsers are loaded before all others; once all were tried, the first in rank that speaks the hint is selected with it, else a plugin or strict request ends with not found and any other goes on |
| FilenameOrder.NotFoundMeans | crates/rust-core-host/src/filename_selection.rs:145-149 | nothing is found only when every admitted parser was tried and every permitted one declined, or a strict or plugin hint failed; and under which identity |
| FilenameOrder.ClosedOutcome | crates/rust-core-host/src/filename_selection.rs:39-42 | a claimed language is selected, a failed probe or fatal load is handed back under its own number, and no other log ends in a failure |
| FilenameOrder.NextEvent | crates/rust-core-host/src/filename_selection.rs:89-142 | an accepted log takes exactly an honest reply to what it asked for; every other event has its own error |
| FilenameOrder.RefusedUnread | crates/rust-core-host/src/filename_selection.rs:50-55 | a log of more than twice as many events as entries, or an empty or repeated identity, is refused, and only then with these errors |
| FilenameOrder.FileNamesFirst | crates/rust-core-host/src/filename_selection.rs:67-69 | without plugin and hint, when a specific parser whose file name does not match is loaded, every specific one whose name matches has been tried and, if permitted and not generic by its own declaration, has declined |
| FilenameOrder.GenericProbedLast | crates/rust-core-host/src/filename_selection.rs:124-126 | without an explicit plugin, a parser that loaded as generic is probed only after every loaded permitted specific parser declined |
| FilenameOrder.PhasesAre | crates/rust-core-host/src/filename_selection.rs:55-71 | the phases are the stages: who belongs to each, and each in catalogue rank |
| ClojureRename.HonestPromotionSound | crates/rust-core-host/src/draft_promotions.rs:316-395 | under `Honest`, a promoted pair of forms has equal values on all arguments and environments, for every evaluator that is compositional outside the excluded heads and the nodes it reads as syntax |
| ClojureRename.HonestIffSameMeaning | crates/rust-core-host/src/draft_promotions.rs:316-395 | for every choice of special forms, syntax-reading forms and macros, `Honest` holds exactly when the free evaluator cannot tell the two forms apart |
| ClojureRename.RenameIsSymmetric | crates/rust-core-host/src/draft_promotions.rs:371-396 | inverting the map proves the rename from the new form back to the old one |
| ClojureRename.EqualInverse | crates/rust-core-host/src/draft_promotions.rs:316-331 | equality modulo a map with fresh targets is equality modulo the inverse the other way round |
| ClojureRename.NoExcludedIsPlain | crates/rust-core-host/src/draft_promotions.rs:263-314 | a form without excluded heads has none at any depth |
| ClojurePass.PromoteParameterRenames | crates/rust-core-host/src/draft_promotions.rs:226-436 | the pass returns the drafts outside promoted forms followed by one rename per changed parameter |
| ClojurePass.PromoteForm | crates/rust-core-host/src/draft_promotions.rs:352-405 | a form is promoted exactly when the guards, the freshness of every changed pair, the structural equality and the reported endpoints hold |
| ClojurePass.PairParameters | crates/rust-core-host/src/draft_promotions.rs:371-391 | the parameter loop finds the map, or stops at the first pair that is not fresh |
| ClojurePass.PassRemovesOnlyPromotedForms | crates/rust-core-host/src/draft_promotions.rs:429-436 | every draft is kept as often as it was there, except deletions and additions inside promoted forms |
| ClojurePass.PromotedFormsKeepMeaning | crates/rust-core-host/src/draft_promotions.rs:341-425 | each form whose raw edits are absorbed is a proved rename in both directions, and keeps its meaning under every reading for which `Honest` holds |
| ClojurePass.RenamingASpecialFormChangesMeaning | crates/rust-core-host/src/draft_promotions.rs:371-396 | `(defn f [if] (if if if))` becoming `(defn f [x] (x x x))` is promoted and changes meaning where `if` is a special form |
| ClojurePass.RenamingADefinitionChangesMeaning | crates/rust-core-host/src/draft_promotions.rs:263-314 | `(defn f [a] (def a a))` becoming `(defn f [b] (def b b))` is promoted, since `def` is no excluded head, and changes meaning where `def` reads its symbol as a name |
| ClojureTerms.PassInPlainTerms | crates/rust-core-host/src/draft_promotions.rs:341-436 | each result draft is an old draft, in the old order, that does not edit a promoted form, or the one refactoring of confidence 1.0 from the i-th old to the i-th new parameter of a promoted form where the names differ; none is missing and none repeated |
| ClojureTerms.PromotesIs | crates/rust-core-host/src/draft_promotions.rs:236-405 | the pass promotes exactly the pairs of only definitions of one name with nothing forbidden at any depth, one vector of plain distinct parameters each, fresh new names, and a new form that is the old one with the names substituted, all ends reported |
| ClojureTerms.ForbiddenIs | crates/rust-core-host/src/draft_promotions.rs:260-314 | the refused nodes are the reader quotes and the lists headed by a binding form, a quote, `case` under any name space, `doto` or a name with a leading dot |
| ClojureTerms.EqualModuloIs | crates/rust-core-host/src/draft_promotions.rs:316-331 | equality modulo a map is equality with the substituted old form, ids apart |
| Reorders.LongestIncreasingPositions | crates/rust-core-host/src/lib.rs:9372-9401 | returns positions of a strictly increasing subsequence, and no increasing subsequence is longer |
| Reorders.LengthsBound | crates/rust-core-host/src/lib.rs:9380-9390 | no increasing subsequence ending at a position is longer than its computed length |
| Reorders.OffStationaryIsFewest | crates/rust-core-host/src/draft_promotions.rs:2272-2281 | the members off a longest increasing subsequence are a smallest set whose removal leaves the rest in unchanged relative order |
| Reorders.PreservedIffIncreasing | crates/rust-core-host/src/draft_promotions.rs:2273-2275 | keeping relative order is being an increasing subsequence of the group sorted by old index |
| Reorders.FindMovers | crates/rust-core-host/src/draft_promotions.rs:2222-2281 | the movers are a smallest set for every parent's group |
| Reorders.SuppressLowSignalReorders | crates/rust-core-host/src/draft_promotions.rs:2198-2332 | same-identity reorders survive exactly as rewritten movers, the promoted indices are the positions of the new moves, and the suppressed count is the length difference |
| Reorders.NoIdentityReorderLeft | crates/rust-core-host/src/draft_promotions.rs:2285-2328 | no reorder of an entity with itself is left |
| Reorders.OthersSurvive | crates/rust-core-host/src/draft_promotions.rs:2286-2298 | the result draws its drafts from strictly ascending input positions: from every draft that is no same-identity reorder, unchanged, and from no such reorder but the movers |
| Reorders.SecondRunChangesNothing | crates/rust-core-host/src/draft_promotions.rs:2198-2332 | a second run suppresses and promotes nothing |
| Reorders.DraftFate | crates/rust-core-host/src/draft_promotions.rs:2285-2328 | a reorder of one entity that is no mover is dropped; a mover stands as a move at a promoted position, or as a modification at none if it is a decorator or an unnamed statement below a renamed symbol, with confidence at most 0.85 and never raised; every other draft stands unchanged |
| Reorders.MoversMayMove | crates/rust-core-host/src/draft_promotions.rs:2222-2262 | every mover is a reorder of one entity with both indices and of a kind that may move, or below a renamed symbol |
| Reorders.ExchangeLeavesMover | crates/rust-core-host/src/draft_promotions.rs:2264-2281 | of two siblings that may move and changed places, at least one stays as a mover, and exactly one if no third sibling is reordered |
| StatementUpdates.PromoteStatementUpdates | crates/rust-core-host/src/draft_promotions.rs:1470-1627 | the result is the unused drafts followed by one modification per pair, and the pairs are exactly those the two passes describe |
| StatementUpdates.PairPass | crates/rust-core-host/src/draft_promotions.rs:1523-1539 | a pass finds exactly the pairs whose keys occur once on both sides and lead to each other |
| StatementUpdates.BuildIndex | crates/rust-core-host/src/draft_promotions.rs:1490-1522 | the index maps each key to its positions |
| StatementUpdates.BothPassesUseOnce | crates/rust-core-host/src/draft_promotions.rs:1571-1594 | across both passes each deletion and each addition is used at most once |
| StatementUpdates.PromotionConserves | crates/rust-core-host/src/draft_promotions.rs:1595-1627 | every node is an old, or a new, endpoint of as many drafts as before, and the list shrinks by one per promotion |
| StatementUpdates.FirstPromotions | crates/rust-core-host/src/draft_promotions.rs:1523-1539 | a first-pass promotion joins unnamed statements of one type directly below a matched pair of parents |
| StatementUpdates.SecondPromotions | crates/rust-core-host/src/draft_promotions.rs:1576-1594 | a second-pass promotion joins unnamed statements of different types directly below a matched pair of parents |
| StatementUpdates.FirstPassPairs | crates/rust-core-host/src/draft_promotions.rs:1490-1539 | of a one-to-one matching, the first pass pairs a deletion and an addition exactly when each is the only unnamed statement of their common type directly below one matched pair of parents |
| StatementUpdates.SecondPassPairs | crates/rust-core-host/src/draft_promotions.rs:1541-1594 | the second pass pairs exactly the lone statements of different types below a matched pair of parents that the first pass did not use |
| StatementUpdates.UpdatesAre | crates/rust-core-host/src/draft_promotions.rs:1595-1627 | each promotion is a modification of confidence 0.9 from the deleted node to the added node, without indices or kind |
| ContainerNoise.SuppressContainerNoise | crates/rust-core-host/src/draft_suppressors.rs:1131-1220 | the result is the drafts that are not dropped, in order |
| ContainerNoise.IsSoleCarrier | crates/rust-core-host/src/draft_suppressors.rs:1189-1212 | the collected ids and leaves decide whether a wrapper is the only carrier of unmatched content |
| ContainerNoise.CollectSubtreeIds | crates/rust-core-host/src/draft_suppressors.rs:1124-1129 | adds exactly the ids of a subtree |
| ContainerNoise.CollectContentLeaves | crates/rust-core-host/src/draft_suppressors.rs:1112-1122 | adds exactly the content leaves of a subtree, in order |
| ContainerNoise.LeavesAreInSubtree | crates/rust-core-host/src/draft_suppressors.rs:1112-1122 | the collected leaves are the content leaves among all nodes of the subtree |
| ContainerNoise.DroppedIff | crates/rust-core-host/src/draft_suppressors.rs:1142-1212 | a block or module draft is dropped exactly when every content leaf below it is matched or lies in a draft of that side that is no wrapper |
| ContainerNoise.CoverageKept | crates/rust-core-host/src/draft_suppressors.rs:1131-1220 | an unmatched content leaf stays covered exactly when something other than a wrapper draft of that very leaf covered it |
| ContainerNoise.LabelledWrapperIsLost | crates/rust-core-host/src/draft_suppressors.rs:1205-1212 | a concrete childless module with a real label loses its only draft |
| ContainerNoise.OnlyNoiseIsDropped | crates/rust-core-host/src/draft_suppressors.rs:1131-1220 | the result is the list, in order, without exactly those added or deleted blocks and modules whose content leaves are all matched on their side or held by another draft there that is no block or module |
| KeyedMatching.AugmentResourceMatching | crates/rust-core-host/src/docker_resource.rs:182-256 | equals the kept positional matches extended by the first free candidate for each free keyed old node |
| KeyedMatching.ResourceMatching | crates/rust-core-host/src/docker_resource.rs:202-255 | for every positional matching the result is one-to-one, pairs equal keys, leaves no key unmatched on both sides, and a second run changes nothing |
| KeyedMatching.ResourcesPairInOrder | crates/rust-core-host/src/docker_resource.rs:224-254 | new pairs of a key join the n-th free old node with the n-th free new node, in tree order |
| KeyedMatching.KeptOfOneToOne | crates/rust-core-host/src/docker_resource.rs:205-222 | of a one-to-one matching exactly the pairs with equal keys survive |
| KeyedMatching.RecoverEntityPairs | crates/rust-core-host/src/entity_anchors.rs:138-224 | equals the same-key positional matches extended by the nearest free candidate for each free entity |
| KeyedMatching.EntityPairs | crates/rust-core-host/src/entity_anchors.rs:158-224 | from a one-to-one matching: one-to-one, key-equal, maximal, keeping every same-key match |
| KeyedMatching.RecoveredAreNearest | crates/rust-core-host/src/entity_anchors.rs:211-223 | each recovered pair takes a free candidate of its key with the least line distance among those free at that moment |
| KeyedMatching.NearestIsNearest | crates/rust-core-host/src/entity_anchors.rs:211-217 | the chosen candidate is the first of the nearest |
| KeyedMatching.AddProposals | crates/rust-core-host/src/entity_anchors.rs:290-309 | the `add` closure, over any run of proposals, accepts each whose nodes are both free and whose types allow it |
| KeyedMatching.ProposalsKeepOneToOne | crates/rust-core-host/src/entity_anchors.rs:290-309 | the matching only grows and stays one-to-one; an allowed proposal is refused only when a node is taken |
| CallableRenames.SeedRenamedCallables | crates/rust-core-host/src/callable_renames.rs:131-180 | appends exactly the contenders without a rival at either end, once each |
| CallableRenames.SeedsIgnoreOrder | crates/rust-core-host/src/callable_renames.rs:131-180 | which pairs are seeded does not depend on the order of enumeration |
| CallableRenames.SeedsKeepOneToOne | crates/rust-core-host/src/callable_renames.rs:170-179 | a one-to-one matching is extended to a one-to-one matching |
| CallableRenames.UniqueExactBodyIsSeeded | crates/rust-core-host/src/callable_renames.rs:159-169 | an exact body is seeded exactly when no other exact body touches it, whatever weaker candidates there are |
| CallableRenames.WeakSeedHasNoRival | crates/rust-core-host/src/callable_renames.rs:159-179 | a weaker pair is seeded only if every rival is itself displaced by an exact body elsewhere |
| SymbolTables.Extractor.ExtractSymbols | crates/index-engine-lib/src/lib.rs:449-482 | the walk pushes one entry per defining node in pre-order onto the table |
| SymbolTables.Extractor.ExtractReferences | crates/index-engine-lib/src/lib.rs:382-422 | the walk pushes one usage per referring node in pre-order, under the scope of its ancestors |
| SymbolTables.Extractor.BuildTables | crates/index-engine-lib/src/lib.rs:424-507 | both tables hold what the walks of all files push |
| SymbolTables.EntriesAreDefinitions | crates/index-engine-lib/src/lib.rs:449-482 | the k-th entry belongs to the k-th defining node and carries the joined labels of the definitions around it |
| SymbolTables.EveryDefinitionListed | crates/index-engine-lib/src/lib.rs:449-482 | every defining node of the tree is among those the walk enters |
| SymbolTables.TableHoldsDefinitions | crates/index-engine-lib/src/lib.rs:488-507 | the table holds under each name exactly one entry per defining node of that qualified name, file after file |
| SymbolTables.EnclosingScopeIsSymbol | crates/index-engine-lib/src/lib.rs:408-421 | every enclosing scope in the reference table is a key of the symbol table of the same files |
| SymbolTables.DiffSymbolTables | crates/index-engine-lib/src/lib.rs:519-687 | the moves are all pairs of definitions of one name in different files; the renames are the pairs that are alone in their group on both sides |
| SymbolTables.GroupNames | crates/index-engine-lib/src/lib.rs:630-659 | names of one table only, grouped by file, kind and parent scope |
| SymbolTables.DiffReversed | crates/index-engine-lib/src/lib.rs:519-687 | moves and renames from B to A are those from A to B turned around |
| SymbolTables.RenamedOnce | crates/index-engine-lib/src/lib.rs:661-687 | a symbol takes part in at most one rename |
| SymbolTables.RenamesAreAlike | crates/index-engine-lib/src/lib.rs:630-666 | where no file and no kind holds a bar, a rename joins a removed and an added name in one file, of one kind and scope, each the only such name on its side |
| SymbolTables.ScopeOfJoined | crates/index-engine-lib/src/lib.rs:449-482 | the scope that a group key finds in a joined name is the scope it was joined to, for labels without a dot |
| SymbolTables.GroupsAreAlike | crates/index-engine-lib/src/lib.rs:638-642 | definitions of one file, kind and scope share a group, and without bars in files and kinds only they do |
| SymbolTables.BarsJoinGroups | crates/index-engine-lib/src/lib.rs:638-666 | a concrete pair of symbols in different files whose group keys coincide and which is reported as a rename |
| MarkdownReconcile.Reconcile | crates/rust-core-host/src/markdown_review.rs:187-285 | the pass returns the retained and appended changes, the renumbered and appended groups and the remaining style evidence |
| MarkdownReconcile.DropOwned | crates/rust-core-host/src/markdown_review.rs:218-242 | keeps exactly the changes that no enabled move or rename owns, and maps old numbers to new ones |
| MarkdownReconcile.DroppedByLines | crates/rust-core-host/src/markdown_review.rs:220-238 | with proper positions, a deletion is dropped exactly when all its old lines lie in the old lines of one enabled move or on the old heading of one enabled rename, an addition likewise by its new lines, a modification when both sides lie on the headings of one enabled rename, and nothing else is |
| MarkdownReconcile.EvidenceOwned | crates/rust-core-host/src/markdown_review.rs:139-184 | style evidence is superseded exactly when both sides are well-formed, some side is nonempty, and the lines of some owned section hold each nonempty side |
| MarkdownReconcile.StartsAre | crates/rust-core-host/src/markdown_review.rs:163-165 | behind the first, the line offsets are, in ascending order, exactly the positions behind the line feeds |
| MarkdownReconcile.InLinesMeans | crates/rust-core-host/src/markdown_review.rs:139-184 | a byte range lies in a span of lines exactly when its first byte is on no earlier line than the first and its last byte on no later line than the last |
| MarkdownReconcile.RenumberGroup | crates/rust-core-host/src/markdown_review.rs:243-267 | a group stays unless it had changes and none survives; its numbers become those of the survivors |
| MarkdownReconcile.GroupsStayExact | crates/rust-core-host/src/markdown_review.rs:243-282 | every group of the result is an input group pointing at the same surviving changes in order, or a new group pointing at exactly the appended moves or renames |
| MarkdownReconcile.NumbersInBounds | crates/rust-core-host/src/markdown_review.rs:243-284 | every number of the result is in bounds, whatever numbers came in |
| MarkdownReconcile.GroupsKept | crates/rust-core-host/src/markdown_review.rs:211-252 | no other group is lost than those emptied or superseded |
| MarkdownReconcile.PhasesCompose | crates/rust-core-host/src/markdown_review.rs:204-284 | moves and then renames give the changes of both at once; style evidence agrees exactly when none crosses, and the groups exactly when no group crosses that keeps a change |
| MarkdownReconcile.EvidenceCanCross | crates/rust-core-host/src/markdown_review.rs:139-184 | between two concrete documents, with the line starts of each, style evidence has its old side in a moved section and its new side in a renamed one |
| CommandLine.CommandArguments | crates/rust-core-host/src/compile_context.rs:74-149 | the loop computes the tokenizer's outcome, both errors included |
| CommandLine.Turn | crates/rust-core-host/src/compile_context.rs:80-141 | one round of the loop, with the run of backslashes that Windows mode reads ahead |
| CommandLine.SpelledCommandSplits | crates/rust-core-host/src/compile_context.rs:99-140 | in POSIX mode, however its words are quoted, a spelled command splits into the values of its words |
| CommandLine.AcceptedExactlyWhenSpelled | crates/rust-core-host/src/compile_context.rs:74-149 | in POSIX mode a command is accepted exactly when it is a sequence of complete lexemes, and its arguments are theirs |
| CommandLine.BackslashInQuotes | crates/rust-core-host/src/compile_context.rs:99-109 | between double quotes a backslash escapes exactly a double quote, a backslash, a dollar sign and a back-quote, joins lines, and otherwise stands for itself |
| CommandLine.PosixRoundTrip | crates/rust-core-host/src/compile_context.rs:74-149 | every list of arguments, each in single or double quotes, is read back |
| CommandLine.WindowsRoundTrip | crates/rust-core-host/src/compile_context.rs:82-98 | every list of arguments survives backslash-doubling quotes, empty ones and runs of trailing backslashes included |
| CommandLine.ArgumentsAreFields | crates/rust-core-host/src/compile_context.rs:109-141 | the arguments are the shell's fields exactly when no word consists of line continuations alone and no white space outside quotes is anything but a blank or a newline |
| CommandLine.LoneContinuationIsAnArgument | crates/rust-core-host/src/compile_context.rs:109-116 | a lone line continuation is an empty argument, though no field |
| CommandLine.SpacesAre | crates/rust-core-host/src/compile_context.rs:132-141 | the separating characters are the 25 code points of White_Space |
| CommandLine.NoBreakSpaceSeparates | crates/rust-core-host/src/compile_context.rs:134-141 | a no-break space separates two arguments, where the shell keeps one field |
| PathNames.Normalize | crates/rust-core-host/src/compile_context.rs:11-42 | the loop computes the normal form: the lead of the path and the reduced pieces |
| PathNames.WindowsPathsAre | crates/rust-core-host/src/compile_context.rs:5-16 | which paths count as Windows paths, and that exactly in those a backslash separates pieces |
| PathNames.NormalizePreservesWalk | crates/rust-core-host/src/compile_context.rs:17-41 | from every directory of a tree without links, the normal form leads where the path led |
| PathNames.ReducedIsNormal | crates/rust-core-host/src/compile_context.rs:17-30 | no empty or dot names are left, and parent steps only in front of a relative path |
| PathNames.NormalizeTwice | crates/rust-core-host/src/compile_context.rs:11-42 | normalising twice is normalising once exactly unless the normal form looks like a Windows path and still holds a backslash; so it is for every path that looks like a Windows path or holds no backslash |
| PathNames.SecondRunChanges | crates/rust-core-host/src/compile_context.rs:11-42 | the second run changes what the first made of `./c:\x` |
| JsonDepth.PreScan | crates/rust-core-host/src/host_utils.rs:36-62 | stops at the first bracket that is too deep, so it accepts exactly the texts whose scan stays within the limit |
| JsonDepth.ScanFindsDepth | crates/rust-core-host/src/host_utils.rs:36-62 | on every JSON text the scan finds the nesting depth, whatever its strings contain |
| JsonDepth.ParsedNesting | crates/rust-core-host/src/host_utils.rs:63-69 | the parsed value nests no deeper than the text, and just as deep when no name is repeated |
| JsonDepth.Walk | crates/rust-core-host/src/host_utils.rs:70-85 | the stack walk accepts exactly the values within the depth and node limits |
| JsonDepth.EarlyRefusalIsSound | crates/rust-core-host/src/host_utils.rs:36-85 | without repeated names, whatever the scan refuses the walk would refuse; what the scan lets through exceeds the limit by at most one level |
| JsonTree.CheckShape | crates/rust-core-host/src/host_utils.rs:86-102 | the stack loop accepts exactly the trees whose nodes are all objects with textual kinds and labels and a list of children |
| JsonTree.NodesAre | crates/rust-core-host/src/host_utils.rs:86-102 | what one node must be: an object, textual wherever it has a kind or label, a list where it has children |
| JsonTree.StripLeavesNoTrivia | crates/rust-core-host/src/host_utils.rs:136-144 | what is left holds no trivia node and is as well shaped as before |
| JsonTree.StripKeepsTheRest | crates/rust-core-host/src/host_utils.rs:136-144 | every node that is not at or below trivia is kept, with its labels, in order |
| JsonTree.StripTwice | crates/rust-core-host/src/host_utils.rs:136-144 | stripping twice is stripping once |
| JsonTree.ShapedTreesHash | crates/rust-core-host/src/host_utils.rs:152-175 | every tree that passed the shape check has a hash |
| JsonTree.HashIsStructural | crates/rust-core-host/src/host_utils.rs:152-175 | trees of equal kinds, child order and leaf texts hash alike; under a digest without collisions only they do, where no kind holds a colon or a bar |
| JsonTree.ColonCollides | crates/rust-core-host/src/host_utils.rs:152-175 | two concrete different leaves, one with a colon in its kind, that hash alike under every digest |
| JsonTree.NodeTypeMeans | crates/rust-core-host/src/host_utils.rs:106-113 | the kind is a nonempty textual `node_type`, else a textual `type`, else empty |
| JsonTree.RecursionIsBounded | crates/rust-core-host/src/host_utils.rs:136-175 | stripping and hashing recurse at most half as deep as the value, rounded up |
| JsonTree.Parse | crates/rust-core-host/src/host_utils.rs:30-104 | a well-formed text is accepted exactly when depth, node count and shape fit limits that callers can only tighten, and acceptance bounds the recursion |
| GitInventory.ParseNameStatus | crates/rust-core-host/src/commit_plumbing.rs:136-186 | the loop computes the strict reading, each error included |
| GitInventory.StrictInvertsWritten | crates/rust-core-host/src/commit_plumbing.rs:136-186 | the strict reader accepts exactly what a writer of entries with some similarity digits produces, and reads those entries |
| GitInventory.StatusesAre | crates/rust-core-host/src/commit_plumbing.rs:153-163 | the statuses read are A, D, M, and R or C with at least one decimal digit behind it; exactly the latter two take a pair of paths |
| GitInventory.SplitTerminated | crates/rust-core-host/src/commit_plumbing.rs:145-147 | splitting at NUL undoes terminating tokens by NUL |
| GitInventory.TerminatedSplit | crates/rust-core-host/src/commit_plumbing.rs:145-147 | terminating the split tokens gives the bytes back, so splitting loses nothing |
| GitInventory.ParseLeniently | crates/rust-core-host/src/asset_diff.rs:1218-1245 | the loop computes the lenient reading |
| GitInventory.LenientAgrees | crates/rust-core-host/src/asset_diff.rs:1218-1245 | on every inventory the strict reader accepts, the lenient one reads the same entries |
| GitInventory.LenientReadsMalformed | crates/rust-core-host/src/asset_diff.rs:1218-1245 | a concrete malformed inventory that only the strict reader refuses |
| GitBatch.ReadPayloads | crates/rust-core-host/src/commit_plumbing.rs:213-264 | the loop reads one record per unique path and maps each path to its payload, or gives the first error |
| GitBatch.BuildRequest | crates/rust-core-host/src/commit_plumbing.rs:200-211 | refuses unsafe paths and requests each path once, in order |
| GitBatch.ReadCommitPaths | crates/rust-core-host/src/commit_plumbing.rs:188-265 | the whole reader against any subprocess |
| GitBatch.BatchIsExactlyFrames | crates/rust-core-host/src/commit_plumbing.rs:215-263 | output is accepted exactly when it is one well-formed frame per requested path, with nothing truncated or surplus |
| GitBatch.BlobsRoundTrip | crates/rust-core-host/src/commit_plumbing.rs:215-263 | Git's frames for any UTF-8 payloads within the limit are read back, header-looking ones included |
| GitBatch.BlobHeaderSize | crates/rust-core-host/src/commit_plumbing.rs:228-246 | a blob header announces the size it was written with |
| GitBatch.MissingHasNoSize | crates/rust-core-host/src/commit_plumbing.rs:224-226 | the line for a missing path never passes as a blob header |
| GitBatch.HeadersAre | crates/rust-core-host/src/commit_plumbing.rs:228-246 | a header announces a size exactly when its words are 40 or 64 hexadecimal digits, `blob`, and that size in decimal below 2^64, an optional plus sign and leading zeros included |
| GitBatch.WordsAre | crates/rust-core-host/src/commit_plumbing.rs:228-241 | what the words of a line are: runs of bytes other than tab, newline, form feed, carriage return and space |
| GitBatch.MissingLinesAre | crates/rust-core-host/src/commit_plumbing.rs:224-226 | the line for a missing path is the reference, a colon, the path and ` missing` |
| GitBatch.CleanPathsAre | crates/rust-core-host/src/commit_plumbing.rs:204-207 | a path can be requested exactly when it holds no newline, carriage return or NUL |
| CacheKeys.FeedParts | crates/rust-core-host/src/cache_keys.rs:13-21 | the loop feeds the length-prefixed encoding of the parts |
| CacheKeys.DecodeEncode | crates/rust-core-host/src/cache_keys.rs:13-21 | the encoding can be decoded when every part is below 2^32 bytes |
| CacheKeys.EncodeInjective | crates/rust-core-host/src/cache_keys.rs:6-8 | different lists of such parts have different encodings |
| CacheKeys.LongPartCollides | crates/rust-core-host/src/cache_keys.rs:17 | a part of 2^32 bytes encodes like a list of empty parts |
| CacheStore.SqliteStore.Get | crates/rust-core-host/src/cache_store.rs:229-249 | returns the decompressed row or nothing, and counts one hit or one miss |
| CacheStore.SqliteStore.Put | crates/rust-core-host/src/cache_store.rs:251-262 | replaces the row of its key and nothing else |
| CacheStore.SqliteStore.Clear | crates/rust-core-host/src/cache_store.rs:699-717 | empties exactly the chosen tables and keeps the counters |
| CacheStore.SqliteStore.BumpMetric | crates/rust-core-host/src/cache_store.rs:106-125 | adds one to one counter of one table |
| CacheStore.GetFindsLastPut | crates/rust-core-host/src/cache_store.rs:229-304 | over any run, with an injective digest, a get finds what a plain map keyed by the argument list holds, or nothing; without eviction exactly that |
| CacheStore.MetricsCountGets | crates/rust-core-host/src/cache_store.rs:106-125 | hits and misses of a table add up to its gets over any run |
| CacheStore.EvictTable | crates/rust-core-host/src/cache_store.rs:152-176 | deletes the shortest oldest-first prefix that frees the target |
| CacheStore.TableEviction | crates/rust-core-host/src/cache_store.rs:152-176 | a table loses at least the target or everything, and less than the target plus its last lost row |
| CacheStore.EvictionIsDetermined | crates/rust-core-host/src/cache_store.rs:152-176 | which rows go is determined by the listing and the target, and no kept row is older than a lost one |
| CacheStore.Evict | crates/rust-core-host/src/cache_store.rs:127-179 | expired rows go; over the cap each table loses the shortest oldest-first prefix that frees a tenth of the total |
| CacheStore.EvictionFreesATenth | crates/rust-core-host/src/cache_store.rs:150-177 | over the cap the three tables together fall by at least a tenth of their total, because some table holds a third of it |
| CacheStore.CapMetIff | crates/rust-core-host/src/cache_store.rs:127-179 | an eviction leaves the tables within the cap exactly when the three listings, each freed row by row up to a tenth of the total, give up the excess; they do whenever the excess is at most that tenth |
| CacheStore.FreshAre | crates/rust-core-host/src/cache_store.rs:128-136 | exactly the rows that have not expired are left |
| CacheStore.FreshIsOrdered | crates/rust-core-host/src/cache_store.rs:128-136 | expiry leaves the listing in order of age |
| CacheStore.CapCanStayExceeded | crates/rust-core-host/src/cache_store.rs:150-177 | a concrete eviction, with its cap, whose remaining tables exceed the cap |
| CacheRegistry.Registry.InsertOrKeep | crates/rust-core-host/src/cache_registry.rs:44-47 | the second lock region keeps the first winner |
| CacheRegistry.Registry.LockRegion | crates/rust-core-host/src/cache_registry.rs:34-48 | each lock region of `store_for` and `close`, run on the shared map, is a step of the thread machine: same map, same next point of the call, same event |
| CacheRegistry.AlwaysInv | crates/rust-core-host/src/cache_registry.rs:34-48 | the invariant holds after every scheduling of any number of threads |
| CacheRegistry.ReturnedIsRegistered | crates/rust-core-host/src/cache_registry.rs:34-48 | in every run, at each lock point the returned store is the one then registered for its key; a key that was registered keeps its store, and a newly registered store was never given out before |
| CacheRegistry.EventsAreLockPoints | crates/rust-core-host/src/cache_registry.rs:34-48 | every return and every removal of a run happened at a lock point of that run |
| CacheRegistry.SameStoreUntilClosed | crates/rust-core-host/src/cache_registry.rs:34-48 | two calls for a key with no close of it between their lock points return the same store |
| CacheRegistry.StoresAreKeyed | crates/rust-core-host/src/cache_registry.rs:34-48 | a store is given out for one key only |
| CacheRegistry.LostNeverEscapes | crates/rust-core-host/src/cache_registry.rs:42-47 | a thread that comes to insert and finds its key registered has a store that is never given out, before or after |
| CacheRegistry.ShutOnlyAfterClose | crates/rust-core-host/src/cache_registry.rs:212-220 | a store that a thread shuts, or has shut, was removed from the registry before |

## Left out

- Image decoding, resizing, padding and rendering, histograms, and the rounding of floating-point metrics; error sums are integers and the root mean squared error is compared through its square.
- Names of image regions and everything else that only words a description; descriptions and text diffs of drafts are not modelled.
- Whether a file name matches a catalogue entry (parser_routing.rs:23-33) is an input of the catalogue entries; sizes of the event index types.
- Language vocabularies: which node types are named entities, definitions, references or callables are parameters of the passes.
- ClojureRename.HonestIffSameMeaning: a node that is read as syntax sees its symbols and what the locals among them are bound to, not the names of other locals; values of forms are otherwise combined from the values of their parts.
- CommandLine.ArgumentsAreFields: compares quoting and the separation of fields; operators, comments and expansions of the shell are ordinary characters to both sides, as for a command that is never executed.
- Iteration order of hash maps: where the code loops over one, the model picks keys in any order, or goes through the nodes in the order the code then sorts them into.
- KeyedMatching.AugmentResourceMatching: takes the nodes of both trees in position order with their keys; the sorting by position and the computation of Dockerfile, HCL and Puppet keys are not modelled.
- KeyedMatching.RecoverEntityPairs: the final sorting of the pairs, outer entities first, and the computation of entity keys are not modelled.
- KeyedMatching.AddProposals: which children, parameters and occurrences the entity anchors propose is not modelled, only that any proposals keep the matching one-to-one.
- CallableRenames.SeedRenamedCallables: the evidence for a pair (same signature, similarity, source snippets) is a parameter.
- SymbolTables.DiffSymbolTables: split modules, the resolution of references, and how often a move is listed when a name is defined several times in one file; tables are those built by pushing, where no name has an empty list.
- MarkdownReconcile.Reconcile: finding the sections, moves and renames of a document is not modelled; they are an input.
- The choice of the compile-database entry, relative paths, and include and define flags (compile_context.rs:43-71 and 150-239).
- JsonTree.Strip: children are replaced in a new value instead of being edited in place.
- JsonTree.Parse: the byte limit, and texts that are not JSON; the JSON library is modelled by the value that a well-formed text denotes.
- GitBatch.ReadCommitPaths: validation of the Git reference and the subprocess itself; the reader is proved for any output.
- CacheStore.Evict: the target is the total divided by ten in integers, where the code multiplies by 0.10 in floating point; SQL is modelled by maps and by listings in order of age, and the two blobs of a symbol index by one value.
- CacheStore.SqliteStore.BumpMetric: the times of the last hit and the last miss are not kept.
- CacheRegistry: poisoned locks; a thread that fails to open a store leaves without one.
- Suppression of descendant noise, moved lines, duplicate rename drafts and label pairs, content detection, and cache listings.
- Git subprocesses, configuration, analytics, the C interface, the command line interface and the renderers.
