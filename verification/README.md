# Bear: the text-diff engine, the task engine and their neighbours

A Dafny model of the parts of Bear in which state and arithmetic are hardest to follow, with proofs about them for all inputs, all runs and all interleavings. `dafny verify dfyconfig.toml` checks everything.

- **The text-diff engine** (`diff_match_patch.js`) works on texts of 16-bit code units. Diff lists are objects rewritten in place; the frontiers of the bisection are arrays. The yardsticks are the two texts a diff stands for and the insert/delete distance of two texts. Files: `texts`, `clock`, `distance`, `frontier`, `bisect`, `common`, `diffs`, `runs`, `merge`, `semantic`, `lossless`, `overlap`, `efficiency`, `halfmatch`, `linebreaks`, `lines`, `diffmain`, `diffapi`, `compare`, `levenshtein`, `uri`, `delta`, `patches`, `patchmake`, `patchsplit`, `patchapply`, `patchlaw`.
- **The task engine**: `session` runs tasks against a flat list of bodies; `phase` is the arrival counter racing its timeout, one atomic action a step.
- **Variables and plugins**: `memoize` is the once-only evaluation under all interleavings, `layers` the saving and restoring of overrides, `plugins` the order of initialization.
- **The console and the groups**: `console` delivers events out of order, `groups` is first fit by nearly equal output.

Where the code does not do what its name or documentation says, the model follows the code, and the exact condition is proved:

- `diff_cleanupSemanticLossless` does not return once its pass comes to an enclosed empty edit before an empty equality (`Lossless.HangsAtOnce`). The pass may drop the equality before such an edit on the way; where it cannot, the lists that hang it are exactly those that hold such an edit (`Lossless.HangsExactly`, `Lossless.SlidAway`). Lists in the normal form of `diff_cleanupMerge` are safe.
- Line mode wraps its codes at 65536 different lines. Whatever the time limit and the deadline, `diff_main` with line mode on is right exactly for texts that are `DiffMain.Safe`: they are equal; or, without their common ends, one is empty, a single unit or contained in the other; or they have a half match and the texts on both sides of it are safe in turn; or they have none, and one has at most 100 units or they have fewer than 65536 different lines. All others come out wrong or hang, as `DiffApi.DiffManyLines` shows with a pair of texts.
- Where `patch_apply` has found a text that differs from the expected one, it makes the edits through an index of places, and places of later edits count what earlier ones have inserted, which the index does not. The edits are made as intended as long as they ask for no place behind the equal part that they lie in (`PatchApply.EditsWhereEqual`); otherwise another unit may be deleted (`PatchApply.InsertionPushesOn`).
- `putMap` does not restore a variable that overrode nothing, and takes the constant of its name away (`Layers.RestoresExactly`, `Layers.NewOverrideStays`). A default value is lost when a lookup falls back to another layer (`Layers.LookupNearest`).
- A memoized variable bound to a plain constant cannot be looked up; an error in its evaluator leaves all others waiting for ever (`Memoize.ConstantBreaksLookups`, `Memoize.OthersWaitForEver`).
- `divideIntoGroups` loses missing entries and counts the first text twice when the first entry has none (`Groups.NoneLost`, `Groups.VisitsAre`); texts more than 300 edits apart count as the same, and two empty texts do not.
- `myLastRollbackResult` is good after every failure below a task, whatever the rollback came to (`Sessions.GoodAfterOthers`); a task that succeeds returns the empty good result, never what its bodies returned (`Sessions.SessionRunner.RunWithDependencies`).
- The console leaves a nested task waiting for a parent that is on the page until another message comes (`Console.NestedTasksStayBehind`); what it is given is layered.

Conventions: clocks, results of task bodies and results of evaluators are nondeterministic values; the fuzzy matcher is a parameter. A loop of the source that may not end is a result `hangs`. Where automatic induction would apply it is switched off, so that each proof is the one written down.

## Model

| member | source | states |
|---|---|---|
| Distance.Subadditive | src/main/resources/app/js/diff_match_patch.js:26 | The insert/delete distance of two joined texts is at most the sum of the distances of the parts. |
| Distance.DistReverse | src/main/resources/app/js/diff_match_patch.js:7-9 | Two texts are as far apart as the two texts reversed; this is what lets the bisection search from both ends. |
| Frontier.StepReaches | src/main/resources/app/js/diff_match_patch.js:8 | An entry of the forward frontier on a diagonal that a shortest path crosses after v + 1 edits is at least as far as the path. |
| Frontier.Meeting | src/main/resources/app/js/diff_match_patch.js:8-9 | Where the two frontiers meet, the point lies on a shortest path and is neither corner of the grid. |
| Bisect.ForwardStep | src/main/resources/app/js/diff_match_patch.js:7-8 | One diagonal of the forward loop: every array index is in range, the new entry is a point reachable with at most v edits, and a meeting is a good split. |
| Bisect.BackwardStep | src/main/resources/app/js/diff_match_patch.js:8-9 | The same for one diagonal of the backward loop. |
| Bisect.FindSplit | src/main/resources/app/js/diff_match_patch.js:7-9 | The whole bisection on texts that differ at both ends: a split found lies on a shortest path and is never a corner of the grid, so that both halves are smaller; without a deadline, no split is found only when the texts share no unit in order. |
| Common.CommonPrefix | src/main/resources/app/js/diff_match_patch.js:11 | The binary search finds the length of the longest common prefix as a linear scan defines it. |
| Common.CommonSuffix | src/main/resources/app/js/diff_match_patch.js:12 | The same for the longest common suffix. |
| Common.CommonOverlap | src/main/resources/app/js/diff_match_patch.js:13 | The search with skips finds the longest suffix of the first text that is a prefix of the second. |
| Common.NoOverlapSkipped | src/main/resources/app/js/diff_match_patch.js:13 | No overlap lies between the length tried and the one that the next occurrence jumps to. |
| HalfMatches.BestPlaceIsBest | src/main/resources/app/js/diff_match_patch.js:14 | The place kept is the first of those where the seed occurs and extends furthest. |
| HalfMatches.MatchFrom | src/main/resources/app/js/diff_match_patch.js:14 | From one seed the match around its best place is returned, exactly when some occurrence extends to half of the longer text, and the five parts fit together. |
| HalfMatches.HalfMatchOf | src/main/resources/app/js/diff_match_patch.js:14-15 | A half match is returned exactly when there is a time limit, the texts are long enough, and one of the two seeds has one; it is the longer one, of equals that of the second seed, and the parts are those of the first and of the second text. |
| HalfMatches.HalfMatchIsLongest | src/main/resources/app/js/diff_match_patch.js:14-15 | The middle of a half match is at least as long as what any occurrence of either seed extends to, if that is half of the longer text. |
| HalfMatches.LongerIsLongest | src/main/resources/app/js/diff_match_patch.js:15 | Of the matches from the two seeds the longer one is taken, and of two that are as long the second. |
| Diffs.ReplaceStretch | src/main/resources/app/js/diff_match_patch.js:16-24 | Replacing a stretch of a diff by another one for the same two texts keeps both texts and accounts for edits and equalities. |
| Diffs.EditsCoverDistance | src/main/resources/app/js/diff_match_patch.js:26 | No diff of two texts edits fewer units than their distance. |
| Diffs.MinimalWhenTight | src/main/resources/app/js/diff_match_patch.js:26 | A diff that edits no more units than the distance edits no more than any other diff of the same texts. |
| Merge.MergedRunTexts | src/main/resources/app/js/diff_match_patch.js:22-23 | Merging a run of edits and factoring out what both sides share keeps both texts. |
| Merge.MergeRun | src/main/resources/app/js/diff_match_patch.js:22-23 | The in-place merging of one run puts exactly the merged run in its place and moves the position behind it. |
| Merge.MergedAllGood | src/main/resources/app/js/diff_match_patch.js:22-23 | Merging every run keeps both texts, leaves no two neighbours to merge, and edits fewer units or has no more entries than before. |
| Merge.MergePass | src/main/resources/app/js/diff_match_patch.js:22-23 | The in-place first pass, with an empty equality at the end for its time, gives the list with every run merged. |
| Merge.SlidAllGood | src/main/resources/app/js/diff_match_patch.js:23-24 | Sliding edits over equalities keeps both texts and the edited units; a list that does not get shorter is the same and has nothing left to slide. |
| Merge.SlidePass | src/main/resources/app/js/diff_match_patch.js:23-24 | The in-place second pass gives the list slid from left to right, to the left if possible and else to the right, and reports a change exactly when the list got shorter. |
| Merge.NormalizedGood | src/main/resources/app/js/diff_match_patch.js:22-24 | For every diff list: both passes, again and again until nothing slides, come to an end; the result stands for the same two texts, edits no more units, and is in the normal form in which neither pass can do anything. |
| Merge.NormalFormStays | src/main/resources/app/js/diff_match_patch.js:22-24 | A list in normal form stays as it is. |
| Merge.CleanupMerge | src/main/resources/app/js/diff_match_patch.js:22-24 | The in-place repetition of the two passes gives exactly that result. |
| Semantic.EliminateTrivial | src/main/resources/app/js/diff_match_patch.js:16 | For every diff list: despite the jumps back the loop terminates, and from the old list to the new one it opens one equality after the other, each no longer than the edits on both of its sides when it is opened, until there is no such equality; where there is none at the start nothing changes. |
| Semantic.NothingToClean | src/main/resources/app/js/diff_match_patch.js:16-20 | A list with no trivial equality, nothing to straighten and no large overlap comes out of all four stages as it was. |
| Semantic.CleanupSemantic | src/main/resources/app/js/diff_match_patch.js:16-17 | The four stages one after the other: trivial equalities, and no others, are opened; the list is merged exactly if there were any, straightened, and its overlaps are pulled out. The whole hangs exactly when the straightening does, and no large overlap is left where pairs of edits are apart, as they are after merging when straightening drops no equality. |
| Semantic.StraightenedApart | src/main/resources/app/js/diff_match_patch.js:16-20 | Straightening a list in normal form keeps its pairs of edits apart when it drops no equality. |
| Semantic.CanonicalIsReady | src/main/resources/app/js/diff_match_patch.js:20 | A list in the normal form of merging never makes the straightening hang. |
| Lossless.ScoreMeans | src/main/resources/app/js/diff_match_patch.js:18-19 | What each of the seven scores of a boundary stands for: the edge of the text, a blank line, a line break, the end of a sentence, white space, another mark, or none of these. |
| Lossless.BestPlaceIsBest | src/main/resources/app/js/diff_match_patch.js:20 | The place chosen has the best score within the range the edit can slide in, and the last such place. |
| Lossless.BestShift | src/main/resources/app/js/diff_match_patch.js:20 | The shifting loop ends at the best place between the leftmost and the rightmost one, unless edit and equality behind it are both empty. |
| Lossless.StraightenedTexts | src/main/resources/app/js/diff_match_patch.js:18-20 | Straightening keeps both texts, and the operation and length of every edit. |
| Lossless.ReadyNeverStuck | src/main/resources/app/js/diff_match_patch.js:20 | Lists without an enclosed empty edit before an empty equality are straightened without hanging. |
| Lossless.HangsAtOnce | src/main/resources/app/js/diff_match_patch.js:20 | An empty edit between two equalities, the second of them empty, at the front of any list makes the pass hang. |
| Lossless.AnchoredHangs | src/main/resources/app/js/diff_match_patch.js:18-20 | The pass comes to such an edit anywhere in a list, and hangs, if the edit is anchored: the edit before it cannot slide over the whole equality between them. |
| Lossless.HangsExactly | src/main/resources/app/js/diff_match_patch.js:18-20 | Lists in which all such edits are anchored make the pass hang if and only if they hold one. |
| Lossless.SlidAway | src/main/resources/app/js/diff_match_patch.js:18-20 | Without that the pass may end: the edit before slides over its equality, which is dropped. |
| Lossless.CleanupSemanticLossless | src/main/resources/app/js/diff_match_patch.js:18-20 | The in-place loop hangs exactly when it comes to an enclosed empty edit before an empty equality, and otherwise gives the straightened list. |
| Overlap.PulledAllTexts | src/main/resources/app/js/diff_match_patch.js:16-17 | Pulling overlaps out of pairs of a deletion and an insertion keeps both texts. |
| Overlap.NoLargeOverlapLeft | src/main/resources/app/js/diff_match_patch.js:17 | Where no pair of a deletion and an insertion has a deletion right before it, or an insertion or another pair right behind it, no neighbouring pair overlaps by half of either of them afterwards. |
| Overlap.OverlapLeftBehind | src/main/resources/app/js/diff_match_patch.js:16-17 | Without that a large overlap may be left: between the rest of a pair that was pulled out and the insertion behind it. |
| Overlap.PullOverlaps | src/main/resources/app/js/diff_match_patch.js:16-17 | The in-place loop gives the list with all overlaps pulled out. |
| Efficiency.EliminateCostly | src/main/resources/app/js/diff_match_patch.js:21 | For every diff list: despite the jumps back the loop terminates, and opens one equality after the other, each costing more to keep than to edit when it is opened, until there is no such equality; where there is none at the start nothing changes. |
| Efficiency.CleanupEfficiency | src/main/resources/app/js/diff_match_patch.js:21 | The same followed by merging exactly when anything changed. |
| Lines.LineTable.Munge | src/main/resources/app/js/diff_match_patch.js:10 | Reading a text line by line extends the dictionary by exactly its lines, and the codes spell the text out. |
| LineBreaks.NoMakingUp | src/main/resources/app/js/diff_match_patch.js:4-6 | Texts that are kept, or fall behind in line breaks or in the length of a line, cannot make up for each other: joined, they are right exactly when both are. |
| Lines.FewLines | src/main/resources/app/js/diff_match_patch.js:10 | Two texts have at most two different lines more than line breaks. |
| Lines.LinesToChars | src/main/resources/app/js/diff_match_patch.js:10 | Both texts can be read back from their codes exactly when they have fewer than 65536 different lines; otherwise one falls behind. |
| Lines.WrappedIsLost | src/main/resources/app/js/diff_match_patch.js:10 | A text whose codes reach 65536 falls behind when it is read back: the code wraps round to the empty entry. |
| Lines.DecodeCommutes | src/main/resources/app/js/diff_match_patch.js:11 | Decoding a diff decodes both of its texts. |
| Lines.CharsToLines | src/main/resources/app/js/diff_match_patch.js:11 | The in-place decoding of a diff. |
| DiffMain.PlainIsSafe | src/main/resources/app/js/diff_match_patch.js:2-6 | Texts with fewer than 65534 line breaks, or one of them no longer than 100 units, are safe for line mode, whatever the time limit. |
| DiffMain.SafeAtMatch | src/main/resources/app/js/diff_match_patch.js:4-5 | Texts that come to their half match are safe for line mode exactly when the texts before it and the texts behind it are. |
| DiffMain.ContainedKept | src/main/resources/app/js/diff_match_patch.js:2-4 | Of two texts one of which contains the other, no more is edited than the difference of their lengths, and line mode is safe; trimming common ends does not spoil that. |
| DiffMain.MostCoreWithin | src/main/resources/app/js/diff_match_patch.js:4-5 | Of two texts with a half match, twice its middle fewer units are edited than both texts have. |
| DiffMain.MainDiff | src/main/resources/app/js/diff_match_patch.js:2-3 | For all texts, flags, time limits and deadlines: the diff is right and does not hang if and only if line mode is off or the texts are safe for it; a right diff edits no more than `Most` allows, whatever the deadline: common ends, contained texts and the middles of half matches are kept, at every level; a wrong diff stands for a text that falls behind; with neither time limit nor line mode the diff edits as few units as possible; it is one that the recursion can make, and in the normal form of merging. |
| DiffMain.Compute | src/main/resources/app/js/diff_match_patch.js:3-5 | The same for texts without common ends: the short cuts give their fixed diffs, a half match the diffs of both of its sides around its middle, long texts in line mode a diff by lines, and all others two diffs beside a point of a shortest path or, at a deadline, everything replaced. |
| DiffMain.AtHalfMatch | src/main/resources/app/js/diff_match_patch.js:4-5 | The diffs of the texts on both sides of a half match, joined, are right and do not hang if and only if both pairs of texts are safe. |
| DiffMain.LineMode | src/main/resources/app/js/diff_match_patch.js:6 | Line mode: the diff of the codes, in place of the codes the lines, cleaned up, and then every run with a deletion and an insertion compared again. For every time limit and deadline right, without hanging, exactly when there are fewer than 65536 different lines; without time limit no deletion then shares a unit with an insertion of the same run. |
| DiffMain.Bisection | src/main/resources/app/js/diff_match_patch.js:7-9 | The bisection and the diffs of the two halves: right for every deadline, and shortest without one. |
| DiffMain.Rediff | src/main/resources/app/js/diff_match_patch.js:6 | For every list that ends in the empty equality pushed before the loop: the new list is the old one, cut at its equalities, with every run that holds a deletion and an insertion replaced by a diff of its two texts in normal form, shortest without time limit, and every other run as it was; the loop ends. |
| DiffMain.RediffedShares | src/main/resources/app/js/diff_match_patch.js:6 | In such a list, without time limit, no deletion shares a unit, in order, with the insertions of its run. |
| DiffApi.DiffTexts | src/main/resources/app/js/diff_match_patch.js:2 | `diff_main` as callers see it, with the deadline left to the time limit: right exactly when line mode is off or safe, and one of the diffs that the recursion can make; a right diff edits between the distance and `Most`, and exactly the difference of the lengths if one text contains the other; without time limit and line mode it is minimal among all diffs of the two texts. |
| DiffApi.ManyLinesUnsafe | src/main/resources/app/js/diff_match_patch.js:4-6 | A text of 65536 different lines and a text without any of their units are not safe for line mode, whatever the time limit. |
| DiffApi.DiffManyLines | src/main/resources/app/js/diff_match_patch.js:2-6 | On these two texts `diff_main` hangs or gives a diff of others, whatever the time limit. |
| Compare.CompareSessions | src/main/resources/app/js/bear.js:543-548 | What the user interface shows of two outputs is their diff cleaned up; it stands for these two outputs, without hanging, exactly when they are safe for line mode at a time limit of 100, and the diff that is cleaned up then edits between the distance and `Most`. |
| Levenshtein.LevSubadditive | src/main/resources/app/js/diff_match_patch.js:26 | Levenshtein distances of parts bound that of the whole. |
| Levenshtein.CostCovers | src/main/resources/app/js/diff_match_patch.js:26 | The cost is at least the distance, with a run of edits still open. |
| Levenshtein.CostBounds | src/main/resources/app/js/diff_match_patch.js:26 | For every diff list the cost lies between the Levenshtein distance of its texts and its edited units, and is at most twice the distance for a shortest diff. |
| Levenshtein.RunCosts | src/main/resources/app/js/diff_match_patch.js:26 | Every run of edits costs as many units as the longer of its two texts has, and runs add up. |
| Levenshtein.DiffLevenshtein | src/main/resources/app/js/diff_match_patch.js:26 | The loop computes that cost. |
| Uri.UnescapedAre | src/main/resources/app/js/diff_match_patch.js:27 | The units that encoding leaves alone are the letters, the digits, nine marks and eleven reserved ones; the reserved ones are those that decoding leaves escaped. |
| Uri.EncodesWellFormed | src/main/resources/app/js/diff_match_patch.js:27 | Encoding fails exactly on texts with half a surrogate pair. |
| Uri.OctetsAreFew | src/main/resources/app/js/diff_match_patch.js:27 | The UTF-8 form is the shortest one. |
| Uri.ScalarUnits | src/main/resources/app/js/diff_match_patch.js:27 | A single unit can be encoded exactly if it is a code point of its own. |
| Uri.HexDigits | src/main/resources/app/js/diff_match_patch.js:27-28 | Escapes are written with capital hexadecimal digits, and read with capital or small ones. |
| Uri.OctetsReadBack | src/main/resources/app/js/diff_match_patch.js:27-28 | The UTF-8 form of every code point is read back, and its first octet announces its length. |
| Uri.FrontPieceMeans | src/main/resources/app/js/diff_match_patch.js:28 | A text that begins with an escape can be decoded there if and only if it begins with all the escapes of the UTF-8 form of some code point that is no surrogate. |
| Uri.EscapesAreRead | src/main/resources/app/js/diff_match_patch.js:28 | Such escapes, in digits of either case, are decoded to the units of the code point, except that reserved characters stay escaped. |
| Uri.PointReadBack | src/main/resources/app/js/diff_match_patch.js:27-28 | The escapes of a code point at the front of any text are decoded to its units, except that reserved characters stay escaped. |
| Delta.InsertionReadBack | src/main/resources/app/js/diff_match_patch.js:27-28 | An inserted text that was encoded, and had its escaped blanks replaced, is decoded to itself. |
| Delta.SpacedJoined | src/main/resources/app/js/diff_match_patch.js:27 | Replacing escaped blanks after joining is replacing them in every token. |
| Delta.DecimalReadBack | src/main/resources/app/js/diff_match_patch.js:28 | A length written in decimal is read back. |
| Delta.SignedReadBack | src/main/resources/app/js/diff_match_patch.js:28 | Blanks before a numeral and whatever follows its digits are passed over, and a minus sign makes it negative. |
| Delta.NotANumber | src/main/resources/app/js/diff_match_patch.js:28 | What has no digit behind its blanks and at most one sign is not a number. |
| Delta.ToDelta | src/main/resources/app/js/diff_match_patch.js:27 | A diff has a delta exactly when no insertion holds half a surrogate pair, and the delta is the tokens joined by tabs. |
| Delta.FromDelta | src/main/resources/app/js/diff_match_patch.js:28-29 | Reads the tokens one by one, with the four errors of the source; a diff that is accepted has the given text as its old text. |
| Delta.DeltaFitsText | src/main/resources/app/js/diff_match_patch.js:29 | Whatever delta is accepted against a text, the old text of the diff read is that text. |
| Delta.RoundTrip | src/main/resources/app/js/diff_match_patch.js:27-29 | Reading the delta of a diff against its old text gives the same diff, entry by entry. |
| Patches.DeepCopy | src/main/resources/app/js/diff_match_patch.js:36 | The copy is a new list with the same patches. |
| PatchMake.ContextSize | src/main/resources/app/js/diff_match_patch.js:33 | The context is the smallest multiple of the margin with which the old text of the patch occurs once or is long enough; the search ends. |
| PatchMake.AddContext | src/main/resources/app/js/diff_match_patch.js:33-34 | The patch takes in that context and one more margin on both sides, as far as the text goes. |
| PatchMake.ContextFits | src/main/resources/app/js/diff_match_patch.js:33-34 | Context changes neither where a patch fits nor what it does, and roots it: a margin on either side, or the end of the text. |
| PatchMake.MakeFromDiff | src/main/resources/app/js/diff_match_patch.js:34-36 | For every diff of the text: each patch fits the text that the ones before have left, and all lead to the new text; every edit is in exactly one patch, a patch holds no equality longer than two margins, and ends before a longer one, before a last equality or at the last entry. Each patch is exactly that stretch of entries, placed where the entries before have left their text, with the smallest context that settles it there and one more margin. |
| PatchMake.MakeFromTexts | src/main/resources/app/js/diff_match_patch.js:34 | From two texts that are safe for line mode nothing hangs and the patches lead from the one to the other. The patches hold the edits of the diff of the texts after both clean-ups, or as it is if it has at most two entries; that diff edits between the distance and `Most`. |
| PatchSplit.MoveEntry | src/main/resources/app/js/diff_match_patch.js:43-44 | One round of the inner loop takes an insertion or a long deletion in context as a whole, and of any other entry as much as there is room for, from the long patch to the piece. |
| PatchSplit.FillPatch | src/main/resources/app/js/diff_match_patch.js:43-44 | The inner loop: entries taken and left make up the old ones, and the piece is full or nothing is left, and within the limit or one long deletion behind its context. |
| PatchSplit.PieceMore | src/main/resources/app/js/diff_match_patch.js:43-45 | Each piece, with its context before and behind, fits what the pieces before have left and leads on; one without edits may be dropped. |
| PatchSplit.SplitPatch | src/main/resources/app/js/diff_match_patch.js:43-45 | The pieces of one long patch lead where it leads, each edits something, and all but the last are full; the start of a piece in the old text runs ahead of that in the new text as for the whole patch, and by what the pieces before have taken away. |
| PatchSplit.SplitMax | src/main/resources/app/js/diff_match_patch.js:43-45 | Whatever texts the patches lead between, the pieces still do; patches that are not too long stay, in place and order, and of the pieces of the others none is too long for the matcher except one long deletion in context, none is without an edit, and all have their places. |
| PatchApply.FoundWhereExpected | src/main/resources/app/js/diff_match_patch.js:29 | A text that stands where it is looked for is found there, whatever the fuzzy matcher says. |
| PatchApply.MatchMain | src/main/resources/app/js/diff_match_patch.js:29 | A text is found in itself at its start, nothing in an empty text, any text at the expected place or the end of the text nearest to it if it stands there, and otherwise where the fuzzy matcher finds it. |
| PatchApply.Locate | src/main/resources/app/js/diff_match_patch.js:38-39 | The old text of a patch is looked for as a whole or, if it is longer than the matcher takes, by its two ends, which have to be in order; where it stands at the expected place it is found there. |
| PatchApply.IndexAcross | src/main/resources/app/js/diff_match_patch.js:24 | The loop computes the index. |
| PatchApply.XIndexSplits | src/main/resources/app/js/diff_match_patch.js:24 | A place and its index split both texts so that the two sides need no more edits than the diff has. |
| PatchApply.PaddedChain | src/main/resources/app/js/diff_match_patch.js:41-42 | Padding a list with rooted ends: it leads between the two texts in padding. |
| PatchApply.AddPadding | src/main/resources/app/js/diff_match_patch.js:41-42 | The in-place padding of the list, exactly, and that it leads between the padded texts. |
| PatchApply.FrontKept | src/main/resources/app/js/diff_match_patch.js:39-40 | Edits made through an index leave everything in front of the place found as it is. |
| PatchApply.OneReplacement | src/main/resources/app/js/diff_match_patch.js:39-40 | A patch with one replacement replaces what lies between the indices of its two ends in the text found, and nothing else. |
| PatchApply.EditsWhereEqual | src/main/resources/app/js/diff_match_patch.js:39-40 | Where the text found differs from the expected one only before and behind the edits, and these ask for no place behind the equal part, all edits are made as in the expected text and all that differs is kept. |
| PatchApply.InsertionPushesOn | src/main/resources/app/js/diff_match_patch.js:39-40 | Why places are bounded: behind an insertion the index of a later deletion is one of another unit, which is deleted instead. |
| PatchApply.ApplyInexact | src/main/resources/app/js/diff_match_patch.js:39-40 | Where a text was found that differs from the expected one: the patch fails exactly if the expected text is longer than the matcher takes and the cost of their diff more than half of it; otherwise its edits are made through the index of that diff straightened. |
| PatchApply.ApplyOne | src/main/resources/app/js/diff_match_patch.js:38-40 | A patch that fits where it should is found there and carried out. In general: where it is not found nothing changes; where its old text is found that is replaced; where another text is found the edits are made one by one; nothing in front of the place found changes, and how far it is from where it should be is passed on. |
| PatchApply.Apply | src/main/resources/app/js/diff_match_patch.js:38-40 | Patches that lead from the text to another and are rooted at their ends all succeed and give that text. In general the patches, padded and split, are applied one after the other to the padded text, each from the place that the one before suggests, and the padding is cut off; if all fail the text is unchanged. |
| PatchLaw.DiffAsPatches | src/main/resources/app/js/diff_match_patch.js:33-45 | For every diff list: the patches made from it turn its old text into its new text, and all succeed. |
| PatchLaw.MakeAndApply | src/main/resources/app/js/diff_match_patch.js:33-45 | For any two texts that are safe for line mode: the patches made from them turn the one into the other, and all succeed. |
| Sessions.RoleShared | src/main/java/bear/task/SessionRunner.java:135-141 | A task is for a session exactly if it has no roles or shares one with it. |
| Sessions.RunsOn | src/main/java/bear/task/SessionRunner.java:105-107 | Bodies run after others exactly when none of those has failed. |
| Sessions.Stages | src/main/java/bear/task/SessionRunner.java:100-121 | A task runs what it depends on, what comes before, itself and what comes after, each stage only if none before failed, and is undone only if its own body failed. |
| Sessions.RunsAreCut | src/main/java/bear/task/SessionRunner.java:91-124 | A run is the flat list of bodies cut after the first failure, followed by a run of the bodies that undo the task that failed and of no others. |
| Sessions.FailureMeaning | src/main/java/bear/task/SessionRunner.java:142-146 | There is a failure in a run exactly when some body has failed. |
| Sessions.LastRollbackIs | src/main/java/bear/task/SessionRunner.java:91-124 | The last rollback result after the stages of a task, for every place of the first failure and whether or not the runner was rolling back. |
| Sessions.GoodAfterOthers | src/main/java/bear/task/SessionRunner.java:109-121 | After a failure below the task the last rollback result is good, whatever the rollback of the task that failed came to. |
| Sessions.GoodWhenUndone | src/main/java/bear/task/SessionRunner.java:109-121 | After a failure of the task itself, undone without a failure, the last rollback result is that of the undoing task. |
| Sessions.SessionRunner.RunMe | src/main/java/bear/task/SessionRunner.java:126-185 | The task's own bodies are tried in order up to the first failure, unless the session has none of its roles; the result is that of the last one tried. |
| Sessions.SessionRunner.Conclude | src/main/java/bear/task/SessionRunner.java:109-121 | Keeps the task's own result as the last one, or as the last rollback result once rolling back, and undoes the task if it failed; the last rollback result is then what the undoing leaves. |
| Sessions.SessionRunner.RunRollback | src/main/java/bear/task/TaskDef.java:116-121 | Runs exactly the bodies that undo the task, leaves the last result alone, and the last rollback result as the undoing task does. |
| Sessions.SessionRunner.RunCollection | src/main/java/bear/task/SessionRunner.java:130-149 | Runs the tasks of a list that the session has a role for, up to the first failure. |
| Sessions.SessionRunner.RunWithDependencies | src/main/java/bear/task/SessionRunner.java:91-124 | What is run is a run of the task's flat list; the result is the first failure, or without one the empty good result, whatever the bodies have returned; without a failure the last result is that of the task's own last body; from the first failure on the runner is rolling back and its last result is that failure for good; the last rollback result is known in every case. |
| Sessions.SessionRunner.Run | src/main/java/bear/task/SessionRunner.java:70-86 | Several tasks in a row, up to the first one that fails: what is run is a run of their bodies, the result is the first failure if there is one, and state and last result are as after one task. |
| Phases.NextKeeps | src/main/java/bear/core/BearScriptPhase.java:63-109 | Every atomic step of every arrival and timeout keeps the invariant: the counter counts arrivals until the full report is decided on, no report is lost, and at most one timeout is scheduled. |
| Phases.AtMostOnce | src/main/java/bear/core/BearScriptPhase.java:63-109 | At every point of every interleaving: at most one full report, decided on by the step to -1 with everyone entered; with durations of zero or more at most one timeout, and at most one partial report, before the full one. |
| Phases.TimeoutsReport | src/main/java/bear/core/BearScriptPhase.java:72-94 | As long as the full report is not decided on, as many partial ones are as timeouts have ruled, so none has passed in silence. |
| Phases.LateTimeoutIsSilent | src/main/java/bear/core/BearScriptPhase.java:77-86 | When everyone has been counted before a timeout first looks, no partial report is ever decided on. |
| Phases.Absorbing | src/main/java/bear/core/BearScriptPhase.java:78-108 | Once at -1 the counter stays there and nothing more is decided on. |
| Phases.OneFullReport | src/main/java/bear/core/BearScriptPhase.java:106-116 | When nothing is left to do exactly one full report has been sent, and so has every report decided on. |
| Phases.OneTimeout | src/main/java/bear/core/BearScriptPhase.java:63-104 | When nothing is left to do everyone has entered and exactly the good parties are counted as good; with durations of zero or more exactly one timeout was scheduled, for the duration of a good party, or none if no party is good. |
| Phases.RunsEnd | src/main/java/bear/core/BearScriptPhase.java:63-109 | No interleaving is longer than ten steps for each party, and none gets stuck before everything is done. |
| Memoize.StepKeeps | src/main/java/bear/context/VariablesLayer.java:181-218 | Every atomic step of every lookup keeps the invariant about the slot, its owner and those who wait. |
| Memoize.EvaluatedOnce | src/main/java/bear/context/VariablesLayer.java:181-218 | In every interleaving, for a name not bound to a constant: the evaluator runs at most once, and all lookups that have ended with a value or an exception have the same. |
| Memoize.AnswersAreOutcome | src/main/java/bear/context/VariablesLayer.java:199-218 | Every lookup that has ended gives what the evaluator came to: the value it returned, the exception it threw, and an error to the evaluating lookup alone. |
| Memoize.OutcomeStays | src/main/java/bear/context/VariablesLayer.java:199-218 | What the evaluator came to stays, and it does not run again. |
| Memoize.ConstantBreaksLookups | src/main/java/bear/context/VariablesLayer.java:195-212 | For a name bound to a plain constant no lookup succeeds and nothing is evaluated. |
| Memoize.StuckOnlyBehindError | src/main/java/bear/context/VariablesLayer.java:199-218 | Lookups can always go on, unless the evaluator has died of an error that is no exception and all others wait for it. |
| Memoize.OthersWaitForEver | src/main/java/bear/context/VariablesLayer.java:199-218 | Once the evaluator has died of an error, in no continuation of any run has another lookup ended or does it ever end. |
| Layers.VariablesLayer.PutMap | src/main/java/bear/context/VariablesLayer.java:545-582 | Puts the entries in order and saves what each has replaced; a key of the wrong type throws half-way. |
| Layers.RestoresExactly | src/main/java/bear/context/VariablesLayer.java:545-582 | Putting back what was saved, in any order, restores the layer exactly when before the last entry for each key the layer is at that key as it was, and a variable replaces an override. |
| Layers.DistinctRestorable | src/main/java/bear/context/VariablesLayer.java:545-582 | For keys that stand for different names: exactly when each variable replaces an override. |
| Layers.NewOverrideStays | src/main/java/bear/context/VariablesLayer.java:564-571 | A variable that overrides nothing stays behind and takes the constant of its name away. |
| Layers.WithMap | src/main/java/bear/context/AbstractContext.java:305-315 | The layer is as before exactly when the map was restorable; a key of the wrong type throws before anything is called and nothing is restored. |
| Layers.BoundNearest | src/main/java/bear/context/VariablesLayer.java:275-293 | A name is bound in the nearest layer that binds it, there to the constant before the variable. |
| Layers.LookupNearest | src/main/java/bear/context/VariablesLayer.java:259-336 | A lookup gives the constant of the nearest binding, or what its variable evaluates to; a default counts only where that is undefined, and is lost on the way to another layer. |
| PluginOrder.AddOrderedPlugin | src/main/java/bear/plugins/Plugins.java:106-114 | On an acyclic graph: terminates, adds the plugin and only what it depends on, and keeps everything behind its dependencies. |
| PluginOrder.OrderPlugins | src/main/java/bear/plugins/Plugins.java:96-104 | Exactly the plugins and all they depend on, each once, each behind everything it depends on, directly or not. |
| PluginOrder.GetAllPluginDependencies | src/main/java/bear/plugins/Plugin.java:157-167 | Exactly the plugins that this one depends on, directly or not. |
| PluginOrder.OrderOne | src/main/java/bear/plugins/Plugins.java:96-114 | Ordering one plugin gives it, last, and its dependencies. |
| Groups.SameMeans | src/main/java/bear/console/GroupDivider.java:205-212 | Two texts count as the same exactly when they are more than 300 edits apart or the edits are fewer than one for twenty units of both. |
| Groups.FirstFitUnique | src/main/java/bear/console/GroupDivider.java:113-137 | First fit leaves no choice of groups or representatives. |
| Groups.RepresentativesDiffer | src/main/java/bear/console/GroupDivider.java:120-136 | No later representative is the same as an earlier one. |
| Groups.NoneLost | src/main/java/bear/console/GroupDivider.java:85-99 | The group of missing entries has lost none exactly when only the first of them may not have arrived. |
| Groups.VisitsAre | src/main/java/bear/console/GroupDivider.java:102-118 | When the first entry has a text every text is grouped once; otherwise the first text is put into its group twice. |
| Groups.EveryoneOnce | src/main/java/bear/console/GroupDivider.java:80-148 | When everyone has arrived with a text, everyone is grouped exactly once and nobody is missing. |
| Groups.SortBySize | src/main/java/bear/console/GroupDivider.java:141 | The same groups in ascending size, those of one size in the order they had. |
| Groups.GetMajorityGroup | src/main/java/bear/console/GroupDivider.java:176-183 | Finds a group with more than half of all members exactly if there is one, and all others have less than half. |
| Groups.GroupDivider.GroupTexts | src/main/java/bear/console/GroupDivider.java:102-137 | Every text visited is in the first-created group whose representative it is the same as, or opens one; the groups list exactly their members. |
| Groups.GroupDivider.DivideIntoGroups | src/main/java/bear/console/GroupDivider.java:80-148 | The groups sorted by size and behind them the missing entries; the sizes add up to the texts visited and the missing entries kept, and to the number of entries when everyone has arrived with a text. |
| Console.SweptKeeps | src/main/resources/app/js/bear.js:499-509 | A pass over a queue loses and doubles nothing. |
| Console.SweptSettles | src/main/resources/app/js/bear.js:499-509 | After a pass over events none of which is the parent of another, nothing that stays has its parent on the page. |
| Console.SweepSettles | src/main/resources/app/js/bear.js:499-509 | The three passes, in this order, settle layered events. |
| Console.PageShows | src/main/resources/app/js/bear.js:446-510 | The page shows exactly the received events with an unbroken line of parents, each as often as received. |
| Console.Terminal.Message | src/main/resources/app/js/bear.js:446-510 | After every message each received event is on the page once or waits, never both; the page and the queues are those of one placing and three passes; as long as events are layered nothing waits for a parent that is there; messages for other consoles change nothing. |
| Console.Deliver | src/main/resources/app/js/bear.js:446-510 | The same after any number of messages in any order. |
| Console.OrderDoesNotMatter | src/main/resources/app/js/bear.js:446-510 | Two consoles that have received the same layered events, in whatever order, show the same. |
| Console.NestedTasksStayBehind | src/main/resources/app/js/bear.js:446-510 | Without layers it fails: of four messages, a session and three tasks under one another that arrive innermost first, one task is left waiting for a parent that is on the page, until the next message. |

## Left out

- The pairs inside a diff list and the patches inside a patch list are values: that `patch_make` shares pairs with the diff it is given, and sharing between lists, is not captured.
- PatchApply.MatchMain: the fuzzy matcher `match_bitap_` is a parameter, because its scores are floating point.
- Patches.DeepCopy: entries are values in this model, so that the copy shares none of them with the original holds by construction and is not stated.
- Lossless.HangsExactly: for an empty edit that is not anchored, whether the pass gets to it depends on the scores of the places that the edits before it slide to; that is `Lossless.GetsStuck`.
- Overlap.NoLargeOverlapLeft: where pairs of edits are not apart, what is left depends on the texts.
- Lines.LinesToChars: a line such as `__proto__`, with a meaning to JavaScript objects of its own, is a line like any other.
- PluginOrder.OrderPlugins: the graph is given; on a cyclic graph the source recurses without end.
- Sessions.SessionRunner.Run: does not say what the last rollback result is after several tasks of which one fails.
- DiffMain.MainDiff: null arguments, here and in `match_main`, are excluded by the types.
- Layers.WithMap: what is called leaves the layer alone.
- Console.Terminal.Message: texts with a log level, whose parent is guessed, and the order by time stamp on the page are not modelled.
- Groups.GroupDivider.GroupTexts: the distance a group shows, and the members of the group of missing entries beyond their number, are not modelled. The Levenshtein distance of the string library is the mathematical one with its cap.
- Phases.OneFullReport: `partiesPending` and `partiesFailed` are display values computed from a counter that may already be -1; there is one `init` for a phase.
- Memoize.EvaluatedOnce: waiting without a time limit, as the source does; interruption and removal of the name in the meantime are not modelled.
- `diff_prettyHtml`, `patch_toText` and `patch_fromText`: display and another text format, with the escapes that `Uri` covers.
- The white space class is that of edition 5.1 of ECMA-262, with U+180E, which later editions of Unicode no longer count as a space.
- The third way to call `patch_make`, with a diff alone, is the second one with the old text of the diff.
- Sessions: creation of sessions and checks of dependencies that throw, input passed from one task to the next, and task definitions that change while they run. The field `tasksExecuted` is never filled and has no effect; the state FINISHED is never reached.
- SSH, processes, files, Maven, Groovy, logging, JavaFX, reflection and dependency injection.
