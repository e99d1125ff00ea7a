# PostgreSQL contrib: verified models

Dafny models of the algorithmic cores of several PostgreSQL contrib modules, with proofs of what they
compute.

- **intarray Boolean queries** (`QueryGrammar`, `QueryUnique`, `QueryParser`, `QueryLexer`,
  `QuerySpelling`, `QueryItems`, `QueryEval`, `QueryReader`, `QueryForm`, `QueryPrinter`). A query text is scanned, brought into postfix order with a hand-kept
  operator stack, linked in place and evaluated along the links; a printer turns it back into text. The
  grammar, its derivations and trees are defined independently of the code, and the reader is proved
  sound and complete for it.
- **intarray lossy index keys** (`IntRanges`, `IntCompress`, `IntExpand`, `IntLeaves`, `IntUnion`, `IntIndex`). An
  in-place compressor turns a sorted set into ranges by closing the smallest gaps. Optimality is stated over all families of
  intervals.
- **btree_gist keys of variable length** (`ByteStrings`, `VarKeys`, `VarTrees`). Bounds are cut to two bytes more than
  their common prefix; search makes up for it by prefix matching.
- **bloom** (`BloomRandom`, `BloomSign`, `BloomPages`, `BloomProtocol`, `BloomStart`). The generator and the signatures,
  the page operations in place, and a state machine of concurrent insertions, vacuum, page recycling and
  scans whose steps are the lock-protected sections of the code. Page operations and steps share the same
  functions on page contents (`Inserted`, `Swept`, `ScanOf`).
- **hstore** (`SortedMaps`, `HstoreLayout`, `HstoreOps`, `HstoreSearch`, `HstoreText`, `HstoreGrammar`,
  `HstoreIo`, `HstoreLimits`, `HstoreArgs`, `HstoreUpgrade`, `HstoreGist`). The packed layout encodes a sorted list of pairs; every operation on it
  refines an operation on maps.
- **amcheck** (`BtreeCheck`, `BtreeWalk`, `BtreeHealth`, `ToastCheck`). What a silent run of a checker says
  about the data, and which data it passes.
- **cube** (`CubeBoxes`, `CubePoints`, `CubeIndex`), over the reals.

`GistTree` states once, for all key types, when a pruned tree search equals a full scan. `Wrappers` holds
the option type, `Machine` the limits of integers and of the allocator.

Code that works by changing things in place is modelled by classes, arrays and loops (`WorkState`,
`Infix`, `Generator`, `Buffer`, `Builder`, `Parser`), each method proved against a function of the inputs
or the old state; the properties are proved about those functions.

Six properties that one would expect turn out false of the code. Each has a concrete example and the exact
condition under which it holds:

- splits of inner pages in btree_gist (`InnerSplitCanLose`): `SplitHalfSoundIff` is the condition for the
  invariant that a key admits what is below it, `SplitHalfFindsIff` the weaker one for searches to lose
  nothing;
- leaf arrays in intarray of 2*num_ranges elements or more, which are stored with no more than a notice and
  read back as ranges (`LeafMisread`, `LeafOverrun`, `ReadLeafIff`, `LeafExactIff`);
- reading back what hstore prints, for values of more than 2^24 pairs (`PrintedNotRead`, `PrintAndRead`);
- the seeding of the bloom generator (`DrawsInRangeIff`, `BadHashes`);
- the shortcut of the hstore upgrade (`MisreadExample`, `Upgrade`);
- the "contained by" strategy of cube (`ContainedByCanLose`, `ContainedByIff`).

Two limits of amcheck are stated alongside: an empty page hides disorder (`EmptyPageHides`), and ignorable pages
that link in a circle keep it busy for ever (`FindRight`, `ForeverIff`).

Hash functions, comparison of heap pointers and the sort routine enter as parameters or by their contract.
Conditions on the environment of the bloom protocol are part of its steps: a heap pointer is inserted at most
once while it is stored, and not while a vacuum still has it flagged.

`dafny verify dfyconfig.toml` checks the project.

## Model

| member | source | states |
|---|---|---|
| QueryLexer.GetTokShape | postgresql/contrib/intarray/_int_bool.c:47-133 | From either reading state the scanner delivers only the tokens that state allows, moves to the right next state and keeps the parenthesis count; the end is delivered only after an operand and with all parentheses closed |
| QueryLexer.StreamLexed | postgresql/contrib/intarray/_int_bool.c:47-133 | For every text, the whole token stream alternates operands and operators with balanced parentheses, or ends in an error token |
| QuerySpelling.TokensIff | postgresql/contrib/intarray/_int_bool.c:47-133 | For every text, the scanner delivers a sequence of tokens without an error if and only if the text is their spellings in order, with any number of blanks before, between and after them, and the sequence alternates and balances; spelling is defined without the scanner |
| QuerySpelling.StrtolValue | postgresql/contrib/intarray/_int_bool.c:85-104 | A number has the value of its digits by place, or after a leading zero that of its octal digits as far as they go |
| QuerySpelling.TextDerives | postgresql/contrib/intarray/_int_bool.c:47-223 | The tokens of a text have a derivation if and only if the text spells what the derivation yields |
| QueryParser.PolSound | postgresql/contrib/intarray/_int_bool.c:152-223 | Every token stream the stack machine accepts is the yield of a derivation of the grammar (negation over conjunction over disjunction, left-associative conjunctions, operator stack never deeper than 16), and the output is the postfix form of its tree |
| QueryParser.PolComplete | postgresql/contrib/intarray/_int_bool.c:152-223 | Conversely every yield of a shallow derivation is accepted, with the postfix form of its tree |
| QueryUnique.YieldInjective | postgresql/contrib/intarray/_int_bool.c:152-223 | The grammar is unambiguous: a token sequence is the yield of at most one derivation, however deeply nested, so what the reader stores is determined by the text |
| QueryReader.WorkState.GetToken | postgresql/contrib/intarray/_int_bool.c:47-133 | The state-changing scanner computes the scanner function and updates position, state and count as it says |
| QueryReader.WorkState.PopReduce | postgresql/contrib/intarray/_int_bool.c:169-174 | The loop that applies waiting `!` and `&` after an operand empties exactly that part of the stack |
| QueryReader.WorkState.PopAll | postgresql/contrib/intarray/_int_bool.c:200-204 | At the end of a level the rest of the stack is written out from the top |
| QueryReader.WorkState.Shift | postgresql/contrib/intarray/_int_bool.c:165-214 | One round of makepol, with the fixed-size operator stack and the nested call for a parenthesis, is one move of the stack machine or its error |
| QueryReader.WorkState.MakePol | postgresql/contrib/intarray/_int_bool.c:152-223 | The recursive parser writes the same nodes, consumes the same tokens and fails in the same cases as the stack machine |
| QueryReader.ReadTokens | postgresql/contrib/intarray/_int_bool.c:476-542 | A token sequence is accepted if and only if it has a shallow derivation whose tree has at most QUERYTYPEMAXITEMS nodes |
| QueryReader.BqarrIn | postgresql/contrib/intarray/_int_bool.c:476-542 | A text is accepted if and only if it spells the yield of a shallow derivation whose tree has at most QUERYTYPEMAXITEMS nodes; the stored items are then the linked postfix form of that tree. The syntax error is raised if and only if the stack machine stops at a wrong token, the error for too many operators if and only if its stack is full first, and the size error only for a derivation whose tree is too large |
| QueryReader.LinkNodes | postgresql/contrib/intarray/_int_bool.c:517-527 | The items hold the nodes in order with every back-link computed |
| QueryItems.FindOprnd | postgresql/contrib/intarray/_int_bool.c:439-470 | The back-link pass, in place, links every operator to its left operand as the tree says and changes nothing outside its subtree |
| QueryItems.LinksReachIffFits | postgresql/contrib/intarray/_int_bool.c:439-470 | Stored in 16 bits, the links lead to the operands if and only if every binary operator has a right operand of fewer than 32768 items |
| QueryEval.CheckConditionArr | postgresql/contrib/intarray/_int_bool.c:234-254 | The binary search finds a value if and only if the sorted array has it |
| QueryEval.ExecuteEvaluates | postgresql/contrib/intarray/_int_bool.c:265-294 | Evaluation along the links is the Boolean value of the tree under every assignment; with calcnot off it is the value with every negation taken as true |
| QueryEval.LinkedQueryEvaluates | postgresql/contrib/intarray/_int_bool.c:265-319 | For every accepted query whose links fit, the evaluator on the whole item array returns the value of the tree |
| QueryEval.LaxCoversEval | postgresql/contrib/intarray/_int_bool.c:256-319 | Evaluation with calcnot off on any superset of the elements (array or signature) is true whenever the exact value is |
| QueryEval.QueryExtract | postgresql/contrib/intarray/_int_gin.c:22-56 | The extracted keys are the operand values in item order |
| QueryEval.GinBoolConsistent | postgresql/contrib/intarray/_int_bool.c:335-360 | If check[k] says whether the k-th extracted value is present, the result is the value of the query on the array |
| QueryEval.RequiredIffLaxRejectsEmpty | postgresql/contrib/intarray/_int_bool.c:363-397 | The test for required values holds exactly for the queries that cannot be satisfied without any operand, negations taken as true |
| QueryEval.RequiredValueFound | postgresql/contrib/intarray/_int_bool.c:363-406 | If the test holds, every array that satisfies the query has one of the extracted values, so the default search mode misses nothing |
| QueryForm.StrtolDec | postgresql/contrib/intarray/_int_bool.c:85-104 | Printed decimal numbers read back as themselves |
| QueryPrinter.Infix.Resize | postgresql/contrib/intarray/_int_bool.c:556-561 | The buffer is doubled until the announced bytes and a NUL fit; this fails exactly when they do not fit in 2^29 bytes, the largest doubled size the allocator grants |
| QueryPrinter.Infix.Put | postgresql/contrib/intarray/_int_bool.c:556-561 | Text is appended inside the buffer together with the terminating NUL, or the allocation fails as said |
| QueryPrinter.Infix.Run | postgresql/contrib/intarray/_int_bool.c:563-637 | The recursive printer, reading the items from the back, appends the infix text of the tree and never writes outside its buffer; if an allocation fails, the text would have come within 12 bytes of 2^29 |
| QueryPrinter.BqarrOut | postgresql/contrib/intarray/_int_bool.c:640-659 | The output text is the infix text of the stored tree, unless that text comes within 12 bytes of 2^29 |
| QueryForm.PrintedShallow | postgresql/contrib/intarray/_int_bool.c:563-637 | No level of a printed query needs more than the 16 stack places |
| QueryForm.RegroupPreserves | postgresql/contrib/intarray/_int_bool.c:563-637 | The tree read back has the value of the printed tree under every assignment, and as many nodes |
| QueryForm.RegroupIdentityIff | postgresql/contrib/intarray/_int_bool.c:563-637 | It is the very same tree if and only if no conjunction has a conjunction as its right operand |
| QueryForm.PrintedDerives | postgresql/contrib/intarray/_int_bool.c:563-637 | The text of every tree with 32-bit operands has a shallow derivation |
| QueryPrinter.PrintAndRead | postgresql/contrib/intarray/_int_bool.c:476-659 | Reading back the printed text of a stored query always succeeds and stores the tree regrouped to the left, with the same value under every assignment; printing itself fails only for texts that come within 12 bytes of 2^29 |
| ByteStrings.LeqIff | postgresql/contrib/btree_gist/btree_utils_var.c:120-163 | Byte strings are ordered by the first byte in which they differ, prefixes first |
| VarKeys.NodeCpLen | postgresql/contrib/btree_gist/btree_utils_var.c:120-163 | The byte loop returns the length of the longest common prefix of the bounds |
| VarKeys.Bounds | postgresql/contrib/btree_gist/btree_utils_var.c:232-276 | Entries united one by one give their hull, which bounds every one of them |
| VarKeys.HullAttained | postgresql/contrib/btree_gist/btree_utils_var.c:232-276 | Both bounds of the hull are bounds of some entry, so they are the least lower and the greatest upper one |
| VarKeys.VarUnion | postgresql/contrib/btree_gist/btree_utils_var.c:321-357 | The union is that hull, cut to two bytes more than its common prefix |
| VarKeys.LeafExact | postgresql/contrib/btree_gist/btree_utils_var.c:553-612 | On leaf keys the consistency test is the operator itself, for all six strategies |
| VarKeys.AdmittedIsFound | postgresql/contrib/btree_gist/btree_utils_var.c:553-612 | A key that admits a value passes the test for all six strategies whenever the value satisfies the operator; a key admits the values between its bounds and, if at least two bytes of its upper bound lie beyond the common prefix, those that extend the upper bound |
| VarKeys.CutAdmits | postgresql/contrib/btree_gist/btree_utils_var.c:203-225 | Cutting bounds to two bytes or more beyond the common prefix keeps every value that a safe entry admits |
| VarTrees.UnionIsCut | postgresql/contrib/btree_gist/btree_utils_var.c:321-357 | Every entry of a union is safe under the cut of the union |
| VarTrees.UnionAdmits | postgresql/contrib/btree_gist/btree_utils_var.c:321-357 | A union admits whatever one of its entries admits, truncated or not |
| VarTrees.BuiltGrown | postgresql/contrib/btree_gist/btree_utils_var.c:321-545 | In every tree whose inner keys are cuts of the hull of entries that are safe under the cut - unions, halves of leaf splits, halves of inner splits that lose nothing - each key admits all that is below it |
| VarTrees.SearchFindsAll | postgresql/contrib/btree_gist/btree_utils_var.c:553-612 | In every such tree, and for all six strategies, the pruned search returns exactly what a full scan returns, in order |
| VarTrees.PickSplit | postgresql/contrib/btree_gist/btree_utils_var.c:457-545 | Both halves of a split are the hulls of their entries, cut by the longer of the two common prefixes |
| VarTrees.SplitHalfSoundIff | postgresql/contrib/btree_gist/btree_utils_var.c:529-544 | The invariant: a half cut to length n admits everything its entries admit if and only if every entry is safe: its cut-off upper bound is not continued in the kept part of the hull by a byte below 255 |
| VarTrees.SplitHalfFindsIff | postgresql/contrib/btree_gist/btree_utils_var.c:529-544 | The search: a half cut to length n passes the test, for all six strategies, for every value its entries admit if and only if every entry is reached: it is safe, or the kept part of the lower bound of the hull is a prefix of its upper bound |
| VarKeys.ReachedIsFound | postgresql/contrib/btree_gist/btree_utils_var.c:529-612 | For a reached entry no value it admits is lost, under any strategy |
| VarKeys.UnreachedLoses | postgresql/contrib/btree_gist/btree_utils_var.c:529-612 | An entry that is not reached admits a value that an equality search misses |
| VarTrees.LeafEntriesSafe | postgresql/contrib/btree_gist/btree_utils_var.c:529-544 | Leaf entries are always safe |
| VarTrees.LeafSplitIsCut | postgresql/contrib/btree_gist/btree_utils_var.c:457-545 | So both halves of every leaf split keep the tree invariant |
| VarKeys.UnsafeLoses | postgresql/contrib/btree_gist/btree_utils_var.c:529-544 | An unsafe entry admits a value that the half does not |
| VarTrees.InnerSplitCanLose | postgresql/contrib/btree_gist/btree_utils_var.c:529-544 | A concrete split of an inner page after which an equality search misses a stored value |
| IntCompress.MergeRuns | postgresql/contrib/intarray/_int_gist.c:226-238 | The backward pass turns the key into at least num_ranges ranges of consecutive integers in the upper part of the same array, never overwriting what it has yet to read |
| IntCompress.ShiftDown | postgresql/contrib/intarray/_int_gist.c:240-246 | The ranges are moved to the front unchanged |
| IntCompress.SmallestGap | postgresql/contrib/intarray/_int_gist.c:255-261 | The scan finds a smallest gap between neighbouring ranges |
| IntCompress.CloseOne | postgresql/contrib/intarray/_int_gist.c:253-264 | One round joins the two ranges around a smallest gap, and the open gaps stay at least as wide as the filled ones |
| IntCompress.CloseGaps | postgresql/contrib/intarray/_int_gist.c:252-264 | Exactly num_ranges ranges are left, and some threshold separates filled from open gaps |
| IntCompress.InternalSize | postgresql/contrib/intarray/_int_tool.c:290-307 | The number of integers in the ranges, or -1 when it does not fit an int |
| IntRanges.SmallGapsFirst | postgresql/contrib/intarray/_int_gist.c:253-264 | Filling the gaps below a threshold costs no more than any choice that leaves as many open |
| IntRanges.CoverAtLeast | postgresql/contrib/intarray/_int_gist.c:207-264 | Any family of so many intervals that covers the key holds at least as many integers |
| IntCompress.Compress | postgresql/contrib/intarray/_int_gist.c:198-282 | A key shorter than 2*num_ranges is kept; otherwise the result has exactly 2*num_ranges sorted endpoints, covers the key, stays within its ends and is optimal: no family of at most num_ranges intervals that covers the key has fewer integers. The sparseness error is raised if and only if every such family is too large |
| IntExpand.Decompress | postgresql/contrib/intarray/_int_gist.c:284-354 | For every increasing key: fewer than 2*num_ranges elements are kept as they are; of others an odd number is read past the end, too many integers are an error, a range that ends at the largest integer never stops, and the rest are expanded to all their integers |
| IntExpand.ExpandFacts | postgresql/contrib/intarray/_int_gist.c:339-342 | The expansion is strictly increasing and has exactly the integers of the ranges |
| IntExpand.StoreAndLoad | postgresql/contrib/intarray/_int_gist.c:162-354 | Decompression after compression gives a strictly increasing superset of the key, the key itself if it was short, and otherwise one of the smallest possible size; it is refused exactly for keys that no num_ranges intervals of admissible size cover, and of the others fails to stop exactly for long ones with the largest integer |
| IntLeaves.ReadLeafIff | postgresql/contrib/intarray/_int_gist.c:176-190 | A leaf array, stored as it is, reads back as itself if and only if it has fewer than 2*num_ranges elements, or an even number of at most MAXNUMELTS of them that form pairs of neighbours below the largest integer |
| IntLeaves.ReadLeafIncludes | postgresql/contrib/intarray/_int_gist.c:284-354 | Whatever a leaf reads back as has all its elements, in increasing order |
| IntLeaves.LoadLeaf | postgresql/contrib/intarray/_int_gist.c:284-354 | For every increasing array the decompressor comes to that reading, or fails as said |
| IntIndex.LeafExactIff | postgresql/contrib/intarray/_int_gist.c:46-119 | The test on a leaf is the operator, for every query, if and only if the leaf reads back as itself |
| IntIndex.LeafMisread | postgresql/contrib/intarray/_int_gist.c:46-119 | With num_ranges 1 the leaf {1,3} reads back as {1,2,3}: it is returned for @> {2} and not found as equal to {1,3} |
| IntIndex.LeafOverrun | postgresql/contrib/intarray/_int_gist.c:339-342 | With num_ranges 1 the two largest integers are a pair of neighbours and yet cannot be read |
| IntIndex.InnerContains | postgresql/contrib/intarray/_int_tool.c:13-46 | The merge loop decides inclusion of sorted arrays |
| IntIndex.InnerOverlap | postgresql/contrib/intarray/_int_tool.c:48-75 | The merge loop decides whether sorted arrays have a common element |
| IntIndex.IncludedIsFollowed | postgresql/contrib/intarray/_int_gist.c:46-119 | An inner key that has all elements of an array is followed for every query the array satisfies: overlap, contains, same and Boolean |
| IntIndex.SearchReturns | postgresql/contrib/intarray/_int_gist.c:46-119 | In every tree of readable leaves whose inner keys include the keys below as they are read, index search returns exactly the leaves that pass the leaf test |
| IntIndex.SearchFindsAll | postgresql/contrib/intarray/_int_gist.c:46-119 | If all leaves read back as themselves, index search equals full scan with the operators |
| IntUnion.UnionOf | postgresql/contrib/intarray/_int_gist.c:121-156 | The union is the strictly increasing list of all elements of the keys, or is refused exactly for the size of their concatenation |
| IntIndex.GrowNode | postgresql/contrib/intarray/_int_gist.c:121-282 | A node made of its children as they are read, by union, compression and decompression, keeps that tree invariant, with a key of the smallest possible size; each way to fail has its condition: an unreadable leaf, a union too large to allocate or to count, data too sparse for any key of admissible size, and a long union with the largest integer |
| BloomRandom.MyRandMultiplies | postgresql/contrib/bloom/blutils.c:221-246 | For every state, the split computation is 16807*x mod (2^31-1), every intermediate fits in 32 bits, and a state other than 0 leads to one in 1..2^31-2 |
| BloomRandom.RunMultiplies | postgresql/contrib/bloom/blutils.c:221-246 | So does any run: the k-th state is 16807^k*x mod (2^31-1) and never 0 |
| BloomRandom.SrandIs | postgresql/contrib/bloom/blutils.c:248-254 | Seeding leaves the signed seed, reduced toward zero by 2^31 - 2, plus one |
| BloomRandom.DocumentedRangeIff | postgresql/contrib/bloom/blutils.c:248-254 | The state after seeding is in the documented range if and only if the seed is below 2^31 or is 0x80000002 |
| BloomRandom.DrawsInRangeIff | postgresql/contrib/bloom/blutils.c:236-254 | Every draw is a valid bit number if and only if the seed is neither 0x80000001 nor 0xffffffff; after those two every draw is -1 |
| BloomSign.XorBits | postgresql/contrib/bloom/blutils.c:268-278 | Each bit of the mixed seed is set if and only if it is set in one of hash and draw only |
| BloomSign.BadHashes | postgresql/contrib/bloom/blutils.c:259-286 | For every column exactly two hashes lead to a bad seed: the bad seeds exclusive-ored with the first draw of the column |
| BloomSign.Generator.Srand | postgresql/contrib/bloom/blutils.c:248-254 | Seeding sets the shared state as the seeding function says |
| BloomSign.Generator.Rand | postgresql/contrib/bloom/blutils.c:221-246 | A draw moves the shared state one multiplication on |
| BloomSign.Generator.SignValue | postgresql/contrib/bloom/blutils.c:259-286 | The bits set for a value are a function of column and hash alone; all others stay |
| BloomSign.MakeSign | postgresql/contrib/bloom/blutils.c:292-311 | The signature of a tuple, and of a scan, has a bit set if and only if it is one of the draws for one of the values: as many draws as its column has bits, each reduced by the length of the signature |
| BloomSign.SignDraws | postgresql/contrib/bloom/blutils.c:259-311 | The same of the specification: exactly the bits drawn for the entries are set |
| BloomSign.SignMatches | postgresql/contrib/bloom/blscan.c:147-155 | The word loop decides whether all bits of the scan signature are set |
| BloomSign.EqualColumnsMatch | postgresql/contrib/bloom/blscan.c:90-168 | A tuple passes the test for every scan whose keys equal columns of the tuple |
| BloomPages.RoomIff | postgresql/contrib/bloom/bloom.h:152-155 | The free-space test is the test against a fixed capacity, which is at least one for every signature length |
| BloomPages.Buffer.InitPage | postgresql/contrib/bloom/blutils.c:406-416 | A reinitialised page is an empty live data page |
| BloomPages.Buffer.AddItem | postgresql/contrib/bloom/blutils.c:317-345 | A tuple is appended if and only if there is room, with maxoff and pd_lower kept in step inside the page |
| BloomPages.Buffer.Insert | postgresql/contrib/bloom/blinsert.c:249-269 | A new or deleted page is taken over, a full one is left as it was |
| BloomPages.Buffer.Compact | postgresql/contrib/bloom/blvacuum.c:85-107 | The two-pointer loop leaves exactly the unflagged tuples, in order |
| BloomPages.Buffer.Sweep | postgresql/contrib/bloom/blvacuum.c:70-139 | A swept page holds its unflagged tuples, is marked deleted if and only if it has just become empty, and is offered for insertion if and only if it is not empty and has room |
| BloomPages.Buffer.Scan | postgresql/contrib/bloom/blscan.c:137-164 | A page contributes its matching tuples in order; new and deleted pages contribute nothing |
| BloomPages.BuildCallback | postgresql/contrib/bloom/blinsert.c:73-115 | Every tuple goes to the cached page, which is flushed only when full |
| BloomPages.Build | postgresql/contrib/bloom/blinsert.c:120-156 | A new index holds all tuples in order on full pages, except that the last page may have room |
| BloomStart.Start | postgresql/contrib/bloom/blinsert.c:120-156 | A new index over distinct heap pointers is an initial state of the protocol and holds exactly the given tuples |
| BloomProtocol.StepKeeps | postgresql/contrib/bloom/blinsert.c:196-365 | Every step of concurrent insertions, vacuum, page recycling and scans keeps the invariant: each stored tuple is in one slot of its home page and nowhere else, listed pages are data pages, the metapage lock has one holder, a page just appended is still new, pages respect their capacity |
| BloomProtocol.RunKeeps | postgresql/contrib/bloom/blinsert.c:196-365 | Hence every reachable state satisfies it, for any interleaving of any length |
| BloomProtocol.ContentChanges | postgresql/contrib/bloom/blinsert.c:229-360 | Conservation: a completed insertion adds its tuple and nothing else, a swept page loses its flagged tuples and nothing else, no other step changes the content |
| BloomProtocol.TupleStays | postgresql/contrib/bloom/blvacuum.c:58-158 | A stored tuple that no vacuum flags is still stored, on the same page, after any run |
| BloomProtocol.StoredOnce | postgresql/contrib/bloom/blvacuum.c:58-158 | A stored tuple is in exactly one slot of exactly one page, and that page is not deleted |
| BloomProtocol.VacuumComplete | postgresql/contrib/bloom/blvacuum.c:53-139 | When the sweep has passed the pages it counted at its start, no flagged tuple is left in the index |
| BloomProtocol.ScanComplete | postgresql/contrib/bloom/blscan.c:116-166 | A finished scan has returned every tuple that was stored when it began, is flagged by no vacuum and has the bits of the scan signature |
| BloomProtocol.ScanSound | postgresql/contrib/bloom/blscan.c:116-166 | Whatever a scan returns was stored, with the bits of the scan signature, at some time during the scan |
| BloomProtocol.EqualKeysFound | postgresql/contrib/bloom/blscan.c:90-168 | No false negatives: in every interleaving a scan finds every surviving tuple stored before it whose columns include the scan keys |
| BloomProtocol.InsertionAdvances | postgresql/contrib/bloom/blinsert.c:229-360 | No reachable insertion is stuck: it has a step of its own, or waits for a lock holder who has one |
| BloomProtocol.WalksAdvance | postgresql/contrib/bloom/blvacuum.c:57-158 | Nor are vacuum and scans, except that vacuum may have to wait for the metapage |
| SortedMaps.MergeIsUnion | postgresql/contrib/hstore/hstore_op.c:519-561 | The merge of two sorted lists is sorted and is the map union in which the second list wins |
| SortedMaps.RemoveIsDifference | postgresql/contrib/hstore/hstore_op.c:328-363 | Removal by merging is sorted and removes exactly the given keys |
| SortedMaps.WithoutIsDifference | postgresql/contrib/hstore/hstore_op.c:271-284 | Filtering out one key is sorted and removes exactly that key |
| SortedMaps.RemoveEqualIsDifference | postgresql/contrib/hstore/hstore_op.c:412-462 | Removal of equal pairs is sorted and keeps exactly the pairs the second map does not have |
| HstoreLayout.CmpIff | postgresql/contrib/hstore/hstore_io.c:288-310 | A key comes before another if and only if it is shorter, or as long and smaller where they first differ |
| HstoreLayout.CmpIsOrder | postgresql/contrib/hstore/hstore_io.c:288-310 | Length first, then memcmp, is a strict total order of keys |
| HstoreLayout.Reads | postgresql/contrib/hstore/hstore.h:28-34 | In a packed list every key and value is found at the offset and with the length the entries give |
| HstoreLayout.Unmasked | postgresql/contrib/hstore/hstore.h:25-30 | The 30-bit mask drops nothing of a value that fits |
| HstoreLayout.EncodesOne | postgresql/contrib/hstore/hstore.h:28-83 | A packed value encodes at most one list of pairs |
| HstoreOps.Builder.CopyItem | postgresql/contrib/hstore/hstore.h:99-106 | Copying a pair extends the encoded list by it, inside both areas |
| HstoreOps.Builder.AddItem | postgresql/contrib/hstore/hstore.h:112-126 | Adding a pair extends the encoded list by it |
| HstoreOps.Builder.Finalize | postgresql/contrib/hstore/hstore.h:129-140 | The finished value encodes exactly the pairs written and has no slop |
| HstoreOps.Pack | postgresql/contrib/hstore/hstore_io.c:387-414 | The packed value encodes the list; it is refused exactly when it cannot be allocated |
| HstoreOps.MergeRound | postgresql/contrib/hstore/hstore_op.c:519-561 | One round of the merge loop writes the next pair of the merge |
| HstoreOps.SameMapSameValue | postgresql/contrib/hstore/hstore.h:28-83 | The exact packed form is canonical: two well-formed values without slop that stand for the same map are equal |
| HstoreOps.Concat | postgresql/contrib/hstore/hstore_op.c:471-566 | The result is well-formed, exact in size and is the right-biased union; the only error is an allocation that is too large |
| HstoreOps.Assign | postgresql/contrib/hstore/hstore_subs.c:187-258 | Merging one pair into a value updates exactly one key |
| HstoreArgs.AssignTo | postgresql/contrib/hstore/hstore_subs.c:142-260 | Subscript assignment refuses a null subscript, builds a value of one pair from a null one, updates exactly one key otherwise, and fails exactly when the allocation is too large |
| HstoreOps.DeleteKeys | postgresql/contrib/hstore/hstore_op.c:292-368 | The result is the map without the given keys |
| HstoreOps.DeletePairs | postgresql/contrib/hstore/hstore_op.c:371-468 | The result is the map without the pairs it shares with the second one, null equal only to null |
| HstoreOps.Delete | postgresql/contrib/hstore/hstore_op.c:245-289 | The result is the map without the one key |
| HstoreSearch.FindKey | postgresql/contrib/hstore/hstore_op.c:35-70 | The binary search finds the key, or leaves the gap where it would be as bound |
| HstoreSearch.BoundCarries | postgresql/contrib/hstore/hstore_op.c:35-70 | The bound left by one search is valid for every later key |
| HstoreSearch.LocatedIff | postgresql/contrib/hstore/hstore_op.c:35-70 | A key is found if and only if the map has it |
| HstoreSearch.Exists | postgresql/contrib/hstore/hstore_op.c:149-159 | True if and only if the key is present |
| HstoreSearch.Fetch | postgresql/contrib/hstore/hstore_subs.c:93-134 | The value of the key; null for absent keys and for null values |
| HstoreSearch.ExistsAny | postgresql/contrib/hstore/hstore_op.c:162-194 | True if and only if some key of the sorted list is present |
| HstoreSearch.ExistsAll | postgresql/contrib/hstore/hstore_op.c:196-227 | True if and only if all keys of the sorted list are present |
| HstoreSearch.Contains | postgresql/contrib/hstore/hstore_op.c:965-1010 | Exactly the sub-map relation, null matching only null |
| HstoreSearch.Slice | postgresql/contrib/hstore/hstore_op.c:632-691 | The map restricted to the given keys, or the allocation error |
| HstoreArgs.ArrayToKeys | postgresql/contrib/hstore/hstore_op.c:72-125 | An array of keys in any order, with nulls and repetitions, becomes the strictly sorted list of exactly its keys, or is refused for its length |
| HstoreArgs.AnyKey | postgresql/contrib/hstore/hstore_op.c:162-194 | True if and only if some key of the array is present |
| HstoreArgs.AllKeys | postgresql/contrib/hstore/hstore_op.c:196-227 | True if and only if all keys of the array are present |
| HstoreArgs.DeleteArray | postgresql/contrib/hstore/hstore_op.c:292-368 | The result is the map without the keys of the array |
| HstoreArgs.SliceArray | postgresql/contrib/hstore/hstore_op.c:632-691 | The result is the map restricted to the keys of the array |
| HstoreIo.Parser.Push | postgresql/contrib/hstore/hstore_io.c:40-49 | The word buffer grows before it would overflow and keeps its content; a character is refused exactly when the word has 2^29 - 1 already |
| HstoreIo.Parser.Step | postgresql/contrib/hstore/hstore_io.c:59-173 | One round of get_val does what the scanner function says, and the pointer never passes the terminating NUL |
| HstoreIo.Parser.GetVal | postgresql/contrib/hstore/hstore_io.c:59-173 | get_val delivers the word, its absence or the error of the scanner function |
| HstoreIo.Parser.GrowPairs | postgresql/contrib/hstore/hstore_io.c:196-203 | The array of pairs is doubled when full, which is refused exactly at 2^24 pairs |
| HstoreIo.Parser.Run | postgresql/contrib/hstore/hstore_io.c:183-286 | parse_hstore delivers the pairs or the error of the parser function |
| HstoreIo.SortUnique | postgresql/contrib/hstore/hstore_io.c:318-364 | The pairs come out strictly sorted, with the same keys, each with one of its values; a strictly sorted list is left as it is |
| HstoreIo.UniquePairs | postgresql/contrib/hstore/hstore_io.c:318-364 | Duplicate removal in place keeps the first pair of each run and sums the string lengths exactly |
| HstoreIo.In | postgresql/contrib/hstore/hstore_io.c:417-434 | Input fails if and only if the text derives no list of at most 2^24 pairs; otherwise the value has exactly the keys of the list, each with one of its values, or the list is more than one allocation holds |
| HstoreIo.CopyEscaped | postgresql/contrib/hstore/hstore_io.c:1151-1163 | The copy is the escaped string |
| HstoreIo.PieceFits | postgresql/contrib/hstore/hstore_io.c:1181-1199 | A printed pair fits the bytes reserved for it, and the last one leaves two to spare |
| HstoreIo.ReservedInt | postgresql/contrib/hstore/hstore_io.c:1181-1199 | The computed length fits a signed 32-bit integer for every value that can exist |
| HstoreIo.Out | postgresql/contrib/hstore/hstore_io.c:1165-1233 | The output is the text of the pairs and no byte is written outside the computed length, the final NUL included |
| HstoreGrammar.Characters | postgresql/contrib/hstore/hstore_io.c:59-286 | The marks are the ASCII characters of the syntax, and white space is the six characters of the C locale |
| HstoreGrammar.TextRead | postgresql/contrib/hstore/hstore_io.c:59-286 | Every text of the grammar is read as the pairs it stands for: words quoted or not, a backslash before any byte, white space around words, a last comma, unquoted null in any letter case |
| HstoreGrammar.TextFound | postgresql/contrib/hstore/hstore_io.c:59-286 | Every text that is read is one of the grammar, with these pairs |
| HstoreGrammar.ParseIff | postgresql/contrib/hstore/hstore_io.c:59-286 | For every text and every list of pairs, the text is read as the list if and only if it derives it and the parser can hold it; the grammar is defined without the scanners |
| HstoreText.ReadsEscaped | postgresql/contrib/hstore/hstore_io.c:130-168 | The scanner reads back every escaped string that its buffer holds |
| HstoreText.ReadsNull | postgresql/contrib/hstore/hstore_io.c:246-262 | The unquoted word NULL reads back as null |
| HstoreText.ParsesText | postgresql/contrib/hstore/hstore_io.c:183-286 | The parser reads back the printed pairs in order if there are at most 2^24 of them, and refuses the text otherwise |
| HstoreIo.PrintAndRead | postgresql/contrib/hstore/hstore_io.c:417-1233 | Input after output is the identity on well-formed values without NUL bytes, whatever quotes, backslashes, blanks, empty strings or "NULL" strings they hold, if and only if they have at most 2^24 pairs; the text of a larger value is refused |
| HstoreLimits.PrintedNotRead | postgresql/contrib/hstore/hstore_io.c:183-203 | A value of 2^24 + 1 pairs that can be stored and printed, so that its text is refused |
| HstoreUpgrade.ValidOld | postgresql/contrib/hstore/hstore_compat.c:170-229 | For every header and length the old-format check accepts exactly the values that hold all announced entries, contiguous, inside the buffer and with nondecreasing key lengths, and tells exact ones from those with slop; the 32-bit arithmetic of the check decides as unbounded arithmetic would |
| HstoreUpgrade.LastPosIff | postgresql/contrib/hstore/hstore_compat.c:206-223 | Comparing positions with the running sum, and its end with the size, is enough for every string to lie inside the buffer |
| HstoreUpgrade.SumPositions | postgresql/contrib/hstore/hstore_compat.c:212-219 | The running sum overflows at most in the last round, so the comparisons are those of the true sums |
| HstoreUpgrade.ConvertLoop | postgresql/contrib/hstore/hstore_compat.c:325-338 | In place, each pair of words becomes the two new entries of its pair |
| HstoreUpgrade.Convert | postgresql/contrib/hstore/hstore_compat.c:316-344 | The converted value encodes the pairs of the old one, no position loses a bit, and the fixed-up size is exact |
| HstoreUpgrade.ShortcutIff | postgresql/contrib/hstore/hstore_compat.c:250-256 | The shortcut takes an old value for a new one exactly when its first value is null with a length field of 32768 or more and the whole value is shorter than 32768 bytes |
| HstoreUpgrade.MisreadExample | postgresql/contrib/hstore/hstore_compat.c:250-256 | A concrete old value that the shortcut misreads |
| HstoreUpgrade.TakeShortcut | postgresql/contrib/hstore/hstore_compat.c:250-256 | The shortcut leaves the entries as they are and sets the size by the last of them, which exceeds the value if and only if twice its position, plus its null bit, lies past the buffer |
| HstoreUpgrade.Upgrade | postgresql/contrib/hstore/hstore_compat.c:235-347 | For every value the old-format check accepts, the upgraded value encodes the same pairs if and only if the shortcut does not apply to it, and then its size is exact |
| HstoreGist.BitIsHash | postgresql/contrib/hstore/hstore_gist.c:44-45 | The bit of a string is its hash, reduced by the length of the signature |
| HstoreGist.CompressLeaf | postgresql/contrib/hstore/hstore_gist.c:147-176 | A bit of the signature of a stored value is set if and only if it is that of one of its keys or values |
| HstoreGist.CompressInner | postgresql/contrib/hstore/hstore_gist.c:177-196 | A signature becomes ALLISTRUE exactly when it is full, and stands for no less |
| HstoreGist.UnionKey | postgresql/contrib/hstore/hstore_gist.c:289-300 | The base gets exactly the bits of the added key |
| HstoreGist.Union | postgresql/contrib/hstore/hstore_gist.c:302-327 | A union stands for whatever one of its keys stands for, is ALLISTRUE exactly when one of them is, and otherwise has exactly the bits of its keys |
| HstoreGist.ConsistentContains | postgresql/contrib/hstore/hstore_gist.c:520-547 | The loop for the contains strategies tests exactly the bits of the query |
| HstoreGist.AdmittedIsConsistent | postgresql/contrib/hstore/hstore_gist.c:500-607 | A key is consistent with every query that a value it stands for satisfies, for all four strategies |
| HstoreGist.ConsistentIff | postgresql/contrib/hstore/hstore_gist.c:500-607 | A key other than ALLISTRUE is consistent with a query if and only if it stands for some value that satisfies the query |
| HstoreGist.GrowLeaf | postgresql/contrib/hstore/hstore_gist.c:147-176 | A leaf entry made of a value is a tree of that kind |
| HstoreGist.GrowNode | postgresql/contrib/hstore/hstore_gist.c:177-327 | So is an inner entry made by union and compression of the keys below; it is ALLISTRUE exactly when one of them is or they fill the signature together |
| HstoreGist.SearchFindsAll | postgresql/contrib/hstore/hstore_gist.c:500-607 | In any nesting of compressed keys and unions, search with recheck equals full scan |
| BtreeCheck.FindRight | postgresql/contrib/amcheck/verify_nbtree.c:1611-1636 | The loop over ignorable right siblings ends if and only if it ends within as many links as the file has pages |
| BtreeCheck.DeletedCycle | postgresql/contrib/amcheck/verify_nbtree.c:1611-1636 | It never ends at a deleted page that links to itself |
| BtreeCheck.ReadRightKey | postgresql/contrib/amcheck/verify_nbtree.c:1570-1769 | The key compared with the last item is the first item of the first live or rightmost page to the right |
| BtreeCheck.CheckPage | postgresql/contrib/amcheck/verify_nbtree.c:1071-1524 | A leaf page passes if and only if its items are adjacent-wise strictly increasing, none exceeds the high key, and the last is below the first item to the right; the check runs for ever if and only if the items pass and the search for that item does |
| BtreeWalk.NoRevisit | postgresql/contrib/amcheck/verify_nbtree.c:820-822 | Agreement of left links rules out a second visit of any live page |
| BtreeWalk.CheckTarget | postgresql/contrib/amcheck/verify_nbtree.c:708-843 | A target passes if and only if it is a live page of the level that agrees with its left neighbour and passes the page check, or a half-dead page with a right sibling; the check of the target runs for ever exactly when its page check does |
| BtreeWalk.CheckLevel | postgresql/contrib/amcheck/verify_nbtree.c:683-900 | On any file, whatever the verdict, the blocks that passed are distinct, linked to the right, agree with their left neighbours if live, and are at most as many as the file has; the run is silent exactly on levels in good order, and then has walked the whole level; it runs for ever if and only if the check of the target it has reached does, or it accepts a page a second time |
| BtreeWalk.ForeverIff | postgresql/contrib/amcheck/verify_nbtree.c:712-885 | The unbounded walk passes any number of targets if and only if it accepts a page a second time, and that page is half-dead |
| BtreeWalk.HalfDeadCycle | postgresql/contrib/amcheck/verify_nbtree.c:712-885 | For example at two half-dead pages that link to each other |
| BtreeWalk.SilentRises | postgresql/contrib/amcheck/verify_nbtree.c:1419-1523 | If no live page is empty, the items along a silently checked level are globally strictly increasing, across any half-dead pages between them |
| BtreeWalk.SilentBounds | postgresql/contrib/amcheck/verify_nbtree.c:1389-1416 | Each item of a live page is at most the high key of its page |
| BtreeHealth.HealthyPasses | postgresql/contrib/amcheck/verify_nbtree.c:683-900 | No false alarm: a level whose right links lead from a live leftmost to a live rightmost page, whose live pages agree with their left neighbours, have the level and keep their high keys, and whose items increase from page to page, is passed; nothing in this description refers to the tests |
| BtreeHealth.PassedHealthy | postgresql/contrib/amcheck/verify_nbtree.c:683-900 | Conversely, where no live page is empty, only such levels are passed |
| BtreeHealth.CheckHealthy | postgresql/contrib/amcheck/verify_nbtree.c:683-900 | So on such a level the run is silent and has passed exactly its pages |
| BtreeWalk.EmptyPageHides | postgresql/contrib/amcheck/verify_nbtree.c:1749-1762 | A concrete level with an empty page that passes although its items are out of order |
| ToastCheck.PieceOfValue | postgresql/contrib/amcheck/verify_heapam.c:1193-1277 | Chunk k is expected if and only if some of the value is left behind k full chunks, and then with as much of it as a chunk holds |
| ToastCheck.CheckTuple | postgresql/contrib/amcheck/verify_heapam.c:1193-1277 | A chunk draws no report if and only if it has the expected number and plain data of the expected size |
| ToastCheck.CheckAttribute | postgresql/contrib/amcheck/verify_heapam.c:1464-1515 | Nothing is reported if and only if the chunks are numbered from 0 to the last in order, with data of the expected sizes |
| ToastCheck.SizesAddUp | postgresql/contrib/amcheck/verify_heapam.c:1193-1277 | Then the sizes add up to exactly the external size |
| CubeBoxes.Union | postgresql/contrib/cube/cube.c:746-804 | The union is the least box that includes both, missing dimensions counting as zero |
| CubeBoxes.Overlap | postgresql/contrib/cube/cube.c:1192-1228 | True if and only if the extents meet along every axis |
| CubePoints.OverlapsIff | postgresql/contrib/cube/cube.c:1192-1228 | Boxes overlap if and only if they have a point in common |
| CubePoints.ContainsIff | postgresql/contrib/cube/cube.c:1122-1158 | A box contains another if and only if the points of that one lie in it along the axes both have and are zero along the axes it has not |
| CubePoints.IncludesIff | postgresql/contrib/cube/cube.c:746-804 | Inclusion of keys is inclusion of their points |
| CubeBoxes.Contain | postgresql/contrib/cube/cube.c:1122-1158 | True if and only if the common axes are contained and the excess axes of the second box are zero |
| CubeBoxes.IncludedIsConsistent | postgresql/contrib/cube/cube.c:706-731 | An including key never fails the test when a box below overlaps, contains or equals the query |
| CubeBoxes.ContainedByIff | postgresql/contrib/cube/cube.c:706-731 | For "contained by" this holds if and only if the dimensions that the query has in excess of the stored box straddle zero |
| CubeBoxes.ContainedByCanLose | postgresql/contrib/cube/cube.c:706-731 | A concrete point that is contained by a query its own key fails |
| CubeBoxes.Gap | postgresql/contrib/cube/cube.c:1501-1514 | The distance of two intervals: the gap between them, zero if they meet |
| CubeBoxes.ComputeDistance | postgresql/contrib/cube/cube.c:1251-1391 | The loops compute the taxicab, Chebyshev and squared Euclidean distance over all axes of either box |
| CubePoints.DistanceIsNearest | postgresql/contrib/cube/cube.c:1251-1391 | These distances are those of a nearest pair of points: the sum of the differences of their coordinates, the greatest of them, and the sum of their squares; no pair of points of the boxes is nearer |
| CubeBoxes.DistanceBound | postgresql/contrib/cube/cube.c:1396-1498 | No distance to an including box exceeds the distance to a box it includes |
| CubeBoxes.CoordBound | postgresql/contrib/cube/cube.c:1404-1469 | Nor does the signed coordinate returned for an inner key |
| CubePoints.CoordIsExtreme | postgresql/contrib/cube/cube.c:1404-1469 | On a leaf the value is the least or greatest coordinate of the points of the box along the axis, with the sign of the coordinate number |
| CubePoints.CoordIsLeast | postgresql/contrib/cube/cube.c:1404-1469 | On an inner page it is the least value of any box below the key |
| CubeIndex.UnionAll | postgresql/contrib/cube/cube.c:423-449 | The union of all entries is the least box that includes them |
| CubeIndex.GrowNode | postgresql/contrib/cube/cube.c:423-449 | A node made of its children by union is a tree of that kind, with the least possible key |
| CubeIndex.SearchFindsAll | postgresql/contrib/cube/cube.c:706-731 | In every tree of such unions, search for overlapping, containing or equal boxes equals full scan |
| CubeIndex.NearestFirst | postgresql/contrib/cube/cube.c:1396-1498 | In every such tree no key overstates the distance or coordinate of a box anywhere below it |

## Left out

- QueryEval.LinkedQueryEvaluates: asks that the 16-bit links fit; `LinksReachIffFits` says exactly when they do.
- QueryPrinter.PrintAndRead: asks for operands that fit 32 bits, which is all the item type can store.
- IntIndex.GrowNode: a concatenation of 2^30 integers or so, whose byte count wraps around, is an outcome about which nothing more is said.
- IntIndex.SearchReturns: asks that all leaves can be read; of others the source raises an error or reads and writes past the end, and `Decompression` says exactly which they are.
- IntIndex.SearchFindsAll: asks that all leaves read back as themselves; `ReadLeafIff` says exactly which do, and `SearchReturns` covers every tree of readable ones.
- BloomSign.Generator.SignValue: asks for a seed after which the draws are bit numbers; after the others the source computes the bit number -1. `DrawsInRangeIff` says exactly which seeds these are, `BadHashes` which hashes lead to them.
- BloomSign.MakeSign: asks for such seeds for all values.
- BloomSign.EqualColumnsMatch: asks for such seeds for all columns and keys.
- BloomProtocol.EqualKeysFound: asks for such seeds for all columns and keys.
- HstoreUpgrade.Upgrade: covers values that the old-format check accepts, on little-endian layouts of the old bit fields; the check of new-format values that lack the version flag is not modelled.
- HstoreIo.In: among pairs with equal keys it leaves open which one is kept, as an unstable sort does.
- HstoreOps.Assign: covers a value that is not null; `HstoreArgs.AssignTo` covers the other.
- HstoreOps.DeleteKeys: the key list arrives strictly sorted; `HstoreArgs.DeleteArray` takes any array.
- HstoreSearch.ExistsAny: the key list arrives strictly sorted; `HstoreArgs.AnyKey` takes any array.
- HstoreSearch.ExistsAll: the key list arrives strictly sorted; `HstoreArgs.AllKeys` takes any array.
- HstoreSearch.Slice: the key list arrives strictly sorted; `HstoreArgs.SliceArray` takes any array.
- BtreeWalk.CheckLevel: leaf levels in read-only mode; tests of tuple structure, posting lists, downlinks and child pages only add further errors.
- BtreeWalk.SilentRises: asks that no live page of the level is empty; `EmptyPageHides` shows why.
- CubeBoxes.ComputeDistance: over the reals and without the final square root, which is monotone.
- QueryReader.BqarrIn: takes a C string, without a NUL before its end, and does not model exhaustion of the call stack by deep nesting.
- The single memory block of an hstore: entries and strings are two areas, so the move of the string area when fewer entries are written than allotted is not visible.
- Multi-byte character handling in btree_gist prefixes, and the byte layout of its keys.
- Write-ahead logging and crash recovery in bloom; a logged change is taken as atomic.
- Penalty functions and the choice of split in GiST, which use floating point.
- The array, record, JSON and binary forms of hstore, its comparison operators and its hash functions.
- cube input and output, comparison, enlargement and intersection.
- All other contrib modules.
