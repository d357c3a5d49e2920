# Models of the contrib modules

This project models the algorithmic core of six modules under `contrib/` and proves
what they are for. Each part states the promise in its own terms, next to the code
that has to keep it.

**Edit distance** (`fuzzystrmatch`). `EditDistance` defines the price of an edit
script and proves that the matrix recurrence gives the least price of any script,
whatever the signs of the costs. `Levenshtein` has the two-row loop and the bounded
form with its lowered substitution cost, its sentinels and its two sliding column
bounds, each loop proved against a function on rows. The plain form returns the least
price. The bounded form returns it exactly when it is within the bound and the bound
plus one otherwise, for all strings and every bound, and it is shown for exactly which
costs it does so.

**Boolean queries** (`intarray`). `BoolQuery` has the grammar, the meaning of a
query and the operator-stack translation; `BoolParser` the lexer and the recursive
parser over a linked list; `BoolSpelling` what characters write a token, apart from
any lexer; `BoolEval` the back-links, the input function and the evaluator that
follows the links; `BoolPrint` the printer and the round trip; `BoolIndex` what GiST
and GIN do with a query. A text is accepted exactly if it writes a phrase of the
grammar (and not one too long or too deep), and evaluating the stored items by their
links gives the meaning of that phrase.

**Range keys** (`intarray`). `RangeKeys` and `RangeCodec` have the in-place
compression of a sorted array into a fixed number of ranges, the size computation
and decompression. The ranges are the best possible: no cover of the input by as
many ranges holds fewer integers. Where several are, it is shown which one is stored.
`IntGist` is the index on these keys: unions
compressed and decompressed at every level, and the tests made on what is seen of them.

**Truncated keys** (`btree_gist`). `VarKeys` has the common prefix, the truncation,
the union and the consistency test of variable-length keys over byte strings, and
the page split.

**Packed maps** (`hstore`). `HsLayout` is the packed form: entries with end
positions and flags, then bytes. `HsBuild` writes it in a block of memory, up to the
final move that closes the gap left by a smaller count. `HsOrder` has the order of
keys and shows that a map has one sorted list and so one packed form. On these rest
`HsPairs` (sorting and dropping repeated keys), `HsSearch` (the binary search with
its cached lower bound and what is built on it), `HsMerge` (concatenation and the
three deletions), `HsCompare` (the btree order), `HsText`, `HsGrammar`, `HsPrinted`,
`HsParse` and `HsIo` (the text form, its syntax, the printed form as a phrase of it, the
nested state machines, input and output) and `HsCompat` (the upgrade of values in the old format). A value is well formed,
`Represents(hs, m)`, if it is the packed form of the list of pairs of the map `m` with
strictly increasing keys. Every operation takes well-formed values and returns one,
and is specified by what it does to maps.

**Signatures and boxes** (`hstore`, `intarray`, `cube`). `Signature` has the bit
vectors, union, collapse and page split that two modules share; `SignSearch` the
descent of a tree of such keys; `HsIndex` and `IntIndex` the consistency tests.
`Cube` has boxes of mixed dimension, their union, comparison, page split and index;
`CubeOrder` what the comparison is worth as an order.

Library sorting, hash functions, distances and size heuristics are parameters, so
the statements hold for any of them. Lengths, counts and positions are natural
numbers; widths are modelled where the code depends on them: 16-bit links, 30-bit
positions, 32-bit sizes, the int that counts through a range, and the largest
allocation (`Alloc`) with the buffers that double up to it.

## What the code does not keep

Some properties one would expect are false of the code. Each comes with the exact
condition under which it holds, and where that says little by itself with an input on
which it fails.

- The back-link of a query item has 16 bits. The links are right exactly if every
  right operand has fewer than 2^15 items (`BoolIndex.LinksLeadExactly`). There is a
  text, 16 operators deep, that is read as a query whose last link points out of it
  (`BoolPrint.LinkCanLeaveTheQuery`).
- Printing a query and reading it back is not the identity: chains of `&` come back
  associated to the left. That is the only change (`BoolPrint.PrintReadsBack`), as long
  as the text is printed at all: its buffer doubles, from 32 bytes, to at most 2^29. Reading
  what was printed gives the query leaning left exactly if no write goes past that
  (`BoolPrint.RoundTrip`), and a text that ends 12 characters before the limit does not
  (`BoolPrint.PrintableBounds`).
- A leaf array of 2 * MAXNUMRANGE elements or more is stored as it is, with a notice,
  but is read back as ranges. Decompression returns it unchanged exactly if its elements
  pair up as consecutive integers, it has no more than the allowed number of elements,
  it does not end at the largest int, and, for an odd length, the word behind it is its
  last element
  (`RangeCodec.LongLeafReadsBack`). The first 200 even numbers, with 100 ranges, come
  back with an odd one among them (`RangeCodec.LongLeafChanges`).
- Decompression counts through a range with an int, so a range up to the largest int
  never ends and the result is overrun. What compression stores for a long key is read
  back as a superset of it exactly if the key does not end there
  (`RangeCodec.CompressedReadsBack`).
- Searching gist__int_ops finds an array by every operator it satisfies, in every index
  that holds it, exactly if it is not empty and is short or, if long, is returned
  unchanged as above (`IntGist.FoundExactly`). An empty array is missed only by searches
  for arrays contained in the query (`IntGist.SearchLosesNothing`).
- A page split over keys that were already truncated can lose an answer. Every search
  satisfied by a value that an entry covers still finds the side it went to exactly if
  the entry is not endangered (a cut upper bound, the side's bound longer than it and
  not all ones from there on) or the side's lower bound starts its upper bound
  (`VarKeys.SplitKeepsAnswersExactly`, `VarKeys.SplitLosesAnAnswer`). The side covers
  all that the entry covers exactly if the entry is not endangered
  (`VarKeys.SplitKeepsCoverExactly`). In a tree with splits at any level, searches lose
  nothing if no split has an endangered entry (`VarKeys.SearchLosesNothing`), and a split
  of stored values never has one (`VarKeys.LeavesWellSplit`).
- Text output is read back as the same value exactly if the value has no byte 0, the
  estimate of its text is within the allocation limit, and it has at most 2^24 pairs: the
  array of pairs, 40 bytes each, is doubled from 16 and cannot grow past that
  (`HsIo.RoundTrip`). 2^24 + 1 keys of 25 bytes are printed and cannot be read
  (`HsIo.TooManyToRead`).
- The shortcut of the upgrade for short values takes a valid old value for a new one
  exactly if its first pair is null and has at least 32768 in the field for the length
  of the value, which the validity test does not look at for a null
  (`HsCompat.ShortcutExactly`, `HsCompat.ShortcutMisreads`).
- Searching arrays contained in a query finds a contained array in every tree exactly
  if it is not empty (`IntIndex.ContainedByFoundExactly`, `IntIndex.EmptyRowIsMissed`).
- Searching boxes contained in a query finds a contained box in every tree exactly if
  the query holds zero in each dimension the box lacks (`Cube.ContainedByFoundExactly`,
  `Cube.LowerDimensionIsMissed`).
- The comparison of boxes, offered to btree indexes, is an order of boxes of one
  dimension. Among boxes of dimensions p, q and r, from the lowest, it has no circle
  exactly if p = q, or p = 0 and q = r (`CubeOrder.NoCirclesExactly`).
- The bounded edit distance is right for all strings and all bounds exactly if no cost is
  negative, or neither an insertion nor a deletion costs more than zero, or the lesser of a
  substitution and a deletion with an insertion costs zero
  (`Levenshtein.BoundFitsExactly`). For all other costs there is an input of at most two
  characters each that is answered wrongly (`Levenshtein.UnfitCostsMislead`). When the
  program drops the bound, it is right for any costs (`Levenshtein.LessEqual`).

## Model

| member | source | states |
|---|---|---|
| `EditDistance.DistanceIsLeastPrice` | contrib/fuzzystrmatch/levenshtein.c:210-326 | the last cell of the matrix is the price of some edit script and no script is cheaper, for any costs |
| `EditDistance.ScriptsCostAtLeastTheCell` | contrib/fuzzystrmatch/levenshtein.c:289-300 | no script costs less than the cell it reaches |
| `EditDistance.CellIsReached` | contrib/fuzzystrmatch/levenshtein.c:289-300 | some script costs exactly what the cell says |
| `Levenshtein.Internal` | contrib/fuzzystrmatch/levenshtein.c:108-402 | the two-row loop returns the least price of a script; an error exactly for over-long non-empty arguments |
| `Levenshtein.LessEqual` | contrib/fuzzystrmatch/levenshtein.c:66-403 | the distance if it is within the bound or there is none, the bound plus one otherwise, for all costs the bound fits; the distance for any costs if the bound is dropped; length errors as for the plain form |
| `Levenshtein.ChooseBand` | contrib/fuzzystrmatch/levenshtein.c:138-186 | gives up only on bounds below the least theoretical distance; a bound that is dropped was met, whatever the costs; no column past the first stop column is needed |
| `Levenshtein.FillFirstRow` | contrib/fuzzystrmatch/levenshtein.c:218-223 | deletions only, up to the stop column |
| `Levenshtein.FillRow` | contrib/fuzzystrmatch/levenshtein.c:246-326 | the inner loop, its cursor trailing the band, fills the columns of the band by the recurrence and no others |
| `Levenshtein.RowIsAcceptable` | contrib/fuzzystrmatch/levenshtein.c:246-326 | a row computed from an acceptable band, and from sentinels left of it, is acceptable: exact on live cells, over the bound on dead ones |
| `Levenshtein.ComputeRow` | contrib/fuzzystrmatch/levenshtein.c:234-326 | one more column over a sentinel, then the row, as the function on the two rows says |
| `Levenshtein.WideningHolds` | contrib/fuzzystrmatch/levenshtein.c:234-244 | one more column, over a sentinel, is all the next row needs |
| `Levenshtein.SlideStop` | contrib/fuzzystrmatch/levenshtein.c:357-367 | the stop column goes left past all columns over the bound, and no further |
| `Levenshtein.StopPassesDead` | contrib/fuzzystrmatch/levenshtein.c:357-367 | every column it passes over is dead: it cannot lie on a path within the bound |
| `Levenshtein.SlideStart` | contrib/fuzzystrmatch/levenshtein.c:369-389 | the start column goes right past all columns over the bound, which are blotted out in both rows, and the read position moves along |
| `Levenshtein.StartPassesDead` | contrib/fuzzystrmatch/levenshtein.c:369-389 | every column it passes over is dead, and the one it halts at is live |
| `Levenshtein.SlidingHolds` | contrib/fuzzystrmatch/levenshtein.c:350-394 | after the slides the band is acceptable and starts at a live cell, or the whole row is dead |
| `Levenshtein.BandedRows` | contrib/fuzzystrmatch/levenshtein.c:225-402 | the loop over rows comes to what the functions on rows say, whatever the rows held at first |
| `Levenshtein.BoundedIsCapped` | contrib/fuzzystrmatch/levenshtein.c:225-402 | for non-negative costs that is the distance, or the bound plus one if it is larger |
| `Levenshtein.UnboundedIsDistance` | contrib/fuzzystrmatch/levenshtein.c:225-402 | without a bound it is the distance for any costs |
| `Levenshtein.CheaperSubstitution` | contrib/fuzzystrmatch/levenshtein.c:159-160 | a substitution dearer than a deletion and an insertion is never needed, for any costs |
| `Levenshtein.TheoreticalMinimum` | contrib/fuzzystrmatch/levenshtein.c:155-158 | no distance is below the cost of evening out the lengths, if neither a substitution nor a deletion with an insertion is a gain |
| `Levenshtein.TheoreticalMaximum` | contrib/fuzzystrmatch/levenshtein.c:161-163 | no distance is above evening out the lengths and substituting the rest, for any costs |
| `Levenshtein.DroppedBoundIsMet` | contrib/fuzzystrmatch/levenshtein.c:159-163 | a bound that is dropped was met, for any costs |
| `Levenshtein.DeadPastFirstStop` | contrib/fuzzystrmatch/levenshtein.c:164-184 | the first row needs no column at or past the initial stop column |
| `Levenshtein.DeadOnTheLeft` | contrib/fuzzystrmatch/levenshtein.c:369-389 | nothing left of the band comes to life in the next row |
| `Levenshtein.DeadOnTheRight` | contrib/fuzzystrmatch/levenshtein.c:234-244 | at most one more column comes to life on the right |
| `Levenshtein.ReturnedIsRight` | contrib/fuzzystrmatch/levenshtein.c:138-402 | for costs the bound fits, what is returned is the distance or the bound plus one |
| `Levenshtein.UnfitCostsMislead` | contrib/fuzzystrmatch/levenshtein.c:138-402 | for any other costs, two strings and a bound for which what is returned is something else |
| `Levenshtein.BoundFitsExactly` | contrib/fuzzystrmatch/levenshtein.c:138-402 | the costs for which the bounded form is right for all strings and bounds |
| `BoolParser.WorkState.GetToken` | contrib/intarray/_int_bool.c:50-133 | the next token and lexer state, errors included, as the token function on the text says |
| `BoolSpelling.NumeralIsRead` | contrib/intarray/_int_bool.c:88-104 | strtol reads an optional minus and digits as the number they write, octal after a leading zero up to the first 8 or 9 and decimal otherwise, within 15 characters and 32 bits |
| `BoolSpelling.LexedIsSpelled` | contrib/intarray/_int_bool.c:50-133 | a text is lexed as some tokens and an end if and only if it writes these tokens, with any number of spaces before each and at the end, and they alternate and balance |
| `BoolSpelling.PhraseIsLexed` | contrib/intarray/_int_bool.c:50-133 | the tokens read are those of a phrase if and only if the text writes the phrase |
| `BoolParser.TokensHaveShape` | contrib/intarray/_int_bool.c:50-133 | every token stream alternates operands and operators and never closes more than it opened |
| `BoolParser.WorkState.MakePol` | contrib/intarray/_int_bool.c:155-226 | the recursive parser with its bounded stack computes the translation of the remaining tokens |
| `BoolQuery.PhraseIsTranslated` | contrib/intarray/_int_bool.c:155-226 | a phrase of the grammar becomes its postfix form, or an error if it nests too deep |
| `BoolQuery.AcceptedIsPhrase` | contrib/intarray/_int_bool.c:155-226 | whatever is translated is a phrase of the grammar |
| `BoolQuery.TranslationIsExact` | contrib/intarray/_int_bool.c:155-226 | on lexed streams, translation succeeds exactly for phrases and gives their postfix form |
| `BoolQuery.StackHolds` | contrib/intarray/_int_bool.c:155-226 | sixteen negations in a row are accepted and no more, fourteen behind a disjunction and a conjunction |
| `BoolEval.FindOprnd` | contrib/intarray/_int_bool.c:442-473 | linking in place turns the postfix form of a query into its linked form and leaves everything around it alone |
| `BoolEval.BqarrIn` | contrib/intarray/_int_bool.c:479-545 | the stored items are the linked form of the phrase the text writes; every other text is an error |
| `BoolEval.PostIsUnique` | contrib/intarray/_int_bool.c:442-473 | a postfix form determines its query, even at the end of a longer sequence |
| `BoolEval.LinkedIsSafe` | contrib/intarray/_int_bool.c:268-297 | every link of a stored query leads to an earlier item of it |
| `BoolEval.ExecuteIsWalk` | contrib/intarray/_int_bool.c:268-297 | following the links is walking the tree, negation switched on or off |
| `BoolEval.QueryMeans` | contrib/intarray/_int_bool.c:268-297 | evaluating the items gives the meaning of the query under any assignment |
| `BoolIndex.LinksLeadExactly` | contrib/intarray/_int.h:121-130 | all links lead to their operands if and only if every right operand has fewer than 2^15 items |
| `BoolIndex.CheckConditionArr` | contrib/intarray/_int_bool.c:237-257 | the binary search finds a value exactly if it is in the sorted array |
| `BoolIndex.LooseWalkIsMonotone` | contrib/intarray/_int_bool.c:268-297 | with negation taken as true, more members never turn the answer false |
| `BoolIndex.InnerKeyIsConsistent` | contrib/intarray/_int_bool.c:299-322 | a key that passes every member of a satisfying row is consistent |
| `BoolIndex.ContainsRequiredIsRequired` | contrib/intarray/_int_bool.c:366-399 | the test by links is the test on the query tree |
| `BoolIndex.RequiredMeans` | contrib/intarray/_int_bool.c:366-399 | a query has a required value if and only if it fails where no number is found and every negation is taken as true |
| `BoolIndex.SatisfyingRowHoldsValue` | contrib/intarray/_int_bool.c:366-407 | if there is a required value, every satisfying row holds some number of the query |
| `BoolIndex.QueryExtract` | contrib/intarray/_int_gin.c:24-58 | all numbers in order; the default search mode exactly if there is a required value, and then the entries suffice |
| `BoolIndex.GinBoolConsistent` | contrib/intarray/_int_bool.c:338-364 | with exact check bits the result is the query on the row |
| `BoolPrint.DecReadsBack` | contrib/intarray/_int_bool.c:88-104 | every 32-bit number is printed in decimal, without a zero in front, and read back |
| `BoolPrint.Infix.Write` | contrib/intarray/_int_bool.c:559-564 | the write is made and its terminator fits, or an error exactly if the buffer would have to be larger than 2^29 bytes |
| `BoolPrint.Infix.Emit` | contrib/intarray/_int_bool.c:566-640 | the recursive printer appends the infix text of the query and moves to the item before it, or fails exactly if some write does not fit |
| `BoolPrint.BqarrOut` | contrib/intarray/_int_bool.c:643-662 | the infix text of the query, or an error exactly for an empty one or one whose text does not fit |
| `BoolPrint.PrintIsTidy` | contrib/intarray/_int_bool.c:566-662 | what is printed is a phrase with one space between tokens but none behind a !, numbers in decimal, parentheses only around disjunctions and behind a !, and the phrase is the query leaning left |
| `BoolPrint.PrintableBounds` | contrib/intarray/_int_bool.c:559-564 | a text that ends 12 characters or more before 2^29 fits, and one that fits leaves room for its terminator |
| `BoolPrint.PrintReadsBack` | contrib/intarray/_int_bool.c:479-662 | printing and reading again gives the query with `&` leaning left, of the same meaning under every assignment |
| `BoolPrint.RoundTrip` | contrib/intarray/_int_bool.c:479-662 | output followed by input gives the query leaning left exactly if its text fits its buffer, and is an error otherwise |
| `BoolPrint.PrintedTextReadsAs` | contrib/intarray/_int_bool.c:479-662 | the printed text of a query is read as the query leaning left, and as nothing else |
| `BoolPrint.LinkCanLeaveTheQuery` | contrib/intarray/_int_bool.c:459-470 | a text that is read as a query whose link points past its end |
| `BoolPrint.ReadPrintRead` | contrib/intarray/_int_bool.c:479-662 | the same from an accepted text |
| `BoolPrint.LeanLeftIsStable` | contrib/intarray/_int_bool.c:600-640 | a second round trip changes nothing |
| `RangeKeys.JoinRuns` | contrib/intarray/_int_gist.c:205-234 | the backward in-place pass leaves ranges whose joined gaps are all single steps, the last ones first, and at least the number wanted; more than that only if no two consecutive integers are left apart |
| `RangeKeys.ShuntDown` | contrib/intarray/_int_gist.c:230-234 | the ranges move down to the start of the array |
| `RangeKeys.SmallestGap` | contrib/intarray/_int_gist.c:236-246 | the gap found is no larger than any other, and those before it are larger |
| `RangeKeys.JoinSmallest` | contrib/intarray/_int_gist.c:235-247 | joining around a smallest gap keeps every joined gap below every open one |
| `RangeKeys.JoinFirst` | contrib/intarray/_int_gist.c:235-247 | joining the first of the smallest gaps keeps every joined gap one that is to be joined rather than any open one |
| `RangeKeys.ChosenIsUnique` | contrib/intarray/_int_gist.c:192-247 | the rule which gaps are joined first, smaller ones, of single steps the last, of other equal ones the first, leaves no choice |
| `RangeKeys.LargestGapsSaveMost` | contrib/intarray/_int_gist.c:235-247 | of two choices of open gaps, the one with the largest gaps leaves out the most integers |
| `RangeKeys.FewHoles` | contrib/intarray/_int_gist.c:192-247 | a cover by r ranges leaves at most r - 1 gaps of the input open |
| `RangeKeys.CutIsOptimal` | contrib/intarray/_int_gist.c:205-247 | no cover of the input by as many ranges has fewer members |
| `RangeKeys.InternalSize` | contrib/intarray/_int_tool.c:279-294 | the number of members of any key, ranges that repeat an end not counted, a key of odd length read with the word behind it; -1 if an int cannot hold it |
| `RangeCodec.JoinNearest` | contrib/intarray/_int_gist.c:235-247 | exactly the wanted number of ranges remain, cut at the largest gaps, and at those that the rule says |
| `RangeCodec.BestRanges` | contrib/intarray/_int_gist.c:192-247 | r strictly increasing disjoint ranges that hold the input, end where it ends, hold no more integers than any r ranges must, and are those the rule for joining gaps leads to |
| `RangeCodec.ChosenKeyIsUnique` | contrib/intarray/_int_gist.c:192-247 | only one key follows the rule |
| `RangeCodec.Compress` | contrib/intarray/_int_gist.c:178-264 | short keys as they are, long keys as best ranges, those the rule leads to; too sparse only if every cover is too large |
| `RangeCodec.Decompress` | contrib/intarray/_int_gist.c:266-332 | a short key as it is; a long one as its ranges written one after the other, a start equal to the value before it skipped, into as many slots as the size says; an error if they are too many; overrun exactly if a range ends at the largest int or the slots do not suffice |
| `RangeCodec.ApartIsRead` | contrib/intarray/_int_gist.c:298-323 | disjoint ranges fill their slots exactly and are read back as their members, unless the last ends at the largest int |
| `RangeCodec.CompressedReadsBack` | contrib/intarray/_int_gist.c:178-332 | what compression stores is read back as a sorted superset of the input with no more members than any cover by as many ranges, if the input does not end at the largest int, and overruns if it does |
| `RangeCodec.CodecKeepsInputs` | contrib/intarray/_int_gist.c:298-323 | decompression gives a sorted duplicate-free superset of the input, of the size computed |
| `RangeCodec.LongLeafReadsBack` | contrib/intarray/_int_gist.c:161-176 | decompression returns a long leaf array unchanged if and only if its elements pair up as consecutive integers, it is within the limits and does not end at the largest int, and for an odd length the word behind it is its last element |
| `RangeCodec.LongLeafChanges` | contrib/intarray/_int_gist.c:161-176 | 200 even numbers that are read back with an odd one, for 100 ranges |
| `IntGist.Contains` | contrib/intarray/_int_tool.c:11-45 | the loop over two sorted arrays decides whether one is a subset of the other |
| `IntGist.Overlap` | contrib/intarray/_int_tool.c:47-76 | the loop over two sorted arrays decides whether they have a common element |
| `IntGist.Same` | contrib/intarray/_int_gist.c:360-390 | true exactly if the arrays are equal |
| `IntGist.Unique` | contrib/intarray/_int_tool.c:297-317 | in place, the elements of a sorted array once each, in order |
| `IntGist.Union` | contrib/intarray/_int_gist.c:106-140 | the elements of all entries, sorted, once each |
| `IntGist.Consistent` | contrib/intarray/_int_gist.c:42-104 | all strategies, on leaves and inner pages, in terms of sets of members |
| `IntGist.LeafIsExact` | contrib/intarray/_int_gist.c:42-104 | on a leaf the test is the operator |
| `IntGist.InnerIsConsistent` | contrib/intarray/_int_gist.c:42-104 | a key with all members of a satisfying array passes, an empty array contained in the query excepted |
| `IntGist.InnerIsTight` | contrib/intarray/_int_gist.c:42-104 | for the operators on arrays an inner key passes if and only if some array of its members satisfies, a non-empty one for containment in the query |
| `IntGist.MakePage` | contrib/intarray/_int_gist.c:106-264 | the union of the keys as they are seen, compressed, keys a page over them; an error only if every cover is too large |
| `IntGist.PageIsSeen` | contrib/intarray/_int_gist.c:178-332 | an inner key is seen again as a sorted superset if and only if it was short or does not end at the largest int |
| `IntGist.SearchLosesNothing` | contrib/intarray/_int_gist.c:42-332 | in an index with keys compressed and decompressed at every level, every search an array satisfies gets to it, if the array is seen as it is; an empty array contained in the query excepted |
| `IntGist.FoundExactly` | contrib/intarray/_int_gist.c:42-332 | an array is found by every search it satisfies in every index that holds it if and only if it is not empty and short, or long and returned unchanged by decompression |
| `VarKeys.NodeCpLen` | contrib/btree_gist/btree_utils_var.c:108-150 | the byte loop finds the length of the common prefix of the bounds |
| `VarKeys.Union` | contrib/btree_gist/btree_utils_var.c:297-333 | the least lower bound and the greatest upper bound of all entries, each cut two bytes past their common prefix |
| `VarKeys.CutCovers` | contrib/btree_gist/btree_utils_var.c:192-217 | cutting two bytes past the common prefix loses no value the key covers |
| `VarKeys.VarUnionCovers` | contrib/btree_gist/btree_utils_var.c:221-333 | a union covers everything one of its entries covers, cut entries included |
| `VarKeys.LeafIsExact` | contrib/btree_gist/btree_utils_var.c:534-592 | on a leaf the consistency test is the operator |
| `VarKeys.InnerTests` | contrib/btree_gist/btree_utils_var.c:534-592 | what the six tests on an inner key come to: a matching prefix matters only where the value must not be below the query |
| `VarKeys.InnerIsConsistent` | contrib/btree_gist/btree_utils_var.c:534-592 | an inner key that covers a satisfying value is consistent, for all six operators |
| `VarKeys.SearchLosesNothing` | contrib/btree_gist/btree_utils_var.c:221-333 | in any tree of union pages and of pages split at any level without an endangered entry, every key above a satisfying value is consistent |
| `VarKeys.PickSplit` | contrib/btree_gist/btree_utils_var.c:439-528 | both sides are non-empty and together are all entries in order, the first half on the left; the keys are the unions of the sides, cut two bytes past the longer of their common prefixes |
| `VarKeys.SplitKeepsAnswersExactly` | contrib/btree_gist/btree_utils_var.c:439-528 | a side is consistent with every search satisfied by a value the entry covers if and only if the entry is not endangered or the side's lower bound starts its upper one |
| `VarKeys.SplitKeepsCoverExactly` | contrib/btree_gist/btree_utils_var.c:439-528 | a side covers all that an entry covers if and only if the entry is not endangered |
| `VarKeys.PickSplitKeepsExactly` | contrib/btree_gist/btree_utils_var.c:439-528 | both for every entry of a split on the side it went to |
| `VarKeys.StoredValueNotEndangered` | contrib/btree_gist/btree_utils_var.c:439-528 | an entry that is a whole stored value is never endangered |
| `VarKeys.LeavesWellSplit` | contrib/btree_gist/btree_utils_var.c:439-528 | a split of stored values has no endangered entry |
| `VarKeys.SplitLosesAnAnswer` | contrib/btree_gist/btree_utils_var.c:439-528 | a page with a stored value below it, and a split with the key of that page after which the value is not found |
| `HsLayout.WordsKeepEntries` | contrib/hstore/hstore.h:18-34 | an entry survives its 32-bit word if and only if its position fits the mask; then the top bit marks the first entry, the next one a null, and the rest is the position |
| `HsLayout.PackedPair` | contrib/hstore/hstore.h:79-83 | reading pair i of a packed value gives key, value and null flag of pair i |
| `HsBuild.Builder.CopyItem` | contrib/hstore/hstore.h:92-107 | one pair, contiguous at its source, is appended to the pairs in the block |
| `HsBuild.Builder.AddItem` | contrib/hstore/hstore.h:109-127 | one pair from separate places is appended |
| `HsBuild.MemMoveDown` | contrib/hstore/hstore.h:135-138 | the move over overlapping memory |
| `HsBuild.Builder.Finalize` | contrib/hstore/hstore.h:129-140 | the block then reads as the packed form of its pairs, even if fewer than planned |
| `HsOrder.SortedIsUnique` | contrib/hstore/hstore_io.c:281-303 | a map has one list of pairs in strictly increasing order of length and bytes |
| `HsOrder.KeyLessDecides` | contrib/hstore/hstore_io.c:281-303 | a key is below another if and only if it is shorter, or as long with the smaller byte where they first differ |
| `HsOrder.KeysAscend` | contrib/hstore/hstore_io.c:281-303 | the keys read from a well-formed value never get shorter, and of two neighbours of one length the earlier has the smaller byte where they first differ |
| `HsOrder.RepresentsOne` | contrib/hstore/hstore_op.c:1230-1251 | a well-formed value stands for one map and a map has one well-formed value, byte for byte |
| `HsPairs.UniquePairs` | contrib/hstore/hstore_io.c:311-352 | in place, the first of each run of equal keys, and the bytes they take |
| `HsPairs.RunsAreSorted` | contrib/hstore/hstore_io.c:311-352 | on a sorted list the keys kept are strictly increasing |
| `HsPairs.RunsCover` | contrib/hstore/hstore_io.c:311-352 | each pair kept is one of the list and no key is lost |
| `HsPairs.RunsKeepFirst` | contrib/hstore/hstore_io.c:311-352 | the pairs kept are exactly those that start a run of equal keys |
| `HsPairs.ArrayToPairs` | contrib/hstore/hstore_op.c:73-125 | exactly the non-null elements, each once, in key order; an error exactly if the elements do not fit an allocation of pairs |
| `HsPairs.Build` | contrib/hstore/hstore_io.c:375-402 | the packed value, or an error exactly if it is larger than an allocation |
| `HsSearch.FindKey` | contrib/hstore/hstore_op.c:36-71 | found exactly if the map has the key; the bound left behind is valid for any larger key |
| `HsSearch.AtMostUnder` | contrib/hstore/hstore_op.c:30-35 | the cached lower bound of one search serves the next |
| `HsSearch.FetchVal` | contrib/hstore/hstore_op.c:130-147 | the value of the key, null also if there is none |
| `HsSearch.ExistsAny` | contrib/hstore/hstore_op.c:163-194 | whether some non-null element is a key; an error exactly for too many elements |
| `HsSearch.ExistsAll` | contrib/hstore/hstore_op.c:197-228 | whether every non-null element is a key; an error exactly for too many elements |
| `HsSearch.Contains` | contrib/hstore/hstore_op.c:964-1007 | whether the template is a submap |
| `HsSearch.Slice` | contrib/hstore/hstore_op.c:631-690 | the restriction of the map to the elements of the array, packed; it always fits, and an error exactly for too many elements |
| `HsMerge.Concat` | contrib/hstore/hstore_op.c:470-565 | the union of the maps, the right one winning, packed; an error exactly past the allocation limit |
| `HsMerge.Delete` | contrib/hstore/hstore_op.c:246-289 | the map without the key, packed |
| `HsMerge.DeleteArray` | contrib/hstore/hstore_op.c:292-368 | the map without the elements of the array, packed; an error exactly for too many elements |
| `HsMerge.DeleteHstore` | contrib/hstore/hstore_op.c:371-467 | the map without the pairs that are equal, key and value, in the other one, packed |
| `HsCompare.Cmp` | contrib/hstore/hstore_op.c:1082-1160 | an empty value is below every other; then the first byte that differs decides, a proper prefix being smaller; then the number of pairs; then the first entry that differs, the smaller position first and a string before a null; 0 otherwise |
| `HsCompare.OrderFlips` | contrib/hstore/hstore_op.c:1082-1160 | swapping the operands changes the sign |
| `HsCompare.OrderTransitive` | contrib/hstore/hstore_op.c:1082-1160 | the order is transitive, and strict if one step is |
| `HsCompare.OrderIsOfMaps` | contrib/hstore/hstore_op.c:1082-1251 | 0 if and only if the maps are equal, and equal maps are the same bytes, so they hash alike |
| `HsText.PrintedPairsReadBack` | contrib/hstore/hstore_io.c:60-279 | the automaton reads printed pairs back as they were; null and the word NULL stay apart |
| `HsText.NullInAnyCase` | contrib/hstore/hstore_io.c:249-253 | a bare word is a null if and only if its letters in lower case are null; a quoted word never is |
| `HsText.PrintReadsBackExactly` | contrib/hstore/hstore_io.c:1105-1187 | as a C string, the text is read back as the pairs if and only if no byte 0 is in them |
| `HsText.ExcessIsRefused` | contrib/hstore/hstore_io.c:42-279 | once a word or the pairs have outgrown their buffer, the rest of the text cannot change that it is refused |
| `HsGrammar.PhraseIsRead` | contrib/hstore/hstore_io.c:60-279 | every text written by the syntax, bare and quoted words, backslashes and white space, is read as the pairs it writes, or refused exactly if its words or pairs outgrow their buffers |
| `HsGrammar.ReadIsPhrase` | contrib/hstore/hstore_io.c:60-279 | every text the automaton reads was written by the syntax |
| `HsGrammar.ParseIsExact` | contrib/hstore/hstore_io.c:60-279 | a text is accepted as some pairs if and only if the syntax writes those pairs so and they fit the buffers: words below 2^29 bytes, at most 2^24 pairs |
| `HsGrammar.NullIsBare` | contrib/hstore/hstore_io.c:239-258 | the syntax writes a null exactly for a bare value whose letters in lower case are null |
| `HsParse.Buffer.Reserve` | contrib/hstore/hstore_io.c:42-51 | the reallocation keeps the contents and makes room, or is an error exactly if there was no room and twice the size is past the limit |
| `HsParse.HsParser.GetVal` | contrib/hstore/hstore_io.c:60-172 | the inner state machine ends with the outcome of the automaton unchanged, a word that outgrows its buffer refused; never reads past the terminator or writes outside the word |
| `HsParse.HsParser.OnVal` | contrib/hstore/hstore_io.c:239-258 | the value is stored in the array of pairs; a bare word null in any case is a null |
| `HsParse.HsParser.ParseHstore` | contrib/hstore/hstore_io.c:182-279 | the two nested state machines terminate with the pairs of the one-state-per-character automaton if there is room for them, and with an error otherwise |
| `HsIo.Cpw` | contrib/hstore/hstore_io.c:1105-1117 | the escaped bytes are appended |
| `HsPrinted.EscapedIsShortest` | contrib/hstore/hstore_io.c:1105-1117 | no quoted spelling of a word is shorter than the one printed, and no other is as short |
| `HsPrinted.PrintIsPlain` | contrib/hstore/hstore_io.c:1119-1187 | what is printed is a phrase of the syntax: pairs separated by a comma and a space and no other white space, words in quotes with as few backslashes as can be, nulls as NULL |
| `HsIo.OutLenSuffices` | contrib/hstore/hstore_io.c:1135-1153 | the length computed in advance holds all that is printed and a terminator |
| `HsIo.OutLenIsTight` | contrib/hstore/hstore_io.c:1135-1153 | if every byte needs a backslash, all but one byte of that length is used |
| `HsIo.Out` | contrib/hstore/hstore_io.c:1119-1187 | the printed pairs and a terminator, written within the allocation; an error exactly if the estimate is past the limit |
| `HsIo.Input` | contrib/hstore/hstore_io.c:405-422 | the pairs of the text, sorted, one for each key, packed; or an error, of syntax, of size or for want of room while reading |
| `HsIo.StoredIsWellFormed` | contrib/hstore/hstore_io.c:405-422 | what is stored has every key of the text once, in order, with one of its values |
| `HsIo.OutputReadsBack` | contrib/hstore/hstore_io.c:405-422 | the printed text is read as the same value, bit for bit, if and only if it has no byte 0 and its words and pairs fit the buffers of the parser, and is an error otherwise |
| `HsIo.RoundTrip` | contrib/hstore/hstore_io.c:405-422 | output followed by input gives the same value exactly if it has no byte 0, the estimate is within the allocation limit and there are at most 2^24 pairs, and an error otherwise |
| `HsIo.TooManyToRead` | contrib/hstore/hstore_io.c:182-216 | a value without a byte 0 whose text can be printed and not read |
| `HsCompat.Image.ValidOldFormat` | contrib/hstore/hstore_compat.c:170-229 | non-zero exactly if the value has room for its entries, they are contiguous, key lengths do not fall and the data fits |
| `HsCompat.ValidOldMeans` | contrib/hstore/hstore_compat.c:170-229 | the entries of a valid old value are in order and apart, within the value, the first at 0, and keys do not get shorter |
| `HsCompat.OldWrittenIsValid` | contrib/hstore/hstore_compat.c:170-229 | every sorted list of pairs as the old version wrote it is valid and means itself |
| `HsCompat.Image.ValidNewFormat` | contrib/hstore/hstore_compat.c:118-162 | non-zero exactly if the value has room for its entries, positions and key lengths do not fall, flags are in place and the data fits |
| `HsCompat.ValidNewMeans` | contrib/hstore/hstore_compat.c:118-162 | the positions of a valid new value are in order and within it, exactly its first entry is marked, and no later key is null |
| `HsCompat.ValidNewKeys` | contrib/hstore/hstore_compat.c:118-162 | the keys of a valid new value do not get shorter |
| `HsCompat.WellFormedIsValid` | contrib/hstore/hstore_compat.c:118-162 | every well-formed value passes the test of the new format |
| `HsCompat.Image.Rewrite` | contrib/hstore/hstore_compat.c:316-337 | overwriting each old entry with two new ones leaves the entries of the packed form of the same pairs |
| `HsCompat.Image.Upgrade` | contrib/hstore/hstore_compat.c:235-344 | a valid old value becomes the packed form of its pairs, of exact size, if and only if the shortcut does not mistake it; every other value is taken as new or refused |
| `HsCompat.ShortcutExactly` | contrib/hstore/hstore_compat.c:250-256 | which valid old values the shortcut takes |
| `HsCompat.MistakeChanges` | contrib/hstore/hstore_compat.c:250-256 | such a value has other entries afterwards than the packed form of its pairs |
| `HsCompat.ShortcutMisreads` | contrib/hstore/hstore_compat.c:250-256 | there is such a value |
| `Signature.LowBitsFirst` | contrib/hstore/hstore_gist.c:32-40 | bit i of a vector is in byte i / 8, i % 8 places from its lowest bit |
| `Signature.SetBit` | contrib/hstore/hstore_gist.c:32-40 | exactly one bit is added |
| `Signature.UnionKeys` | contrib/hstore/hstore_gist.c:245-289 | exactly the bits of all entries |
| `Signature.Collapse` | contrib/hstore/hstore_gist.c:134-154 | the same bits; the flag exactly if all are set |
| `Signature.Datum.Add` | contrib/hstore/hstore_gist.c:437-468 | a side's key gains exactly the bits of the entry, in every combination of flags |
| `Signature.PickSplit` | contrib/hstore/hstore_gist.c:318-480 | every offset on exactly one side, neither empty, each key exactly the bits of its members, whatever the heuristics say |
| `Signature.SideCovers` | contrib/intarray/_intbig_gist.c:327-488 | a side's key has the bits of each member |
| `SignSearch.SearchLosesNothing` | contrib/intarray/_intbig_gist.c:491-601 | in a tree where every key has the bits of the keys below, a test that holds for all keys with the bits of a row finds the row |
| `SignSearch.UnionGrows` | contrib/intarray/_intbig_gist.c:255-298 | a page keyed by a union belongs to such a tree |
| `SignSearch.SplitGrows` | contrib/intarray/_intbig_gist.c:327-488 | so do both pages of a split |
| `HsIndex.CompressLeaf` | contrib/hstore/hstore_gist.c:97-133 | a bit for every key and every non-null value, and no other |
| `HsIndex.ConsistentContains` | contrib/hstore/hstore_gist.c:502-527 | true exactly if the key has all bits of the query |
| `HsIndex.ConsistentKeys` | contrib/hstore/hstore_gist.c:528-582 | true exactly if the bits of the one, all or any of the keys are there |
| `HsIndex.SatisfyingRowPasses` | contrib/hstore/hstore_gist.c:483-587 | a row that satisfies the operator passes under every key with its bits |
| `HsIndex.TestIsTight` | contrib/hstore/hstore_gist.c:483-587 | a key that is not all ones passes if and only if some row with no more bits satisfies the operator |
| `HsIndex.IndexLosesNothing` | contrib/hstore/hstore_gist.c:483-587 | searching the tree finds every row that satisfies the operator |
| `IntIndex.HashAll` | contrib/intarray/_intbig_gist.c:157-167 | a bit for every member and no other |
| `IntIndex.SlotRepeats` | contrib/intarray/_int.h:52-66 | which values share a bit: those as far apart as there are bits, and a value and its unsigned form; small values have their own |
| `IntIndex.Overlap` | contrib/intarray/_intbig_gist.c:68-84 | true exactly if some bit of the query is set |
| `IntIndex.ContainsAll` | contrib/intarray/_intbig_gist.c:86-102 | true exactly if all bits of the query are set |
| `IntIndex.CompareBytes` | contrib/intarray/_intbig_gist.c:524-595 | the byte loops decide equality and inclusion of vectors |
| `IntIndex.Consistent` | contrib/intarray/_intbig_gist.c:491-601 | the four array strategies, on leaves and inner pages, in terms of bits |
| `IntIndex.SatisfyingRowPasses` | contrib/intarray/_intbig_gist.c:491-601 | a satisfying row passes under every key with its bits, for containment in the query if it is not empty |
| `IntIndex.InnerIsTight` | contrib/intarray/_intbig_gist.c:491-601 | an inner key that is not all ones passes if and only if some row with no more bits satisfies the operator, a non-empty one for containment in the query |
| `IntIndex.IndexLosesNothing` | contrib/intarray/_intbig_gist.c:491-601 | searching the tree finds every satisfying row, an empty row contained in the query excepted |
| `IntIndex.ContainedByFoundExactly` | contrib/intarray/_intbig_gist.c:562-595 | a contained row is found in every tree that holds it, and under every key with its bits, if and only if it is not empty |
| `IntIndex.EmptyRowIsMissed` | contrib/intarray/_intbig_gist.c:562-595 | a tree in which a search misses the empty row |
| `IntIndex.SatisfyingRowPassesBoolean` | contrib/intarray/_intbig_gist.c:508-515 | a row that satisfies a boolean query passes under every key with its bits |
| `IntIndex.BooleanLosesNothing` | contrib/intarray/_intbig_gist.c:508-515 | searching the tree finds every row that satisfies a boolean query |
| `Cube.Union` | contrib/cube/cube.c:723-786 | in every dimension, zero where a box has none, from the lower bound to the higher; flagged as a point exactly if it is one, unless one box was given twice |
| `Cube.ContainsV0` | contrib/cube/cube.c:1101-1139 | inclusion in every dimension of the second box |
| `Cube.OverlapV0` | contrib/cube/cube.c:1171-1213 | the padded boxes have a point in common |
| `Cube.CmpV0` | contrib/cube/cube.c:914-993 | the first difference decides, the smaller coordinate being the smaller box: lower bounds, then upper bounds of the dimensions both have, then of the others, zero where a box has none, then the number of dimensions; 0 exactly for the same box of the same dimension |
| `Cube.UnionAll` | contrib/cube/cube.c:383-412 | the smallest box over all entries |
| `Cube.PickSplit` | contrib/cube/cube.c:475-622 | two ascending lists that divide the entries, neither empty, each key the smallest box over its side |
| `Cube.LeafConsistent` | contrib/cube/cube.c:648-678 | on a leaf the operator itself |
| `Cube.SatisfyingBoxPasses` | contrib/cube/cube.c:680-709 | a satisfying box passes under every box that covers it, for containment in the query if the query holds the padded box |
| `Cube.IndexLosesNothing` | contrib/cube/cube.c:348-380 | searching the tree finds every satisfying box, with the same proviso |
| `Cube.InternalConsistent` | contrib/cube/cube.c:680-709 | overlap for the overlap and contained-by strategies, inclusion for the others |
| `Cube.InnerIsTight` | contrib/cube/cube.c:680-709 | a key passes if and only if some box under it satisfies the operator, with containing the query in place of being the same box, and for containment in the query the padded box |
| `Cube.ContainedByFoundExactly` | contrib/cube/cube.c:680-709 | a box inside the query is found in every tree that holds it, and under every box that covers it, if and only if the query holds zero in each dimension the box lacks |
| `Cube.LowerDimensionIsMissed` | contrib/cube/cube.c:680-709 | a tree in which a search misses a box inside the query |
| `CubeOrder.OrderFlips` | contrib/cube/cube.c:914-993 | swapping the boxes changes the sign |
| `CubeOrder.OrderTransitive` | contrib/cube/cube.c:914-993 | the order of boxes of one dimension is transitive, and strict if one step is |
| `CubeOrder.TwoLower` | contrib/cube/cube.c:914-993 | no circle if the two lower dimensions are equal |
| `CubeOrder.OneNothing` | contrib/cube/cube.c:914-993 | no circle of a box without dimensions and two of one dimension |
| `CubeOrder.CircleAbove` | contrib/cube/cube.c:914-993 | a circle of boxes if the lowest dimension is positive and below the next |
| `CubeOrder.CircleAtZero` | contrib/cube/cube.c:914-993 | a circle of boxes if the lowest dimension is 0 and the others differ |
| `CubeOrder.NoCirclesExactly` | contrib/cube/cube.c:914-993 | for which dimensions the order has no circle |

## Left out

- Levenshtein.Internal: characters are abstract, so the byte lengths of multibyte characters are not modelled, nor is overflow of the int that holds a distance.
- BoolParser.WorkState.MakePol: check_stack_depth, which refuses a text by the size of the machine stack, is not modelled here or in the other recursive functions.
- BoolParser.WorkState.GetToken: strtol is modelled on the digits the lexer collects; its locale is not.
- RangeCodec.Decompress: the first of several ranges must not be backwards, as then a word before the result is read; the word read behind a key of odd length is a parameter, and the int that counts wraps around.
- RangeCodec.Compress: MAXNUMRANGE and MAXNUMELTS are parameters; that twice the input has to fit an allocation is not modelled.
- IntGist.Consistent: rows and queries are taken sorted and without duplicates, as the code prepares them; the recheck that equality asks for is not modelled, and the binary search of a boolean query is its specification.
- IntGist.MakePage: which keys come to one page is left to the penalty and split functions, which are not modelled.
- HsPairs.UniquePairs: the flag for pairs whose memory is to be freed, and its place in the comparison, are not modelled; the callers modelled here set it alike for all pairs.
- HsPairs.Build: sizes are natural numbers, so the int32 that holds a size before it is refused is not modelled.
- HsText.PrintReadsBackExactly: white space is that of the C locale.
- HsGrammar.ParseIsExact: says which texts are accepted, not the wording or position of the error for the others.
- HsIo.Input: the value kept for a key that occurs twice is one of those in the text; which one depends on the sort and is left open.
- HsCompat.Image.Upgrade: the words of entries past the end of a value, which the tests may look at, are those of its image; other layouts of the old bit-fields are not modelled.
- Signature.PickSplit: distances, costs and the wish function are arbitrary, so nothing is said about the quality of a split.
- Cube.Union: coordinates are reals, so rounding, infinities and NaN are not modelled.
- Update of shared memory: the operands of the hstore functions are values; that a result never aliases an operand is not stated.
- The binary send and receive functions, conversions from and to arrays, records and JSON, and the functions that return sets.
- HsParse.HsParser.ParseHstore: an allocation fails only past the limit of a single one; sizes are those of a machine with 64-bit addresses, 40 bytes for a pair.
- The GIN support of hstore, and the GiST split of range keys: easier versions of what is here.
- Penalty functions of all indexes: heuristics without a correctness statement.
- contrib/ltree, contrib/isn, the phonetic codes, and the modules around I/O, libpq and the planner.
