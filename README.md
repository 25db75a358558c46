# Tries, quicksort and a template tokenizer in Dafny

This project models four small pieces of one repository of algorithm
exercises, and proves what each piece computes.

- **QuickSort** (`quicksort.dfy`) models `quicksort.c`. It covers `swap`,
  the insertion-sort callback, the Lomuto and Hoare partitions, the
  `median` and `first` pivots, and the `QuickSort` driver with its
  pivot, partition and callback configuration. The sort works in place on
  an `array<int>`. A segment `arr + lo` of length `len` is the pair
  `(lo, len)`.
- **JsTrie** (`js_trie.dfy`) models `trie.js`. It covers the `Trie`
  constructor, which inserts a list of words, and `findWithPrefix`, which
  returns the first `size` stored words that start with a prefix. Nodes
  live in an arena (a `seq<Node>` indexed by position, with the root at 0).
  The order of a node's `children` keys follows `Object.keys`: one-digit
  keys first, in ascending order, then the other keys in insertion order.
- **JavaTrie** (`java_trie.dfy`) models `trie.java`. It covers `isWord`,
  which adds a word, and `wordByPrefix`, which lists the stored words
  below a prefix in breadth-first order. Nodes are again an arena, and each
  node has 26 child slots for `A`..`Z`.
- **Mvc** (`mvc.dfy`) models three parts of `mvc.js`:
  - `find`, the predicate search that does not descend into matched
    elements;
  - the tokenizer loop of `Controller.compile`;
  - the `compute` closure that fills placeholders and joins chunks.

`options.dfy` holds the `Option` type that the tries use, and
`sequences.dfy` holds small facts about sequences that the tries and
`Mvc` share.

Each loop of the source is a `method` proved against a specification
function. Examples are `Hoare` against `HoareSpec`, `FindFrom` against
`Matches`, `ListByPrefix` against `Bfs` and `Compile` against `Tokenize`.
The properties the source promises are lemmas about those functions.

## Model

| member | source | states |
|---|---|---|
| QuickSort.Swap | quicksort.c:43-47 | the array afterwards is the old array with the two cells exchanged |
| QuickSort.SwapInSegment | quicksort.c:43-47 | the two cells exchange values, every other cell keeps its value, and the segment holds the same multiset of values |
| QuickSort.SwapPermutes | quicksort.c:43-47 | exchanging two cells of a segment rearranges that segment and leaves the rest of the array alone |
| QuickSort.ShiftStep | quicksort.c:75-78 | one turn of the inner loop moves a value larger than `x` one cell right, which keeps the shifted run above `x` and the rest untouched |
| QuickSort.InsertStep | quicksort.c:79 | writing `x` into the gap left by the shifting makes the first `i + 1` cells a rearrangement of what they held |
| QuickSort.InsertStepSorted | quicksort.c:79 | when the first `i` cells were sorted, `x` lands after every smaller-or-equal value and before the shifted larger ones, so the first `i + 1` cells are sorted |
| QuickSort.InsertDone | quicksort.c:79 | after the inner loop stops, writing `x` leaves the first `i + 1` cells sorted and permuted |
| QuickSort.InsertLast | quicksort.c:72-80 | one turn of the outer loop extends a sorted run of `i` cells to a sorted rearrangement of `i + 1` cells |
| QuickSort.InsertionSort | quicksort.c:70-82 | the segment ends sorted and is a rearrangement of what it held, and nothing outside it changes |
| QuickSort.PlaceFirst | quicksort.c:94 | the final swap puts the old first value at `s`, with values below the pivot before it and values at least the pivot after it |
| QuickSort.Lomuto | quicksort.c:86-96 | returns `s < len` with the old first value at `s`, every value before it below the pivot and every value after it at least the pivot, as a rearrangement of the segment |
| QuickSort.BoundsSurvivePermutation | quicksort.c:164-165 | a bound on every value of a segment still holds after the segment is rearranged, so recursive sorting keeps the partition |
| QuickSort.HoareRun | quicksort.c:101-120 | from any state of the loop, hoare as written keeps the array's length and returns a split that lies inside the segment |
| QuickSort.HoareRunPermutes | quicksort.c:101-120 | from any state of the loop, hoare as written only rearranges the segment |
| QuickSort.HoareSpec | quicksort.c:98-121 | hoare as written only rearranges the segment, and a split it returns is below `len` |
| QuickSort.HoareRunsOut | quicksort.c:102-104 | when every value from `i` to the end of the segment is below the pivot, the upward scan reaches `arr[len]` |
| QuickSort.HoareStaysInside | quicksort.c:102-108 | when a value at least the pivot lies ahead of the upward scan, the loop ends inside the segment and returns a split |
| QuickSort.HoareReadsPastEndIff | quicksort.c:102 | hoare reads `arr[len]`, one cell past its segment, if and only if every value after the first is below the pivot |
| QuickSort.HoareMisplacesLargerValue | quicksort.c:110-120 | on `[5, 3, 8]` with pivot 5, hoare returns 1 and leaves `[8, 5, 3]`, so 8 ends before the pivot |
| QuickSort.Hoare | quicksort.c:98-121 | the in-place hoare gives the outcome and the array of the functional model HoareSpec, rearranging only the segment |
| QuickSort.ScanUp | quicksort.c:102-104 | with the bound checked first, the upward scan stops at the first value at least the pivot or at `len`, and only passes values below the pivot |
| QuickSort.ScanDown | quicksort.c:106-108 | the downward scan stops at the first value below the pivot or at 0, and only passes values at least the pivot |
| QuickSort.HoarePartition | quicksort.c:98-121 | the corrected hoare returns `s < len` with the old first value at `s`, smaller values before it and the others after it, as a rearrangement of the segment |
| QuickSort.Min3 | quicksort.c:141 | the result is one of the three values and no larger than any of them |
| QuickSort.Max3 | quicksort.c:136-138 | the result is one of the three values and no smaller than any of them |
| QuickSort.Med3 | quicksort.c:140 | the result is one of the three values and lies between the other two |
| QuickSort.MinOfThreeIsNotMedian | quicksort.c:141 | for three distinct values the smallest is strictly below the median, so median does not return the median |
| QuickSort.OrderThree | quicksort.c:126-138 | the three compare-and-swaps leave the smallest of the three sampled values first, the median in the middle cell and the largest last, as a rearrangement of the segment |
| QuickSort.Median | quicksort.c:125-142 | as written, the returned pivot is the smallest of the first, middle and last values, and the median is moved to `hi - 1` |
| QuickSort.MedianOfThree | quicksort.c:125-142 | the corrected pivot is the median of the first, middle and last values and is in the first cell |
| QuickSort.First | quicksort.c:144 | the pivot is the first value of the segment |
| QuickSort.RandPivot | quicksort.c:146-149 | the value at `draw % len` is swapped into the first cell and returned |
| QuickSort.Threshold | quicksort.c:157-158 | every callback's threshold is at least 2, so a segment that is split has at least two cells |
| QuickSort.ChoosePivot | quicksort.c:153-155 | every pivot function leaves the pivot in the first cell and only rearranges the segment |
| QuickSort.Partition | quicksort.c:156 | only the as-written hoare can fail, and a valid partition puts the pivot at `p` with smaller values before it and the others after it |
| QuickSort.SortedJoin | quicksort.c:164-165 | a sorted run of values below `x`, then `x`, then a sorted run of values at least `x`, is sorted |
| QuickSort.BothSidesPermute | quicksort.c:164-165 | rearranging the left side and then the right side rearranges the whole segment |
| QuickSort.QuickSortStep | quicksort.c:161-166 | a partitioned segment whose two sides are then sorted is sorted |
| QuickSort.QuickSort | quicksort.c:160-170 | the segment is always a rearrangement of itself; it ends sorted when the partition is valid and there is no callback, or at the top level with the insertion-sort callback; it fails only with the as-written hoare |
| JsTrie.SliceTo | trie.js:62 | `words.slice(0, end)` is the prefix of `words`, with a negative `end` counted from the end |
| JsTrie.ObjectKeys | trie.js:52 | `Object.keys(children)` lists every key of the node and nothing else |
| JsTrie.ObjectKeysOrder | trie.js:52 | in `Object.keys`, digit keys come before every other key and in ascending order |
| JsTrie.Walk | trie.js:43-45 | a walk that reaches a node reaches one at or after where it started, and strictly after for a nonempty path |
| JsTrie.WalkConcat | trie.js:43-45 | walking `p + s` is walking `p` and then `s` from where `p` ends |
| JsTrie.ListingSound | trie.js:47-60 | every suffix listed below a node leads from that node to a word |
| JsTrie.ListingComplete | trie.js:47-60 | every suffix that leads from a node to a word is listed below it |
| JsTrie.MatchesSound | trie.js:34-63 | every word the search returns starts with the prefix and is stored in the trie |
| JsTrie.MatchesComplete | trie.js:34-63 | every stored word that starts with the prefix is among the words the search returns before truncation |
| JsTrie.StoredPrefixFirst | trie.js:47-50 | when the prefix itself is a stored word, it is the first word returned |
| JsTrie.MissingFirstSymbol | trie.js:39-41 | when the prefix's first symbol is not a child of the root, the search returns nothing |
| JsTrie.FindStep | trie.js:52-59 | after each child key, the words gathered are the node's own word followed by the first words of the subtrees so far |
| JsTrie.FinalSlice | trie.js:62 | slicing the gathered words to `size` gives the first `size` matches |
| JsTrie.FinishFind | trie.js:47-62 | the words gathered at the prefix's node, sliced to `size`, are the first `size` matches of the prefix |
| JsTrie.PushSuffixes | trie.js:53-59 | the inner loop appends every suffix of the child's result, prefixed by `prefix + c`, and keeps `count` equal to the number of words |
| JsTrie.WalkPrefix | trie.js:43-45 | the loop over the prefix's symbols reaches the node that Walk reaches, or none |
| JsTrie.CollectChild | trie.js:53-59 | one child adds its first `size - count` words, prefixed by `prefix + c` |
| JsTrie.CollectKey | trie.js:52-59 | one key of the loop keeps the gathered words equal to the first words of the subtrees visited so far |
| JsTrie.CollectChildren | trie.js:52-60 | the words gathered are the node's own word followed by the first `size - count` words of its subtrees, in key order |
| JsTrie.FindFrom | trie.js:34-63 | findWithPrefix returns the first `size` stored words that start with the prefix, in depth-first key order |
| JsTrie.Attach | trie.js:22 | `curr.children[c] = sub` sets key `c` and leaves the other keys, the key order of old keys and the word flag alone |
| JsTrie.AddSymbol | trie.js:17-23 | one symbol step reuses the child `c` of `curr` or appends a new node, marks that node a word on the last symbol, and leaves it as the child `c` of `curr`, which is where the step moves to |
| JsTrie.AddedTree | trie.js:18-23 | a step keeps the arena a forest whose nodes list their keys |
| JsTrie.AddedGrown | trie.js:18-23 | a step changes no existing edge, adds only the edge `c` at `curr`, and marks only the last node |
| JsTrie.AddedSame | trie.js:18-22 | a step over an existing child that is already a word, or is not last, changes nothing |
| JsTrie.AddedLabels | trie.js:18-23 | a step keeps every node reached by its label from the root, and labels the new child with the parent's label plus `c` |
| JsTrie.AddedWalk | trie.js:18-23 | a step makes exactly one new path walkable: the label of `curr` followed by `c` |
| JsTrie.AddedEdges | trie.js:18-23 | after a step, each child's label is still its parent's label followed by the edge symbol |
| JsTrie.WalkGrown | trie.js:14-25 | inserting words keeps every path that already exists |
| JsTrie.ExistingChild | trie.js:18 | while inserting a word whose path exists, each step finds the existing child |
| JsTrie.AddStep | trie.js:17-23 | each symbol step keeps the insertion invariant |
| JsTrie.WalksStep | trie.js:17-23 | each symbol step adds the next prefix of the word as a path, and no other path |
| JsTrie.KeysStep | trie.js:17-23 | each key a step adds at a node extends that node's label to a prefix of the word |
| JsTrie.WalkingStep | trie.js:17-23 | each symbol step keeps the insertion invariant, the paths added so far and the keys added so far |
| JsTrie.AllAdded | trie.js:16-24 | after the last symbol, the paths are the old paths plus every prefix of the word |
| JsTrie.StepMarks | trie.js:19-21 | only the node of the last symbol of a nonempty word becomes a word |
| JsTrie.StepExisting | trie.js:18-22 | inserting a word whose path exists adds no node, and inserting a stored word changes nothing |
| JsTrie.Inserted | trie.js:14-24 | after inserting `w`, the stored words are the old ones plus `w` when `w` is nonempty |
| JsTrie.Insert | trie.js:14-24 | inserting `w` keeps the trie well formed, stores exactly the old words plus a nonempty `w`, adds no node when the path exists, and changes nothing when `w` is stored; the paths afterwards are exactly the old paths and the prefixes of `w`, and every key it adds to a node spells a prefix of `w` |
| JsTrie.EmptyRoot | trie.js:2-3 | a fresh trie is well formed and holds no word |
| JsTrie.HoldsSnoc | trie.js:14 | inserting one more word makes the trie hold exactly the words so far plus that word |
| JsTrie.FirstWith | trie.js:14 | the index of the first word in the list that starts with a string, or the list's length when there is none |
| JsTrie.WalksBuilt | trie.js:13-25 | after the first `k + 1` words, a nonempty path exists exactly when one of those words starts with it |
| JsTrie.OneNewKey | trie.js:18-22 | a node gains at most one key while a word is inserted |
| JsTrie.OldKeyEarlier | trie.js:13-25 | a key a node already had was first needed by an earlier word of the list |
| JsTrie.NewKeyFirst | trie.js:13-25 | a key added while inserting word `k` is first needed by word `k` |
| JsTrie.OrderBuilt | trie.js:13-25 | inserting the next word keeps every node's keys in the order in which the words of the list first need them |
| JsTrie.WalksOfWords | trie.js:13-25 | after every word, the paths are the empty path and the prefixes of the words |
| JsTrie.Build | trie.js:11-26 | the constructor's trie holds exactly the nonempty words given, is an empty root when no list is given, and its root is never a word; its paths are exactly the prefixes of the words, so it has no other node, and every node lists its keys in the order in which the words first need them |
| JsTrie.Trie.constructor | trie.js:11-26 | the new trie holds exactly the nonempty words given, its root is never a word, its paths are exactly the prefixes of the words, and every node lists its keys in the order in which the words first need them |
| JsTrie.FirstUseRoot | trie.js:11-26 | for the words `a` and `b`, the root's keys are `a` then `b`, and `Object.keys` lists them in that order |
| JsTrie.Trie.FindWithPrefix | trie.js:34-63 | returns the first `size` stored words that start with the prefix |
| JavaTrie.NewNode | trie.java:38 | a new node carries its letter, 26 empty child slots and no word |
| JavaTrie.Slot | trie.java:22 | `c - 'A'` is a slot of the 26 for every letter `A`..`Z` |
| JavaTrie.Letter | trie.java:38 | every slot names a letter `A`..`Z` |
| JavaTrie.SlotLetter | trie.java:22 | slots and letters are in one-to-one correspondence |
| JavaTrie.Child | trie.java:22 | a child slot that is set points at a later node of the arena |
| JavaTrie.Walk | trie.java:21-34 | a walk that reaches a node reaches one at or after where it started, and strictly after for a nonempty path |
| JavaTrie.WalkConcat | trie.java:21-34 | walking `p + s` is walking `p` and then `s` from where `p` ends |
| JavaTrie.WalkPrefixNone | trie.java:52-57 | when a prefix of the path is missing, the whole path is missing |
| JavaTrie.WalkGrown | trie.java:37-40 | adding nodes keeps every path that already exists |
| JavaTrie.AppendCreates | trie.java:38 | appending a new node and pointing the slot at it creates the child for `c` and changes nothing else |
| JavaTrie.CreatedWellFormed | trie.java:37-40 | creating a child under an empty slot keeps the trie well formed and keeps every node |
| JavaTrie.CreatedWords | trie.java:38 | a created node holds no word |
| JavaTrie.Mark | trie.java:42-43 | the node becomes terminal and records the word, and keeps its letter and its children, as at trie.java:29-30 too |
| JavaTrie.MarkWellFormed | trie.java:29-30 | marking a node with its own label keeps the trie well formed and changes no path |
| JavaTrie.CreatedWalk | trie.java:38 | creating a child under an empty slot makes exactly one new path walkable: the parent's label followed by the letter |
| JavaTrie.PathsStep | trie.java:37-40 | each turn of the creating loop adds one node and the next prefix of the word as its only new path |
| JavaTrie.PrefixesWalk | trie.java:21-34 | when the path of the first `k` letters exists, the path of every shorter prefix exists too |
| JavaTrie.StoredKept | trie.java:37-40 | creating the missing nodes of a path stores no new word |
| JavaTrie.MarkStored | trie.java:42-43 | marking the node of `w` stores exactly the old words plus `w` |
| JavaTrie.CreateStep | trie.java:37-40 | each turn of the creating loop keeps its invariant |
| JavaTrie.FollowPath | trie.java:21-34 | the do-while loop either reaches the node of the whole word, or stops at the node of the longest existing prefix, whose next slot is empty |
| JavaTrie.CreatePath | trie.java:37-40 | the for loop creates one node per missing letter and no other, so that the new paths are exactly the prefixes of the word longer than the existing part |
| JavaTrie.AddWord | trie.java:15-44 | adding `w` keeps the trie well formed, stores exactly the old words plus `w`, records `w` at its node, only marks the node when the path existed, and makes the paths exactly the old paths and the prefixes of `w` |
| JavaTrie.LevelWalk | trie.java:64-78 | every node on level `d` of the traversal is reached by a path of length `d` |
| JavaTrie.WalkLevel | trie.java:64-78 | every node reached by a path of length `d` is on level `d` of the traversal |
| JavaTrie.BfsSound | trie.java:64-79 | every word listed is stored and starts with the prefix |
| JavaTrie.BfsComplete | trie.java:64-79 | every stored word that starts with the prefix is listed |
| JavaTrie.BfsOrdered | trie.java:64-79 | the words come shortest first, and the prefix comes first if and only if it is stored |
| JavaTrie.QueueTake | trie.java:68-77 | taking the front node adds its word if it has one and queues its children, keeping the queue invariant |
| JavaTrie.QueueNext | trie.java:67 | when one level is used up, the queue holds the next level |
| JavaTrie.QueueDone | trie.java:67 | when the queue is empty, the words are the breadth-first listing |
| JavaTrie.PushChildren | trie.java:73-77 | the for loop queues the node's children in slot order |
| JavaTrie.WalkPrefix | trie.java:52-61 | the do-while loop reaches the node of the prefix, or returns none when the path is missing |
| JavaTrie.ListByPrefix | trie.java:46-80 | the result is none exactly when the prefix's path is missing, and otherwise the breadth-first listing of the words below the prefix |
| JavaTrie.Trie.constructor | trie.java:11-13 | a new trie is a single root with no stored word |
| JavaTrie.Trie.IsWord | trie.java:15-44 | isWord stores exactly the old words plus `w`, keeps the trie well formed, and makes the paths exactly the old paths and the prefixes of `w` |
| JavaTrie.Trie.WordByPrefix | trie.java:46-80 | wordByPrefix returns none for a missing path, and otherwise every stored word starting with the prefix, shortest first |
| Mvc.Filter | mvc.js:37-38 | `filter` keeps exactly the elements that satisfy the predicate |
| Mvc.Not | mvc.js:36 | `not` holds of an element exactly when the predicate does not |
| Mvc.Find | mvc.js:32-41 | every element found satisfies the predicate, and an empty input gives an empty result |
| Mvc.FindEach | mvc.js:40 | every element found below the unmatched elements satisfies the predicate |
| Mvc.FindExposed | mvc.js:32-41 | an element is found if and only if it matches and is not below a match |
| Mvc.FindEachExposed | mvc.js:40 | the recursive part finds exactly the exposed matches below the unmatched elements |
| Mvc.MatchFound | mvc.js:37 | every matching element of the top level is found |
| Mvc.Leading | mvc.js:204 | counts the white space the string starts with, and stops at the first other character |
| Mvc.Trailing | mvc.js:204 | counts the white space the string ends with, and stops at the last other character |
| Mvc.Trim | mvc.js:204 | the trimmed string neither starts nor ends with white space and is no longer than the input |
| Mvc.TrimParts | mvc.js:204 | the input is white space, the trimmed string and white space, in that order |
| Mvc.IndexOf | mvc.js:200 | the result is -1 or a position at or after `from` where the pattern fits |
| Mvc.IndexOfFirst | mvc.js:200 | `indexOf` finds the first occurrence at or after `from`, and -1 means there is none |
| Mvc.Clamp | mvc.js:202 | an index is clamped into the string, and an index inside it is unchanged |
| Mvc.Substring | mvc.js:202-204 | `substring(a, b)` is the slice between the bounds, taken in either order |
| Mvc.SubstringFrom | mvc.js:211 | `substring(a)` is the rest of the string from `a` |
| Mvc.Delimiters | mvc.js:200 | a round that finds both delimiters finds `{{` at or after `index` and `}}` at or after `index + 2` |
| Mvc.DelimitersFound | mvc.js:200 | the delimiters of a round are what its two `indexOf` calls return |
| Mvc.DelimitersAt | mvc.js:200 | the delimiters a round finds are really there |
| Mvc.Push | mvc.js:201-208 | a round keeps what was built, adds its literal chunk unless it is empty, then an empty chunk, adds the untrimmed expression text, and records the placeholder at the empty chunk |
| Mvc.Search | mvc.js:199-208 | every round finds real delimiters: `{{` at or after where the round starts, `}}` at or after two past that, and each round starts after the `}}` of the round before |
| Mvc.Build | mvc.js:199-215 | the loop adds exactly one expression and one placeholder per round |
| Mvc.SearchFound | mvc.js:199-206 | a round that finds both delimiters goes on after its `}}` |
| Mvc.SearchMissed | mvc.js:209-213 | a round that misses a delimiter is the last |
| Mvc.BuildNext | mvc.js:200-208 | building through a round pushes its chunk, placeholder and expression |
| Mvc.BuildLast | mvc.js:210-212 | with text left after the last round, the rest of the text is the last chunk |
| Mvc.BuildDone | mvc.js:199 | with the whole text read, nothing more is added |
| Mvc.BuildFound | mvc.js:200-208 | from a round that finds both delimiters, the loop pushes it and goes on after the `}}` |
| Mvc.RoundFound | mvc.js:200-208 | one round on the loop's own variables keeps the template still to be built the same |
| Mvc.BuildMissed | mvc.js:209-213 | from a round that misses a delimiter, the rest of the text, if any, is the last chunk |
| Mvc.DelimitedRound | mvc.js:200 | a round at real delimiters, in order, before rounds that are delimited, is delimited |
| Mvc.TrimAll | mvc.js:204-205 | there is one trimmed expression per expression text |
| Mvc.TrimAllSnoc | mvc.js:204-205 | pushing an expression pushes its trimmed text |
| Mvc.TrimAllEach | mvc.js:204-205 | the `i`-th expression is the `i`-th expression text, trimmed |
| Mvc.PlaceholdersLiteral | mvc.js:202 | pushing a literal chunk keeps every placeholder in place |
| Mvc.PlaceholdersAdd | mvc.js:207-208 | recording `concat.length` and pushing `''` adds a placeholder at an empty chunk, after the others |
| Mvc.PushPlaceholders | mvc.js:201-208 | one round keeps one placeholder per expression, each at an empty chunk, in increasing order |
| Mvc.BuildPlaceholders | mvc.js:199-215 | the whole loop keeps the placeholders well placed |
| Mvc.Tokenize | mvc.js:188-215 | the tokenizer as written records one placeholder per expression, each at an empty chunk, in increasing order |
| Mvc.TokenizePlain | mvc.js:209-213 | a text without delimiters is one literal chunk, or no chunk when it is empty |
| Mvc.Compute | mvc.js:217 | without placeholders, the chunks joined; a template that is a single placeholder renders as its value |
| Mvc.Fill | mvc.js:217 | filling placeholders keeps the number of chunks |
| Mvc.Join | mvc.js:217 | joining a single chunk gives that chunk |
| Mvc.JoinSnoc | mvc.js:217 | joining one more chunk appends it |
| Mvc.FillLiteral | mvc.js:217 | a chunk after every placeholder is left as it is |
| Mvc.FillPlaceholder | mvc.js:217 | the last placeholder takes the last value |
| Mvc.RoundTripRest | mvc.js:210-212 | adding the rest of the text as the last chunk completes the rendering |
| Mvc.RoundTripLiteral | mvc.js:201-203 | the literal text before `{{` keeps the rendering equal to the text read |
| Mvc.RoundTripExpression | mvc.js:204-208 | an expression, put back between braces, keeps the rendering equal to the text read |
| Mvc.RoundTripStep | mvc.js:200-208 | a round of the corrected loop keeps the rendering equal to the text read |
| Mvc.Enclosed | mvc.js:204 | the text up to a `}}` is the text before the `{{` followed by the braced expression |
| Mvc.DelimitedRest | mvc.js:200-206 | a round at real delimiters is followed by rounds at real delimiters after its `}}` |
| Mvc.BuildRoundTrip | mvc.js:199-217 | through corrected rounds, filling each placeholder with its braced expression renders back the whole text |
| Mvc.TokenizeFixed | mvc.js:188-217 | with `}}` looked for after the `{{`, the placeholders are well placed, and computing with every expression put back between braces renders back the template text |
| Mvc.IndexOfIs | mvc.js:200 | `indexOf` returns an occurrence when none comes earlier |
| Mvc.StrayDelimiters | mvc.js:200 | on `ab}}c{{d}}`, the first round finds `{{` at 5 and `}}` at 2 |
| Mvc.StrayRounds | mvc.js:199-206 | on `ab}}c{{d}}`, the first round ends at 4, so the second round starts before the `{{` the first round already used |
| Mvc.StrayPushes | mvc.js:200-208 | on `ab}}c{{d}}`, the two rounds push the expression `}}c{{` and the chunk `c` twice |
| Mvc.TokenizeStrayClose | mvc.js:188-217 | as written, the tokens of `ab}}c{{d}}` do not render back the text |
| Mvc.StrayRendering | mvc.js:217 | the as-written tokens of `ab}}c{{d}}` render 20 characters for a text of 10 |
| Mvc.Tokenizer | mvc.js:188-217 | whichever search is used, the placeholders are well placed, and with the corrected one the template renders back the text |
| Mvc.Compile | mvc.js:188-215 | the loop returns the chunks, trimmed expressions and placeholder positions of the tokenizer, as written or corrected, with the placeholders well placed |

## Left out

- `main`, `parse_int`, `init_array`, the timing code and all printing in `quicksort.c` are input and output around the algorithm.
- `rand_pivot` is not one of the configuration's pivot choices, because it draws a fresh random number on every recursive call. RandPivot takes the draw as a parameter, and QuickSort does not use it.
- The `Id` callback is the `NoCallback` choice, which does nothing.
- QuickSort: C's 32-bit `int` is modelled as an unbounded `int`. The middle index `(hi + lo) / 2` of a segment cannot overflow for an array that fits in memory.
- QuickSort.Hoare: the upward scan can read `arr[len]`, the cell just past the segment. At the end of the whole array that read is out of bounds, which is undefined behaviour in C. For a left part it is the cell of the parent's pivot, and C goes on with the value found there. In both cases the model stops the call with the `ReadPastEnd` outcome and does not follow the scan out of the segment.
- QuickSort.QuickSort: with the as-written hoare, the model gives up at the first `ReadPastEnd`, where C goes on. It therefore promises no sorted result for that configuration, even with the insertion-sort callback; it only promises that the segment is rearranged.
- Object references in the tries are indices into an arena of nodes. No node is shared or freed, so aliasing is not modelled.
- JsTrie: `findWithPrefix` creates a throw-away `new Trie()` when a symbol of the prefix is missing. The model has no node there, and returns the same empty result.
- JsTrie: the root never becomes a word, because `''.split('')` has no symbols. An empty word in the list therefore stores nothing.
- JsTrie: `word.split('')`, `prefix[0]` and `prefix.split('')` (trie.js:17, 39, 43) split strings into UTF-16 code units, while the model's strings are sequences of whole characters. A character outside the Basic Multilingual Plane is one key here but two nested keys in JavaScript, so the key order can differ. For example, the emoji U+1F600 and U+1F601 share their first code unit, so JavaScript files both under one child of the root. With `e1` and `e2` standing for them, `new Trie(["a", e1, "b", e2]).findWithPrefix("", 4)` lists `e2` before `b` in JavaScript, while the model lists `b` first.
- JsTrie: keys are single characters. `Object.keys` orders them as integer-like keys in ascending order, then the others in creation order. Multi-character keys cannot arise.
- JavaTrie.AddWord: words must be nonempty and made of `A`..`Z`. For other input the Java code throws an index exception, and throwing is not modelled.
- JavaTrie.ListByPrefix: the same requirement applies to prefixes. `null` is `None`.
- JavaTrie: the `trieNode` class is not part of this model. Its constructor is taken to store the letter, 26 empty slots and no word, as its uses at trie.java:12 and 38 show.
- The DOM side of mvc.js is left out: `htmlToNodes`, `fromDot`, `extend`, `Model`, `View` and the event bindings. `compute` takes the values of the expressions as a parameter instead of evaluating `parseFns`.
- Mvc.Compile: `element.innerHTML` is taken as the text parameter.
- Mvc: strings are sequences of Dafny characters, not UTF-16 code units, so surrogate pairs count as one character.
- Mvc.Compute: the source fills `concat` in place and keeps it between calls. The model fills a copy, which gives the same string, because every call overwrites every placeholder.
- Mvc.Trim: the `' '` argument of `trim(' ')` is ignored by JavaScript and by the model.
- Mvc.Find: `find` takes any predicate over elements. The model passes it as a function value and does not model side effects of the predicate. The data an element carries is a value without object references, so that `not` can be stated for every element.

## Findings

| source | as written | input that shows it | evidently intended | confidence | as-written member | corrected member |
|---|---|---|---|---|---|---|
| quicksort.c:125-142 | `median` moves the median of the first, middle and last values to `hi - 1`, then returns `arr[lo]`, the smallest of the three | `[3, 1, 2]` returns 1, but the median is 2 | return the median of the three, with the median in the first cell | not executed | QuickSort.Median, QuickSort.MinOfThreeIsNotMedian | QuickSort.MedianOfThree |
| quicksort.c:102 | `arr[i] < pivot` is evaluated before `i < len` | `[5, 3, 1]` with pivot 5 reads `arr[3]`, past the segment | test the bound before reading the cell | not executed | QuickSort.HoareReadsPastEndIff | QuickSort.HoarePartition |
| quicksort.c:110-120 | after the loop, `arr[i]` and `arr[j]` are swapped once more before the pivot is placed | `[5, 3, 8]` with pivot 5 returns 1 and leaves `[8, 5, 3]`, with 8 before the pivot | smaller values before the returned split and the others after it | not executed | QuickSort.HoareMisplacesLargerValue | QuickSort.HoarePartition |
| mvc.js:200 | `}}` is looked for from `index + 2`, which can be before the `{{` | `ab}}c{{d}}` yields the expression `}}c{{`, repeats the chunk `c`, and renders 20 characters | look for `}}` after the `{{`, from `startIndex + 2` | not executed | Mvc.TokenizeStrayClose, Mvc.StrayRendering | Mvc.TokenizeFixed |
