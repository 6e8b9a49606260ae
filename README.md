# midifile in Dafny

A model of the core of the TypeScript library `midifile`, with proofs about it. The model covers three groups of code.

- **Persistent collections.**
  - `ArrayTree`: a 32-way bit-partitioned vector with a tail buffer.
  - `ArrayHelper`: the copy-on-write array cell beneath it.
  - `LinkedList`: a cons list with folds, and `ArrayFromList`, which splits a list into a bounded array and the remainder.
  - `LazyList`: a thunk-based list, finite lists only.
  - `RedBlackTree`: an Elm-style persistent map.
- **The Standard MIDI File codec** (Standard MIDI Files 1.0: variable-length quantities, the header chunk, track chunks, meta events; running status from the MIDI 1.0 Detailed Specification).
  - `Stream` and `MidiParser` decode the events of a track.
  - `WriteEventsToTrack` and `WriteMetaEventsToTrack` encode them.
  - `GetRequiredBufferLength` predicts the encoded size.
  - `MidiFileHeader` and `MidiFileTrack` check and edit the chunks in place.
  - `MidiFile` walks the chunks of a file and reads its tracks one after another or merged by smallest delta.
  - `Utf8` decodes texts, and `GetLyrics` picks out the lyrics.
- **The integer parts of the test-data generator**: `IntRangeGenerator`, the LCG/PCG step, `seriesInt` and the integer shrinker.

How the source is represented:

- Code that builds values becomes datatypes and functions.
- Code that changes state becomes classes and methods. Each method is proved against a function that specifies it.
  - Examples: the stream and the parser, the track writer, the header and track chunks, the copy-on-write array, the list loops, the lyrics collector, and the file reader.
- An exception becomes the `Failure` of a `Result`. Its message becomes a constructor of `Errors.Error`.
- JavaScript numbers are unbounded integers. The 32-bit behaviour of `>>>`, `<<`, `&` and `|0` is written out in `Bits`.
- Bytes are integers in 0..255. A `DataView` is a byte array with an offset and a length.
- A random source is a function from a seed to a 32-bit draw and the next seed.

The main results:

- **Round trips:**
  - quantities;
  - every event kind the writer and the parser agree on;
  - whole tracks (`CodecLaws.TrackBufferRoundTrip`).
- **Size agreement** between the writer and the size calculator (`CodecLaws.RunWriteSize`).
- **Chunk layout:** the layout `fromBuffer` accepts (`MidiFile.FileChunksLayout`).
- **Merge order:** the smallest-delta merge (`MidiFile.SmallestMeaning`, `MidiFile.NextTrackParsersSpec`).
- **The persistent vector** is a sequence: `get` indexes it, `set` updates it, `push` appends to it.
- **The red-black tree** (corrected) keeps its invariants and stores what is inserted.
- **UTF-8:** decoding undoes encoding (`Utf8.DecodeEncoded`).
- **Source defects:** each has an as-written member that exhibits it, beside a corrected twin (see "## Findings").

## Model

| member | source | states |
|---|---|---|
| ArrayHelper.ElementAt | src/ArrayHelper/ArrayHelper.ts:4-10 | `get` as intended: it succeeds exactly for an index inside the array and then returns that element |
| ArrayHelper.ElementAtAsWritten | src/ArrayHelper/ArrayHelper.ts:4-10 | `get` as written, with the guard against the free global `length`: it fails exactly for a negative index, a missing global or an index at or past the global; past the array's end it yields `undefined` |
| ArrayHelper.ElementAtAsWrittenRejects | src/ArrayHelper/ArrayHelper.ts:5 | with no global `length` (or a zero one) every read fails, even those the intended check accepts |
| ArrayHelper.ElementAtAsWrittenPassesEnd | src/ArrayHelper/ArrayHelper.ts:5 | with a global larger than the array, the index one past the end is accepted as written and rejected as intended |
| ArrayHelper.Replaced | src/ArrayHelper/ArrayHelper.ts:12-28 | `set` fails exactly for an index outside the array; on success the length is kept, the index holds the new value and every other element is unchanged |
| ArrayHelper.Pushed | src/ArrayHelper/ArrayHelper.ts:30-42 | `push` leaves an array one longer whose prefix is the old array and whose last element is the value |
| ArrayHelper.ReplacedThenElementAt | src/ArrayHelper/ArrayHelper.ts:4-28 | reading after a `set` gives the new value at the written index and the old value everywhere else |
| ArrayHelper.ArrayHelper.constructor | src/ArrayHelper/ArrayHelper.ts:2 | the helper wraps the given array |
| ArrayHelper.ArrayHelper.Get | src/ArrayHelper/ArrayHelper.ts:4-10 | the method's result is the intended bounds-checked read of the current array |
| ArrayHelper.ArrayHelper.Set | src/ArrayHelper/ArrayHelper.ts:12-28 | the copy loop installs a fresh array equal to the replaced contents and returns the helper itself; on an out-of-range index nothing changes |
| ArrayHelper.ArrayHelper.Push | src/ArrayHelper/ArrayHelper.ts:30-42 | the copy loop installs a fresh array equal to the old contents plus the value, leaving the old array untouched |
| ArrayHelper.ArrayHelper.GetResult | src/ArrayHelper/ArrayHelper.ts:44-46 | the current array itself is returned, not a copy |
| ArrayFromList.ArrayFromList.constructor | src/ArrayFromList/ArrayFromList.ts:7-21 | the array holds the first min(arrayLength, length of the list) elements, and the remaining list is exactly the rest, so the two together give back the list |
| ArrayFromList.SplitSixAtThree | src/ArrayFromList/ArrayFromList.spec.ts:5-16 | taking three elements of 6, 5, 4, 3, 2, 1 leaves [6, 5, 4] and the list 3, 2, 1 |
| LinkedList.Cons | src/LinkedList/LinkedList.ts:164-166 | `cons` puts the value in front and shares the old list as the tail |
| LinkedList.ReduceLeft | src/LinkedList/LinkedList.ts:210-212 | the cursor loop of `reduceLeft` computes the left fold of the elements; an empty list returns the seed |
| LinkedList.ReverseFold | src/LinkedList/LinkedList.ts:5-9 | folding `cons` over a sequence puts it reversed in front of the accumulator |
| LinkedList.Reverse | src/LinkedList/LinkedList.ts:168-170 | `reverse` yields the elements in reverse order |
| LinkedList.LengthFold | src/LinkedList/LinkedList.ts:11-15 | the counting fold adds the number of elements to the accumulator |
| LinkedList.Length | src/LinkedList/LinkedList.ts:172-174 | `length` is the number of elements |
| LinkedList.ToArrayFold | src/LinkedList/LinkedList.ts:184-186 | the pushing fold appends the elements to the accumulator in order |
| LinkedList.ToArray | src/LinkedList/LinkedList.ts:184-186 | `toArray` yields the elements in list order |
| LinkedList.MapFold | src/LinkedList/LinkedList.ts:23-29 | a right fold of the mapping `cons` maps every element in place |
| LinkedList.Map | src/LinkedList/LinkedList.ts:180-182 | `map` keeps the length and maps the i-th element to the i-th element |
| LinkedList.ReduceRightIsReverseReduceLeft | src/LinkedList/LinkedList.ts:176-178 | the right fold equals the left fold of the reversed list, the fallback used past 500 nested steps |
| LinkedList.ReduceRightHelper.constructor | src/LinkedList/LinkedList.ts:31-38 | the helper starts with the reducer, seed and list given and a zero count |
| LinkedList.ReduceRightHelper.ReduceNextElements | src/LinkedList/LinkedList.ts:40-47 | both branches (the reversed left fold past a count of 500, or four more elements) compute the right fold of the remaining list |
| LinkedList.ReduceRightHelper.ReduceFourthElement | src/LinkedList/LinkedList.ts:49-75 | the result is the right fold of the rest, then the three pending values applied innermost first |
| LinkedList.ReduceRightHelper.ReduceThirdElement | src/LinkedList/LinkedList.ts:77-93 | the result is the right fold of the rest, then the two pending values applied |
| LinkedList.ReduceRightHelper.ReduceSecondElement | src/LinkedList/LinkedList.ts:95-104 | the result is the right fold of the rest, then the pending first value applied |
| LinkedList.ReduceRightHelper.ReduceFirstElement | src/LinkedList/LinkedList.ts:106-115 | the result is the right fold of the remaining list |
| LinkedList.ReduceRightHelper.Reduce | src/LinkedList/LinkedList.ts:117-119 | the helper computes the right fold of the list it was given |
| LinkedList.ReduceRight | src/LinkedList/LinkedList.ts:176-178 | `reduceRight` is the right fold, equal to the left fold over the reversed list |
| LinkedList.Drop | src/LinkedList/LinkedList.ts:188-202 | `drop(n)` yields the list without its first n elements, all of it for n at most 0, empty when n exceeds the length |
| LinkedList.Range | src/LinkedList/LinkedList.ts:142-152 | `range(start, end)` yields start, start+1, ..., end, empty when end < start |
| LinkedList.Iterator.constructor | src/LinkedList/LinkedList.ts:122-123 | the iterator starts at the given list |
| LinkedList.Iterator.Next | src/LinkedList/LinkedList.ts:125-134 | `next` is done exactly at the end of the list; otherwise it yields the head and advances to the tail |
| LinkedList.Iterate | src/LinkedList/LinkedList.ts:160-162 | iterating with `for ... of` yields exactly `toArray` |
| LazyList.Empty | src/LazyList/LazyList.ts:17-19 | the empty list has no elements |
| LazyList.Singleton | src/LazyList/LazyList.ts:21-25 | a singleton holds exactly its value |
| LazyList.Prepend | src/LazyList/LazyList.ts:62-64 | `cons` puts the value in front of the elements |
| LazyList.IsEmpty | src/LazyList/LazyList.ts:66-68 | `isEmpty` holds exactly when the list has no elements |
| LazyList.HeadAndTail | src/LazyList/LazyList.ts:70-72 | `headAndTail` is `undefined` exactly on the empty list; otherwise head followed by tail gives back the list |
| LazyList.TakePrefix | src/LazyList/LazyList.ts:144-154 | `Take`: `take(n)` is empty for n at most 0 and otherwise the first min(n, length) elements |
| LazyList.DropSuffix | src/LazyList/LazyList.ts:171-181 | `Drop`: `drop(n)` is the list itself for n at most 0 and otherwise the elements after the first min(n, length) |
| LazyList.TakeWhileLongestPrefix | src/LazyList/LazyList.ts:160-169 | `takeWhile` is a prefix all of whose elements pass the predicate and is the longest: the next element, if any, fails it |
| LazyList.MemberIsElementOf | src/LazyList/LazyList.ts:90-92 | `member` holds exactly when the element occurs in the list |
| LazyList.ReduceIsFoldLeft | src/LazyList/LazyList.ts:94-96 | `reduce` is the left fold of the elements |
| LazyList.ToArrayReduce | src/LazyList/LazyList.ts:106-108 | the pushing reduce appends the elements to the accumulator in order |
| LazyList.ToArray | src/LazyList/LazyList.ts:106-108 | `toArray` yields the elements in order |
| LazyList.MapKeepsOrder | src/LazyList/LazyList.ts:98-100 | `Map`: `map` keeps the length and maps the i-th element to the i-th element |
| LazyList.MapTwoPairsByPosition | src/LazyList/LazyList.ts:39-47 | `mapTwo` is as long as the shorter list and combines the i-th elements of both |
| LazyList.MapThreePairsByPosition | src/LazyList/LazyList.ts:49-58 | `mapThree` is as long as the shortest list and combines the i-th elements of all three |
| LazyList.AppendInterleaves | src/LazyList/LazyList.ts:74-76 | `a.append(b)` as written yields the elements of b and a alternately, starting with b; appending the empty list either way is the identity, and the length is the sum |
| LazyList.AppendInterleavesExample | src/LazyList/LazyList.ts:74-76 | [1, 2].append([3, 4]) as written is [3, 1, 4, 2] |
| LazyList.Concat | src/LazyList/LazyList.ts:74-76 | `append` as intended yields the elements of the list followed by those of the argument |
| LazyList.FlattenKeepsElements | src/LazyList/LazyList.ts:183-197 | `flatten` as written (`Flatten`) holds every element of every inner list as often as it occurs there, so its length is the sum of the lengths; only the order differs from the concatenation |
| LazyList.FlattenInterleavesExample | src/LazyList/LazyList.ts:195 | the `append` defect reaches `flatten`: [[1, 2], [3, 4]] flattens to [3, 1, 4, 2] while the inner lists one after another are [1, 2, 3, 4] |
| LazyList.FlattenConcat | src/LazyList/LazyList.ts:183-197 | `flatten` as intended, over the intended `append`, yields the elements of the inner lists one list after another |
| Folds.Reversed | src/LinkedList/LinkedList.ts:168-170 | the reversed sequence has the same length and holds the i-th element at the mirrored position |
| Folds.FoldLeftConcat | src/LinkedList/LinkedList.ts:224-234 | folding a concatenation folds the second part from where the first ended |
| Folds.FoldRightIsFoldLeftOfReversed | src/LinkedList/LinkedList.ts:176-178 | a right fold is a left fold over the reversed sequence |
| RedBlackTree.StrLessIrreflexive | src/RedBlackTree/RedBlackTree.ts:191-200 | the string order `updateHelp` uses never puts a key below itself |
| RedBlackTree.StrLessTransitive | src/RedBlackTree/RedBlackTree.ts:191-200 | the string order is transitive |
| RedBlackTree.StrLessTotal | src/RedBlackTree/RedBlackTree.ts:191-214 | two different strings are always ordered one way or the other, so the last branch of `updateHelp` is reached only for equal strings |
| RedBlackTree.StrTrichotomy | src/RedBlackTree/RedBlackTree.ts:191-214 | exactly one of below, equal and above holds for two strings |
| RedBlackTree.BalanceAsWritten | src/RedBlackTree/RedBlackTree.ts:153-155 | `balance` as written throws exactly when a red right child meets an empty left child (the missing `balanceLeftWhenRightIsRed`); a red left child under a non-red right child rotates through `balanceLeftLeft` of the left child itself; other cases recolour or keep the node |
| RedBlackTree.UpdateHelpAsWritten | src/RedBlackTree/RedBlackTree.ts:187-215 | `updateHelp` as written returns a node: a red leaf for a new key, the same node with the updater's value for an equal key, a rebalanced node after descending left or right |
| RedBlackTree.UpdateAsWritten | src/RedBlackTree/RedBlackTree.ts:80-87 | `update` as written yields a black root; on the empty tree a single black node holding the updater's value for `undefined` |
| RedBlackTree.InsertAsWritten | src/RedBlackTree/RedBlackTree.ts:66-68 | `insert` on the empty tree yields one black node holding the key and value |
| RedBlackTree.FromArrayAsWritten | src/RedBlackTree/RedBlackTree.ts:39-46 | `fromArray` of no entries is the empty tree, of one entry a single black node |
| RedBlackTree.InsertAThenBThrows | src/RedBlackTree/RedBlackTree.ts:241 | inserting "a" then "b" calls the method `RedBlackEmpty` lacks and throws a TypeError |
| RedBlackTree.InsertBThenADuplicates | src/RedBlackTree/RedBlackTree.ts:259 | inserting "b" then "a" yields a tree that holds the key "a" twice |
| RedBlackTree.Balance | src/RedBlackTree/RedBlackTree.ts:237-333 | the corrected `balance` always yields a node |
| RedBlackTree.UpdateHelp | src/RedBlackTree/RedBlackTree.ts:187-215 | the corrected `updateHelp` yields a node: a red leaf for a new key, the updater's value on the equal key, a rebalanced node after a descent |
| RedBlackTree.LookupFindsKeys | src/RedBlackTree/RedBlackTree.ts:187-215 | in a tree ordered by the string keys, a lookup succeeds exactly for the keys the tree holds |
| RedBlackTree.BalanceKeeps | src/RedBlackTree/RedBlackTree.ts:237-333 | the corrected balance keeps the set of keys, the search order and every lookup |
| RedBlackTree.UpdateHelpSpec | src/RedBlackTree/RedBlackTree.ts:187-215 | `updateHelp` on a search tree adds the key, keeps the order, stores the updater's value of the old one under the key and leaves every other lookup unchanged |
| RedBlackTree.UpdateSpec | src/RedBlackTree/RedBlackTree.ts:183-185 | `update` blackens the root, keeps the tree a search tree, stores the updater's value (given `undefined` for a new key) and keeps every other key's value |
| RedBlackTree.InsertSpec | src/RedBlackTree/RedBlackTree.ts:66-68 | `insert` stores the value under the key and keeps every other key's value |
| RedBlackTree.FromArraySpec | src/RedBlackTree/RedBlackTree.ts:39-46 | `fromArray` builds a search tree in which each key holds the value of its last entry |
| RedBlackTree.ValidHeight | src/RedBlackTree/RedBlackTree.ts:112-151 | a tree valid at a black height has exactly that black height |
| RedBlackTree.BlackenRed | src/RedBlackTree/RedBlackTree.ts:279-281 | `colorBlack` on a red node of a valid tree gives a valid tree one black level higher |
| RedBlackTree.BalanceLeftValid | src/RedBlackTree/RedBlackTree.ts:191-197 | after a left descent the balance restores validity under a black node and leaves at worst one red-red edge at the top under a red one |
| RedBlackTree.BalanceRightValid | src/RedBlackTree/RedBlackTree.ts:200-206 | the same after a right descent |
| RedBlackTree.UpdateHelpValid | src/RedBlackTree/RedBlackTree.ts:187-215 | `updateHelp` keeps the black height; under a black root the tree stays valid, under a red root at worst one red-red edge appears at the top |
| RedBlackTree.UpdateKeepsRedBlack | src/RedBlackTree/RedBlackTree.ts:183-185 | `update` turns a red-black tree into a red-black tree |
| RedBlackTree.FromArrayRedBlack | src/RedBlackTree/RedBlackTree.ts:39-46 | `fromArray` builds a red-black tree |
| RedBlackTree.Get | src/RedBlackTree/RedBlackTree.ts:167-181 | the loop over `getValueOrSubtree` finds what the descent by `===` and `>` finds; on the empty tree `undefined` |
| RedBlackTree.FindIsLookup | src/RedBlackTree/RedBlackTree.ts:157-165 | where `>` on keys agrees with `>` on their strings, `get` finds what the insertion order stored |
| RedBlackTree.StringKeysAgree | src/RedBlackTree/RedBlackTree.ts:157-200 | for string keys `get` finds, for every key, the value of its last entry given to `fromArray` |
| RedBlackTree.NumberKeysThrowAsWritten | src/RedBlackTree/RedBlackTree.ts:241 | as written, number keys 10 then 9 throw in `balance` before any `get`: "9" sorts after "10" and becomes a red right leaf beside an empty left child |
| RedBlackTree.NumberKeysDisagreeAsWritten | src/RedBlackTree/RedBlackTree.ts:160 | as written, number keys 9 then 10 pass through the line-259 rotation and leave 9 right of 10: a lookup by strings finds 9, yet `get(9)` comparing numbers returns `undefined` |
| RedBlackTree.NumberKeysDisagree | src/RedBlackTree/RedBlackTree.ts:160 | with `balance` corrected, number keys 10 then 9 store 10 left of 9, yet `get(10)` comparing numbers returns `undefined` |
| ArrayTree.GetNodeIndex | src/ArrayTree/ArrayTree.ts:35-37 | the child index the shifts and mask compute is always below the branching factor 32 |
| ArrayTree.GetNodeIndexIsDigit | src/ArrayTree/ArrayTree.ts:22-37 | for indices below 2^32 and levels up to 6, the unsigned shift and the mask compute the base-32 digit of the index at that level |
| ArrayTree.EmptyArrayTree | src/ArrayTree/ArrayTree.ts:106-108 | the array tree the builder makes from no nodes and an empty tail is valid and holds no elements |
| ArrayTree.PackedLength | src/ArrayTree/ArrayTree.ts:55-76 | a trie filled left to right holds a whole number of leaves, at most its span, and its whole span only when full |
| ArrayTree.NodeGetStep | src/ArrayTree/ArrayTree.ts:39-43 | one level of `Tree.get` reads on in the child the index falls in, at the same offset within that child |
| ArrayTree.NodeGetSpec | src/ArrayTree/ArrayTree.ts:39-43 | `NodeGet`: `get` on a trie of level d reads the element at the index's offset within the trie's elements; the leaf case is src/ArrayTree/ArrayTree.ts:82-84 |
| ArrayTree.NodeSetLeaf | src/ArrayTree/ArrayTree.ts:86-92 | `Leaf.set` writes the element at the index's low five bits and keeps the other elements |
| ArrayTree.NodeSetUp | src/ArrayTree/ArrayTree.ts:45-53 | one level of `Tree.set` returns the node with only the child on the index's path replaced by what `set` made of it |
| ArrayTree.NodeSetStep | src/ArrayTree/ArrayTree.ts:45-53 | if `set` replaces the right element in the child on the path, it replaces the right element in the node |
| ArrayTree.NodeSetSpec | src/ArrayTree/ArrayTree.ts:45-53 | `NodeSet`: `set` on a trie replaces exactly the element at the index's offset and keeps the trie filled left to right, and full if it was |
| ArrayTree.InsertPushUp | src/ArrayTree/ArrayTree.ts:58-67 | when the index falls after the last child, `insertTail` pushes a new child: the leaf itself at level 1, a fresh subtree above |
| ArrayTree.InsertIntoUp | src/ArrayTree/ArrayTree.ts:68-75 | when the index falls in the last child, `insertTail` replaces that child by what `insertTail` made of it |
| ArrayTree.PushSlot | src/ArrayTree/ArrayTree.ts:56-58 | when every child is full and the node has room, the index of the next leaf falls just past the last child |
| ArrayTree.InsertTailStep | src/ArrayTree/ArrayTree.ts:55-76 | one level of `insertTail`: it goes on into a new empty node or the last child, and if it appends the leaf there it appends it here |
| ArrayTree.InsertTailSpec | src/ArrayTree/ArrayTree.ts:55-76 | `InsertTail`: `insertTail` at the index of the first free leaf keeps the trie filled left to right and appends the 32 elements of the tail to its elements |
| ArrayTree.TailStartSpec | src/ArrayTree/ArrayTree.ts:149-151 | `getIndexOfTheFirstElementInTail` rounds the length down to a whole leaf |
| ArrayTree.ElementsLength | src/ArrayTree/ArrayTree.ts:141-147 | a valid array tree stores exactly `length` elements |
| ArrayTree.TailIndex | src/ArrayTree/ArrayTree.ts:158-160 | an index in the last partial leaf is read in the tail at its low five bits, which is its offset from the tail's start |
| ArrayTree.TrieIndex | src/ArrayTree/ArrayTree.ts:162 | an index before the tail is read in the trie, where it is its own offset |
| ArrayTree.GetSpec | src/ArrayTree/ArrayTree.ts:153-163 | `Get`: `get` returns element `index` of the stored sequence, and `undefined` exactly outside it |
| ArrayTree.SetInTail | src/ArrayTree/ArrayTree.ts:170-177 | `set` at an index in the tail replaces that element of the sequence and keeps the array tree valid |
| ArrayTree.SetInTrie | src/ArrayTree/ArrayTree.ts:179-184 | `set` at an index in the trie replaces that element of the sequence and keeps the array tree valid |
| ArrayTree.TrieBranch | src/ArrayTree/ArrayTree.ts:165-184 | `set` below the tail's start keeps length, depth and tail and changes only the trie |
| ArrayTree.SetTrieElements | src/ArrayTree/ArrayTree.ts:179-184 | a trie with element `index` replaced gives the sequence with element `index` replaced |
| ArrayTree.NewTrie | src/ArrayTree/ArrayTree.ts:179-184 | a trie of the same size filled the same way in place of the old one keeps the array tree valid |
| ArrayTree.SetSpec | src/ArrayTree/ArrayTree.ts:165-185 | `Set`: `set` replaces element `index` of the sequence and keeps length and validity; outside the sequence it returns the array tree unchanged |
| ArrayTree.OverflowsSpec | src/ArrayTree/ArrayTree.ts:201-202 | for lengths below 2^31 the overflow test holds exactly when the leaves outnumber what a root of this depth holds |
| ArrayTree.ShiftOneLeft | src/ArrayTree/ArrayTree.ts:202 | `1 << (depth * shiftStep)` is 32 to the power depth for the depths a length below 2^31 reaches |
| ArrayTree.MovedTail | src/ArrayTree/ArrayTree.ts:204-220 | once a full tail has gone into the trie, the result is valid, has an empty tail, and holds the old trie's elements followed by the tail |
| ArrayTree.FullTailBranch | src/ArrayTree/ArrayTree.ts:200-220 | with a full tail `replaceTail` takes the new-root branch exactly when the overflow test holds |
| ArrayTree.ReplaceIntoRoom | src/ArrayTree/ArrayTree.ts:215-220 | a full tail moves into a trie with room for it, at the same depth |
| ArrayTree.NewRoot | src/ArrayTree/ArrayTree.ts:204-210 | when the trie is full the overflow test holds, a new root over the old trie holds the same elements, and the leaf goes in at the old length |
| ArrayTree.ReplaceIntoNewRoot | src/ArrayTree/ArrayTree.ts:204-212 | a full tail moves into a full trie under a new root one level deeper |
| ArrayTree.ReplaceTailSpec | src/ArrayTree/ArrayTree.ts:187-224 | `ReplaceTail` (with `MoveTail`): `replaceTail` fails exactly for a tail longer than 32; otherwise the result is valid and holds the trie's elements followed by the new tail; a shorter tail leaves trie and depth alone, and a full one moves into the trie, one level deeper exactly when the trie was full |
| ArrayTree.PushSpec | src/ArrayTree/ArrayTree.ts:226-230 | `Push`: `push` yields a valid array tree one longer whose sequence is the old one followed by the value |
| ArrayTree.PushThenGet | src/ArrayTree/ArrayTree.ts:153-163 | after `push`, `get` finds the value at the old length, every earlier element where it was, and `undefined` beyond |
| Random.Constant | src/Random/ConstantGenerator.ts:5-13 | the constant generator yields its value for every seed and hands the seed on unchanged |
| Random.LcgGenerate | src/Random/PermutedCongruentialUint32Generator.ts:9-15 | for a uint32 state, which covers every state the step hands on, the step yields `(state * 1664525 + 1013904223) mod 2^32`, a uint32, and the next seed's state is that output |
| Random.PcgGenerate | src/Random/PermutedCongruentialUint32Generator.ts:20-22 | for a uint32 state the permuted generator's rotation `count` is the top four bits of the congruential output, and it hands on the congruential step's seed |
| Random.NewIntRangeGenerator | src/Random/IntRangeGenerator.ts:26-38 | the constructor succeeds exactly when rangeStart < rangeEnd, keeping the start and source, with `range` the number of values from start to end (at least 2) |
| Random.GenerateWhenRangeIsPowerOfTwo | src/Random/IntRangeGenerator.ts:44-50 | the masked draw hands on the source's next seed and, for a range of at most 2^31 values, lies in `[rangeStart, rangeEnd]` |
| Random.GenerateWhenRangeIsNotPowerOfTwo | src/Random/IntRangeGenerator.ts:52-64 | a value the rejection loop returns lies in `[rangeStart, rangeEnd]` |
| Random.NotPowerOfTwoAccepted | src/Random/IntRangeGenerator.ts:52-64 | the rejection loop returns nothing exactly when every draw within the retries falls below `2^32 % range`; otherwise it returns the first draw not below it, reduced modulo the range and shifted by the start, with the seed that draw handed on |
| Random.GenerateInRange | src/Random/IntRangeGenerator.ts:66-72 | for ranges of at most 2^31 values every value `generate` yields lies in `[rangeStart, rangeEnd]`; a power-of-two range takes one draw, reduces it modulo the range and hands on its seed |
| Random.PowerOfTwoBranchIsRemainder | src/Random/IntRangeGenerator.ts:40-50 | a range passing `isRangePowerOfTwo` is a power of two, and its masked draw equals the draw modulo the range, the reduction the other branch makes |
| Random.PowerOfTwoExamples | src/Random/IntRangeGenerator.spec.ts:5-12 | `isRangePowerOfTwo` holds for 0..7, 0..15 and 0..31 and fails for 1..65, 2..130 and 3..260 |
| Random.ConstantDrawPowerOfTwo | src/Random/IntRangeGenerator.spec.ts:14-36 | the constant draw 2^32-1 yields 7 on 0..7 and 0 on -7..0 |
| Random.ConstantDrawRejection | src/Random/IntRangeGenerator.spec.ts:22-44 | the constant draw 2^32-1 yields 61 on 1..65 and -5 on -65..-1 |
| Random.ConstantDrawOf65 | src/Random/IntRangeGenerator.ts:52-64 | on any range of 65 values the constant draw 2^32-1 passes the threshold 61 and lands 60 values after the start |
| Random.FullRangeEscapes | src/Random/IntRangeGenerator.ts:40-47 | as written, the range 0..2^32-1 passes as a power of two and the draw 2^32-1 comes out as -1, outside the range |
| Random.WideRangeNeverAccepts | src/Random/IntRangeGenerator.ts:54-57 | as written, a range of more than 2^32 values rejects every draw, so the loop never returns |
| Random.GenerateExact | src/Random/IntRangeGenerator.ts:66-72 | `generate` as intended, on exact integers: every value it yields lies in `[rangeStart, rangeEnd]`, for every range the constructor accepts |
| Random.GenerateExactAgrees | src/Random/IntRangeGenerator.ts:40-72 | for ranges of at most 2^31 values the intended `generate` is the one as written |
| Shrinker.SeriesIntShape | src/Shrinker/SeriesInt.ts:3-15 | `seriesInt(low, high)` starts at `low`, strictly increases, stays in `[low, high)` and ends at `high - 1`; it is empty exactly when `low >= high` |
| Shrinker.ShrinkCandidates | src/Shrinker/Shrinker.ts:29-42 | the candidates are the series from 0 for a non-negative n (none for 0); for a negative n, `-n` followed by the negated series |
| Shrinker.CandidatesRankLower | src/Shrinker/Shrinker.ts:29-42 | every candidate ranks strictly below its origin in an order on integers with no infinite descent, so the shrink tree is finite |
| Shrinker.ShrinkTree | src/Shrinker/Shrinker.ts:21-26 | `shrinkTree(root)` has `root` at its root and one branch per candidate of `shrink`, in order, rooted at that candidate |
| Shrinker.ShrinkBranches | src/Shrinker/Shrinker.ts:6-16 | the branch list has one tree per candidate, in order, rooted at that candidate |
| Bits.ToUint32 | src/ArrayTree/ArrayTree.ts:36 | ToUint32 yields a uint32 and leaves values already in range alone |
| Bits.ToInt32 | src/Random/IntRangeGenerator.ts:41 | ToInt32 yields a signed 32-bit value congruent to its argument modulo 2^32 |
| Bits.UnsignedShiftRight | src/ArrayTree/ArrayTree.ts:36 | `>>>` yields a uint32 no larger than the shifted ToUint32 value |
| Bits.ShiftLeft | src/ArrayTree/ArrayTree.ts:202 | `<<` yields a signed 32-bit value |
| Bits.ShiftRightNonNegative | src/Random/PermutedCongruentialUint32Generator.ts:25 | on a non-negative 32-bit value `>>` divides by a power of two |
| Bits.Low5 | src/ArrayTree/ArrayTree.ts:83 | `lastStepBits & index` is below 32 and, for a non-negative index, the index modulo 32 |
| Bits.JsRemainder | src/Random/PermutedCongruentialUint32Generator.ts:11 | JavaScript's `%` takes the sign of the dividend and is smaller in magnitude than the divisor |
| Bits.JsAnd | src/Random/IntRangeGenerator.ts:41-47 | `x & y` with a non-negative 31-bit `y` lies between 0 and `y` |
| Bits.BitAndLowMask | src/Random/IntRangeGenerator.ts:47 | AND with `m - 1` for a power of two `m` is the remainder modulo `m` |
| Bits.PowerOfTwoTest | src/Random/IntRangeGenerator.ts:41 | `((x - 1) & x) == 0` holds exactly for powers of two |
| ByteStream.VarIntFromContinues | src/Stream.ts:25-27 | a byte with bit 7 set adds its low seven bits, shifts the sum left by seven and moves the loop on one byte |
| ByteStream.VarIntFromStops | src/Stream.ts:28-30 | a byte with bit 7 clear ends the quantity with the byte added, one byte further on |
| ByteStream.BytesFrom | src/Stream.ts:40-48 | `readBytes` succeeds exactly when the run lies inside the view (or the length is at most 0) and yields exactly the bytes of the run, moving past them |
| ByteStream.ShiftLeft7 | src/Stream.ts:27 | `varInt <<= 7` does not wrap for the sums the loop reaches |
| ByteStream.ContinuationStep | src/Stream.ts:22-31 | a continuation byte moves `readVarInt` on by one byte with one more seven-bit group gathered, still below 128 to the number of bytes read |
| ByteStream.VarIntFromSound | src/Stream.ts:19-38 | everything the loop accepts from any iteration on is a well-formed quantity inside the view whose value is its groups |
| ByteStream.VarIntFromComplete | src/Stream.ts:19-38 | the loop decodes every well-formed quantity that fits in the iterations left and lies inside the view |
| ByteStream.VarIntSound | src/Stream.ts:19-38 | a quantity `readVarInt` returns occupies one to four bytes inside the view, is well formed, its value is its seven-bit groups and lies below 2^28 |
| ByteStream.VarIntComplete | src/Stream.ts:19-38 | `readVarInt` decodes every well-formed quantity of at most four bytes inside the view to its groups, consuming exactly its bytes |
| ByteStream.VarIntBounds | src/Stream.ts:19-38 | a quantity read consumes one to four bytes inside the view and is below 2^28 |
| ByteStream.VarIntTooLong | src/Stream.ts:33-37 | four bytes in a row with bit 7 set make `readVarInt` throw |
| ByteStream.Stream.constructor | src/Stream.ts:4-6 | the cursor starts at `startAt` over the given view |
| ByteStream.Stream.GetPosition | src/Stream.ts:8-10 | `getPosition` returns the cursor |
| ByteStream.Stream.ReadUint8 | src/Stream.ts:12-17 | `readUint8` yields the byte at the cursor and advances by one; it fails, without moving, exactly outside the view |
| ByteStream.Stream.ReadVarInt | src/Stream.ts:19-38 | the method's loop yields what the quantity decoder yields and leaves the cursor just after the quantity |
| ByteStream.Stream.ReadBytes | src/Stream.ts:40-48 | the method's loop yields the run `BytesFrom` specifies and leaves the cursor after it |
| ByteStream.Stream.Pos | src/Stream.ts:50-52 | `pos` is the cursor's absolute offset in the underlying buffer |
| ByteStream.Stream.End | src/Stream.ts:54-56 | `end` holds exactly when the cursor is at the view's length |
| MidiParser.SequenceNumberAt | src/MidiParser.ts:78-87 | a sequence number read succeeds only as a sequence-number event |
| MidiParser.ChannelPrefixAt | src/MidiParser.ts:89-95 | a channel prefix read succeeds only as a channel-prefix event |
| MidiParser.SmtpeOffsetAt | src/MidiParser.ts:105-156 | an SMPTE offset read succeeds only as an SMPTE-offset event |
| MidiParser.SetTempoAt | src/MidiParser.ts:158-171 | a tempo read succeeds only as a set-tempo event |
| MidiParser.KeySignatureAt | src/MidiParser.ts:173-191 | a key signature read succeeds only as a key-signature event |
| MidiParser.TimeSignatureAt | src/MidiParser.ts:193-205 | a time signature read succeeds only as a time-signature event |
| MidiParser.NextEventParts | src/MidiParser.ts:382-396 | `next()` is the delta quantity read at the cursor followed by the details decoded after it |
| MidiParser.NextEventShape | src/MidiParser.ts:382-396 | `NextEventAt`: `next()` yields nothing exactly at the end of the view; otherwise the event's index is the absolute offset of its delta, and the delta is the quantity read there |
| MidiParser.RunningStatus | src/MidiParser.ts:357-371 | a status byte 0x80..0xEF is remembered and followed by the first parameter; a data byte reuses the remembered status and is itself the first parameter; a data byte with nothing remembered fails |
| MidiParser.ChannelDetailsShape | src/MidiParser.ts:293-320 | a channel message has type `status >> 4` and channel `status & 0x0F`, keeps the running status, reads no further byte for program change, channel aftertouch and (outside strict mode) an unknown type, and exactly one for the others; strict mode refuses an unknown type |
| MidiParser.NoteOnVelocityZero | src/MidiParser.ts:219-234 | a Note On with velocity 0 decodes as a Note Off with velocity 127 |
| MidiParser.MetaEventShape | src/MidiParser.ts:326-332 | a meta event reads a type byte and a length quantity, and text and sequencer-specific events then read exactly that many bytes |
| MidiParser.DataPayloadShape | src/MidiParser.ts:255-286 | text and sequencer-specific payloads are the next `length` bytes |
| MidiParser.MetaTypeOfRead | src/MidiParser.ts:250-291 | a meta body read keeps the meta type it was asked for |
| MidiParser.SysexEventShape | src/MidiParser.ts:333-338 | 0xF0 and 0xF7 read a length quantity and that many bytes |
| MidiParser.UnknownEventShape | src/MidiParser.ts:339-356 | any other 0xFx status fails in strict mode; otherwise it reads a quantity, a one-byte length and that many bytes |
| MidiParser.SetTempoValue | src/MidiParser.ts:158-171 | set tempo is the three-byte big-endian number, and strict mode refuses a declared length other than 3 |
| MidiParser.StrictMetaLengths | src/MidiParser.ts:78-217 | strict mode refuses the fixed-size meta events with a declared length other than their own (2, 1, 0, 5, 2, 4) and refuses unknown meta types |
| MidiParser.StrictSmtpeRanges | src/MidiParser.ts:105-156 | strict mode accepts five in-view bytes as an SMPTE offset exactly when hour <= 23, minutes <= 59, seconds <= 59, frames <= 30 and subframes <= 99 |
| MidiParser.StrictKeySignatureRanges | src/MidiParser.ts:173-191 | strict mode accepts a key signature exactly when the unsigned key byte is at most 7 and the scale is 0 or 1 |
| MidiParser.MetaSubeventProgress | src/MidiParser.ts:250-291 | a meta body stays inside the view and never moves the cursor back |
| MidiParser.FixedMetaProgress | src/MidiParser.ts:78-205 | the fixed-size meta bodies read at most five bytes, each inside the view |
| MidiParser.SmtpeOffsetProgress | src/MidiParser.ts:105-156 | an SMPTE offset consumes five bytes |
| MidiParser.ChannelSubeventProgress | src/MidiParser.ts:293-320 | the rest of a channel message stays inside the view and never moves the cursor back |
| MidiParser.EventDetailsProgress | src/MidiParser.ts:322-379 | event details consume at least their status byte and stay inside the view |
| MidiParser.NextEventProgress | src/MidiParser.ts:382-396 | `next()` moves the cursor forward by at least one byte whenever it yields an event, and never past the end of the view |
| MidiParser.MidiParser.constructor | src/MidiParser.ts:70-76 | the parser starts with a fresh cursor at `startAt` over the view and no remembered status |
| MidiParser.MidiParser.ReadMetaSequenceNumber | src/MidiParser.ts:78-87 | the method yields what `SequenceNumberAt` specifies, with the cursor where it leaves it |
| MidiParser.MidiParser.ReadMetaChannelPrefix | src/MidiParser.ts:89-95 | the method yields what `ChannelPrefixAt` specifies, with the cursor where it leaves it |
| MidiParser.MidiParser.ReadMetaEndOfTrack | src/MidiParser.ts:97-103 | the method yields end of track, or the strict-mode length error, without moving the cursor |
| MidiParser.MidiParser.ReadMetaSmtpeOffset | src/MidiParser.ts:105-156 | the method yields what `SmtpeOffsetAt` specifies, with the cursor where it leaves it |
| MidiParser.MidiParser.ReadMetaSetTempo | src/MidiParser.ts:158-171 | the method yields what `SetTempoAt` specifies, with the cursor where it leaves it |
| MidiParser.MidiParser.ReadMetaKeySignature | src/MidiParser.ts:173-191 | the method yields what `KeySignatureAt` specifies, with the cursor where it leaves it |
| MidiParser.MidiParser.ReadMetaTimeSignature | src/MidiParser.ts:193-205 | the method yields what `TimeSignatureAt` specifies, with the cursor where it leaves it |
| MidiParser.MidiParser.ReadMetaUnknown | src/MidiParser.ts:207-217 | the method fails in strict mode and otherwise yields the type with the next `length` bytes |
| MidiParser.MidiParser.ReadChannelNoteOn | src/MidiParser.ts:219-234 | the method yields what `NoteOnAt` specifies, with the cursor where it leaves it |
| MidiParser.MidiParser.ReadChannelUnknown | src/MidiParser.ts:236-248 | the method fails in strict mode and otherwise yields the unknown channel event without reading |
| MidiParser.MidiParser.ReadMetaSubevent | src/MidiParser.ts:250-291 | the dispatch on the meta type yields what `MetaSubeventAt` specifies |
| MidiParser.MidiParser.ReadChannelSubevent | src/MidiParser.ts:293-320 | the dispatch on the channel type yields what `ChannelSubeventAt` specifies |
| MidiParser.MidiParser.ReadEventDetails | src/MidiParser.ts:322-379 | the method yields the details `EventDetailsAt` specifies, with the cursor and the remembered status where it leaves them |
| MidiParser.MidiParser.Next | src/MidiParser.ts:382-396 | the method yields the event `NextEventAt` specifies, or nothing at the end of the view, with the cursor and status where it leaves them |
| Utf8.CharLengthOf | src/Utf8.ts:3-18 | `getCharLength` never exceeds 4 |
| Utf8.CharLengthRanges | src/Utf8.ts:3-18 | the length by first-byte value: as written 4 from 0xF0, 3 from 0xE0, 2 from 0xC0, 1 for 0x40..0x7F and 0 for 0x00..0x3F and 0x80..0xBF; corrected 1 for all of 0x00..0x7F |
| Utf8.LeadMasks | src/Utf8.ts:5-14 | each mask test of `getCharLength` is a range test on the byte value |
| Utf8.CharCodeAt | src/Utf8.ts:19-85 | `getCharCode` succeeds only for a non-zero given length |
| Utf8.GetCharCode | src/Utf8.ts:19-85 | the method computes what `CharCodeAt` specifies |
| Utf8.ReadMultiByte | src/Utf8.ts:47-84 | the multi-byte part of the method computes what `MultiByteCode` specifies |
| Utf8.MultiBytePasses | src/Utf8.ts:54-66 | a first byte passing the integrity test hands the masked, shifted payload on to the continuation bytes |
| Utf8.ReadContinuation | src/Utf8.ts:69-82 | the `while (charLength)` loop computes what `ContinuationFrom` specifies |
| Utf8.GetStringFromBytes | src/Utf8.ts:86-117 | the method computes what `DecodeFrom` specifies |
| Utf8.LoopTurn | src/Utf8.ts:96-114 | one turn of the decoding loop either stops with the decoder's error or advances the offset, keeping the result the decoder specifies |
| Utf8.DecodeStep | src/Utf8.ts:96-114 | a byte of length 0 fails in both modes; a character running past the end fails in strict mode and ends the string otherwise; a character that fits is decoded and decoding goes on after it |
| Utf8.DecodeOne | src/Utf8.ts:106-113 | a character that fits is decoded and decoding goes on after it |
| Utf8.SingleByteChar | src/Utf8.ts:42-45 | a character of length 1 is its own code |
| Utf8.ContinuationByte | src/Utf8.ts:70-81 | a byte 0x80 + x passes the `10xxxxxx` test and carries x |
| Utf8.ContinuationStep | src/Utf8.ts:69-82 | one turn of the continuation loop over 0x80 + d adds d at its place value |
| Utf8.LeadFacts | src/Utf8.ts:32-66 | a first byte in its range has its length, passes the integrity test and keeps the payload its variant's mask allows |
| Utf8.LeadStep | src/Utf8.ts:55-66 | a first byte `base + x` starts the continuation loop with the payload bits the variant's mask keeps, in place |
| Utf8.MultiByteEntry | src/Utf8.ts:47-66 | a character of two bytes or more, all present, whose first byte passes the integrity test, goes on to its continuation bytes with the masked, shifted payload |
| Utf8.LeadStepCorrected | src/Utf8.ts:65 | with the corrected first-byte mask the whole payload of the first byte is kept |
| Utf8.SpaceNotDecoded | src/Utf8.ts:14 | as written the space 0x20 has length 0, so "a b" fails to decode in both modes |
| Utf8.SpaceDecoded | src/Utf8.ts:14 | corrected, "a b" decodes to its three characters |
| Utf8.AsciiDecodes | src/Utf8.ts:86-117 | corrected, ASCII text decodes to itself, byte for byte |
| Utf8.TwoByteMisread | src/Utf8.ts:65 | as written D0 90 (U+0410) decodes to 0x10: the mask 0x0F drops bit 4 of the payload |
| Utf8.TwoByteCorrected | src/Utf8.ts:65 | corrected, with the mask 0x1F, D0 90 decodes to U+0410 |
| Utf8.TwoByteChar | src/Utf8.ts:55-82 | a two-byte character 110xxxxx 10dddddd has length 2; as written only the low four bits of x reach the code, corrected all five do |
| Utf8.EncodeChar | src/Utf8.ts:86-117 | the UTF-8 encoding of one code point takes one to four bytes (RFC 3629, section 3) |
| Utf8.EncodedCharDecodes | src/Utf8.ts:19-85 | the corrected decoder reads each encoded character back, with the length of its first byte |
| Utf8.DecodeEncoded | src/Utf8.ts:86-117 | `DecodeFrom`: corrected, decoding the UTF-8 encoding of any code points gives them back, in either mode |
| Utf8.DecodeEncodedHead | src/Utf8.ts:96-114 | decoding an encoding reads its first character and goes on after it |
| Utf8.EncodesAtHead | src/Utf8.ts:19-85 | the first character of an encoding is read back whole |
| Lyrics.TextEventOf | src/GetLyrics.ts:25-31 | the text event `onMetaText` builds keeps the meta event's index, delta, play time, track and declared length, with the text's bytes as its data |
| Lyrics.LyricsOf | src/GetLyrics.ts:33-34 | the lyric events are at most the events given |
| Lyrics.KaraokeTexts | src/GetLyrics.ts:45-51 | the karaoke texts after the last "words" marker are at most the events given |
| Lyrics.SelectAllSnoc | src/GetLyrics.ts:56-59 | `SelectAll` over `SelectText`: visiting one more event continues the selection from where it was |
| Lyrics.LyricsCollected | src/GetLyrics.ts:33-34 | the lyric events are collected in order, after those already there |
| Lyrics.TextsKept | src/GetLyrics.ts:35-51 | the texts kept are the plain texts with a positive play time after the last "words" marker (special texts starting with '@' ignored), after those already there when there is no marker |
| Lyrics.SelectedEvents | src/GetLyrics.ts:55-69 | from a fresh instance `getEvents` collects exactly the lyric events and the karaoke texts |
| Lyrics.AsBytes | src/GetLyrics.ts:87-95 | the fallback text is one character per byte of the data |
| Lyrics.SelectAllBytes | src/GetLyrics.ts:55-69 | every event selected carries data that are bytes, since it comes from the input |
| Lyrics.StrictTexts | src/GetLyrics.ts:75-85 | the strict pass succeeds exactly when every text decodes, and then gives each event its own decoding |
| Lyrics.DecodeTexts | src/GetLyrics.ts:71-97 | `run` keeps every event but its text: each gets its strict UTF-8 decoding when all texts decode, and one character per byte for all of them as soon as one throws |
| Lyrics.AsciiTextsKept | src/GetLyrics.ts:71-97 | with the corrected decoder ASCII texts come out as their bytes |
| Lyrics.CyrillicText | src/GetLyrics.ts:78-83 | a text with bytes D0 90 decodes to U+0010 as written and to U+0410 corrected |
| Lyrics.SpacedText | src/GetLyrics.ts:78-83 | as written the strict decoding of the text "a b" throws |
| Lyrics.SpacedTextDecoded | src/GetLyrics.ts:78-83 | corrected, the text "a b" decodes |
| Lyrics.AllDecoded | src/GetLyrics.ts:75-85 | events that all decode to the same text all get that text |
| Lyrics.LyricMisread | src/GetLyrics.ts:71-97 | as written, lyrics with bytes D0 90 come out as U+0010; corrected, as U+0410 |
| Lyrics.SpaceSpoilsAll | src/GetLyrics.ts:86-96 | as written, a text "a b" beside D0 90 throws, so the D0 90 text falls back to two characters |
| Lyrics.SpaceSpoilsNothing | src/GetLyrics.ts:75-85 | corrected, the same two texts decode and D0 90 comes out as U+0410 |
| Lyrics.PairFallsBack | src/GetLyrics.ts:86-96 | when the first text throws, the second gets its bytes as characters |
| Lyrics.PairDecoded | src/GetLyrics.ts:75-85 | when both texts decode, the second gets its own decoding |
| Lyrics.GetLyrics.constructor | src/GetLyrics.ts:8-13 | a fresh instance holds the meta events, no texts, no lyrics and no visitee |
| Lyrics.GetLyrics.GetCurrentVisitee | src/GetLyrics.ts:15-21 | `getCurrentVisitee` throws exactly when nothing is being visited and otherwise returns the visitee |
| Lyrics.GetLyrics.OnMetaText | src/GetLyrics.ts:23-53 | `onMetaText` throws and changes nothing with no visitee; otherwise it updates texts and lyrics as one selection step does |
| Lyrics.GetLyrics.GetEvents | src/GetLyrics.ts:55-69 | `getEvents` visits every meta event in order, clears the visitee and returns the lyrics when more than two, the texts otherwise |
| Lyrics.GetLyrics.Run | src/GetLyrics.ts:71-97 | `run` returns the chosen events with their texts decoded as `DecodeTexts` does with the decoder as written |
| FileHeader.Uint16At | src/MidiFileHeader.ts:61 | `getUint16` yields a 16-bit value |
| FileHeader.WithUint16 | src/MidiFileHeader.ts:82 | `setUint16(k, v)` stores v modulo 2^16, reads back as that, and changes no other byte |
| FileHeader.DivisionMasks | src/MidiFileHeader.ts:95-149 | on the division word, `& 0x8000` is bit 7 of byte 12, `& 0x00FF` is byte 13 and `& 0x7F00` keeps the low seven bits of byte 12 in place |
| FileHeader.HeaderCheckPrefix | src/MidiFileHeader.ts:37-58 | `fromBuffer`'s checks pass exactly for a buffer of at least 14 bytes starting with "MThd" and the chunk length 6 |
| FileHeader.NewHeaderReads | src/MidiFileHeader.ts:9-35 | the header `withoutBuffer` writes passes `fromBuffer`'s checks and reads as format 1, one track, 192 ticks per beat |
| FileHeader.DivisionGetters | src/MidiFileHeader.ts:106-150 | bit 7 of byte 12 chooses frames per second or ticks per beat; `getTicksPerBeat` succeeds exactly for ticks per beat and then returns the whole word |
| FileHeader.SmpteFramesNeverRead | src/MidiFileHeader.ts:133-137 | as written `getSMPTEFrames` never succeeds: `divisionWord & 0x7F00` is a multiple of 256, never 24, 25, 29 or 30 |
| FileHeader.TickResolutionFails | src/MidiFileHeader.ts:93-104 | as written the tick resolution throws exactly when the division is in frames per second |
| FileHeader.SmpteDivisionRoundTrip | src/MidiFileHeader.ts:152-168 | `setSMTPEDivision` succeeds exactly for the frame rates 24, 25, 29 and 30 and ticks 0..255; then the corrected getter reads the rate back, the ticks per frame read back, the division is frames per second, the other bytes are unchanged, and the getter as written still fails |
| FileHeader.FormatRoundTrip | src/MidiFileHeader.ts:60-83 | a format 0, 1 or 2 set reads back |
| FileHeader.TracksCountRoundTrip | src/MidiFileHeader.ts:85-91 | a track count set reads back modulo 2^16 |
| FileHeader.TicksPerBeatRoundTrip | src/MidiFileHeader.ts:114-124 | ticks per beat set read back as ticks per beat, modulo 2^15 |
| FileHeader.TicksMask | src/MidiFileHeader.ts:123 | `t & 0x7FFF` is t modulo 2^15 for every integer t |
| FileHeader.MidiFileHeader.constructor | src/MidiFileHeader.ts:7 | the header wraps the given bytes |
| FileHeader.MidiFileHeader.WithoutBuffer | src/MidiFileHeader.ts:9-35 | `withoutBuffer` allocates a fresh 14-byte header with exactly the bytes "MThd", 6, format 1, one track, 192 ticks per beat |
| FileHeader.MidiFileHeader.FromBuffer | src/MidiFileHeader.ts:37-58 | `fromBuffer` wraps the buffer when its checks pass and otherwise fails with the check's error |
| FileHeader.MidiFileHeader.GetFormat | src/MidiFileHeader.ts:60-71 | `getFormat` yields the stored format when it is 0, 1 or 2 and fails otherwise |
| FileHeader.MidiFileHeader.SetFormat | src/MidiFileHeader.ts:73-83 | `setFormat` succeeds exactly for 0, 1 and 2, writing it at byte 8; otherwise nothing changes |
| FileHeader.MidiFileHeader.GetTracksCount | src/MidiFileHeader.ts:85-87 | `getTracksCount` reads the word at byte 10 |
| FileHeader.MidiFileHeader.SetTracksCount | src/MidiFileHeader.ts:89-91 | `setTracksCount` writes the word at byte 10 and nothing else |
| FileHeader.MidiFileHeader.GetTimeDivision | src/MidiFileHeader.ts:106-112 | `getTimeDivision` reads the division kind from bit 15 of the division word |
| FileHeader.MidiFileHeader.GetTicksPerBeat | src/MidiFileHeader.ts:114-120 | `getTicksPerBeat` yields the division word or fails when it is in frames per second |
| FileHeader.MidiFileHeader.SetTicksPerBeat | src/MidiFileHeader.ts:122-124 | `setTicksPerBeat` writes the low 15 bits of its argument at byte 12 and nothing else |
| FileHeader.MidiFileHeader.GetSmpteFrames | src/MidiFileHeader.ts:126-140 | the method yields what the getter as written specifies |
| FileHeader.MidiFileHeader.GetTicksPerFrame | src/MidiFileHeader.ts:142-150 | `getTicksPerFrame` yields byte 13 for a frames-per-second division and fails otherwise |
| FileHeader.MidiFileHeader.SetSmpteDivision | src/MidiFileHeader.ts:152-168 | `setSMTPEDivision` writes bytes 12 and 13 as `WithSmpteDivision` specifies, or fails and changes nothing |
| FileHeader.MidiFileHeader.GetTickResolution | src/MidiFileHeader.ts:93-104 | the method throws exactly when `TickResolutionCheck` says it does |
| FileHeader.MidiFileHeader.SetUint16 | src/MidiFileHeader.ts:82 | `DataView.setUint16` writes the two bytes `WithUint16` specifies |
| FileTrack.ViewBytes | src/MidiFileTrack.ts:113-119 | a view shows exactly `byteLength` bytes |
| FileTrack.Uint32At | src/MidiFileTrack.ts:3-5 | `getUint32` yields a 32-bit value |
| FileTrack.WithUint32 | src/MidiFileTrack.ts:109-111 | `setUint32(k, v)` stores ToUint32(v), reads back as that, and changes no other byte |
| FileTrack.ChunkWith | src/MidiFileTrack.ts:121-156 | the chunk `setTrackContent` builds has 8 header bytes plus the computed track length |
| FileTrack.TrackChunkShape | src/MidiFileTrack.ts:37-103 | `fromBuffer` succeeds exactly when at least 12 bytes remain at a non-negative start, the type is "MTrk", the declared content fits after the 8 header bytes and ends with FF 2F 00; it then yields the declared length |
| FileTrack.NewTrackReads | src/MidiFileTrack.ts:11-35 | the track `withoutBuffer` writes passes `fromBuffer`'s checks with content length 4 |
| FileTrack.SetContentTruncates | src/MidiFileTrack.ts:123 | as written, a 5-byte content 00 00 FF 2F 00 seen at offset 1 becomes a 4-byte track without its End of Track, which `fromBuffer` refuses |
| FileTrack.SetContentRoundTrip | src/MidiFileTrack.ts:121-156 | corrected, content of at least 4 bytes ending with End of Track becomes a chunk that passes `fromBuffer`, declares the content's length and shows exactly that content |
| FileTrack.MidiFileTrack.Bytes | src/MidiFileTrack.ts:9 | the chunk shows exactly `byteLength` bytes |
| FileTrack.MidiFileTrack.constructor | src/MidiFileTrack.ts:9 | the track wraps the given view |
| FileTrack.MidiFileTrack.WithoutBuffer | src/MidiFileTrack.ts:11-35 | `withoutBuffer` allocates a fresh 12-byte chunk: "MTrk", length 4, and End of Track at delta 0 |
| FileTrack.MidiFileTrack.FromBuffer | src/MidiFileTrack.ts:37-103 | `fromBuffer` views the chunk at `start` when the checks pass and otherwise fails with their error |
| FileTrack.MidiFileTrack.GetTrackLength | src/MidiFileTrack.ts:105-107 | `getTrackLength` reads the 32-bit word at byte 4 |
| FileTrack.MidiFileTrack.SetTrackLength | src/MidiFileTrack.ts:109-111 | `setTrackLength` writes the 32-bit word at byte 4 and nothing else |
| FileTrack.MidiFileTrack.GetTrackContent | src/MidiFileTrack.ts:113-119 | `getTrackContent` is a view, in the same buffer, of the bytes after the 8-byte header |
| FileTrack.MidiFileTrack.SetTrackContent | src/MidiFileTrack.ts:121-156 | `setTrackContent` as written fails for a computed length below 4 and otherwise installs a fresh chunk as `SetContentAsWritten` specifies |
| FileTrack.MidiFileTrack.NewChunk | src/MidiFileTrack.ts:129-155 | the allocated chunk holds "MTrk", the length, and the view's bytes while they fit |
| TrackWriter.MetaWriteParts | src/WriteEventsToTrack.ts:127-139 | a meta event write pushes 0xFF and the type, then the length quantity, then the payload, and finishes exactly when the length and the payload do |
| TrackWriter.WriteVarLengthThrows | src/WriteEventsToTrack.ts:39-83 | the quantity writer throws exactly when the value, taken modulo 2^32, is 2^28 or more |
| TrackWriter.RunWriteStops | src/WriteEventsToTrack.ts:155-166 | once an event throws, the later events add nothing |
| TrackWriter.RunWriteStep | src/WriteEventsToTrack.ts:155-166 | one more event after a run that has not thrown pushes its bytes after the run's, and the longer run finishes exactly when the event does |
| TrackWriter.KeySignatureChecks | src/WriteMetaEventsToTrack.ts:116-135 | a key signature with key outside -7..7 or scale outside 0..1 throws in either mode; a valid one pushes the key and the scale |
| TrackWriter.SmtpeChecks | src/WriteMetaEventsToTrack.ts:68-114 | in strict mode the SMPTE writer throws at the first field out of range, after pushing the fields before it, and pushes all five fields exactly when it finishes |
| TrackWriter.WriteEventsToTrack.constructor | src/WriteEventsToTrack.ts:24-32 | the writer starts with a fresh zeroed buffer of the given length, nothing pushed and the event index at 0 |
| TrackWriter.WriteEventsToTrack.Push | src/WriteEventsToTrack.ts:34-37 | `push` stores the byte's uint8 value at the write index (dropped past the buffer's end) and moves the index on by one |
| TrackWriter.WriteEventsToTrack.PushContinuation | src/WriteEventsToTrack.ts:51-59 | a non-zero group is pushed with bit 7 set; a zero one pushes nothing |
| TrackWriter.WriteEventsToTrack.WriteDeltaValue | src/WriteEventsToTrack.ts:39-61 | `writeDeltaValue` pushes the delta's quantity bytes and finishes exactly when the quantity writer does |
| TrackWriter.WriteEventsToTrack.WriteEventLength | src/WriteEventsToTrack.ts:63-83 | `writeEventLength` pushes the length's quantity bytes and finishes exactly when the quantity writer does |
| TrackWriter.WriteEventsToTrack.WriteChannelParams | src/WriteEventsToTrack.ts:85-120 | the channel visitor pushes one or two parameters, by subevent kind |
| TrackWriter.WriteEventsToTrack.OnMidiChannelEvent | src/WriteEventsToTrack.ts:122-125 | a channel event pushes `(type << 4) + channel` then its parameters |
| TrackWriter.WriteEventsToTrack.OnMidiMetaEvent | src/WriteEventsToTrack.ts:127-139 | a meta event pushes what `MetaWrite` specifies and finishes exactly when it does |
| TrackWriter.WriteEventsToTrack.WriteMetaPayload | src/WriteEventsToTrack.ts:131-138 | the meta payload written through a fresh meta writer is what `MetaPayload` specifies |
| TrackWriter.WriteEventsToTrack.WriteData | src/WriteEventsToTrack.ts:141-153 | `writeData` pushes the first `length` data values |
| TrackWriter.WriteEventsToTrack.WriteDetails | src/WriteEventsToTrack.ts:122-153 | the details visitor pushes what `DetailsWrite` specifies and finishes exactly when it does |
| TrackWriter.WriteEventsToTrack.Run | src/WriteEventsToTrack.ts:155-166 | `run` writes the events in order, each delta before its details, stops at the first throw, and pushes exactly what `RunWrite` specifies into the same buffer |
| TrackWriter.WriteEventsToTrack.WriteEvent | src/WriteEventsToTrack.ts:161-164 | one iteration pushes the delta then the details, as `EventWrite` specifies |
| TrackWriter.WriteMetaEventsToTrack.constructor | src/WriteMetaEventsToTrack.ts:19-25 | the meta writer keeps the event index, the declared length, the medium and the mode |
| TrackWriter.WriteMetaEventsToTrack.WriteData | src/WriteMetaEventsToTrack.ts:27-31 | `writeData` pushes the first `metaEvent.length` data values |
| TrackWriter.WriteMetaEventsToTrack.OnMetaSequenceNumber | src/WriteMetaEventsToTrack.ts:33-36 | a sequence number pushes its least significant byte first |
| TrackWriter.WriteMetaEventsToTrack.OnMetaSetTempo | src/WriteMetaEventsToTrack.ts:62-66 | set tempo pushes the tempo's three bytes, most significant first |
| TrackWriter.WriteMetaEventsToTrack.OnMetaSmtpeOffset | src/WriteMetaEventsToTrack.ts:68-114 | the SMPTE writer pushes what `SmtpeWrite` specifies and finishes exactly when it does |
| TrackWriter.WriteMetaEventsToTrack.OnMetaKeySignature | src/WriteMetaEventsToTrack.ts:116-135 | the key signature writer pushes what `MetaPayload` specifies and finishes exactly when it does |
| TrackWriter.WriteMetaEventsToTrack.Accept | src/WriteMetaEventsToTrack.ts:27-135 | the meta subevent dispatch pushes what `MetaPayload` specifies and finishes exactly when it does |
| RequiredLength.QuantityLength | src/GetRequiredBufferLength.ts:12-44 | a quantity takes one to four bytes |
| RequiredLength.EncodedDeltaLength | src/GetRequiredBufferLength.ts:12-28 | the delta's quantity takes one to four bytes |
| RequiredLength.EncodedLengthLength | src/GetRequiredBufferLength.ts:30-44 | the length's quantity takes one to four bytes |
| RequiredLength.QuantityLengthThresholds | src/GetRequiredBufferLength.ts:12-44 | for the value taken modulo 2^32, 4 bytes from 2^21, 3 from 2^14, 2 from 2^7 and 1 below |
| RequiredLength.ChannelLengthCases | src/GetRequiredBufferLength.ts:46-59 | a channel event counts 3 bytes with two parameters and 2 otherwise, 2 exactly for program change, channel aftertouch and unknown messages |
| RequiredLength.MetaLengthIsSystemLengthPlusOne | src/GetRequiredBufferLength.ts:61-91 | a meta event counts one byte more than a system event of the same length, which counts at least its length plus 2 |
| RequiredLength.RequiredLengthAppend | src/GetRequiredBufferLength.ts:93-105 | `RequiredLength`: the required length of two event lists one after the other is the sum of their required lengths |
| RequiredLength.Run | src/GetRequiredBufferLength.ts:93-105 | the loop adds up, for every event, its delta length and its details length |
| CodecLaws.WriterShifts | src/WriteEventsToTrack.ts:39-61 | the writer's `>>> 21`, `>>> 14` and `>>> 7` are divisions of the number taken modulo 2^32 |
| CodecLaws.VarLengthRoundTrip | src/WriteEventsToTrack.ts:39-61 | a quantity below 2^28 written by the writer reads back with `readVarInt` as the same number, ending just after its bytes |
| CodecLaws.QuantityGroups | src/Stream.ts:23-39 | the writer's quantity bytes are a well-formed variable-length encoding whose 7-bit groups make up the number |
| CodecLaws.QuantityLengthMatches | src/GetRequiredBufferLength.ts:12-44 | for every number, the writer pushes as many quantity bytes as the calculator counts |
| CodecLaws.ChannelStatus | src/WriteEventsToTrack.ts:122-125 | the status byte of a known channel message is `type * 16 + channel`, between 0x80 and 0xEF |
| CodecLaws.ChannelRoundTrip | src/MidiParser.ts:357-378 | a written channel event reads back as the same event, the decoder stops just after it, and its status byte becomes the running status |
| CodecLaws.ChannelWriteSize | src/GetRequiredBufferLength.ts:46-59 | a channel event's written bytes are as many as the calculator counts: 2 exactly for program change, channel aftertouch and unknown messages |
| CodecLaws.BytesHeld | src/Stream.ts:41-48 | bytes stored in the buffer read back with `readBytes` |
| CodecLaws.TempoBytesForm | src/WriteMetaEventsToTrack.ts:62-66 | a tempo below 2^24 is written as its three bytes, most significant first |
| CodecLaws.TempoRoundTrip | src/MidiParser.ts:158-171 | a written tempo reads back as the same tempo, three bytes on |
| CodecLaws.DataRoundTrip | src/MidiParser.ts:250-290 | a text, time signature or sequencer-specific payload reads back as the same subevent |
| CodecLaws.UnknownRoundTrip | src/MidiParser.ts:207-217 | an unknown meta payload reads back in lenient mode as the same type and data |
| CodecLaws.SmtpeRoundTrip | src/MidiParser.ts:105-156 | a SMPTE offset the writer accepts reads back as the same five fields |
| CodecLaws.KeySignatureRoundTrip | src/MidiParser.ts:173-191 | a key signature with key 0..7 and scale 0..1 reads back unchanged |
| CodecLaws.ChannelPrefixRoundTrip | src/MidiParser.ts:89-95 | a channel prefix byte reads back unchanged |
| CodecLaws.MetaPayloadRoundTrip | src/MidiParser.ts:250-290 | a meta payload the writer accepts pushes exactly the declared length of values, and the decoder reads the same subevent back from them |
| CodecLaws.MetaRoundTrip | src/MidiParser.ts:326-332 | 0xFF, the type, the length quantity and the payload read back as the same meta event, the decoder stops just after them and the running status is left alone |
| CodecLaws.MetaWriteForm | src/WriteEventsToTrack.ts:127-139 | a meta event with an accepted length is written as its header, its length quantity and its payload |
| CodecLaws.DetailsRoundTrip | src/MidiParser.ts:322-379 | the details of every event the writer and the decoder agree on read back unchanged |
| CodecLaws.EventRoundTrip | src/MidiParser.ts:381-396 | one written event reads back with `next()` as the same delta and details, indexed by the absolute offset of its delta, and decoding stops just after it |
| CodecLaws.EventWriteForm | src/WriteEventsToTrack.ts:161-164 | `TrackWriter.EventWrite`: an event with an accepted delta is written as its delta quantity, then its details |
| CodecLaws.MetaWriteSize | src/GetRequiredBufferLength.ts:61-87 | a meta event takes exactly the bytes the calculator counts |
| CodecLaws.DetailsWriteSize | src/GetRequiredBufferLength.ts:46-91 | the details of an event take exactly the bytes the calculator counts |
| CodecLaws.EventWriteSize | src/GetRequiredBufferLength.ts:93-105 | one event is written in full in exactly the bytes the calculator counts |
| CodecLaws.RunWriteSize | src/GetRequiredBufferLength.ts:93-105 | for events the writer and the decoder agree on, `run` finishes and pushes exactly the length the calculator returns |
| CodecLaws.ThenAssociates | src/WriteEventsToTrack.ts:34-37 | pushing bytes in sequence does not depend on how the pushes are grouped |
| CodecLaws.RunWriteFirst | src/WriteEventsToTrack.ts:155-166 | `run` writes the first event, then the others |
| CodecLaws.TrackStep | src/MidiParser.ts:381-396 | one `next()` over the bytes `run` writes reads back the first event, and the bytes of the others follow it |
| CodecLaws.TrackRoundTrip | src/MidiParser.ts:381-396 | the bytes `run` writes for events both sides agree on decode event after event as the same deltas and details, and decoding stops exactly at the end of what was written |
| CodecLaws.TrackBufferRoundTrip | src/WriteEventsToTrack.ts:155-166 | a buffer holding exactly what `run` writes, read from its start, yields the events in order and then the end of the track |
| CodecFindings.SequenceNumberSwapped | src/WriteMetaEventsToTrack.ts:33-36 | as written, the sequence number's two bytes come back exchanged, and the event differs from the one written whenever they differ |
| CodecFindings.SequenceNumberBytes | src/MidiParser.ts:78-87 | the corrected sequence number bytes are msb then lsb, the order the decoder reads |
| CodecFindings.SequenceNumberRoundTrip | src/MidiParser.ts:78-87 | corrected: a sequence number written most significant byte first reads back unchanged |
| CodecFindings.SysexWrittenWithoutHeader | src/WriteEventsToTrack.ts:141-153 | as written, a system exclusive event pushes only its `length` data bytes, fewer than the calculator counts |
| CodecFindings.SysexCounterexample | src/WriteEventsToTrack.ts:141-153 | as written, the event with one data byte 0 is written as `[0]`, which the decoder refuses |
| CodecFindings.SystemWriteSize | src/GetRequiredBufferLength.ts:61-77 | corrected: a system exclusive event takes exactly the bytes the calculator counts |
| CodecFindings.SystemHeaderRoundTrip | src/MidiParser.ts:333-337 | the status byte and length quantity of a corrected system exclusive event read back, leaving the data after them |
| CodecFindings.SystemRoundTrip | src/MidiParser.ts:333-337 | corrected: a system exclusive event written with status and length reads back as the same event |
| CodecFindings.NegativeKeyRejected | src/MidiParser.ts:173-191 | as written, a flat key the writer accepts is stored as `256 + key`, refused in strict mode and read back as `256 + key` otherwise |
| CodecFindings.SignedKey | src/MidiParser.ts:178 | the corrected key byte, read as a signed 8-bit number, stores back as the same byte |
| CodecFindings.KeySignatureSignedAt | src/MidiParser.ts:173-191 | corrected `readMetaKeySignature` yields a key signature when it succeeds |
| CodecFindings.KeySignatureSignedRoundTrip | src/MidiParser.ts:173-191 | corrected: every key signature the writer accepts, sharps and flats, reads back unchanged |
| MidiFile.Walk | src/MidiFile.ts:44-69 | a successful walk of the track chunks reads exactly as many lengths as there are tracks to read |
| MidiFile.WalkStarts | src/MidiFile.ts:44-69 | a successful walk ends at the end of the buffer, and its `k`-th chunk starts after the header and the chunks before it, before the last byte, where the track checks accept it |
| MidiFile.FileChunksLayout | src/MidiFile.ts:30-72 | `fromBuffer` refuses a buffer under 25 bytes or with a bad header; otherwise it reads exactly `getTracksCount()` chunks laid end to end from byte 14, each starting before the last byte, the last ending at the end of the buffer |
| MidiFile.WalkTail | src/MidiFile.ts:48-62 | a successful walk reads its first chunk at the current index and the rest of its chunks after it |
| MidiFile.WalkContents | src/MidiFile.ts:58-62 | the walk yields one track content per length read |
| MidiFile.WalkContentsAt | src/MidiFile.ts:58-62 | the `k`-th content is the chunk's bytes after its 8-byte header, at the `k`-th start |
| MidiFile.FileContents | src/MidiFile.ts:30-72 | a file that reads has as many track contents as its header declares; a file that does not fails with the walk's error |
| MidiFile.FileContentsAfter | src/MidiFile.ts:41-72 | past the length and header checks, the contents are those of the walk over the declared number of tracks |
| MidiFile.TrackEventsStep | src/MidiFile.ts:96-104 | a failing `next()` fails the track, an empty one ends it, and an event is followed by the events after it |
| MidiFile.SequentialStep | src/MidiFile.ts:93-105 | a track that fails fails every later one, and a track that reads is followed by the tracks after it |
| MidiFile.ParserNext | src/TrackParser.ts:16-18 | a parser's `next()` keeps its buffer, moves past every event it yields, and yields nothing only at the end of the track |
| MidiFile.NewTrackParser | src/MidiFile.ts:165-169 | the parser of track `k` carries index `k` over that track's content |
| MidiFile.TrackParsers | src/MidiFile.ts:165-169 | `readConcurrently` starts one parser per track in order, the `i`-th numbered `i`, and fails exactly when one of their first `next()` fails |
| MidiFile.SmallestUpTo | src/MidiFile.ts:111-134 | the position kept by `findSmallestDeltaEvent` holds a pending event |
| MidiFile.SmallestMeaning | src/MidiFile.ts:111-134 | `findSmallestDeltaEvent` keeps nothing exactly when every track is exhausted, and otherwise keeps the earliest track with the least pending delta |
| MidiFile.NextTrackParsersFail | src/MidiFile.ts:136-157 | `getNextTrackParsers` fails exactly when the chosen track's `next()` fails |
| MidiFile.NextTrackParsersSpec | src/MidiFile.ts:136-157 | `getNextTrackParsers` keeps the number and order of the parsers, advances exactly the chosen track, leaves exhausted tracks alone and takes the chosen delta off every other pending event |
| MidiFile.ParserNextDelta | src/MidiFile.ts:136-157 | a delta `next()` reads is never negative |
| MidiFile.DeltasStayNonNegative | src/MidiFile.ts:136-157 | after taking the smallest event, every pending delta is still non-negative |
| MidiFile.PendingDecreases | src/MidiFile.ts:172-191 | each round of `readConcurrently` leaves strictly less to read, so the merge ends |
| MidiFile.KeptMembers | src/MidiFile.ts:207-239 | an event survives the filters exactly when it occurs and is of the filtered kind |
| MidiFile.KeptConcat | src/MidiFile.ts:207-239 | filtering commutes with concatenation, so the kept events keep their order |
| MidiFile.KeptAccepted | src/MidiFile.ts:207-239 | everything kept is of the filtered kind, filtering twice filters once, and nothing is added |
| MidiFile.EventTextsAreBytes | src/MidiFile.ts:196-205 | every text the file's events hold is a sequence of bytes of the file, whichever way the tracks are read |
| MidiFile.ContentsOf | src/MidiFileTrack.ts:113-119 | the contents of the tracks are each track's `getTrackContent`, in order |
| MidiFile.TracksMatchWalk | src/MidiFile.ts:58-62 | the tracks `fromBuffer` builds show exactly the contents of the walk |
| MidiFile.NewFileEvents | src/MidiFile.ts:22-28 | the file `withoutBuffer` builds reads as the single end-of-track event of its only track |
| MidiFile.MidiFile.constructor | src/MidiFile.ts:15-20 | the file keeps its header and tracks |
| MidiFile.MidiFile.WithoutBuffer | src/MidiFile.ts:22-28 | `withoutBuffer` builds a file over the new header and one empty track, whose events are one end of track |
| MidiFile.MidiFile.FromBuffer | src/MidiFile.ts:30-72 | `fromBuffer` builds a file exactly when the chunks and the events read, with the contents of the walk and the events `readEvents` specifies, and otherwise fails with the first error |
| MidiFile.MidiFile.ReadChunks | src/MidiFile.ts:44-69 | the chunk loop builds the tracks of the walk, or fails with its error |
| MidiFile.MidiFile.NextChunk | src/MidiFile.ts:49-62 | one round reads the track at the current start and moves past it, or fails as the walk does |
| MidiFile.MidiFile.Create | src/MidiFile.ts:15-20 | `new MidiFile` builds a file exactly when its events read, holding those events |
| MidiFile.MidiFile.ReadEvents | src/MidiFile.ts:196-205 | tracks are read one after another unless the file is format 1 with more than one track |
| MidiFile.MidiFile.ReadTrack | src/MidiFile.ts:93-96 | one track's events are those of a fresh non-strict parser over its content |
| MidiFile.MidiFile.ReadContent | src/MidiFile.ts:96-104 | the parser loop collects the events `next()` yields, until it yields nothing |
| MidiFile.MidiFile.NextOfTrack | src/MidiFile.ts:96 | one `next()` is one step of the track's events |
| MidiFile.MidiFile.ReadSequentially | src/MidiFile.ts:86-109 | the format and tick resolution are read first, then every track in order |
| MidiFile.MidiFile.ReadTracks | src/MidiFile.ts:93-105 | the tracks' events in track order |
| MidiFile.MidiFile.FindSmallestDeltaEvent | src/MidiFile.ts:111-134 | the first pending event with the least delta, with its track, or nothing once every track is exhausted |
| MidiFile.MidiFile.ReadConcurrently | src/MidiFile.ts:159-194 | the tick resolution first, then the tracks merged by always emitting the smallest pending delta |
| MidiFile.MidiFile.ReadConcurrentTracks | src/MidiFile.ts:165-170 | one parser per track, then their merge |
| MidiFile.MidiFile.Merge | src/MidiFile.ts:172-191 | the merge loop emits events as `ConcurrentFrom` specifies, each tagged with its track |
| MidiFile.MidiFile.GetMidiEvents | src/MidiFile.ts:207-222 | the channel events, in order |
| MidiFile.MidiFile.GetMetaEvents | src/MidiFile.ts:224-239 | the meta events, in order |
| MidiFile.MidiFile.GetLyrics | src/MidiFile.ts:241-245 | the lyrics, or else the karaoke texts, of the meta events, decoded |
| Bits.ToUint8 | src/WriteEventsToTrack.ts:34-37 | a value already a byte is stored as itself |
| Bits.BigEndian16 | src/MidiFileHeader.ts:61 | `getUint16` is a 16-bit value whose high and low bytes are the first and second byte |
| Bits.BigEndian32 | src/MidiFileHeader.ts:53 | `getUint32` is a 32-bit value |
| Bits.Uint16Bytes | src/MidiFileHeader.ts:82 | `setUint16` writes two bytes that read back as the value modulo 2^16 |
| Bits.Uint32Bytes | src/MidiFileTrack.ts:121-156 | `setUint32` writes four bytes that read back as the value's ToUint32 |
| Utf8.TwoByteDecodes | src/Utf8.ts:19-84 | under the intended decoder, the two-byte encoding of a character from 0x80 to 0x7FF has length 2 and decodes to it |
| Utf8.ThreeByteDecodes | src/Utf8.ts:19-84 | under the intended decoder, the three-byte encoding of a character from 0x800 to 0xFFFF has length 3 and decodes to it |
| Utf8.FourByteDecodes | src/Utf8.ts:19-84 | under the intended decoder, the four-byte encoding of a character from 0x10000 has length 4 and decodes to it |

## Left out

- MidiEvents.NewMidiEvent: `playTime` is always 0.0, because the play-time sum in src/MidiFile.ts:74-76, 93-104 and 173-177 is floating point. As a result, `MidiFile.MidiFile.GetLyrics` never keeps a plain text. The `midiEvent.playTime > 0` branch of src/GetLyrics.ts:48-52 is modelled in `Lyrics` for events that carry a positive play time, but the file reader never produces one.
- MidiEvents.MidiEvent: `index` is the integer offset. The hex-string formatting of src/Stream.ts:50-52 is not modelled.
- FileHeader.TickResolutionCheck: the float tick resolution of src/MidiFileHeader.ts:93-104, src/GetTickResolution.ts and the 29.97 frame-rate handling are not modelled. Only whether the tick resolution throws is kept, and the file reader uses it.
- FileHeader.WithSmpteDivision: the 29.97 case of `setSMTPEDivision` is not modelled, because it is a float frame rate.
- MidiParser.SetTempoAt: the float `tempoBPM` (src/MidiParser.ts:170) is not modelled. The integer tempo is.
- Random.Source: a source yields unsigned 32-bit values, so the negative draws of the permuted congruential generator (`(word >>> 22) ^ word` of src/Random/PermutedCongruentialUint32Generator.ts:29 is a signed 32-bit value) are not modelled as inputs to an IntRangeGenerator.
- Random.LcgGenerate: computes on exact integers, while the source computes `state * 1664525 + 1013904223` in doubles, which round once the sum passes 2^53, that is for states above about 5.41e9. Its contract is stated for uint32 states, where both agree; only a larger initial seed from a caller would differ (for the state 2^34 the source yields 1013904224).
- Random.PcgGenerate: the permutation multiply of src/Random/PermutedCongruentialUint32Generator.ts:24-29 is not modelled, because its product exceeds 2^53 and rounds. The step keeps the `count` and the seed threading.
- Random.GenerateWhenRangeIsNotPowerOfTwo: a `fuel` bound stands for the source's unbounded retry recursion, which never ends on a source that keeps drawing below the threshold. `None` means the fuel ran out.
- Random.GenerateInRange: stated only for ranges of at most 2^31 values. Wider ranges escape or never return (see "## Findings").
- ArrayTree.NodeGetSpec: holds for indices below 2^32 and depths up to 6, the trie's bounds for 32-bit indices.
- ArrayTree.NodeSetSpec: holds for indices below 2^32 and depths up to 6, the trie's bounds for 32-bit indices.
- ArrayTree.PushSpec: stated for vectors shorter than 2^31 - 1, where the index shifts of the source are exact.
- ArrayTree.ReplaceTailSpec: stated for vectors shorter than 2^31, where the index shifts of the source are exact.
- ArrayTree `Builder`, `compressNodes` and the `logBase` depth (src/ArrayTree/ArrayTree.ts:5-20, 99-139) are not modelled. They are unreachable from the vector's operations, `logBase` is floating point, and `compressNodes` never ends for more than 32 nodes.
- ArrayTree: the trie reads its cells with the intended `ArrayHelper.ElementAt`, not with the `get` as written (see "## Findings").
- ArrayFromList.ArrayFromList.constructor: `arrayLength` is a `nat`, so the `RangeError` of `new Array(-1)` (src/ArrayFromList/ArrayFromList.ts:8) is not modelled.
- LazyList.andThen (src/LazyList/LazyList.ts:102-104): not modelled; it is `map` followed by `flatten`, both of which are.
- LazyList.Member: compares with value equality where the source uses `===`, which is reference identity on objects.
- LazyList: only finite lists are modelled. The memoising thunks of src/Lazy/Lazy.ts and the infinite lists `infinite` and `numbers` are not.
- RedBlackTree.StrLess: compares strings by Unicode scalar values, where JavaScript compares UTF-16 code units. The two orders differ only above U+FFFF.
- RedBlackTree: `toString()` and `>` on keys are parameters of the operations. Only string keys and integer number keys are instantiated, so number keys that are not integers are not modelled.
- Lyrics and Utf8: texts are sequences of code points, not UTF-16 strings.
- Shrinker.ShrinkTree: the shrink tree is built in full as a finite tree. The lazy rose tree of src/RoseTree/RoseTree.ts is not modelled.
- The float and weighted generators, `andThen`, `MapTwoGenerator`, the fuzzer, `NonEmptyList`, the visitor plumbing of src/PartialVisitors.ts and src/Song.ts are not part of this model.
- Error messages are not modelled. Each is a constructor of `Errors.Error`, and the offsets printed in them are not kept.
- JavaScript runtime behaviour: a `DataView` read out of bounds fails with the `RangeError` failure. A `Uint8Array` write past the end is dropped, as in the source. There is no I/O.

## Findings

| source | as written | input that shows it | evidently intended | confidence | as-written member | corrected member |
|---|---|---|---|---|---|---|
| src/ArrayHelper/ArrayHelper.ts:5 | `get` compares the index with a free global `length`, not with the array's length | with no global `length`, `get(0)` on `[1]` fails; with a global larger than the array, the index one past the end is accepted and yields `undefined` | `get` fails exactly outside `0..array.length-1`; the vector's trie reads cells this way | not executed | ArrayHelper.ElementAtAsWritten, ArrayHelper.ElementAtAsWrittenRejects, ArrayHelper.ElementAtAsWrittenPassesEnd | ArrayHelper.ElementAt |
| src/RedBlackTree/RedBlackTree.ts:241 | `balanceRight` of a red right child calls `balanceLeftWhenRightIsRed` on the left child, which `RedBlackEmpty` does not have | insert "a", then "b": a TypeError | the red-red case recolours, as in Elm's `Dict` | not executed | RedBlackTree.BalanceAsWritten, RedBlackTree.InsertAThenBThrows | RedBlackTree.Balance, RedBlackTree.InsertSpec, RedBlackTree.UpdateKeepsRedBlack |
| src/RedBlackTree/RedBlackTree.ts:259 | `balanceLeftWhenRightIsBlack` passes the left child itself where the left-left grandchild belongs | insert "b", then "a": the tree holds "a" twice | a right rotation that keeps every key once | not executed | RedBlackTree.BalanceAsWritten, RedBlackTree.InsertBThenADuplicates | RedBlackTree.Balance, RedBlackTree.InsertSpec, RedBlackTree.UpdateKeepsRedBlack |
| src/RedBlackTree/RedBlackTree.ts:160 | `get` compares the keys themselves, while `updateHelp` (188-200) orders them by `toString()` | number keys 9 then 10 as written (through the line-259 rotation): 9 is stored right of 10, and `get(9)` returns `undefined`; 10 then 9 throws at line 241 as written, and with `balance` corrected stores 10 left of 9, where `get(10)` returns `undefined` | `get` uses the order insertion uses | not executed | RedBlackTree.NumberKeysDisagreeAsWritten, RedBlackTree.NumberKeysDisagree | RedBlackTree.StringKeysAgree, RedBlackTree.LookupFindsKeys |
| src/LazyList/LazyList.ts:75 | `append` passes the argument to `AppendThunk` first, and 358-360 alternate the two lists | `[1, 2].append([3, 4])` is `[3, 1, 4, 2]`, and `flatten` (line 195 appends each inner list) turns `[[1, 2], [3, 4]]` into `[3, 1, 4, 2]` | the list followed by the argument | not executed | LazyList.AppendInterleaves, LazyList.AppendInterleavesExample, LazyList.FlattenInterleavesExample | LazyList.Concat, LazyList.FlattenConcat |
| src/WriteEventsToTrack.ts:147-153 | a system exclusive or unknown event is written as its data alone | one system event with the single data byte 0 is written as `[0]`, which the parser refuses, and the size calculator counts 3 bytes | the status byte, the length quantity, then the data, as src/MidiParser.ts:333-338 reads and src/GetRequiredBufferLength.ts:61-72 counts | not executed | CodecFindings.SysexWrittenWithoutHeader, CodecFindings.SysexCounterexample | CodecFindings.SystemRoundTrip, CodecFindings.SystemWriteSize |
| src/WriteMetaEventsToTrack.ts:34-35 | the sequence number is written lsb then msb, while src/MidiParser.ts:83-86 reads msb first | sequence number (msb 1, lsb 2) reads back as (msb 2, lsb 1) | both sides use the same byte order, most significant first as in Standard MIDI Files 1.0 | not executed | CodecFindings.SequenceNumberSwapped | CodecFindings.SequenceNumberRoundTrip |
| src/MidiParser.ts:178-181 | the key is read with `readUint8`, so the strict `key < -7` test never fires, and every flat key comes back as `256 + key` and fails the `key > 7` test | key signature (-1, 0), which the writer accepts, is refused in strict mode and reads back as key 255 otherwise | the key read as a signed byte, so -7..7 round-trips | not executed | CodecFindings.NegativeKeyRejected | CodecFindings.KeySignatureSignedAt, CodecFindings.KeySignatureSignedRoundTrip |
| src/Utf8.ts:14 | `getCharLength` tests bit 6 instead of bit 7, so bytes 0x00-0x3F have length 0 | the text "a b" fails to decode: the space 0x20 has no length | every byte below 0x80 is a one-byte character (RFC 3629, section 3) | not executed | Utf8.SpaceNotDecoded | Utf8.SpaceDecoded, Utf8.DecodeEncoded |
| src/Utf8.ts:65 | the first-byte mask is `0b0111111 >> length`, one bit narrower than the payload | D0 90 (U+0410) decodes to 0x10 | mask `0x7F >> length`, so D0 90 decodes to U+0410 | not executed | Utf8.TwoByteMisread | Utf8.TwoByteCorrected, Utf8.DecodeEncoded |
| src/GetLyrics.ts:75-96 | lyrics are decoded with the `Utf8` defects above | lyrics D0 90 come out as U+0010; beside a text "a b" every text falls back to one character per byte | lyrics decoded as UTF-8 | not executed | Lyrics.LyricMisread, Lyrics.SpaceSpoilsAll | Lyrics.SpaceSpoilsNothing, Lyrics.AsciiTextsKept |
| src/MidiFileHeader.ts:133 | `getSMPTEFrames` masks the division with 0x7F00 without shifting it down | every header with a frames-per-second division fails, and so does reading its events | `(divisionWord & 0x7F00) >> 8`, which reads back what `setSMTPEDivision` writes | not executed | FileHeader.SmpteFramesNeverRead, FileHeader.TickResolutionFails | FileHeader.SmpteDivisionRoundTrip |
| src/MidiFileTrack.ts:123 | `setTrackContent` takes the length as `byteLength - byteOffset` | content 00 00 FF 2F 00 viewed from offset 1 becomes a 4-byte track without its End of Track, which `fromBuffer` refuses | the content's `byteLength` | not executed | FileTrack.SetContentTruncates | FileTrack.SetContentRoundTrip |
| src/Random/IntRangeGenerator.ts:40-57 | the power-of-two test and the mask work on 32-bit integers | range 0..2^32-1 with the draw 2^32-1 yields -1; a range of more than 2^32 values that is not a power of two never returns | every value lies in `[rangeStart, rangeEnd]` | not executed | Random.FullRangeEscapes, Random.WideRangeNeverAccepts | Random.GenerateExact, Random.GenerateExactAgrees |
