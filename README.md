# Anagram grouping, modelled in Dafny

This project models the anagram finder in `src/test/Anagrams.java`. The finder takes a set of
distinct words and prints one line per class of anagrams with at least two members. Two words are
anagrams when they hold the same chars with the same multiplicities, compared case-sensitively
by value. Chars here are Dafny `char`s, Unicode scalar values; Java's are UTF-16 code units, and
"Left out" says where the two differ.

The finder works in three steps, and the model keeps each one in the form the Java code has:

- **Signatures.** `sortedWord` builds each word's *signature*: its chars in ascending order,
  built by insertion into a growing buffer. `sortedChars` fills a new array with the signatures
  of all words.
- **Sort.** `sortWords` sorts the signature array in place with a top-down merge sort
  (`mergeSort` and `merge`). A parallel array of original positions moves in lockstep.
  `sortWords` returns that array.
- **Scan.** One pass over the sorted signatures finds every stretch of at least two equal
  adjacent signatures. For each such stretch it prints the words the sort moved there:
  `words[indexes[p]]` for every position `p` of the stretch.

The project has five modules, one file each:

- `JavaStrings` models `String.compareTo`: the difference of the first pair of differing chars,
  or else the difference of the lengths. It also proves the facts the sort relies on: zero exactly
  for equal strings, antisymmetry, totality and transitivity of `compareTo <= 0`.
- `SignatureBuilder` has the `SortedWord` and `SortedChars` methods. Both are proved against the
  ghost function `Signature`. Lemmas show that `Signature` is an ascending permutation of the
  word, and that two words have equal signatures exactly when they are anagrams.
- `IndexedSorter` has the `SortWords`, `MergeSort` and `Merge` methods on the two parallel
  arrays. The arrays are read through a ghost view that pairs them position by position
  (`Tagged`). On that view:
  - `Merge` computes the pure merge `MergeRuns` on the range it is given.
  - `MergeSort` computes `SortRange`.
  - `SortWords` computes `MergeSorted`.

  Lemmas prove that `MergeSorted` only rearranges its input, sorts by `compareTo` and is stable.
  So `sortWords` returns a permutation of `0..n-1` that sorts the signatures and keeps equal
  signatures in their original order.
- `GroupExtractor` has the grouping scan, `ExtractGroups`, and its inner loop, `CollectRun`.
  The scan is proved to print one line per stretch of the ghost function `Runs`. Lemmas prove
  three things about `Runs`:
  - each stretch it reports is maximal;
  - the stretches come in order;
  - the stretches cover exactly the positions that share their signature with a neighbour.
- `AnagramEngine` chains the three steps in `FindAnagrams`, the model of `findAnagrams`.
  `ScanFindsAnagrams` lifts the facts above from sorted positions to the words themselves
  (`AnagramGrouping`):
  - every group holds at least two words of the input, all anagrams of each other, and every
    other anagram of them;
  - a word is in some group exactly when another word of the input is an anagram of it;
  - no word is printed twice;
  - the groups ascend by signature under `compareTo`;
  - each group keeps its words in input order;
  - an input of at most one word gives no groups.

Two details of the code that the model keeps:

- **Where a char is inserted.** `sortedWord` inserts each char before the first char of the
  buffer strictly greater than it (line 101), that is, after any equal chars. Inserting before
  the first char not less than it would give the same string. `SortedWord` and `Insert` use the
  code's rule.
- **How chars compare.** Both `sortedWord` (line 101) and `compareTo` (line 195) compare Java
  `char` values, which are UTF-16 code units. See "Left out".

## Model

| member | source | states |
|---|---|---|
| JavaStrings.CompareTo | src/test/Anagrams.java:195 | `String.compareTo`: the difference of the first pair of differing chars, else of the lengths; it returns 0 exactly when the two strings are equal |
| JavaStrings.CompareToAntisymmetric | src/test/Anagrams.java:195 | swapping the arguments of `compareTo` negates the result |
| JavaStrings.LeTotal | src/test/Anagrams.java:195 | any two strings compare `<= 0` one way or the other, and both ways only when they are equal |
| JavaStrings.LeTransitive | src/test/Anagrams.java:195 | `compareTo(a, b) <= 0` and `compareTo(b, c) <= 0` give `compareTo(a, c) <= 0` |
| JavaStrings.LtTransitive | src/test/Anagrams.java:195 | a chain with one strict step compares strictly below 0 end to end |
| SignatureBuilder.InsertAt | src/test/Anagrams.java:100-105 | inserting `c` at the first index whose char is strictly greater (or at the end) is the buffer's `Insert` |
| SignatureBuilder.InsertAddsChar | src/test/Anagrams.java:105 | one insertion adds exactly one occurrence of `c` to the buffer's chars |
| SignatureBuilder.InsertKeepsAscending | src/test/Anagrams.java:100-105 | inserting into an ascending buffer leaves it ascending |
| SignatureBuilder.SignatureIsSortedPermutation | src/test/Anagrams.java:95-108 | the signature is ascending, has the word's length and holds exactly the word's chars with their multiplicities |
| SignatureBuilder.AscendingUnique | src/test/Anagrams.java:95-108 | two ascending strings with the same chars are equal, so the signature is the one ascending arrangement of the word |
| SignatureBuilder.SameSignatureIffAnagrams | src/test/Anagrams.java:95-108 | two words have equal signatures if and only if they are anagrams (equal multisets of chars) |
| SignatureBuilder.SignatureOfAscending | src/test/Anagrams.java:95-108 | an already ascending string is its own signature |
| SignatureBuilder.SignatureIdempotent | src/test/Anagrams.java:95-108 | the signature of a signature is that signature |
| SignatureBuilder.SortedWord | src/test/Anagrams.java:95-108 | returns the word's signature: ascending and a permutation of the word's chars |
| SignatureBuilder.SortedChars | src/test/Anagrams.java:114-122 | returns a new array as long as the input whose k-th entry is the signature of the k-th word |
| IndexedSorter.MergeRunsPermutes | src/test/Anagrams.java:194-212 | merging keeps every element of both runs and adds none |
| IndexedSorter.MergeRunsMembers | src/test/Anagrams.java:194-212 | every element of a merge comes from one of the two runs |
| IndexedSorter.MergeRunsSorted | src/test/Anagrams.java:194-212 | merging two runs sorted by `compareTo` gives a run sorted by `compareTo` |
| IndexedSorter.MergeRunsOrdered | src/test/Anagrams.java:194-212 | if every original position in the left run is below every one in the right run, the merge is sorted and keeps equal signatures in original order (the `<= 0` tie rule) |
| IndexedSorter.MergeRunsLeft | src/test/Anagrams.java:195-197 | when the left head compares `<= 0` to the right head, or the right run is empty, the merge starts with the left head |
| IndexedSorter.MergeRunsRight | src/test/Anagrams.java:199-201 | when the left head compares above 0, or the left run is empty, the merge starts with the right head |
| IndexedSorter.MergeRunsExhausted | src/test/Anagrams.java:204-212 | once one run is empty, the merge is the rest of the other run |
| IndexedSorter.ReachLeft | src/test/Anagrams.java:195-197 | taking the left head by the tie rule moves the merge from state (i, j) to state (i + 1, j) |
| IndexedSorter.ReachRight | src/test/Anagrams.java:199-201 | taking the right head moves the merge from state (i, j) to state (i, j + 1) |
| IndexedSorter.ReachedMerge | src/test/Anagrams.java:194-202 | in any state the first loop reaches, what it has produced followed by the merge of what is left equals the whole merge |
| IndexedSorter.MergeAssembled | src/test/Anagrams.java:194-212 | the first loop's output, then the rest of the left run, then the rest of the right run, is the whole merge |
| IndexedSorter.MergeSortedMembers | src/test/Anagrams.java:173-218 | every element of the merge sort comes from its input |
| IndexedSorter.MergeSortedPermutes | src/test/Anagrams.java:173-218 | merge sort only rearranges its input (same multiset) |
| IndexedSorter.MergeSortedIsSorted | src/test/Anagrams.java:173-218 | merge sort leaves the signatures non-decreasing under `compareTo`, whatever the input |
| IndexedSorter.MergeSortedIsStable | src/test/Anagrams.java:173-218 | on pairs whose original positions increase, merge sort orders by signature and breaks ties by original position |
| IndexedSorter.IndexesBelowSorted | src/test/Anagrams.java:178-180 | sorting the two halves separately keeps every original position of the left half below every one of the right half |
| IndexedSorter.MergeSortedHalves | src/test/Anagrams.java:175-180 | the merge sort of a stretch is the merge of the sorted halves that `center = (left + right) / 2` splits it into |
| IndexedSorter.SortedIdentity | src/test/Anagrams.java:156-166 | sorting the identity pairing gives pairs whose positions are in range, carry their own signatures and include every position |
| IndexedSorter.OrderedView | src/test/Anagrams.java:156-166 | read as two arrays, a sequence of pairs ordered by (signature, position) is sorted, repeats no position and keeps equal signatures in position order |
| IndexedSorter.SortedViewIsStable | src/test/Anagrams.java:156-166 | the arrays holding the merge sort of the identity pairing are a stable sort: `sorted[p] == orig[indexes[p]]`, `indexes` a permutation of `0..n-1`, `sorted` non-decreasing, ties in original order |
| IndexedSorter.SortRangeSorts | src/test/Anagrams.java:173-182 | sorting the stretch lo..hi-1 by recursive halving is the merge sort of that stretch, with everything outside it unchanged |
| IndexedSorter.SortRangeWhole | src/test/Anagrams.java:164 | sorting the whole range `0..length-1` is the merge sort of the whole array |
| IndexedSorter.SortRangeSplit | src/test/Anagrams.java:175-180 | a stretch of at least two elements is sorted by sorting its first (n+1)/2 elements, then the rest, then merging |
| IndexedSorter.SortRangeShort | src/test/Anagrams.java:175 | a stretch of at most one element is left as it is |
| IndexedSorter.CenterSplits | src/test/Anagrams.java:177-179 | for `left < right`, `center = (left + right) / 2` makes two non-empty halves, the left one with the first (n+1)/2 elements |
| IndexedSorter.Put | src/test/Anagrams.java:196-197 | one copy of a word and its position into the scratch arrays appends that pair to what they hold from `left` on |
| IndexedSorter.MergeStep | src/test/Anagrams.java:195-202 | one pass of the first merge loop takes the head the tie rule picks, advances exactly one cursor and `k`, and extends the scratch contents by one merge step |
| IndexedSorter.MergeHeads | src/test/Anagrams.java:194-202 | the first merge loop stops with one run used up, and the scratch arrays hold the merge produced so far |
| IndexedSorter.CopyRest | src/test/Anagrams.java:204-212 | each remaining-run loop appends the rest of its run to the scratch contents and advances `k` by its length |
| IndexedSorter.MergeIntoTmp | src/test/Anagrams.java:190-212 | the three copy loops leave the merge of the two runs in the scratch arrays at left..rightEnd |
| IndexedSorter.CopyBack | src/test/Anagrams.java:214-217 | the copy-back loop copies the `num` scratch positions ending at `rightEnd` into both arrays and changes nothing else |
| IndexedSorter.Merge | src/test/Anagrams.java:188-218 | after `merge`, the paired arrays are the old contents with the runs left..right-1 and right..rightEnd merged, and nothing outside that range changed |
| IndexedSorter.MergeSort | src/test/Anagrams.java:173-182 | after `mergeSort`, the paired arrays are the old contents with left..right merge sorted, and nothing outside that range changed |
| IndexedSorter.SortedWhole | src/test/Anagrams.java:164 | sorting the whole identity pairing gives its merge sort, hence a stable sort of the signatures |
| IndexedSorter.IdentityIndexes | src/test/Anagrams.java:158-161 | returns a new array holding k at every position k |
| IndexedSorter.SortWords | src/test/Anagrams.java:156-166 | sorts the array in place by `compareTo` and returns a permutation `indexes` of `0..n-1` with `words[p] == old(words)[indexes[p]]`, ties kept in original order |
| GroupExtractor.RunLast | src/test/Anagrams.java:72-75 | the stretch from `i` ends at the last position or just before a differing signature |
| GroupExtractor.RunLastSpansEqual | src/test/Anagrams.java:72-75 | every position from `i` to the end of its stretch holds the signature at `i` |
| GroupExtractor.RunsAtRun | src/test/Anagrams.java:69-77 | where `sortedChars[i]` equals `sortedChars[i+1]`, the scan reports the stretch from `i` and resumes just past it |
| GroupExtractor.RunsPastSingle | src/test/Anagrams.java:68-69 | where `sortedChars[i]` differs from `sortedChars[i+1]`, the scan moves on to `i + 1` and reports nothing |
| GroupExtractor.RunLastIsMaximal | src/test/Anagrams.java:69-75 | a stretch found from a fresh start is maximal, and the scan resumes at a fresh start |
| GroupExtractor.RunsAreMaximal | src/test/Anagrams.java:68-81 | every stretch the scan reports has at least two equal signatures and cannot be extended on either side |
| GroupExtractor.RunsInOrder | src/test/Anagrams.java:68-81 | each reported stretch ends before the next one begins, so no position is reported twice |
| GroupExtractor.RunsCoverTwins | src/test/Anagrams.java:68-81 | a position lies in a reported stretch exactly when its signature equals a neighbour's |
| GroupExtractor.SortedBetween | src/test/Anagrams.java:67-69 | in the sorted signature array, every position between two equal signatures holds that signature |
| GroupExtractor.SortedTwin | src/test/Anagrams.java:67-69 | in the sorted array, a signature equals a neighbour's exactly when it occurs at some other position |
| GroupExtractor.SortedRunIsClass | src/test/Anagrams.java:67-77 | in the sorted array, a maximal stretch holds every position with its signature |
| GroupExtractor.SortedRunsAscend | src/test/Anagrams.java:67-81 | in the sorted array, of two maximal stretches the earlier has the strictly smaller signature under `compareTo` |
| GroupExtractor.ScanPastRun | src/test/Anagrams.java:69-77 | printing a stretch's line and resuming past it leaves the printed lines followed by those still to print unchanged |
| GroupExtractor.ScanPastSingle | src/test/Anagrams.java:68-69 | passing a position that starts no stretch leaves the lines still to print unchanged |
| GroupExtractor.CollectRun | src/test/Anagrams.java:70-76 | collects `words[indexes[p]]` for every position p from `start` to the end of its stretch, in order, and returns that end |
| GroupExtractor.ExtractGroups | src/test/Anagrams.java:68-81 | the lines printed are one per stretch `Runs` reports, each holding `words[indexes[p]]` for the positions p of the stretch |
| AnagramEngine.SortFacts | src/test/Anagrams.java:66-67 | the arrays `sortWords` leaves on the signatures place each word's signature at its sorted position, form a permutation, and are sorted and stable |
| AnagramEngine.PrintedIsLaid | src/test/Anagrams.java:70-76 | the printed lines hold, word by word, the words at the input positions sorted into each stretch |
| AnagramEngine.GroupsAreAnagrams | src/test/Anagrams.java:68-81 | every group holds at least two words of the input, and all of them are anagrams of each other |
| AnagramEngine.AnagramInGroup | src/test/Anagrams.java:68-81 | any input word with the signature of a word of a group is in that group |
| AnagramEngine.GroupsAreWholeClasses | src/test/Anagrams.java:68-81 | every anagram in the input of a grouped word is in the same group |
| AnagramEngine.GroupedAt | src/test/Anagrams.java:68-81 | a word is printed exactly when its sorted position lies in a reported stretch |
| AnagramEngine.AnagramAt | src/test/Anagrams.java:66-67 | a word has an anagram elsewhere in the input exactly when its signature occurs at another sorted position |
| AnagramEngine.GroupedIffHasAnagram | src/test/Anagrams.java:68-81 | a word is in some group if and only if another word of the input is an anagram of it |
| AnagramEngine.GroupsDoNotRepeat | src/test/Anagrams.java:68-81 | no word is printed twice, in one group or in two |
| AnagramEngine.GroupsAscend | src/test/Anagrams.java:68-81 | every word of an earlier group has a strictly smaller signature under `compareTo` than every word of a later group |
| AnagramEngine.OrderInGroup | src/test/Anagrams.java:70-76 | of two words of one group, the earlier one comes earlier in the input |
| AnagramEngine.GroupsKeepInputOrder | src/test/Anagrams.java:68-81 | each group lists its words in the order of the input array |
| AnagramEngine.ScanFindsAnagrams | src/test/Anagrams.java:64-81 | the lines the scan prints on the sorted signatures of distinct words are a complete, repeat-free grouping into anagram classes of size at least 2, ascending by signature, each in input order, and empty for at most one word |
| AnagramEngine.FindAnagrams | src/test/Anagrams.java:64-81 | for an array of distinct words, returns the groups `findAnagrams` prints, one per line in print order, with every property of `AnagramGrouping` |

## Left out

- `readFile` (lines 131-149) is not modelled: reading lines, trimming them and collecting them in
  a `HashSet` is file input. `FindAnagrams` takes the array `Set.toArray` produces, and
  `Distinct` states the one fact the set guarantees about it: no word occurs twice. The set's
  enumeration order is arbitrary, so "input order" means the order of that array.
- `findAnagrams`' writer (lines 63, 70, 73, 76-77, 82) and the `IOException` handler
  (lines 84-86) are left out. The method returns the printed lines as a sequence of groups
  instead. The space after each word and the newline after each group are formatting only.
- `create` and `main` are not modelled: they generate random test files and parse the command
  line.
- JavaStrings.CompareTo: Java `char` is a UTF-16 code unit. The model compares Dafny `char`
  values, which are Unicode scalar values. The two orders differ only for words holding chars
  outside the Basic Multilingual Plane, which Java stores as surrogate pairs.
- MergeSort: `(left + right) / 2` is computed on unbounded integers. The 32-bit overflow for
  arrays longer than 2^30 elements is not modelled.
- SortedWord: the model's chars are Unicode scalar values, while `sortedWord` (lines 97-105)
  sorts UTF-16 code units one at a time and so splits surrogate pairs. For words with chars
  outside the Basic Multilingual Plane, Java's anagram relation is "same multiset of code units"
  and the model's is "same multiset of scalar values", and these differ. For example, the words
  U+1F600 U+1F901 and U+1F501 U+1FA00 share the Java signature D83D D83E DD01 DE00, so Java prints
  them as one group; the model gives them different signatures and no group. The model also
  cannot represent a lone surrogate, which a Java string may hold. `SameSignatureIffAnagrams`
  and every grouping property hold for the model's chars only.
- SortedWord: the `StringBuilder` buffer is modelled as a `string` value that the method
  reassigns. Insertion in place is not modelled.
- Merge: the body of `merge` is split into helper methods, one per loop (`MergeHeads`,
  `CopyRest`, `CopyBack`) and one per loop pass (`MergeStep`, `Put`). The cursors `left`, `right`
  and `k` become their parameters and results.
- MergeSort: requires the scratch arrays to be distinct from the arrays they buffer. `Merge`
  and the loop methods require the same. `sortWords` always allocates the scratch arrays fresh,
  so an aliased call never happens.
