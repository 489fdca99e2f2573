# LRU cache, string unpacking and word frequency, in Dafny

This project models three pieces of a Go homework repository and proves
properties of them:

- **hw04_lru_cache** — a doubly-linked `List` (`list.go`) and an `lruCache`
  (`cache.go`) built on it: a map from keys to list nodes, each node
  carrying a pointer to a `cacheItem` (key and value). `Set` overwrites a
  present key and moves its node to the front, refuses everything when the
  capacity is 0, evicts the back node when the list is full and pushes a new
  node at the front; `Get` moves a hit to the front; `Clear` starts over.
- **hw02_unpack_string** — `Unpack`, a run-length decoder: a digit repeats
  the character before it (0 deletes it), a backslash escapes a backslash or
  a digit, anything else is copied; a leading digit, two digits in a row, a
  bad escape and a trailing backslash give `ErrInvalidString`.
- **hw03_frequency_analysis** — `Top10`: split the text on white space,
  normalise each word (lower case, punctuation trimmed from both ends, a
  lone `-` dropped, runs of hyphens kept), count, sort by count descending
  and then alphabetically, and keep the first ten.

Modules and files:

| file | module | contents |
|---|---|---|
| `wrappers.dfy` | `Wrappers` | `Option`, `Result` |
| `list_model.dfy` | `ListModel` | the list as a value: an arena of nodes addressed by handles, each operation as a function, `IsList` (a proper list with nodes `hs`), and what each operation does to a proper list |
| `list_class.dfy` | `ListClass` | `List` as an object whose methods rewrite its fields, each proved to compute the `ListModel` function |
| `cache_model.dfy` | `CacheModel` | the cache as a value: queue, index and the arena of `cacheItem`s; `Set`, `Get`, `Clear`, call sequences, and their properties |
| `cache_class.dfy` | `CacheClass` | `lruCache` as an object over a `List` object, each method proved to compute the `CacheModel` function |
| `cache_trace.dfy` | `StaleHandle` | a concrete call sequence on which the cache as written stores more keys than its capacity |
| `fixed_cache.dfy` | `FixedCache` | `MoveToFront` relinking the node itself, and the cache over it, proved to keep index and queue coherent within the capacity |
| `unpack.dfy` | `UnpackString` | the decoding grammar `Expand`, the decoder loop `Unpack` proved to compute it, and properties of the decoding |
| `words.dfy` | `Words` | `strings.Fields`, `strings.ToLower`, `strings.Trim`, Go's `<` on strings |
| `top.dfy` | `FrequencyAnalysis` | `normalizeWord`, the counts, the order, the specification `IsTop10` and the method `Top10` proved against it |

Pointers are modelled as handles (`nat`) into arenas: `ListState.nodes`
holds the `ListItem`s, `CacheState.heap` the `cacheItem`s. A handle kept in
the index therefore stays meaningful after its node leaves the list, exactly
as a Go pointer does, which is what the stale-handle finding below is about.

## Model

| member | source | states |
|---|---|---|
| ListModel.NewList | hw04_lru_cache/list.go:15-17 | a new list is well formed and is the proper list of no nodes |
| ListModel.PushFront | hw04_lru_cache/list.go:31-45 | a fresh node holding `v` whose `Next` is the old front becomes the front (and the back of an empty list), `len` grows by one; among the old nodes only the old front changes, and only its `Prev`, which now points at the new node |
| ListModel.PushFrontKeepsList | hw04_lru_cache/list.go:31-45 | on a proper list `hs`, the result is the proper list `[h] + hs` with values `[v] + old values` |
| ListModel.PushBack | hw04_lru_cache/list.go:47-61 | a fresh node holding `v` whose `Prev` is the old back becomes the back (and the front of an empty list), `len` grows by one; among the old nodes only the old back changes, and only its `Next`, which now points at the new node |
| ListModel.PushBackKeepsList | hw04_lru_cache/list.go:47-61 | on a proper list `hs`, the result is the proper list `hs + [h]` with values `old values + [v]` |
| ListModel.Remove | hw04_lru_cache/list.go:63-75 | `i`'s predecessor now has `i`'s `Next` and `i`'s successor `i`'s `Prev` (or front/back move past `i`), no other node changes, `len` drops by one, `i`'s own links are left as they were, and nothing checks that `i` is on the list |
| ListModel.RemoveKeepsList | hw04_lru_cache/list.go:63-75 | removing the member at position `k` of a proper list leaves the proper list without it, values in the same order |
| ListModel.MoveToFront | hw04_lru_cache/list.go:77-83 | moving the front changes nothing; any other node is removed and its value pushed in a NEW node, which becomes the front, with `len` unchanged |
| ListModel.MoveToFrontOfFront | hw04_lru_cache/list.go:78-80 | moving the front node of a proper list is a no-op |
| ListModel.MoveToFrontKeepsList | hw04_lru_cache/list.go:77-83 | moving any other member gives a proper list whose values are the moved value followed by the others in their old order |
| ListModel.MoveToFrontDetaches | hw04_lru_cache/list.go:81-82 | after moving a non-front member, the front is a fresh node and the moved node is no longer on the list but keeps its stale `Next`/`Prev` |
| ListModel.LenCountsReachable | hw04_lru_cache/list.go:9-13 | on a proper list, following `Next` from `front` visits exactly its nodes, so `len` counts the reachable nodes |
| ListClass.List.constructor | hw04_lru_cache/list.go:15-17 | the new object is the empty list |
| ListClass.List.Len | hw04_lru_cache/list.go:19-21 | answers `len`, which on a proper list is its number of nodes |
| ListClass.List.Front | hw04_lru_cache/list.go:23-25 | answers the first node of a proper list, nil when it is empty |
| ListClass.List.Back | hw04_lru_cache/list.go:27-29 | answers the last node of a proper list, nil when it is empty |
| ListClass.List.PushFront | hw04_lru_cache/list.go:31-45 | the object's new state and the returned node are those of `ListModel.PushFront` |
| ListClass.List.PushBack | hw04_lru_cache/list.go:47-61 | the object's new state and the returned node are those of `ListModel.PushBack` |
| ListClass.List.Remove | hw04_lru_cache/list.go:63-75 | the object's new state is that of `ListModel.Remove` |
| ListClass.List.MoveToFront | hw04_lru_cache/list.go:77-83 | the object's new state is that of `ListModel.MoveToFront` |
| CacheModel.NewCache | hw04_lru_cache/cache.go:22-28 | a new cache has the given capacity, an empty queue and an empty index, and every lookup misses |
| CacheModel.Update | hw04_lru_cache/cache.go:31-35 | overwriting a present key's value and moving its node keeps the cache valid and the index unchanged |
| CacheModel.Evict | hw04_lru_cache/cache.go:41-45 | removing the back node and its key keeps pointers in bounds, shortens the queue by one, and keeps the heap |
| CacheModel.Insert | hw04_lru_cache/cache.go:47-53 | a new `cacheItem` holding the key and value is appended to the heap, a node pointing at it is pushed at the front, and the key is indexed to that node; the cache stays valid |
| CacheModel.Set | hw04_lru_cache/cache.go:30-54 | keeps the cache valid and the capacity, and answers true exactly when the key was present |
| CacheModel.Get | hw04_lru_cache/cache.go:56-62 | keeps the cache valid and the capacity |
| CacheModel.Clear | hw04_lru_cache/cache.go:64-67 | leaves a valid cache |
| CacheModel.Step | hw04_lru_cache/cache.go:5-9 | one call of the `Cache` interface (`Set`, `Get` or `Clear`) keeps the cache valid and its capacity |
| CacheModel.Run | hw04_lru_cache/cache.go:5-9 | any sequence of calls keeps the cache valid and gives one reply per call |
| CacheModel.SetPresentKey | hw04_lru_cache/cache.go:31-35 | `Set` of a present key answers true, keeps the index, moves its node, makes the key read the new value and changes no other key's value |
| CacheModel.SetZeroCapacity | hw04_lru_cache/cache.go:37-39 | with capacity 0 an absent key is refused and nothing changes |
| CacheModel.SetEvictsBack | hw04_lru_cache/cache.go:41-45 | in a full cache an absent key first evicts the back node and the key of its `cacheItem`, which then reads as absent when it is not the key being set |
| CacheModel.SetEvictsLast | hw04_lru_cache/cache.go:41-51 | on a proper queue, the full-cache `Set` drops exactly the last node and puts the new node in front of the rest |
| CacheModel.SetAbsentKey | hw04_lru_cache/cache.go:47-53 | an absent key is indexed to a new front node and reads the value set; with room left nothing else changes |
| CacheModel.GetAnswersLookup | hw04_lru_cache/cache.go:56-62 | `Get` answers what the index holds; a miss changes nothing, a hit only moves the node |
| CacheModel.SetThenGet | hw04_lru_cache/cache.go:30-62 | with positive capacity, `Get` right after `Set` of the same key finds the value set |
| CacheModel.ClearForgets | hw04_lru_cache/cache.go:64-67 | after `Clear` queue and index are empty, the capacity stays, and every `Get` misses |
| CacheModel.ZeroCapacityAbsorbs | hw04_lru_cache/cache.go:37-39 | a cache of capacity 0 never stores a key: every `Set` answers false and every `Get` misses, over any call sequence |
| CacheClass.LruCache.constructor | hw04_lru_cache/cache.go:22-28 | the new object is `NewCache(capacity)` over a fresh list |
| CacheClass.LruCache.Set | hw04_lru_cache/cache.go:30-54 | new state and answer are those of `CacheModel.Set`; the list object is updated in place |
| CacheClass.LruCache.Get | hw04_lru_cache/cache.go:56-62 | new state and answer are those of `CacheModel.Get` |
| CacheClass.LruCache.Clear | hw04_lru_cache/cache.go:64-67 | the new state is that of `CacheModel.Clear`, over a fresh list |
| StaleHandle.RunTrace | hw04_lru_cache/cache.go:30-62 | the replies and the final state of the capacity-2 sequence Set A, Set B, Get A, Get A, Set C, Set D, Set E |
| StaleHandle.SecondMoveLeavesStaleHandle | hw04_lru_cache/list.go:77-83 | after the second `Get A` three nodes are reachable while `len` is 2, and A's index entry is not one of them |
| StaleHandle.EvictionTargetsEvictedKey | hw04_lru_cache/cache.go:41-45 | before `Set E` the back node carries A, already evicted, while C is still indexed |
| StaleHandle.FinalBreaksBound | hw04_lru_cache/cache.go:41-53 | the final state indexes 3 keys with capacity 2, walks 3 nodes with `len` 2, and still serves C |
| StaleHandle.CapacityExceeded | hw04_lru_cache/cache.go:30-62 | from `NewCache(2)` the sequence leaves 3 keys indexed: the bound `len(items) <= capacity` fails |
| FixedCache.LinkFront | hw04_lru_cache/list.go:77-83 | links an existing node in before the front: it becomes the front, `len` grows by one, values are kept |
| FixedCache.Relink | hw04_lru_cache/list.go:77-83 | the corrected `MoveToFront`: the given node itself becomes the front, `len` and all values kept |
| FixedCache.RelinkKeepsList | hw04_lru_cache/list.go:77-83 | on a proper list `hs`, moving `hs[k]` gives the proper list `[hs[k]] + the others in order`, no node detached |
| FixedCache.SetFixed | hw04_lru_cache/cache.go:30-54 | `Set` with the corrected move keeps the cache valid and answers true exactly when the key was present |
| FixedCache.GetFixed | hw04_lru_cache/cache.go:56-62 | `Get` with the corrected move answers what the index holds and changes no key's value |
| FixedCache.Recency | hw04_lru_cache/cache.go:11-15 | in a coherent cache the keys along the queue are exactly the indexed keys, as many as `len` |
| FixedCache.CoherentBound | hw04_lru_cache/cache.go:41-45 | in a coherent cache index size, `len` and the recency order agree and are at most the capacity |
| FixedCache.GetFixedPromotes | hw04_lru_cache/cache.go:56-62 | `Get` keeps the cache coherent, moves a hit to the front of the recency order and leaves a miss alone |
| FixedCache.SetFixedPresentValues | hw04_lru_cache/cache.go:31-35 | `Set` of a present key answers true, keeps the index, and changes only that key's value |
| FixedCache.SetFixedPresent | hw04_lru_cache/cache.go:31-35 | `Set` of a present key keeps the cache coherent and moves the key to the front of the recency order |
| FixedCache.SetFixedRoom | hw04_lru_cache/cache.go:47-53 | with room left, an absent key becomes the most recently used, nothing evicted |
| FixedCache.SetFixedFull | hw04_lru_cache/cache.go:41-53 | in a full cache, an absent key evicts the least recently used key (the back), which then misses, and becomes the most recently used |
| FixedCache.ClearCoherent | hw04_lru_cache/cache.go:64-67 | `Clear` leaves a coherent empty cache |
| FixedCache.NewCacheCoherent | hw04_lru_cache/cache.go:22-28 | a new cache is coherent and empty |
| FixedCache.UpdateFixed | hw04_lru_cache/cache.go:31-35 | the update path of `Set` with the corrected move: the cache stays valid, with the same capacity and the same index |
| FixedCache.StepFixed | hw04_lru_cache/cache.go:5-9 | one call of the `Cache` interface on the corrected cache keeps it valid with the same capacity |
| FixedCache.RunFixed | hw04_lru_cache/cache.go:5-9 | a sequence of calls on the corrected cache keeps it valid with the same capacity and answers each call once |
| FixedCache.RunFixedBounded | hw04_lru_cache/cache.go:30-67 | from a coherent cache, every call sequence keeps it coherent with at most `capacity` keys |
| FixedCache.FixedTraceBounded | hw04_lru_cache/cache.go:30-62 | the sequence of `StaleHandle.CapacityExceeded` leaves at most 2 keys in the corrected cache |
| UnpackString.Expand | hw02_unpack_string/unpack.go:11-64 | the reference decoding, atom by atom (errors for a leading count, a bad escape and a trailing backslash); its contract: a decoded string has at most nine characters per input character (`Unpack` is proved equal to it, and the lemmas below state its cases) |
| UnpackString.AfterAtom | hw02_unpack_string/unpack.go:39-56 | an atom followed by a count appears that many times, otherwise once, and a NUL atom cannot take a count; its contract: at most nine characters per character of the rest, plus the atom |
| UnpackString.Unpack | hw02_unpack_string/unpack.go:11-64 | the decoder loop returns exactly the decoding `Expand` of the input, error for error |
| UnpackString.EmptyInput | hw02_unpack_string/unpack.go:12-14 | the empty string decodes to the empty string |
| UnpackString.CountWithoutAtom | hw02_unpack_string/unpack.go:39-42 | a digit with no atom before it (at the start, or right after a count) is an error |
| UnpackString.CountRepeats | hw02_unpack_string/unpack.go:43-50 | an atom followed by digit `d` appears `d` times; with 0 it is deleted |
| UnpackString.PlainCopiedOnce | hw02_unpack_string/unpack.go:55-56 | an atom with no count after it is copied once |
| UnpackString.BadEscape | hw02_unpack_string/unpack.go:24-27 | a backslash before anything but a backslash or digit is an error |
| UnpackString.EscapedAtom | hw02_unpack_string/unpack.go:24-31 | an escaped backslash or digit is an atom, copied once or as often as the count after it |
| UnpackString.EscapedDigitCounted | hw02_unpack_string/unpack.go:24-53 | `\45` decodes to `44444` |
| UnpackString.NulTakesNoCount | hw02_unpack_string/unpack.go:40-42 | the NUL rune is copied, but a count after it is an error, because NUL is the decoder's "nothing pending" mark |
| UnpackString.PlainStringCopied | hw02_unpack_string/unpack.go:55-56 | input with no digits and no backslashes decodes to itself |
| UnpackString.TrailingBackslash | hw02_unpack_string/unpack.go:59-61 | appending an unpaired backslash to any decodable input makes it an error |
| Words.Fields | hw03_frequency_analysis/top.go:9 | every field is non-empty and holds no white space (where fields split is stated by the lemmas below) |
| Words.FieldsSkipSpace | hw03_frequency_analysis/top.go:9 | a leading white-space character starts no field |
| Words.FieldsSplitAtSpace | hw03_frequency_analysis/top.go:9 | a non-empty run of non-space characters followed by a space is one field, and the fields of the rest follow it |
| Words.FieldsOfWord | hw03_frequency_analysis/top.go:9 | a non-empty string with no white space is a single field; with `FieldsSkipSpace`, `FieldsSplitAtSpace` and `Fields("") == []` this fixes `Fields` on every input |
| Words.FieldsKeepNonSpace | hw03_frequency_analysis/top.go:9 | the fields joined together are exactly the non-space characters of the input, in order |
| Words.AllSpaceNoFields | hw03_frequency_analysis/top.go:9 | input made only of white space has no fields |
| Words.ToLower | hw03_frequency_analysis/top.go:42 | `strings.ToLower` character by character; its contract: the result is as long as the word (`ToLowerEach` states the characters) |
| Words.ToLowerEach | hw03_frequency_analysis/top.go:42 | the lower-cased word has each character lowered where it stands, ASCII capitals mapped to small letters |
| Words.TrimLeft | hw03_frequency_analysis/top.go:51 | drops cut-set characters from the left end; the result is no longer than the word and does not start with a cut-set character |
| Words.TrimRight | hw03_frequency_analysis/top.go:51 | drops cut-set characters from the right end; the result is no longer than the word and does not end with a cut-set character |
| Words.Trim | hw03_frequency_analysis/top.go:51 | `strings.Trim` with a set of characters, left end then right end; its contract: the result is no longer than the word (`TrimIsInner` and `TrimEnds` state the rest) |
| Words.TrimLeftIsSuffix | hw03_frequency_analysis/top.go:51 | trimming the left end keeps a suffix of the word |
| Words.TrimLeftDropsCut | hw03_frequency_analysis/top.go:51 | every character trimmed from the left end is in the cut set |
| Words.TrimRightIsPrefix | hw03_frequency_analysis/top.go:51 | trimming the right end keeps a prefix of the word |
| Words.TrimRightDropsCut | hw03_frequency_analysis/top.go:51 | every character trimmed from the right end is in the cut set |
| Words.TrimIsInner | hw03_frequency_analysis/top.go:51 | trimming both ends keeps the contiguous piece of the word that starts where the left trim stopped |
| Words.TrimEnds | hw03_frequency_analysis/top.go:51 | a non-empty trimmed word neither starts nor ends with a character of the cut set |
| Words.TrimNothingToCut | hw03_frequency_analysis/top.go:51 | a word whose ends are not in the cut set is unchanged |
| Words.LexLess | hw03_frequency_analysis/top.go:30 | Go's `<` on strings, character by character with a proper prefix first; its contract: a string is never less than itself |
| Words.LexIrreflexive | hw03_frequency_analysis/top.go:30 | no string is less than itself |
| Words.LexTransitive | hw03_frequency_analysis/top.go:30 | string `<` is transitive |
| Words.LexTotal | hw03_frequency_analysis/top.go:30 | of two different strings one is less |
| Words.LexAsymmetric | hw03_frequency_analysis/top.go:30 | `a < b` excludes `b < a` |
| FrequencyAnalysis.CountChar | hw03_frequency_analysis/top.go:44 | `strings.Count` of one character; its contract: at most the length of the string (`CountCharAll` states the all-equal case) |
| FrequencyAnalysis.NormalizeWord | hw03_frequency_analysis/top.go:41-58 | `normalizeWord`: lower case; a word of hyphens only is kept when longer than one and dropped otherwise; any other word is trimmed of punctuation and dropped when nothing is left; its contract: never longer than the word (the lemmas below state the cases) |
| FrequencyAnalysis.CountCharAll | hw03_frequency_analysis/top.go:44 | the hyphen count equals the length exactly when every character is a hyphen |
| FrequencyAnalysis.NormalizedIsLower | hw03_frequency_analysis/top.go:42 | a kept word is in lower case |
| FrequencyAnalysis.NormalizedEnds | hw03_frequency_analysis/top.go:51-55 | a kept word neither starts nor ends with punctuation |
| FrequencyAnalysis.NormalizedIsPiece | hw03_frequency_analysis/top.go:41-58 | a kept word is a contiguous piece of the lower-cased word |
| FrequencyAnalysis.HyphenRunKept | hw03_frequency_analysis/top.go:44-47 | two or more hyphens are kept as they are |
| FrequencyAnalysis.DroppedWords | hw03_frequency_analysis/top.go:44-55 | a lone hyphen and a word made only of punctuation normalise to nothing |
| FrequencyAnalysis.NormalizeWordIdempotent | hw03_frequency_analysis/top.go:41-58 | normalising a kept word other than `-` again changes nothing (`(-)` normalises to `-`, which normalises to nothing) |
| FrequencyAnalysis.ParenthesisedHyphen | hw03_frequency_analysis/top.go:44-57 | `(-)` normalises to `-`, so `-` can still be counted |
| FrequencyAnalysis.LoneHyphenNeverCounted | hw03_frequency_analysis/top.go:13-15 | skipping `-` before normalising drops nothing that normalising would keep |
| FrequencyAnalysis.Token | hw03_frequency_analysis/top.go:13-20 | the word a field is counted under: nothing for a lone `-`, otherwise its normalised form; its contract: never longer than the field |
| FrequencyAnalysis.CountWords | hw03_frequency_analysis/top.go:10-21 | the counting loop builds a map whose keys are exactly the normalised words of the fields, each mapped to its number of occurrences |
| FrequencyAnalysis.KeysOf | hw03_frequency_analysis/top.go:23-26 | the collected keys are the keys of the map, each once, as many as the map has |
| FrequencyAnalysis.CountedIffOccurs | hw03_frequency_analysis/top.go:12-21 | a word is a key of the frequency map exactly when it is counted at least once |
| FrequencyAnalysis.CountStep | hw03_frequency_analysis/top.go:12-21 | one more field adds one to the count of its normalised word, if it has one, and leaves the other counts |
| FrequencyAnalysis.BeforeIrreflexive | hw03_frequency_analysis/top.go:28-33 | no word sorts before itself |
| FrequencyAnalysis.BeforeAsymmetric | hw03_frequency_analysis/top.go:28-33 | the sort order is asymmetric |
| FrequencyAnalysis.BeforeTransitive | hw03_frequency_analysis/top.go:28-33 | the sort order is transitive |
| FrequencyAnalysis.BeforeTotal | hw03_frequency_analysis/top.go:28-33 | of two different words one sorts first, so the order is strict and total |
| FrequencyAnalysis.Insert | hw03_frequency_analysis/top.go:28-33 | puts a word in front of the first word the comparator ranks it before; its contract: the list grows by exactly one (permutation and order in the two lemmas below) |
| FrequencyAnalysis.SortSlice | hw03_frequency_analysis/top.go:28-33 | insertion sort with the comparator of `sort.Slice`; its contract: as many words come out as go in (permutation and order in the two lemmas below) |
| FrequencyAnalysis.InsertPermutes | hw03_frequency_analysis/top.go:28-33 | inserting a word adds exactly that word to the multiset of words |
| FrequencyAnalysis.InsertSorted | hw03_frequency_analysis/top.go:28-33 | inserting a new word into a list sorted by the comparator keeps it sorted |
| FrequencyAnalysis.SortSlicePermutes | hw03_frequency_analysis/top.go:28-33 | the sorted words are a permutation of the words given |
| FrequencyAnalysis.SortSliceSorted | hw03_frequency_analysis/top.go:28-33 | distinct words come out ordered by count descending, then by word |
| FrequencyAnalysis.Top10 | hw03_frequency_analysis/top.go:8-39 | the answer has min(10, number of counted words) words, all counted, in rank order, and no word left out ranks before one kept |
| FrequencyAnalysis.SortedPrefixIsTop10 | hw03_frequency_analysis/top.go:35-38 | the first ten (or all) of the sorted counted words meet that specification |
| FrequencyAnalysis.TopDistinct | hw03_frequency_analysis/top.go:23-38 | the answer has at most ten words and none twice |
| FrequencyAnalysis.TopCountsDominate | hw03_frequency_analysis/top.go:28-38 | every word kept is counted at least as often as every counted word left out |
| FrequencyAnalysis.NoWordsNoTop | hw03_frequency_analysis/top.go:8-39 | input with no words gives the empty answer |
| FrequencyAnalysis.KthRanksFirst | hw03_frequency_analysis/top.go:28-38 | the `k`-th word ranks before every counted word not among the first `k` |
| FrequencyAnalysis.TopUnique | hw03_frequency_analysis/top.go:28-33 | the answer is determined by the input, whatever order the map hands out its keys in |

## Left out

- CacheModel.NewCache: requires a non-negative capacity. Go accepts a negative one (`make` treats a negative map size hint as no hint), and such a cache never evicts, since `Len()` never equals it, so it grows without bound; the model does not cover that case.
- Values of type `any` and the type assertions `.(*cacheItem)` are modelled by a type parameter `V` and typed arenas; the assertions cannot fail in this code.
- Memory: nodes and `cacheItem`s are never freed; the arenas only grow, as the garbage collector keeps whatever a pointer still reaches.
- The `Cache` interface is not modelled as a type; `Op`/`Reply` and `Run` stand for sequences of its calls.
- UnpackString.Unpack: `unicode.IsDigit` also accepts non-ASCII decimal digits (whose `r - '0'` is far above 9); only `0`-`9` are digits here.
- UnpackString.Unpack: the count-0 deletion slices the built string by bytes (unpack.go:49), which cuts a multi-byte rune in half; the model works on runes and deletes the whole rune.
- Words.ToLower: only ASCII letters are lowered; `strings.ToLower`'s Unicode case mapping is not modelled.
- Words.Fields: white space is the set `unicode.IsSpace` accepts; invalid UTF-8 is not modelled, since strings are sequences of characters.
- FrequencyAnalysis.SortSlice: `sort.Slice`'s algorithm is not modelled; an insertion sort with the same comparison stands for it, and `TopUnique` shows the answer does not depend on which sort produces it.
- Go's map iteration order is unspecified; `Top10` picks the keys in an arbitrary order.
- hw01_hello_otus, hw05_parallel_execution, hw06_pipeline_execution and hw07_file_copying (I/O, goroutines and files) are not part of this model.

## Findings

| source | as written | input that shows it | evidently intended | confidence | as-written member | corrected member |
|---|---|---|---|---|---|---|
| hw04_lru_cache/list.go:81-82 | `MoveToFront` removes the node and pushes its value in a new node, so the index keeps a detached node with stale links; a later `Remove` of it relinks through them and drops `len` for a node not on the list | `NewCache(2)`, then Set A, Set B, Get A, Get A, Set C, Set D, Set E: three keys stay indexed and three nodes are reachable while `len` is 2 | relink the given node itself at the front, so index and queue stay in step and at most `capacity` keys are held, the least recently used being evicted | not executed | StaleHandle.CapacityExceeded | FixedCache.RunFixedBounded |
