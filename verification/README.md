# Word-frequency engine (Dafny model)

A Dafny model of the word-frequency engine in `main.cpp`. The file-system
plumbing is removed; the three counting paths remain:

- **Byte scan** (`frequencyDictMmap`): one pass over a byte buffer. Each
  ASCII letter is lowercased into an accumulator. At a non-letter, a
  non-empty accumulator is counted and cleared. After the last byte,
  whatever is left is counted. Module `Scan`: the loop is the method
  `FrequencyDictMmap`. It is proved equal to the reference `CountWords`,
  which splits the buffer into maximal letter runs, lowercases each run and
  counts the runs.
- **Token stream** (`frequencyDictStream`): the tokens already produced by
  the stream's `>>` are lowercased character by character and counted. There
  is no letter filter. Module `Stream`.
- **Trie** (`TrieNode::insert`, `frequencyDictStreamTrie`): a 26-ary trie as
  an immutable value. Children are slots, `Null` or `Ptr(node)`, indexed by
  `ch - 'a'`. Module `Trie`.

Shared pieces:

- Module `Ascii`: `isalpha` and `tolower` in the "C" locale.
- Module `Counts`: the `unordered_map<string, size_t>` store as a
  `map<string, nat>`. `++dict[w]` is `Inc`, `Histogram` counts a word
  sequence and the ghost function `Total` sums the counts.

Two points of the code shape the model:

- Each `TrieNode` has its own `count` field. However, line 43 of main.cpp
  increments the receiver's field, so only the root's field ever changes.
  `Trie.Insert` models this as written. `Trie.InsertCounted` increments the
  count of the node where the key ends instead (see Findings).
- The token-stream path only applies `tolower`. It does not filter out
  non-letters, so tokens keep their punctuation (`Stream.StreamKeepsPunctuation`).

## Model

| member | source | states |
|---|---|---|
| Ascii.IsAlpha | main.cpp:88 | `isalpha` holds exactly for the ASCII codes at positions 1 to 26 of the blocks starting at 64 and 96, i.e. `A`..`Z` and `a`..`z` |
| Ascii.ToLower | main.cpp:88-89 | `tolower` maps each capital to the lowercase letter at the same place in the alphabet, keeps non-letters and lowercase letters, and preserves letter-ness |
| Ascii.Lower | main.cpp:114 | `std::transform(..., ::tolower)` keeps the length and applies `tolower` at every position; the result is all letters exactly when the input is |
| Ascii.SameLowerSameClass | main.cpp:88-89 | two characters with the same lowercase image are both letters or both not |
| Ascii.LowerProperties | main.cpp:114 | lowercasing a token is idempotent; a letters-only token lowercases to a valid trie key; lowercase words are fixed |
| Counts.Inc | main.cpp:92 | `++dict[w]` adds `w` as a key, raises its count by one (from zero if absent) and leaves every other count unchanged |
| Counts.AddAll | main.cpp:92 | repeated `++dict[w]` over a word sequence adds exactly its words as keys and never lowers a count |
| Counts.Histogram | main.cpp:86-97 | counting a word sequence into a fresh store gives each word its multiplicity in the sequence |
| Counts.TotalRemove | main.cpp:86 | the sum of counts is independent of the order in which keys are summed |
| Counts.TotalInc | main.cpp:92 | one `++dict[w]` raises the sum of counts by exactly one |
| Counts.AddAllSpec | main.cpp:92-97 | counting a word sequence into a store adds each word's number of occurrences, adds exactly its words as keys, and adds its length to the sum of counts |
| Counts.HistogramSpec | main.cpp:86-97 | a fresh store after counting `ws`: each key's count is its multiplicity in `ws`, the keys are exactly the words of `ws`, all counts are positive, and the counts sum to `|ws|` |
| Scan.LetterRun | main.cpp:88-90 | the leading letter run is made of letters and is maximal: it stops at a non-letter or at the end |
| Scan.Words | main.cpp:88-97 | every word the scan produces is non-empty and consists only of lowercase ASCII letters |
| Scan.CountWords | main.cpp:85-97 | the reference count map of a buffer has exactly the buffer's words as keys |
| Scan.WordsCountRuns | main.cpp:87-97 | the scan produces exactly one word per maximal letter run |
| Scan.WordsEmptyIffNoLetters | main.cpp:91-96 | no word is produced if and only if the buffer contains no letter |
| Scan.WordsCaseInsensitive | main.cpp:88-89 | buffers that differ only in letter case produce the same words |
| Scan.PendingLetter | main.cpp:88-89 | appending a lowercased letter to the accumulator leaves the words still to be counted unchanged |
| Scan.PendingSeparator | main.cpp:91-94 | a non-letter completes a non-empty accumulator as one word and does nothing to an empty one |
| Scan.FrequencyDictMmap | main.cpp:85-97 | the scan loop with its final flush returns exactly the reference count map; its keys are words with positive counts; its counts sum to the number of maximal letter runs |
| Scan.CountWordsSpec | main.cpp:85-97 | the reference count map has only words as keys, each word's count is its number of occurrences, and the counts sum to the number of maximal letter runs |
| Scan.CountWordsCaseInsensitive | main.cpp:88-89 | buffers that differ only in letter case produce the same count map |
| Scan.CountWordsEmpty | main.cpp:91-96 | the count map is empty if and only if the buffer has no letter |
| Scan.CountWordsFinalFlush | main.cpp:96-97 | a buffer ending in a letter still has its last word counted: `"end"` gives `{"end": 1}` |
| Scan.WordsSeparatorRuns | main.cpp:91-94 | runs of separators produce no empty words: `"a,,,b"` and `"a b"` both give `["a", "b"]` |
| Scan.WordsUpperCase | main.cpp:88-89 | `"HELLO"` gives the word `"hello"` |
| Stream.LowerAll | main.cpp:113-114 | each token is lowercased in place, in order, one result per token |
| Stream.FrequencyDictStream | main.cpp:108-117 | keys are exactly the lowercased tokens, each already lowercase; each key counts the tokens with that image; the counts sum to the number of tokens |
| Stream.StreamKeepsPunctuation | main.cpp:113-115 | a token keeps its non-letters: `"Don't"` and `"don't"` are counted under one key `"don't"` |
| Trie.FindEmpty | main.cpp:23-25 | a freshly constructed node has 26 empty slots, count zero and no word flag, and no path below it |
| Trie.Empty | main.cpp:23-25 | a constructed node has 26 slots, all `nullptr`, count zero and no word flag |
| Trie.Index | main.cpp:36 | `ch - 'a'` is a slot index in 0..25 exactly when `ch` is a lowercase letter, and it maps back to that letter |
| Trie.InsertPath | main.cpp:34-42 | the walk keeps every node at 26 slots, marks the receiver as a word and raises its count by `bump` only when the key is empty, and otherwise always leaves a child in the slot of the key's first letter |
| Trie.InsertPathSpec | main.cpp:34-42 | the walk makes a node exist for every prefix of the key and marks the key's node as a word; existing nodes keep their counts and flags; every path that is not a prefix of the key is unchanged |
| Trie.Insert | main.cpp:32-44 | on a lowercase key, every prefix gets a node and the key's node becomes a word; nodes below the root keep their counts; other subtrees are unchanged; only the receiver's count grows, by one |
| Trie.InsertAll | main.cpp:124-127 | inserting a sequence of keys raises the receiver's count by the number of keys |
| Trie.InsertAllSpec | main.cpp:124-127 | after a sequence of inserts, nodes below the receiver keep their counts; the word nodes are the old ones plus exactly the inserted keys; the nodes are the old ones plus exactly the prefixes of the keys |
| Trie.FrequencyDictStreamTrie | main.cpp:120-129 | on letters-only tokens, builds a valid trie whose root count is the number of tokens |
| Trie.FrequencyDictStreamTrieSpec | main.cpp:120-129 | root count equals the number of tokens; no other node counts anything; the word nodes are exactly the lowercased tokens; the nodes are exactly the root and the prefixes of the lowercased tokens |
| Trie.InsertCounted | main.cpp:42-43 | corrected insert: the count of the key's node grows by one and no other count changes; the key becomes a word; the nodes grow by the key's prefixes |
| Trie.InsertAllCountedSpec | main.cpp:124-127 | with the corrected insert, each node's count grows by the number of occurrences of its word among the inserted keys |
| Trie.StoresAgree | main.cpp:108-128 | with the corrected insert, the trie's count for every word equals the hash-based store's count built from the same tokens |
| Trie.RootCountLosesWordCounts | main.cpp:43 | as written, after the token `"a"` the node for `"a"` counts 0 while the hash store counts 1; the corrected trie counts 1 |

## Left out

- Opening, `fstat`, `mmap`, `madvise`, `munmap` and `close`, and the exceptions they throw (main.cpp:55-82, 99-102), are OS I/O. The buffer is a `string` parameter. The `fd == 1` test at line 57 belongs to that plumbing and is not modelled.
- `std::ifstream` and the whitespace splitting done by `>>` (main.cpp:111-113, 123-124) are library I/O. The tokens are a `seq<string>` parameter, and nothing is assumed about them beyond what each operation requires.
- The destructor's recursive `delete` and the raw-pointer ownership (main.cpp:27-30, 47) are not modelled. Immutable datatypes have no ownership to manage.
- The `test` namespace (timer, random text generation, benchmark) and `main` (main.cpp:132-206) do timing, randomness and file writing. They are not modelled.
- Scan.CountWordsEmpty: its result for an empty buffer describes the loop of lines 85-97 only. In the code, an empty file never reaches that loop, because `mmap` of length 0 fails and line 73 throws "Failed to mmap!".
- Locale behaviour of `isalpha` and `tolower` is not modelled: the "C" locale is assumed. Characters are Dafny `char`s, and every character outside `A`-`Z` and `a`-`z` is a non-letter. Passing a negative `char` to `isalpha`, which is undefined in C, is not modelled.
- The signed `int` loop index at line 87 is a `nat`, so its overflow on very large files is not modelled.
- `size_t` counts are unbounded `nat`s, so wrap-around after 2^64 increments is not modelled.
- Trie.Insert: a key with a character outside `a`-`z` indexes outside the 26 slots in the code, which is undefined behaviour. The model makes a lowercase-only key a precondition instead, and `Trie.FrequencyDictStreamTrie` requires letters-only tokens for the same reason.

## Findings

| source | as written | input that shows it | evidently intended | confidence | as-written member | corrected member |
|---|---|---|---|---|---|---|
| main.cpp:43 | `++count` increments the receiver's counter (the root), not the counter of the node where the key ends, so the trie records only the total number of inserts and no per-word frequency | tokens `["a"]`: the node for `"a"` has count 0, while the hash-based store gives `"a"` the count 1 | `++node->count`: each node counts the words that end at it, so the trie and the hash map store the same counts | medium, not executed | Trie.RootCountLosesWordCounts | Trie.StoresAgree |
