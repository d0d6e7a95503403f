# Word count tables, modelled in Dafny

This project models the word → count table of a small word-counting
utility. The utility has two implementations of that table:

- `hw-intro/words/word_count.c` keeps a singly linked list of `WordCount`
  nodes. `len_words` and `find_word` walk it from the head. `add_word` takes
  a reference to the head pointer. It increments the count of the first node
  holding the word, or links a new node with count 1 at the tail. An empty
  list gets the new node as its head.
- `hw-list/word_count_p.c` keeps the entries in a shared list guarded by a
  mutex. `add_word` performs find-or-increment-or-push-back under the lock
  and returns the entry. `wordcount_sort` sorts the list in place, ascending
  by count.

Files:

- `word_table.dfy`, module `WordTable`: the abstract table that both
  implementations are proved against. A table is a sequence of
  `Entry(word, count)` values. `FirstIndex` is the linear search. `Observe`
  is the effect of one `add_word`, and `ObserveAll` folds it over a token
  sequence. The lemmas prove what one add promises and what a whole token
  stream promises. The main one: starting from an empty table, each word's
  count equals its number of occurrences, words stay pairwise distinct, and
  words appear in first-occurrence order. A corollary covers any interleaving
  of several workers' streams.
- `word_count.dfy`, module `LinkedWordCount`: the linked-list version on
  real heap nodes. Class `WordCount` has an immutable `word` and mutable
  `count` and `next`. Class `WordList` is the caller's head-pointer variable
  that `add_word` receives by reference. A ghost sequence of nodes describes
  the chain. `Chain` says the nodes are linked in order, null-terminated and
  distinct. `Snapshot` reads the entries off the nodes.
  `LenWords` and `FindWord` are the pointer-walking loops. `AddWord` and
  the methods it calls change counts and `next` links in place.
- `word_count_p.dfy`, module `PintosWordCount`: the Pintos-list version.
  Class `WordCountList` holds the list as a `seq<Entry>` field. A pointer to an
  entry is modelled as the entry's position in that list. `LessList` is the
  comparator. `SortByCount` is a stable insertion sort under `LessList`.
  Module `PintosWordCountScenario` works through two concrete files:
  "the cat sat" and "the dog sat".

Where the C code is evidently defective, the model follows the evident
intent:

- `word_count.c:105` writes `wclist[index]`, which is out of bounds on the
  caller's pointer. The model drops that write, so appending leaves every
  existing node untouched.
- `word_count.c:86-88` never sets `next` on a new head. The model gives the
  new head a NULL `next` (`WordCount.constructor`).
- `word_count.c:102-104` never sets `next` on the node appended after the
  tail either, so a later walk would read an indeterminate pointer. The
  model gives the appended node a NULL `next` as well (`LinkAfter` uses
  `WordCount.constructor`).
- `init_words` in `word_count.c:35-46` only assigns its local parameter, so
  it has no effect on the caller. The model's initial list is the empty list
  (`WordList.constructor`).

In three places the code does less than its interface suggests. The model
follows the code:

- The code sorts the shared list in place. It does not build a new
  sequence.
- `wordcount_sort` ignores the comparator it is given and always compares
  counts.
- Neither `add_word` rejects an empty word.

## Model

| member | source | states |
|---|---|---|
| WordTable.FirstIndex | hw-intro/words/word_count.c:60-71 | The search result is None exactly when no entry holds the word. Otherwise it is an index holding the word, and no earlier entry holds it. |
| WordTable.ObserveCounts | hw-intro/words/word_count.c:73-108 | After one add, the added word's recorded count is one more than before and every other word's count is unchanged. |
| WordTable.ObserveWords | hw-intro/words/word_count.c:91-104 | After one add, the list of words is unchanged in content and order if the word was present. Otherwise the word is appended at the tail. |
| WordTable.ObserveShape | hw-intro/words/word_count.c:91-104 | On any table, every entry of another word is unchanged. A present word keeps the length. An absent word gives exactly the old list plus `(w, 1)` at the end. |
| WordTable.ObserveBumps | hw-intro/words/word_count.c:93-98 | On a table with one entry per word, the entry holding the added word gets count + 1. |
| WordTable.ObserveEmpty | hw-intro/words/word_count.c:85-89 | Adding to an empty table gives the one-entry table `[(w, 1)]`. |
| WordTable.ObserveDistinct | hw-intro/words/word_count.c:73-108 | If the words are pairwise distinct before an add, they are pairwise distinct after it. |
| WordTable.ObserveTotal | hw-intro/words/word_count.c:73-108 | Each add raises the total of all counts by exactly one. |
| WordTable.ObserveAllShape | hw-list/word_count_p.c:49-62 | Folding add over a token sequence keeps words distinct and raises the total by the number of tokens. New words are appended in first-occurrence order, checked against the independent reference `AppendUnseen`. |
| WordTable.ObserveAllCounts | hw-list/word_count_p.c:49-62 | Folding add over a token sequence raises each word's count by its number of occurrences in the sequence. |
| WordTable.ObserveAllConcat | hw-list/pwords.c:42-49 | Counting one token stream and then another equals counting their concatenation. |
| WordTable.AppendUnseenOrder | hw-intro/words/word_count.c:91-104 | The reference word order lists only tokens of the stream, and for positions i < j the first occurrence of word i in the stream comes before that of word j. |
| WordTable.FirstOccurrenceOrder | hw-list/word_count_p.c:49-62 | Counting from an empty table: every entry's word occurs in the stream, and an earlier entry's word first occurs strictly earlier in the stream than a later entry's word. |
| WordTable.CountFromEmpty | hw-list/word_count_p.c:49-62 | From an empty table: one entry per distinct token, and a word has an entry iff it occurs. Each entry's count equals that token's number of occurrences. Words appear in first-occurrence order, and the total equals the number of tokens. |
| WordTable.InterleavedCounts | hw-list/word_count_p.c:49-62 | With each add atomic under the lock, any interleaving of the workers' streams gives distinct words. Each word's count is its total number of occurrences over all workers, and exactly the occurring words have entries. |
| LinkedWordCount.WordCount.constructor | hw-intro/words/word_count.c:102-104 | A new node holds the word with count 1 and a NULL `next`. The NULL `next` is the evident intent: the C code leaves it unset. |
| LinkedWordCount.WordList.constructor | hw-intro/words/word_count.c:35-46 | A new list is a valid, empty chain. |
| LinkedWordCount.LenWords | hw-intro/words/word_count.c:48-58 | Returns exactly the number of nodes reachable from the head, and 0 exactly when the head is NULL. |
| LinkedWordCount.FindWord | hw-intro/words/word_count.c:60-71 | Returns NULL exactly when no node holds the word. Otherwise it returns the first node holding the word, and that node's count is the table's count for the word. |
| LinkedWordCount.AddWord | hw-intro/words/word_count.c:73-108 | A NULL list reference or NULL word returns 1 and leaves the list unchanged. Otherwise it returns 0, the list stays a valid chain, and its entries become `Observe` of the old entries. Existing nodes stay in place, and at most one fresh node is added at the tail. |
| LinkedWordCount.AddTo | hw-intro/words/word_count.c:81-107 | Past the NULL checks, the entries become `Observe` of the old entries. The old nodes remain a prefix of the chain, and any added node is fresh. |
| LinkedWordCount.LinkHead | hw-intro/words/word_count.c:85-89 | An empty list becomes the one-node list `[(w, 1)]`, whose node is fresh. |
| LinkedWordCount.WalkAndAdd | hw-intro/words/word_count.c:91-107 | On a non-empty list, the walk increments the first node holding the word or appends `(w, 1)` after the last node. The entries become `Observe` of the old ones. |
| LinkedWordCount.Bump | hw-intro/words/word_count.c:97 | Incrementing node `i` changes only entry `i`, whose count goes up by one. The chain stays valid. |
| LinkedWordCount.LinkAfter | hw-intro/words/word_count.c:101-104 | Linking after the tail appends `(w, 1)` to the entries. The head and all earlier nodes are unchanged, and the new node is fresh. |
| PintosWordCount.LessListStrictOrder | hw-list/word_count_p.c:76-80 | `LessList` is irreflexive, asymmetric and transitive, and it depends only on the two counts. |
| PintosWordCount.SortByCountSpec | hw-list/word_count_p.c:82-85 | The sort result is a permutation of the input with the same length, and counts are non-decreasing front to back. Entries with equal counts keep their relative order. |
| PintosWordCount.SortDistinct | hw-list/word_count_p.c:82-85 | Sorting a table with one entry per word keeps one entry per word. |
| PintosWordCount.SortKeepsCounts | hw-list/word_count_p.c:82-85 | Sorting a table with one entry per word leaves every word's recorded count as it was. |
| PintosWordCount.WordCountList.constructor | hw-list/word_count_p.c:33 | A new list object starts with no entries. |
| PintosWordCount.WordCountList.InitWords | hw-list/word_count_p.c:33 | After `init_words` the list is empty, so `len_words` gives 0. |
| PintosWordCount.WordCountList.LenWords | hw-list/word_count_p.c:35 | Returns the number of entries, which is 0 for an empty list. |
| PintosWordCount.WordCountList.FindWord | hw-list/word_count_p.c:37-47 | Returns None exactly when no entry holds the word. Otherwise it returns the position of the first entry holding it. |
| PintosWordCount.WordCountList.AddWord | hw-list/word_count_p.c:49-62 | The returned position holds the word, with count old + 1, or 1 if the word was absent. An absent word is pushed at the back. A present word's entry is updated in place with the length unchanged. The list becomes `Observe` of the old list, distinctness is kept, and the total grows by 1. |
| PintosWordCount.WordCountList.CountWords | hw-list/pwords.c:47 | Counting a worker's token stream leaves the list equal to `ObserveAll` of the old list and the stream. |
| PintosWordCount.WordCountList.WordcountSort | hw-list/word_count_p.c:82-85 | Whatever comparator is passed, the new list is a permutation of the old one with the same length, sorted by count. Equal counts keep their order. One-entry-per-word and every word's count are preserved. |
| PintosWordCountScenario.TwoFilesTable | hw-list/pwords.c:71-89 | Counting "the cat sat" and then "the dog sat" gives `[the:2, cat:1, sat:2, dog:1]`. |
| PintosWordCountScenario.TwoFilesSorted | hw-list/pwords.c:95 | Sorting that table gives `[cat:1, dog:1, the:2, sat:2]`. |
| PintosWordCountScenario.TwoFilesRun | hw-list/pwords.c:71-95 | Driving a fresh list object through `InitWords`, one `CountWords` per file and `WordcountSort` gives exactly those two tables. |

## Left out

- The pthread mutex in `add_word` (`hw-list/word_count_p.c:50,60`): each add is modelled as one atomic step. Interleavings enter only as the token order in `InterleavedCounts`.
- Thread creation and joining, file opening and closing, the stdin fallback, diagnostics and exit codes in `hw-list/pwords.c`: these are concurrency and I/O orchestration.
- `count_words` and its tokenizer in `word_helpers` are not part of this model. The token stream is an abstract `seq<string>` input. `CountWords` models only its effect: one add per token.
- `fprint_words` in both files: output formatting to a `FILE*`.
- `new_string` and `malloc` failure in either file: allocation always succeeds in the model.
- Word pointers as storage: words are immutable Dafny strings. The model does not capture that `hw-list/word_count_p.c:57` stores the caller's pointer rather than a copy.
- The algorithm of Pintos `list_sort` is not part of this model. `SortByCount` is a stable insertion sort under `LessList`. Its stability is a modelling choice, not something derived from the code.
- PintosWordCount.WordCountList.FindWord: returns the entry's position rather than a pointer. Later writes through that pointer by the caller are not modelled.
- PintosWordCount.WordCountList.AddWord: returns the position of the entry it updated or created, not a pointer that aliases it.
- PintosWordCount.WordCountList.LenWords: the list length is read directly. Pintos `list_size`, which walks the list, is not shown.
- `int count` overflow in either file is not modelled: counts are unbounded naturals.
- The out-of-bounds write at `hw-intro/words/word_count.c:105`, the unset `next` on a new head at lines 86-88, the unset `next` on an appended node at lines 102-104 and the no-op `init_words` at lines 40-45 are not modelled. The evident intent is modelled instead, as described above.
- A NULL word passed to `hw-list/word_count_p.c`'s `add_word` or `find_word`, or to `find_word` in `hw-intro/words/word_count.c:60-71`, is not modelled: the code does not check for it before `strcmp` (`word_count.c:64`), so words there are always strings. Only `add_word` in `hw-intro/words/word_count.c` checks for a NULL word, and `LinkedWordCount.AddWord` models that check.
