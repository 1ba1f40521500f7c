# Hapax legomena: the length-bucketed word tally

This project models in Dafny the core of a small C program. The program counts
how often each word occurs in a text file and then prints the *hapax
legomena*, the words that occur exactly once. It can print them for every
length or for one length only.

The tally is an array of list heads indexed by word length. List `i` holds
`(word, count)` nodes for the words of `i` characters. Three files make up
the model:

- `wrappers.dfy`: `Option`, which stands in for a pointer that may be NULL.
- `word_tally.dfy` (module `WordTally`, from `word_tally.c`):
  - the node and list types;
  - lookup by key (`Find`);
  - insert-or-increment (`UpdateWordInTallyList`);
  - tallying a whole file (`TallyWordsInFile`).

  The specification functions are `Count`, `Updated`, `Feed` and `Tally`.
  Lemmas prove that the tally of a file counts each word exactly as often as
  it occurs. The reference for "how often" is `multiset(ws)[w]`.
- `hapax_main.dfy` (module `HapaxMain`, from `hapax_main.c`):
  - release of all lists (`DeleteWordLists`);
  - the full dump (`PrintData`);
  - the hapax report (`PrintHapax`);
  - the array that `main` allocates (`NewWordLists`).

  The reports return what they would print as sequences. Their meaning is
  given by `AllData` and `Hapax` and proved exact by lemmas.

Modelling choices:

- A list is a `seq<Entry>` whose element 0 is the head. The list library is
  not part of this model. Its lookup becomes the function `Find`, which
  returns the first node with the key. Its prepend becomes `[e] + bucket`.
  The in-place `value++` on a node becomes an update of one element of the
  list, stored back into the array slot.
- A string is the C byte string, one `char` per byte, so `|w|` stands for
  `strlen(w)`.
- The word extractor is not part of this model. `TallyWordsInFile` takes the
  file's tokens as `Option<seq<string>>`. `None` means the extractor could
  not be created, for example because the file does not open.
- The array has `maxLen + 1` heads, one for each index `0 .. maxLen`. Every
  operation requires `heads.Length == maxLen + 1`, because the code indexes
  heads up to `maxLen` (word_tally.c:84-99, hapax_main.c:29, 51, 75). `main`
  declares only `MAX_WORD_LEN` heads; see Findings.
- `printHapax` indexes `wordListHeads[hapaxLength]` with no bounds check
  (hapax_main.c:90). For a positive `hapaxLength` above `maxLen`, the model
  yields no words instead of reading past the array. It does not add a
  precondition for this case.
- `tallyWordsInFile` empties the lists before it counts. The model empties
  all `maxLen + 1` of them; see Findings for the loop as written.

## Model

| member | source | states |
|---|---|---|
| `WordTally.Find` | word_tally.c:91-92 | the lookup gives the position of the first node whose key is the word, and none exactly when no node has that key |
| `WordTally.EntryIffCount` | word_tally.c:89-100 | in a well-formed tally, node (w, c) is in list \|w\| exactly when the tally's count for w is c |
| `WordTally.PresentIffCounted` | word_tally.c:89-100 | a word is stored in some list exactly when its count is at least 1, so it can only sit in the list for its own length |
| `WordTally.UpdateWordInTallyList` | word_tally.c:76-104 | a NULL word or one longer than maxLen returns 0 and changes no list; otherwise it returns 1, the count of the word rises by exactly one, every other count stays, and the invariant is kept |
| `WordTally.UpdatedCounts` | word_tally.c:89-100 | insert-or-increment keeps every list's words at the list's length, counts at 1 or more and keys unique, adds exactly 1 to the word's count and changes no other count |
| `WordTally.TallyWordsInFile` | word_tally.c:24-71 | if the extractor cannot be created it returns 0 and leaves the lists untouched; otherwise it returns 1, reports the number of tokens read, and leaves exactly the tally of the tokens, built from empty lists and independent of earlier files |
| `WordTally.FeedCounts` | word_tally.c:55-62 | feeding tokens to a well-formed tally keeps it well-formed and adds to each storable word's count its number of occurrences among the tokens |
| `WordTally.TallyCounts` | word_tally.c:42-62 | the tally of a file counts every word of at most maxLen characters exactly as often as it occurs in the file, and longer words not at all |
| `WordTally.TallyContents` | word_tally.c:42-62 | a word is stored in the tally of a file exactly when it occurs in the file and is at most maxLen characters long |
| `WordTally.ResetAsWritten` | word_tally.c:42-44 | the reset loop as written nulls only the heads below maxLen and keeps the head for words of exactly maxLen characters |
| `WordTally.CarryOverAsWritten` | word_tally.c:42-44 | with the reset loop as written, a word of exactly maxLen characters is counted as its count from the previous file plus its occurrences in this file |
| `WordTally.CarryOverExample` | word_tally.c:42-44 | with maxLen 1, a first file "x x" and a second file "x", the reset as written counts "x" 3 times in the second file, where the correct tally counts it once |
| `HapaxMain.DeleteWordLists` | hapax_main.c:24-35 | afterwards every list 0 .. maxLen is empty, and on a tally whose lists are already empty it changes nothing |
| `HapaxMain.PrintData` | hapax_main.c:39-62 | reads the tally only and yields one (length, word, count) line per node, walking the lists in increasing length order |
| `HapaxMain.AllDataMembers` | hapax_main.c:51-60 | the dump has a line (l, w, c) exactly when list l exists and holds node (w, c) |
| `HapaxMain.AllDataOrdered` | hapax_main.c:51-60 | the lines of the dump are in increasing length order |
| `HapaxMain.AllDataAgreesWithCount` | hapax_main.c:51-60 | in a well-formed tally, every dump line gives a word, its own length and the tally's count for it, and every word with a positive count has its line |
| `HapaxMain.AllDataDistinct` | hapax_main.c:51-60 | in a well-formed tally no word is on two dump lines, so each node is listed exactly once |
| `HapaxMain.PrintHapax` | hapax_main.c:65-102 | reads the tally only and yields the count-1 words of every list for -1, of list hapaxLength for a positive length, and nothing otherwise |
| `HapaxMain.HapaxExact` | hapax_main.c:72-99 | a word is in the hapax report exactly when its count is 1 and the length filter admits it: -1 admits every length, a positive length admits only words of that length, and 0 or anything below -1 admits none; so no word counted twice or more ever appears |
| `HapaxMain.AllHapaxOrdered` | hapax_main.c:73-86 | the report across all lengths lists shorter words before longer ones |
| `HapaxMain.HapaxDistinct` | hapax_main.c:72-99 | in a well-formed tally the hapax report lists no word twice |
| `HapaxMain.FileHapax` | hapax_main.c:65-102 | after a file is tallied, a word is in the hapax report exactly when it occurs once in the file, fits a list, and passes the length filter |
| `HapaxMain.FileData` | hapax_main.c:39-62 | after a file is tallied, the dump has the line (\|w\|, w, c) exactly when w fits a list and occurs c >= 1 times in the file |
| `HapaxMain.HeadsCoverIff` | hapax_main.c:149-154 | every word that passes the length check against maxLen has its head inside an array of n heads exactly when maxLen < n |
| `HapaxMain.MainAllocationAsWritten` | hapax_main.c:149-154 | main's array of MAX_WORD_LEN heads, with MAX_WORD_LEN as the length limit, does not cover every admitted word |
| `HapaxMain.NewWordLists` | hapax_main.c:147-154 | allocates maxLen + 1 heads, all NULL, which cover every word the length check admits |

## Findings

| source | as written | input that shows it | evidently intended | confidence | as-written member | corrected member |
|---|---|---|---|---|---|---|
| word_tally.c:42-44 | the reset loop stops at `i < maxLen`, so the head for words of exactly maxLen characters is not nulled. The length check and insert (word_tally.c:84-99) and the release and report loops (hapax_main.c:29, 51, 75) use heads 0 .. maxLen. main's declaration, init loop and per-file cleanup (hapax_main.c:149, 152, 220) stop at maxLen - 1, like the reset loop | with an array of maxLen + 1 heads and maxLen 1: a first file "x x", then a second file "x"; the second tally counts "x" 3 times | null every head 0 .. maxLen before counting | not executed | `WordTally.CarryOverAsWritten` | `WordTally.TallyWordsInFile` |
| hapax_main.c:149-154 | main declares `MAX_WORD_LEN` heads and passes `MAX_WORD_LEN` as the length limit | any word of 24 characters: it passes the length check (word_tally.c:84) and is written through head 24 (word_tally.c:90-99), one past the 24-element array. Beyond what the as-written member shows, the loop bounds at hapax_main.c:51 and :75 alone mean that `printHapax` with the default `-l` of -1, and `printData` under `-d`, read head 24 for every file | declare `MAX_WORD_LEN + 1` heads and null all of them (hapax_main.c:149, 152) | not executed | `HapaxMain.MainAllocationAsWritten` | `HapaxMain.NewWordLists` |

The two rows interact. Three loops stop at maxLen - 1:

- main's init loop (hapax_main.c:152);
- the reset loop (word_tally.c:42);
- main's per-file cleanup (hapax_main.c:220).

With main's 24 heads, those loops cover every head that exists. But the
reports read past the array for every file, because the all-lengths hapax
report and the full dump walk heads 0 .. 24. A 24-character word also
writes past the array. Declaring 25 heads alone is not enough: none of the
three loops reaches head 24, so it is never initialised before the first
file. Once it has been nulled, the reset loop never clears it again and the
cleanup never frees its list, so from the second file on the counts of
24-character words carry over. `NewWordLists` allocates and nulls all
maxLen + 1 heads, and `TallyWordsInFile` resets all of them.

## Left out

- Opening the file and splitting it into words (`weCreateExtractor`, `weHasMoreWords`, `weGetNextWord`, `weDeleteExtractor`): the extractor is not part of this model, so the tokens are a parameter.
- The list library (`llLookupKey`, `llPrepend`, `llNewNode`, `llFree`) is not part of this model. It is modelled by its effect on a sequence: find the first node with the key, prepend, clear.
- Memory ownership: `deleteKey`, the key and node frees of `deleteWordLists`, and main's `llFree(..., NULL, NULL)` cleanup, which leaks keys and does not null the heads. Only the lists' contents are modelled.
- Printed text: the headers, the filename in them, `Error.` on a rejected word, and the `Total word count` line. The token total is returned as `totalWordCount`, and the reports return their lines as sequences.
- `usage()`, main's option loop (`-d`, `-h`, `-l N` and its all-digits check), the per-file driver loop and the exit codes: these are command-line plumbing.
- Counts are unbounded integers. The C `int` overflow is not modelled, either for `value++` after 2^31 - 1 occurrences of one word (word_tally.c:96) or for `totalWordCount++` after 2^31 - 1 tokens in one file (word_tally.c:53, 57). The model's `totalWordCount` is a `nat`.
- A Dafny `string` here stands for the C byte string, one `char` per byte. So `|w|` is `strlen(w)`, both in the length check and in the bucket index (word_tally.c:84, 90). Multi-byte UTF-8 text is not modelled: the model does not capture that the C files "café" under length 5, as it has 5 bytes.
- `maxLen` is a natural number; the C code's `strlen(word) > maxLen` comparison with a negative `maxLen` is not modelled.
