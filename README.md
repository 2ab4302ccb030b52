# ABP list cleaner, modelled in Dafny

This project models the cleaning step of `process_abp_list` in ABPCleaner.py.
The step reads a file of domains (one per line) and writes an ad-block rule
document, `ABPcleanedList.txt`. It runs in four stages:

1. **Loading** (`Loader`). Each line of the file is stripped, blank lines are
   dropped, and the rest are collected into a set. This removes duplicates
   that are equal once stripped.
2. **De-duplication and grouping** (`Grouper`). The set is visited in some
   order. An entry whose lower-cased form was seen before is skipped. Every
   other lower-cased form is recorded in `seen_normalized`. The entry's sort
   key is its lower-cased form with one leading `||` removed, then one leading
   `www.` removed. An entry whose key is empty is dropped. Every other entry
   is appended to the bucket named by the upper-cased first character of its
   key.
3. **Sort key and standardiser** (`Normalizer`). `get_sort_val` computes the
   same key as the grouping loop. The standardiser prepends `||` to an entry
   unless it already starts with `||`, and appends `^` unless the entry
   already contains a `^`.
4. **Formatting** (`Formatter`). Bucket names are sorted. Each bucket gives a
   header `#[K]`, its entries sorted stably by sort key and standardised, and
   a blank line. The lines are joined with `"\n"`.

`Cleaner.ProcessAbpList` runs the whole step. Its input is the text of the
input file. It returns the text handed to `f.write` and the count that the
success message reports.

Python strings are modelled as `seq<char>`. `Text` gives the Python string
operations the cleaner relies on:

- `str.strip`, over Python's full `str.isspace` set;
- ASCII `lower` and `upper`;
- `startswith`;
- splitting a file's text into lines;
- `"\n".join`.

`Lex` gives Python's lexicographic string order. `Formatter.SortBy` is an
insertion sort that is stable, like Python's `sorted`.

Python gives no order for iterating a set. The loop is therefore modelled
over an arbitrary enumeration of the loaded set: `Grouper.Enumerate` picks
each next element without saying which. The contracts hold for every
enumeration. `Grouper.Survivors(order)` gives, for each lower-cased form,
the entry that comes first in `order`.

**The code de-duplicates by lower-cased form, not by sort key.** Example:
`example.com` and `WWW.Example.com` lower-case to different strings, so both
survive. They land in the same bucket `#[E]` and tie under the in-bucket
sort. The comment at ABPCleaner.py:112 names only case variants such as
`Example.com`, and line 114 tests `norm`, not `sort_key`.
`Cleaner.WwwVariantKept` proves that both variants are kept.

## Model

In the table, "double bar" stands for the marker `||`.

| member | source | states |
|---|---|---|
| Text.Strip | ABPCleaner.py:105 | the stripped line is a slice of the line with only whitespace before and after it. If it is non-empty, it neither starts nor ends with whitespace. It is empty exactly when the line is all whitespace |
| Text.Lower | ABPCleaner.py:113 | the lower-cased string has the length of the entry, and each character is the lower-case form of the entry's character at that place |
| Text.SplitLines | ABPCleaner.py:103-105 | a file's text yields at least one line, and no line holds a line break |
| Text.Join | ABPCleaner.py:159 | joining no lines gives the empty text. Otherwise the text starts with the first line |
| Text.StripIdempotent | ABPCleaner.py:105 | stripping twice is stripping once |
| Text.SplitJoin | ABPCleaner.py:159 | splitting the `"\n"`-joined lines at line breaks gives back the lines, provided no line holds a line break |
| Text.JoinSplit | ABPCleaner.py:159 | joining the lines of a text that uses `\n` alone as line break gives back the text |
| Loader.Load | ABPCleaner.py:105 | the loaded set holds no empty entry, and it holds exactly the non-empty stripped lines |
| Loader.LoadedEntriesStripped | ABPCleaner.py:105 | every loaded entry is its own strip, so it neither starts nor ends with whitespace |
| Loader.LoadNoLineBreak | ABPCleaner.py:105 | when no line holds a line break, no loaded entry does |
| Loader.ReadEntries | ABPCleaner.py:103-105 | every entry read from a file is non-empty, is its own strip and holds no line break |
| Lex.LessEqTotal | ABPCleaner.py:145 | the string order used to compare sort keys is total |
| Lex.LessEqTransitive | ABPCleaner.py:145 | the string order is transitive |
| Lex.LessEqAntisymmetric | ABPCleaner.py:145 | the string order is antisymmetric |
| Normalizer.SortKey | ABPCleaner.py:139-143 | the sort key is what is left of the lower-cased entry once a prefix is removed. The prefix is `""`, double bar, `www.` or double bar + `www.`. It holds double bar exactly when the lower-cased entry starts with double bar. It holds `www.` exactly when what follows the optional double bar starts with `www.` |
| Normalizer.SortKeyIgnoresMarkers | ABPCleaner.py:119-123 | take an entry whose lower-cased form starts with neither double bar nor `www.`. Its key is that lower-cased form, and adding a leading double bar, `www.` or double bar + `www.` does not change the key |
| Normalizer.SortKeyOfLower | ABPCleaner.py:119-123 | entries equal once lower-cased have the same key and the same bucket letter |
| Normalizer.SortKeyEmpty | ABPCleaner.py:125-126 | an entry's key is empty exactly when it lower-cases to `""`, double bar, `www.` or double bar + `www.` |
| Normalizer.Letter | ABPCleaner.py:128 | the bucket letter is not an ASCII lower-case letter, and lower-casing it gives the first character of the sort key |
| Normalizer.LetterNoLineBreak | ABPCleaner.py:128 | the bucket letter of an entry without line breaks is not a line break |
| Normalizer.Standardize | ABPCleaner.py:149-152 | the rule starts with double bar and contains `^`. It is the entry with double bar prepended, `^` appended, both or neither. It equals the entry exactly when the entry starts with double bar and contains `^`. Double bar is prepended exactly when the entry does not start with it, and `^` is appended exactly when the entry does not contain one |
| Normalizer.StandardizeIdempotent | ABPCleaner.py:149-152 | standardising a rule twice is standardising it once |
| Normalizer.StandardizeNoLineBreak | ABPCleaner.py:149-152 | the standardiser adds no line break |
| Grouper.Enumerate | ABPCleaner.py:111 | the visiting order lists each element of the set exactly once |
| Grouper.VisitDomain | ABPCleaner.py:112-129 | one loop turn adds the lower-cased entry to `seen`. It leaves the buckets unchanged when that form was seen before or the key is empty. Otherwise it appends the entry to the bucket of its letter, creating the bucket if needed |
| Grouper.GroupStep | ABPCleaner.py:111-129 | one loop turn moves `seen` and the buckets from their values for the entries visited so far to their values one entry later |
| Grouper.GroupDomains | ABPCleaner.py:107-129 | after the loop, `seen` is the set of lower-cased entries. The buckets are those of the first entry of each lower-cased form in visiting order |
| Grouper.SurvivorsCover | ABPCleaner.py:113-116 | the kept entries have, between them, every lower-cased form of the input |
| Grouper.SurvivorsDistinctLower | ABPCleaner.py:113-116 | no two kept entries have the same lower-cased form |
| Grouper.SurvivorsAreFirstOccurrences | ABPCleaner.py:113-116 | an entry is kept exactly when no earlier entry in visiting order has its lower-cased form |
| Grouper.SurvivorsWithoutVariants | ABPCleaner.py:113-116 | when no two entries share a lower-cased form, every entry is kept |
| Grouper.SurvivorsCount | ABPCleaner.py:108-116 | the number of kept entries is the number of distinct lower-cased forms |
| Grouper.GroupedPartition | ABPCleaner.py:125-129 | every bucket is non-empty. Each bucketed entry is a kept entry with a non-empty key, in the bucket of its letter. Every such kept entry is in its bucket. No entry with an empty key is in any bucket |
| Grouper.GroupedNoLowerDuplicates | ABPCleaner.py:113-129 | no two bucketed entries, in one bucket or in two, share a lower-cased form |
| Grouper.EveryFormRepresented | ABPCleaner.py:113-129 | for any visiting order, every lower-cased form with a non-empty key has an entry in its letter's bucket. No form with an empty key has one |
| Grouper.BucketKeysOrderIndependent | ABPCleaner.py:111-129 | for any visiting order, the bucket names are the letters of the entries with a non-empty key |
| Formatter.SortedKeys | ABPCleaner.py:132 | the sorted bucket names are in strictly ascending order and are exactly the bucket names |
| Formatter.Header | ABPCleaner.py:136 | the header line has the shape `#[K]` and names the bucket K |
| Formatter.SortBy | ABPCleaner.py:145 | the sorted bucket is a permutation of the bucket |
| Formatter.SortBySorted | ABPCleaner.py:145 | the sorted bucket is in non-decreasing key order |
| Formatter.SortByStable | ABPCleaner.py:145 | entries with equal keys keep their relative order |
| Formatter.Ordered | ABPCleaner.py:145 | the bucket sorted by `get_sort_val` has the same entries, each as often as before |
| Formatter.OrderedSortedStable | ABPCleaner.py:139-145 | a bucket sorted by `get_sort_val` is in non-decreasing key order, and entries with equal keys keep the order they were appended in |
| Formatter.FormatBucket | ABPCleaner.py:135-155 | the lines of one bucket are its header, then each entry standardised in order, then a blank line |
| Formatter.FormatGroups | ABPCleaner.py:132-155 | the output lines are the blocks of the buckets, concatenated in ascending order of bucket name |
| Formatter.EmitBucket | ABPCleaner.py:135-155 | one turn of the formatting loop extends the lines of the earlier buckets by the block of the next bucket |
| Formatter.OutputLineShapes | ABPCleaner.py:135-155 | every output line is a header `#[K]`, a blank line, or a rule that starts with double bar and contains `^` |
| Formatter.OutputHeaders | ABPCleaner.py:132-136 | the headers of the output name every bucket exactly once, in strictly ascending order |
| Formatter.Document | ABPCleaner.py:158-159 | when there is a bucket, the document starts with the header of the smallest bucket name and ends in `\n` |
| Formatter.DocumentEmpty | ABPCleaner.py:132-159 | the document is empty exactly when there is no bucket |
| Formatter.DocumentLines | ABPCleaner.py:155-159 | a non-empty document ends in `\n`, and splitting it at line breaks gives back the output lines, provided no bucket name or entry holds a line break |
| Cleaner.ProcessAbpList | ABPCleaner.py:102-161 | the document is the cleaned output for the order the set was visited in, and the count is the number of distinct lower-cased entries |
| Cleaner.ProcessedCount | ABPCleaner.py:116-161 | the reported count is the number of kept entries, including those later dropped for an empty key |
| Cleaner.CleanedEmpty | ABPCleaner.py:125-159 | the document is empty exactly when no entry has a non-empty key |
| Cleaner.HeadersOrderIndependent | ABPCleaner.py:111-136 | which buckets the document announces, and in what order, does not depend on the set's iteration order |
| Cleaner.CleanedLines | ABPCleaner.py:103-159 | for a file's entries, a non-empty document ends in `\n`, and its lines are the output lines |
| Cleaner.StandardizeExamples | ABPCleaner.py:149-152 | double bar + `already.formatted^` is written unchanged, and `foo.net` becomes double bar + `foo.net^` |
| Cleaner.WwwVariantKept | ABPCleaner.py:113-129 | an entry and its `www.` variant have the same letter and are distinct lower-cased forms. Each is represented in that bucket, whatever the visiting order |
| Cleaner.MarkerOnlyDropped | ABPCleaner.py:113-129 | entries that lower-case to `""`, double bar, `www.` or double bar + `www.` give an empty document, yet a non-empty input of them gives a non-zero count |
| Cleaner.EmptyInput | ABPCleaner.py:103-159 | an empty input file gives an empty document |
| Cleaner.VariantsCollapse | ABPCleaner.py:105-116 | lines that differ only in surrounding whitespace or in case leave one kept entry and a count of one |

## Left out

- File discovery, the directory listing and the `input()` prompt (ABPCleaner.py:87-96) are operating-system and user I/O. They are not modelled.
- The existence check and its error message (ABPCleaner.py:98-100) are not modelled.
- Opening and reading the input file (ABPCleaner.py:103) is not modelled. The model takes the file's text as input.
- Writing `ABPcleanedList.txt` (ABPCleaner.py:158-159) is not modelled. The model returns the string handed to `f.write`.
- The console messages (ABPCleaner.py:94, 99, 161) are not modelled. `ProcessAbpList` returns the reported count instead.
- UTF-8 decoding is not modelled. The text is taken as already decoded.
- The commented-out earlier implementation (ABPCleaner.py:1-78) is dead code and is not modelled.
- Text.LowerChar and Text.UpperChar map ASCII letters only. Python's full Unicode case mapping is not modelled, including changes of length such as `'ß'.upper() == 'SS'`.
- Text.SplitLines splits at every `\n` and `\r`. Python's line iteration yields no empty piece inside `\r\n` and none after a final line break. The pieces that differ are empty, and the loader drops empty lines, so the loaded set is the same.
- Grouper.Enumerate does not model CPython's concrete set order. It stands for any order that lists each element once.
- Cleaner.ProcessAbpList returns its visiting order as a ghost value, so the order is not part of the compiled result.
