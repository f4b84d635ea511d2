# lgr ledger core in Dafny

lgr is a command-line ledger. It keeps a list of transaction records, sorted by
date, in a TAB-separated text file, one record per line, in the form
`yyyy-mm-dd<TAB>amount<TAB>category<TAB>description`. Amounts are whole cents.

This project models the in-memory core of lgr. The C singletons and structs
become immutable datatypes, and every operation returns the updated value.
The project has one module per source unit:

- `Dates` (`inc/date.h`) and `Civil` (`src/date.c`) cover packed `yyyymmdd`
  dates. They include the component getters and setters, the validity checks,
  the year, month and day shifts, the ISO text and the pretty format. They also
  include the day-offset arithmetic of `dt_d2o` and its inverse, and the
  `dt_d2s`, `dt_s2d` and `dt_s2o` conversions.
- `Util` (`src/util.c`) covers digit counting, 64-bit addition, max and
  min, the monetary text `util_fmtcents`, its length `util_fmtcentslen`, and
  `util_stoi`.
- `Records` (`src/record.c`) covers record validation and construction, the
  serialization, and the parser of the serialized form.
- `RecordLists` and `RecordFiles` (`src/recordlist.c`) cover:
  - the sorted record list with its active slice;
  - binary search, insertion and deletion;
  - slicing by date and filtering by category or description;
  - loading the list from file text, line by line.
- Four modules cover the insertion-ordered hash table of `src/hashtable.c`:
  - `HashTables`: the table, FNV-1a hashing, open addressing with linear
    probing, tombstones, and the invariant;
  - `HashUpdates`: rehashing, `ht_new`, insertion, deletion and lookup;
  - `HashIteration`: iteration and the sum, max and min aggregates;
  - `HashSorting`: sorting by key or by value.

  `Sorting` is the reference insertion sort that stands in for `qsort`.
- `RecordTrees` and `TreePrint` (`src/recordtree.c`) cover the year, month and
  day tree over the active slice, the lines `rt_print` writes for it, and the
  widths it computes. The day lines keep the code's day suffix, "rd" for the
  20th and 30th included; the corrected suffix is described under
  "## Findings".
- `Program` (`src/program.c`) covers the argument parsers `xn`,
  `prog_parsey`, `prog_parsem`, `prog_parsedt` and `prog_parsecents`.
- `Base` and `Text` hold shared definitions:
  - `Option`;
  - 64-bit bounds and C's truncating division;
  - decimal text, as `printf` writes it and `strtol` reads it;
  - lowercasing, splitting and joining.

Strings are `seq<char>`, with one character per C byte. They contain no NUL
character, except where a member explicitly models a C buffer. Integers are
unbounded. Where the C code depends on the width of a type, the contract says
so, through `IsInt64`, the 31-byte key limit, the 148-character record text
or the 27-byte copy buffer.

## Model

| member | source | states |
|---|---|---|
| Civil.D2OParts | src/date.c:21-32 | The day offset from 0000-03-01 decomposes into whole 400-year eras, the year start within the era, the month start counted from March, and the day. |
| Civil.D2OExamples | src/date.c:20-32 | 0000-03-01 is offset 0, 0000-02-29 is offset -1 and 0000-03-02 is offset 1. |
| Civil.EraIsFloor | src/date.c:27-28 | The era computation `(y >= 0 ? y : y - 399) / 400`, on truncating division, is floor division by 400, and the year of era lies in 0..399. |
| Civil.D2ONext | src/date.c:21-32 | The offset of the next calendar day is one more than the offset of the day. |
| Civil.D2OMonotone | src/date.c:21-32 | A strictly later calendar date has a strictly larger offset. |
| Civil.D2OInjective | src/date.c:21-32 | Two calendar dates with the same offset are equal. |
| Civil.O2DThenD2O | src/date.c:35-38 | The inverse conversion from an offset yields a calendar date whose offset is the given one. |
| Civil.D2OThenO2D | src/date.c:35-38 | Converting a calendar date to an offset and back yields the same date. |
| Civil.S2D | src/date.c:65-98 | Parsing succeeds exactly when the text has 10 characters and each of the three fixed-width fields parses as a decimal number, and then yields those numbers. |
| Civil.S2DIgnoresSeparators | src/date.c:76-90 | The characters at positions 4 and 7 are never inspected. |
| Civil.S2DExample | src/date.c:65-98 | "2000-02-29" parses to year 2000, month 2, day 29. |
| Civil.S2O | src/date.c:107-113 | The status is true exactly when `dt_s2d` succeeds, and then the value is the date's day offset; otherwise the value is 0. |
| Civil.D2S | src/date.c:47-59 | Success is reported exactly when the full `%04hd-%02hhd-%02hhd` text has 10 characters. The result is always a prefix of that text, truncated to the 11-byte buffer. |
| Civil.D2SSuccess | src/date.c:47-59 | `dt_d2s` succeeds exactly when the year is in -999..9999 and the month and the day are in -9..99, and then writes the full text. |
| Civil.S2DOfD2S | src/date.c:47-98 | Reading back a date that `dt_d2s` wrote in full yields the same date. |
| Dates.PackThenGet | inc/date.h:10-18 | `dt_gety`, `dt_getm` and `dt_getd` recover the components given to `dt_dt`, for a non-negative year and a month and day in 0..99. |
| Dates.GetThenPack | inc/date.h:10-18 | Packing the components of any non-negative packed date yields that date. |
| Dates.IsDatePacked | inc/date.h:26-29 | A packed date is valid exactly when its year is in 1..9999 and its month and day form a calendar date. |
| Dates.PackingExamples | test/tdate.c:21-25 | `dt_dt(1,2,3)` is 10203 and `dt_getd(19991204)` is 4. 19991231 is valid and 19990231 is not. 20000229 is valid and 20010229 is not. |
| Dates.SetY | inc/date.h:20-23 | Setting the year replaces the year and keeps the month and the day. |
| Dates.SetM | inc/date.h:20-23 | Setting the month replaces the month and keeps the year and the day. |
| Dates.SetD | inc/date.h:20-23 | Setting the day replaces the day and keeps the year and the month. |
| Dates.SetterExample | test/tdate.c:23-25 | `dt_setm(19991231, 2)` is 19990231, which is invalid. |
| Dates.ShiftY | inc/date.h:31-34 | The result is valid exactly when the shifted year is valid. It then has the shifted year and the same month, with the day clamped to the last day of that month. |
| Dates.ShiftM | inc/date.h:31-35 | The result is valid exactly when the year of the shifted month count is valid. It then has that year and month, with the day clamped to the month's length. |
| Dates.ShiftMMonths | inc/date.h:31-35 | The total number of months, 12 times the year plus the month, moves by exactly the offset. |
| Dates.ShiftD | inc/date.h:31-36 | The result is valid exactly when the shifted day offset lands in a valid year, and its day offset then differs from the input's by exactly the shift. |
| Dates.ShiftByZero | test/tdate.c:34-44 | Shifting a valid date by 0 years, months or days yields the same date. |
| Dates.ShiftDInverse | inc/date.h:31-36 | Shifting a valid date by n days and then by -n days returns the original date whenever the intermediate date is valid. |
| Dates.ShiftDCompose | inc/date.h:31-36 | Shifting by a days and then by b days equals shifting by a+b days when the intermediate date is valid. |
| Dates.ShiftYLeapDay | test/tdate.c:35 | `dt_shifty(20000229, 1)` is 20010228. |
| Dates.ShiftYNextYear | test/tdate.c:33 | `dt_shifty(10101, 1)` is 20101. |
| Dates.ShiftYBeforeFirst | test/tdate.c:37 | `dt_shifty(10101, -1)` is invalid. |
| Dates.ShiftMForward | test/tdate.c:41 | `dt_shiftm(20000131, 25)` is 20020228. |
| Dates.ShiftMBackward | test/tdate.c:42 | `dt_shiftm(20000131, -25)` is 19971231. |
| Dates.ShiftMPastEnd | test/tdate.c:40 | `dt_shiftm(99991231, 1)` is invalid. |
| Dates.ShiftDBack300 | test/tdate.c:46 | `dt_shiftd(99991231, -300)` is 99990306. |
| Dates.ShiftDBeforeFirst | test/tdate.c:45 | `dt_shiftd(10101, -1)` is invalid. |
| Dates.FromIso | inc/date.h:44-45 | The packed date's components are the decimal values of the three fixed-width fields. |
| Dates.FromIsoValid | inc/date.h:44-45 | The converted date is valid exactly when its year is 1..9999 and its fields form a calendar date. |
| Dates.ToIso | inc/date.h:47-49 | The ISO text has exactly `DT_ISOLEN` (10) characters. |
| Dates.ToIsoThenFromIso | inc/date.h:41-49 | The ISO text of a valid date has the `yyyy-mm-dd` shape and converts back to the same date. |
| Dates.FromIsoThenToIso | inc/date.h:41-49 | Any `yyyy-mm-dd` text naming a valid date is the ISO text of its conversion. |
| Dates.IsIsoExamples | test/tdate.c:59-63 | "1234-56-78" has the ISO shape; "1234-565-78", "1234-56-7", "a234-56-78" and "1234056-78" do not. |
| Dates.FromIsoExample | test/tdate.c:65 | "1234-01-23" converts to 12340123. |
| Dates.FromIsoLeapDay | test/tdate.c:66 | "2000-02-29" converts to 20000229. |
| Dates.FromIsoNoLeapDay | test/tdate.c:67 | "2001-02-29" converts to an invalid date. |
| Dates.ToIsoExample | test/tdate.c:69 | The ISO text of 10101 is "0001-01-01". |
| Dates.Mmm | inc/date.h:38-39 | Every short month name has three characters. |
| Dates.MmmInjective | inc/date.h:38-39 | Different months have different short names. |
| Dates.MmmExamples | test/tdate.c:55-57 | Months 1, 6 and 12 are "Jan", "Jun" and "Dec". |
| Dates.Fmt | inc/date.h:51-53 | The pretty text is 11 or 12 characters long. |
| Dates.FmtParts | inc/date.h:51-53 | The pretty text is the short month name, a space, the unpadded day, ", " and the four-digit year. |
| Dates.FmtFirstDay | test/tdate.c:71 | The pretty text of 10101 is "Jan 1, 0001". |
| Dates.FmtTenthDay | test/tdate.c:72 | The pretty text of 10110 is "Jan 10, 0001". |
| Util.Digits | src/util.c:18-24 | The count is the number of decimal digits of the magnitude, plus one for the sign when `negsign` is set and the number is negative. |
| Util.DigitsIsTextLength | src/util.c:18-24 | The digit count with the sign counted equals the length of the `printf` text. |
| Util.Add | src/util.c:26-29 | The sum is a 64-bit value and undoes the subtraction of `y`. |
| Util.Max | src/util.c:31-34 | The result is one of the two arguments and is at least both of them. |
| Util.Min | src/util.c:36-39 | The result is one of the two arguments and is at most both of them. |
| Util.FmtCents | src/util.c:41-64 | The reversed-buffer algorithm writes exactly the monetary text: an optional '-', the whole units with thousands separators, '.' and two cent digits. The returned length is the text's length. |
| Util.FmtCentsLen | src/util.c:66-74 | The computed length equals the length of the text `util_fmtcents` writes. |
| Util.CentsTextLength | src/util.c:66-74 | The monetary text's length is the sign, the whole-unit digits with one separator per full group of three, and three characters for the '.' and the cents. |
| Util.CentsTextBound | src/util.c:41-64 | The monetary text of any 64-bit value has at most 26 characters. |
| Util.CentsTextMonotone | src/util.c:66-74 | Numbers of larger magnitude on the same side of zero never have shorter monetary text. |
| Util.GroupLength | src/util.c:50-53 | Grouping n digits adds (n-1)/3 separators. |
| Util.Stoi | src/util.c:76-84 | Success holds exactly when the whole text is a decimal number within 64 bits, and the value is then that number; on failure the value is 0. |
| Util.StoiEmpty | src/util.c:83 | The empty text is refused with value 0. |
| Util.StoiOfIntToString | src/util.c:76-84 | Any 64-bit number written by `printf` is read back exactly. |
| Records.Prefix | src/record.c:24-31 | The stored category or description is the longest prefix of the input within its field's limit, and is the whole input when it fits. |
| Records.Init | src/record.c:10-34 | `rec_init` refuses exactly a zero amount, an amount outside ±REC_AMT_MAX, an empty category, a category with a TAB, or an invalid date. Otherwise the record is valid and holds the date, the amount, the lowercased category cut to 23 characters and the description cut to 91 characters. |
| Records.InitOfValid | src/record.c:10-34 | Re-initializing from the fields of a valid record yields that record. |
| Records.ToStr | src/record.c:75-87 | The text has three TABs more than the description has. |
| Records.Fields | src/record.c:44-59 | Splitting succeeds exactly when the text has at least three TABs. The first three fields contain no TAB, and joining the four fields with TABs gives the text back. |
| Records.FromStr | src/record.c:36-73 | A parsed record is valid, and a text with fewer than three TABs is refused. |
| Records.FromStrFields | src/record.c:61-72 | Parsing four fields yields `rec_init` of the ISO date, the `util_stoi` amount, the category and the description, and refuses when any of these steps refuses. |
| Records.FromStrOfToStr | src/record.c:36-87 | The serialization of a valid record is a C string of at most REC_STRLEN characters that parses back to the same record. |
| Records.AmountLength | inc/record.h:25-30 | The decimal text of an amount within ±REC_AMT_MAX fits the 21 characters reserved for it. |
| Records.RejectsBadDate | test/trecord.c:44 | A text whose date field is not `yyyy-mm-dd` is refused. |
| Records.RejectsZeroAmount | test/trecord.c:45-46 | A text whose amount field reads as 0, including an empty field, is refused. |
| Records.RejectsEmptyCategory | test/trecord.c:47 | A text with an empty category is refused. |
| Records.TwoTabsExample | test/trecord.c:48 | "2020-01-03\t4000\tmisc" has too few delimiters and is refused. |
| Records.MiscExample | test/trecord.c:36-39 | "2020-01-03\t4000\tmisc\t" parses to the record of 2020-01-03, 4000 cents, "misc" and an empty description. |
| Records.MiscStuffExample | test/trecord.c:40-43 | "2020-01-03\t-4000\tmisc\tstuff" parses to the record with -4000 cents and description "stuff". |
| RecordLists.Get | src/recordlist.c:33-38 | There is no record for an index outside the list; otherwise the result is the record at that index. |
| RecordLists.UpperBound | src/recordlist.c:122-137 | Every record before the bound is dated at most `dt`, and every record from it on is dated later. |
| RecordLists.UpperBoundUnique | src/recordlist.c:122-137 | Only one position of a sorted list separates the records dated at most `dt` from the later ones. |
| RecordLists.Bsr | src/recordlist.c:126-137 | The binary search returns the index of the first record dated after `dt`. |
| RecordLists.Bsl | src/recordlist.c:141-144 | `rl_bsr(dt - 1)` returns the index of the first record dated at or after `dt`. |
| RecordLists.BsrIsUpperBound | src/recordlist.c:126-137 | The binary search agrees with the reference upper bound. |
| RecordLists.Insert | src/recordlist.c:146-156 | The record is inserted at the upper bound of its date. The list grows by exactly that record and the others keep their order. |
| RecordLists.InsertSorted | src/recordlist.c:146-156 | Inserting at the upper bound keeps the list sorted by date. |
| RecordLists.InsertSlice | src/recordlist.c:150-154 | The slice start moves up by one exactly when the insertion position is at or before it. The slice stop moves up by one exactly when the position is strictly before it. |
| RecordLists.InsertIntoEmptySlice | src/recordlist.c:150-154 | Inserting at the position of an empty slice makes the bounds cross. |
| RecordLists.InsertInv | src/recordlist.c:146-156 | Insertion keeps the list sorted and valid and the slice bounds within it. |
| RecordLists.Delete | src/recordlist.c:158-168 | An index outside the list changes nothing and returns false. Otherwise exactly that record is removed, and a slice bound moves down by one exactly when the index is strictly below it. |
| RecordLists.DeleteInv | src/recordlist.c:158-168 | Deletion keeps the list sorted and valid and the slice bounds within it. |
| RecordLists.DeleteUndoesInsert | src/recordlist.c:146-168 | Deleting the record at the position where it was just inserted restores the list and its slice. The exception is an insertion into an empty slice at its own position. |
| RecordLists.ResetSlice | src/recordlist.c:173-178 | The slice covers the whole list, and the result is its length. |
| RecordLists.Slice | src/recordlist.c:180-185 | A record is in the new slice exactly when its date lies in `dt0`..`dt1`. The result is the signed difference of the bounds, which is non-negative when `dt0 <= dt1`. |
| RecordLists.SliceBySearch | src/recordlist.c:180-185 | The binary-search implementation agrees with the reference slice. |
| RecordLists.Patterns | src/recordlist.c:189-209 | The patterns are the delimiter-separated pieces of the text, lowercased, and there is at least one of them. |
| RecordLists.EmptyPatternText | src/recordlist.c:189-199 | An empty pattern text yields the single empty pattern. |
| RecordLists.Filter | src/recordlist.c:211-262 | Only the slice's records whose lowercased field contains one of the patterns stay, in their order. The records outside the slice are untouched, and the slice shrinks to the kept records. |
| RecordLists.FilterInv | src/recordlist.c:211-262 | Filtering keeps the list sorted and valid and the slice bounds within it. |
| RecordLists.KeptMembers | src/recordlist.c:211-262 | A record is kept exactly when it was in the slice and matches a pattern. |
| RecordLists.KeptIdempotent | src/recordlist.c:211-262 | Filtering twice with the same patterns keeps the same records as filtering once. |
| RecordLists.EmptyPatternKeepsAll | src/recordlist.c:211-262 | An empty pattern matches every record, so nothing is filtered out. |
| RecordLists.KeptSorted | src/recordlist.c:211-262 | The kept records are still sorted by date. |
| RecordFiles.ScanFacts | src/recordlist.c:50-73 | The length scan reports the first line longer than REC_STRLEN, and reports too many lines only when there are more than RL_MAXCOUNT. Otherwise it reports the line count. |
| RecordFiles.Chunks | src/recordlist.c:79-92 | Every piece `fgets` reads is non-empty and fits its buffer. |
| RecordFiles.RoomyBufferReadsLines | src/recordlist.c:79-92 | With a buffer one character wider than any line, each `fgets` read is exactly one line with its newline stripped. |
| RecordFiles.ParseAll | src/recordlist.c:79-92 | Deserialization either parses every line or reports the first line that does not parse. |
| RecordFiles.Init | src/recordlist.c:48-99 | The corrected loader installs one record per line, each parsed from its line, with the slice covering them all. Otherwise it reports the number of the first over-long line. When all lines fit, it reports the number of the first line that does not parse, all earlier lines having parsed. It reports too many lines only for more than RL_MAXCOUNT lines. |
| RecordFiles.InitAccepts | src/recordlist.c:48-99 | Text made of the serializations of sorted valid records, one per line, loads as exactly those records. |
| RecordFiles.InitAsWritten | src/recordlist.c:48-99 | The loader as written reports too many lines only when the text has more than RL_MAXCOUNT lines. |
| RecordFiles.AsWrittenAgrees | src/recordlist.c:48-99 | When no line has exactly REC_STRLEN characters, the loader as written and the corrected loader agree. This covers files with longer lines, which both reject at the same line. |
| RecordFiles.ExactWidthLineRejected | src/recordlist.c:50-92 | Two copies of a valid 148-character record line make the loader as written fail at line 2, while the corrected loader loads both records. |
| RecordFiles.WideLineParses | src/recordlist.c:79-92 | A record line of exactly REC_STRLEN characters exists, and it parses. |
| HashTables.Hash | src/hashtable.c:80-100 | The hash is a 64-bit unsigned value. |
| HashTables.MatchIsEquality | src/hashtable.c:102-115 | For keys the table can hold, `keysmatch` holds exactly for equal keys. |
| HashTables.Search | src/hashtable.c:117-142 | The probe stops at an in-range slot holding the key, EMPTY, or a tombstone when tombstones are wanted, and it passes only slots that do not qualify. |
| HashTables.SearchFinds | src/hashtable.c:117-142 | A search that skips tombstones stops on EMPTY exactly when the key is absent; otherwise the slot's item holds the key. |
| HashTables.SearchMisses | src/hashtable.c:117-142 | For an absent key the probe stops at EMPTY, or at a tombstone when tombstones are wanted. |
| HashUpdates.Rehash | src/hashtable.c:144-155 | Rebuilding the buckets at a capacity that leaves an EMPTY bucket keeps the items. Every live item is found from its home bucket, and no tombstone is left. |
| HashUpdates.New | src/hashtable.c:44-66 | A new table is empty, satisfies the invariant, and has 8 buckets. |
| HashUpdates.Insert | src/hashtable.c:193-222 | An existing key changes nothing and its value is returned. A new key is appended with its value, the map gains exactly that entry, and the bucket array stays or doubles. |
| HashUpdates.InsertNew | src/hashtable.c:201-221 | Inserting an absent key appends its entry and grows the live count by one. |
| HashUpdates.AddNew | src/hashtable.c:215-221 | The new item takes the first EMPTY or tombstone bucket on its probe path, and the buckets stay consistent. |
| HashUpdates.Delete | src/hashtable.c:224-234 | An absent key returns false and changes nothing. Otherwise the key leaves the map and the iteration order, and the bucket becomes a tombstone. |
| HashUpdates.Get | src/hashtable.c:239-245 | The result is the key's value, or nothing when the key is absent. |
| HashUpdates.SetValue | src/hashtable.c:239-245 | A write through the pointer returned for a stored key sets that key's value in the map. The key keeps its place in the iteration order, the other entries are unchanged, and the invariant holds. |
| HashUpdates.Count | src/hashtable.c:252-255 | The count is the number of live entries, which is the size of the map. |
| HashUpdates.ContentsSize | src/hashtable.c:252-255 | The map has exactly as many keys as there are live items. |
| HashIteration.ResetIter | src/hashtable.c:257-260 | After a reset, the remaining iteration is every live entry in item order. |
| HashIteration.Next | src/hashtable.c:262-274 | The next call yields the first live entry at or after the cursor and moves past it, or yields nothing once no live entry remains. |
| HashIteration.ForeachYieldsEntries | inc/hashtable.h:52-56 | A reset followed by `ht_next` until NULL yields exactly the live entries in insertion order. |
| HashIteration.Sum | src/hashtable.c:276-287 | The sum aggregate is the sum of the live values. |
| HashIteration.MaxValue | src/hashtable.c:276-288 | The max aggregate is at least every live value and is one of them, or is INT64_MIN for an empty table. |
| HashIteration.MinValue | src/hashtable.c:276-289 | The min aggregate is at most every live value and is one of them, or is INT64_MAX for an empty table. |
| HashSorting.StrCmp | src/hashtable.c:318-319 | String comparison is zero exactly for equal strings. |
| HashSorting.StrCmpFlip | src/hashtable.c:318-319 | Swapping the arguments negates the string comparison. |
| HashSorting.StrCmpTransitive | src/hashtable.c:318-319 | String comparison is transitive. |
| HashSorting.ComparFlip | src/hashtable.c:299-322 | Swapping the arguments negates `compar`, which is what `qsort` needs. |
| HashSorting.ComparTransitive | src/hashtable.c:299-322 | `compar` is transitive. |
| HashSorting.OrderIsPreorder | src/hashtable.c:299-322 | The order `compar` induces is total and transitive. |
| HashSorting.SortedItemsFacts | src/hashtable.c:325-338 | The sorted items are exactly the live items, in `compar` order, with their keys distinct and the map unchanged. |
| HashSorting.Sort | src/hashtable.c:325-338 | After `ht_sort`, the items are a permutation of the live items in the requested order. The map, the live count and the bucket count are unchanged, and no tombstone is left. |
| Sorting.SortBy | src/hashtable.c:329-334 | Sorting keeps the length and is a permutation. |
| Sorting.SortBySorted | src/hashtable.c:329-334 | The sorted sequence is ordered under any total preorder. |
| RecordTrees.CountAndSort | src/recordtree.c:68-91 | The three counters hold the numbers of distinct dates, year-months and years of the slice. The date counter, sorted ascending by key, iterates the distinct dates in order. |
| RecordTrees.LevelSizes | src/recordtree.c:68-91 | The distinct dates increase, and the key sets by month and by year have as many members as the distinct year-months and years. |
| RecordTrees.Layout | src/recordtree.c:93-128 | One node is made per distinct date, year-month and year. Each month node's children are its run of day nodes, and each year node's children are its run of month nodes. |
| RecordTrees.Attach | src/recordtree.c:130-141 | Each day node's children are exactly the run of slice records with that date. |
| RecordTrees.InitSlice | src/recordtree.c:64-159 | `rt_init` over a sorted slice of valid records builds the tree with day, month and year levels and the root. |
| RecordTrees.Init | src/recordtree.c:64-159 | `rt_init` on a valid record list with a non-empty active slice builds the tree of that slice. |
| RecordTrees.NodeCount | src/recordtree.c:93-128 | The node array has one node per distinct date, year-month and year, and the root's children end at the array's end. |
| RecordTrees.DayTotal | src/recordtree.c:130-141 | The day nodes' children cover the slice's records exactly. |
| RecordTrees.DistinctIncreasing | src/recordtree.c:78-91 | On sorted keys, collapsing runs yields strictly increasing keys. |
| TreePrint.Suffix | src/recordtree.c:258-270 | The day suffix is one of "th", "st", "nd" and "rd". |
| TreePrint.SuffixEnglish | src/recordtree.c:258-270 | The suffix differs from the English ordinal suffix exactly for multiples of ten outside the teens: the code gives "rd" there. |
| TreePrint.SuffixDays | src/recordtree.c:258-270 | Among day numbers, the suffix is wrong only for 20 and 30 ("20rd", "30rd"). |
| TreePrint.DayLineSuffix | src/recordtree.c:259-275 | A day line ends in the suffix `print_day` chooses, so the 20th shows as "20rd". |
| TreePrint.DaySuffixEnglish | src/recordtree.c:258-270 | The corrected suffix is the English ordinal suffix for every number. It differs from the code's exactly for multiples of ten outside the teens. |
| TreePrint.AmtFieldSigns | src/recordtree.c:213-233 | A non-negative amount is shown as its monetary text and a space, and a negative one in parentheses. Both forms are one character longer than the text. |
| TreePrint.AmtFieldFits | src/recordtree.c:213-233 | No amount field is wider than "(92,233,720,368,547,758.08)". |
| TreePrint.VfmtLength | src/recordtree.c:213-233 | The index-and-amount field has exactly the requested width whenever its parts leave room, and the rule then holds at least VFMT_MINDD glyphs. |
| TreePrint.RecLinesShow | src/recordtree.c:235-254 | A day's record lines show its records in order. |
| TreePrint.DayShown | src/recordtree.c:256-286 | A day line is followed by the lines of exactly that day's records. |
| TreePrint.MonthShown | src/recordtree.c:288-302 | A month line is followed by its days, which show exactly that month's records. |
| TreePrint.YearShown | src/recordtree.c:304-315 | A year line is followed by its months, which show exactly that year's records. |
| TreePrint.PrintShown | src/recordtree.c:317-359 | Reading the record lines of the whole printout in order gives back the slice, each record once. |
| TreePrint.LineCount | src/recordtree.c:355-358 | The printout has one line per node and one per record. |
| TreePrint.BuiltPrint | src/recordtree.c:317-359 | For a tree `rt_init` built, the line count is the numbers of distinct dates, year-months and years plus the number of records, and the printout shows every record once. |
| TreePrint.IndexWidth | src/recordtree.c:325-331 | The index width is at least the text length of every record's index within its day, and some record reaches it. |
| TreePrint.Extremes | src/recordtree.c:333-342 | The scan's max and min, started from zero, bound every amount, and each is either zero or some record's amount. |
| TreePrint.AmountWidth | src/recordtree.c:333-347 | The amount width is at least every record's amount field length, and some record reaches it. |
| TreePrint.Width | src/recordtree.c:325-352 | `vfmtclen` is the two widths plus VFMT_MINDD and 2, and every record's field is exactly that wide, so the amounts line up. |
| TreePrint.PrintTree | src/recordtree.c:317-359 | `rt_print` writes every line of the tree at that width and returns the number of lines: nodes plus records. |
| Program.Xn | src/program.c:127-141 | `xn` accepts only text starting with the letter. The bare letter means 0. Otherwise the rest must be a decimal number within `int`, and that number is the result. |
| Program.XnOffsets | src/program.c:127-141 | The letter alone gives 0, and the letter followed by the decimal text of an `int` gives that number. |
| Program.XnSignAlone | test/tprogram.c:78 | A letter followed by a lone sign is refused. |
| Program.ParseY | src/program.c:143-156 | A `y` form is accepted exactly when `xn` accepts it: "y" gives the current year, and "y" with an offset gives the current year plus the offset. Any other text is accepted exactly when it is a decimal number that is a valid year, and the result is that year. |
| Program.ParseYOffset | src/program.c:143-156 | "y" followed by any decimal text of an `int`, such as "y+0", "y-0" or "y+9999", gives the current year plus that number. |
| Program.ParseYRelative | test/tprogram.c:39-46 | "y" gives the current year, and "y" followed by n gives the current year plus n. |
| Program.ParseYAbsolute | src/program.c:149-154 | The decimal text of a valid year parses to that year. |
| Program.ParseYRange | test/tprogram.c:47-48 | A number outside 1..9999, such as 0 or 10000, is refused. |
| Program.ParseM | src/program.c:158-171 | An `m` form is accepted exactly when `xn` accepts it: "m" gives the current month, and "m" with an offset gives the current month plus the offset. Any other text is accepted exactly when it is a decimal number that is a valid month, and the result is that month. |
| Program.ParseMOffset | src/program.c:158-171 | "m" followed by any decimal text of an `int` gives the current month plus that number. |
| Program.ParseMRelative | src/program.c:160-163 | "m" gives the current month, and "m" followed by n gives the current month plus n. |
| Program.ParseMAbsolute | src/program.c:164-169 | The decimal text of a valid month parses to that month. |
| Program.ParseMRange | src/program.c:164-170 | A number outside 1..12 is refused. |
| Program.ParseDt | src/program.c:173-183 | A result is always a valid date. A `d` form shifts today by the offset. Any other text must be ISO text of a valid date. |
| Program.DayOffset | src/program.c:176-177 | The shifted date is accepted exactly when it is valid. |
| Program.IsoDate | src/program.c:178-179 | ISO text is accepted exactly when it has the `yyyy-mm-dd` shape and names a valid date. |
| Program.ParseDtIso | test/tprogram.c:81-82 | The ISO text of any valid date parses to that date. |
| Program.ParseDtRelative | test/tprogram.c:74-80 | "d" gives today, and "d" followed by n gives today shifted by n days when that date is valid. |
| Program.ParseDtLetter | src/program.c:175-182 | A text starting with `d` that is not a valid `d` form is refused. |
| Program.ParseDtShort | test/tprogram.c:83-84 | Text shorter than ten characters that does not start with `d`, such as "2000-2-28" and "1-01-01", is refused. |
| Program.ParseCents | src/program.c:185-210 | The cents are accepted exactly when the text fits the copy buffer, has at most two digits after the first '.', and its copy parses as a 64-bit decimal. The copy is the text before the '.' without commas, then two cent digits padded with '0'. The copy's value is the result. |
| Program.ParseCentsText | src/program.c:185-210 | The monetary text `util_fmtcents` writes for any 64-bit amount parses back to that amount. |
| Program.ParseCentsWhole | src/program.c:192-201 | Digits without a '.' are whole units: their value times 100. |
| Program.ParseCentsOnePlace | src/program.c:197-201 | A single digit after the '.' counts tens of cents. |
| Program.ParseCentsEmpty | src/program.c:185-210 | The empty text is accepted as 0 cents, because the copy is "00". |
| Program.ParseCentsPlaces | src/program.c:197-198 | More than two digits after the '.' are refused. |
| Program.CopyFits | src/program.c:188-201 | In the corrected parser, the copy with its terminator always fits the buffer. |
| Program.ParseCentsAsWritten | src/program.c:185-210 | The parser as written overruns its buffer exactly when an admitted text has 25 or more characters other than ',' before its first '.'. Otherwise it agrees with the corrected parser. |
| Program.ScpyOverrun | src/program.c:187-201 | The 25-character text "1111111111111111111111111" passes the length check and then writes 28 bytes into the 27-byte copy. |

## Left out

- I/O. The following take the file text or the output lines as values instead
  of performing I/O:
  - reading and writing files and streams (`rl_write`, `util_fexists`,
    `util_readiniline`);
  - the configuration (`prog_loadconf`, `prog_getconf`);
  - error reporting (`prog_err*`, `prog_pexit`);
  - `prog_initrl`, `prog_writerl` and `prog_printdaterange`.

  `rl_write` writes `rec_tostr` of each record on its own line;
  `Records.FromStrOfToStr` and `RecordFiles.InitAccepts` state what reading
  such text back gives.
- `dt_today()` is a parameter (`today`) of the parsers.
- Allocation failure is not modelled: `malloc` and `realloc` always succeed.
  `rl_deinit`, `rt_deinit` and `ht_free` only free memory and are left out.
- The spare capacity of the item array in `hashtable.c` is not modelled.
- The bodies of the `inc/date.h` getters, setters, shifts and text functions
  are not part of this model. `Dates` defines them from the header's
  contracts and the test cases, with C's truncating division for the getters.
- `Dates.ShiftY`, `Dates.ShiftM` and `Dates.ShiftD` require a valid date, as
  the header says ("Shift valid date").
- HashTables.Search: with tombstones not wanted, `search` at
  `src/hashtable.c:131-137` passes a tombstone's index, `IND_DELETED`, to
  `keysmatch`, which reads `ht->items[-2]`. The model treats a tombstone as
  a non-match, which is what the probe needs and what the code evidently
  intends; the out-of-bounds read is not modelled.
- Records.FromStr: it requires the text to have at most REC_STRLEN
  characters. `rec_fromstr` copies the text into `scpy[REC_STRLEN + 1]`
  without a bounds check; its one caller outside the tests,
  `src/recordlist.c:87`, passes a buffer of at most REC_STRLEN characters.
- HashTables: string keys longer than 31 bytes are not modelled. `copykey`
  keeps only 31 bytes, so such keys would collide on their prefix.
- HashTables: integer keys are 64-bit and are compared as such. The
  `int32_t` dates `rt_init` uses as keys always fit.
- HashSorting.Sort: `qsort` is not stable. The model sorts with a reference
  insertion sort and states the result only up to `compar`, so ties by value
  may come out in any order.
- HashSorting.Sort: `compar` reads its key type and direction from static
  variables. Here they are parameters.
- HashUpdates.Insert: it returns the value, not a pointer into the item, and
  so does `HashUpdates.Get`. A caller's write through that pointer, such as
  `*value = tmp` at `src/program.c:54-62`, is modelled by `HashUpdates.SetValue`.
- HashUpdates.Insert: reusing a tombstone does not decrement `ind_deleted`, as
  in the code. The tombstone count therefore over-approximates, which only
  makes rehashing earlier.
- HashIteration.Sum: it requires that the running sum does not overflow
  `int64_t`; `util_add`'s behaviour on overflow is not modelled.
- Util.Add: it requires the sum to fit in 64 bits. `util_add` is a plain
  `x + y`, whose overflow is undefined in C.
- Util.FmtCents: it requires `x != INT64_MIN`, where `-x` overflows in C.
  Record amounts are bounded by REC_AMT_MAX, far from it.
- RecordLists.Bsl: `dt - 1` is computed on unbounded integers, where the C
  code uses `int32_t`. Valid dates are far from the `int32_t` limits.
- Program.ParseY: `*y += dt_gety(dt_today())` is computed on unbounded
  integers, and a sum beyond `int` is not wrapped.
- Program.ParseM: the same holds for `*m += dt_getm(dt_today())`.
- RecordTrees.Init: it requires a non-empty active slice. The only caller,
  `src/_lgr_view.c:141-146`, calls `rt_init` only then. For an empty slice,
  `malloc(0)` may return NULL and `rt_init` would report failure.
- TreePrint.Width: it requires the record count to fit in 64 bits, as
  `ptrdiff_t` does.
- Box-drawing glyphs are single characters, so line lengths are character
  lengths, as the layout comment in `src/recordtree.c` intends. Output lines
  are modelled without their trailing newline. The text of the tree lines is
  modelled; `fprintf`'s return values are not.
- Text with a NUL character, or a line without a final newline, is handled as
  the C string functions would see it only where a member states so.
- The `_lgr_*` subcommands that call the core are not modelled.

## Findings

| source | as written | input that shows it | evidently intended | confidence | as-written member | corrected member |
|---|---|---|---|---|---|---|
| src/recordlist.c:50-92 | The length scan accepts lines of up to REC_STRLEN (148) characters. The read loop's `fgets` buffer holds 148 characters plus the NUL, so a 148-character line leaves its newline for the next read. That read yields an empty record text, and loading fails. | A file of two identical valid 148-character record lines: loading reports line 2 as unparsable. | Every line that passes the length scan is read whole, so the buffer would need room for the newline as well. | not executed | RecordFiles.InitAsWritten, RecordFiles.ExactWidthLineRejected | RecordFiles.Init, RecordFiles.InitOfTwo |
| src/program.c:187-201 | `scpy` has 27 bytes. The length check admits texts of up to 26 characters, but the copy appends two cent digits and a NUL to the text before the '.'. A text with 25 or 26 characters before any '.' writes past the end of `scpy`. | "1111111111111111111111111" (25 digits, no '.'): 25 + 2 + 1 = 28 bytes are written into 27. | The copy, with its two padding digits and terminator, stays within the buffer, and over-long amounts are refused. | not executed | Program.ParseCentsAsWritten, Program.ScpyOverrun | Program.ParseCents, Program.CopyFits |
| src/recordtree.c:259-268 | `print_day` picks "th" when the last digit is above 3 or the tens digit is 1, then "st" for 1 and "nd" for 2, and "rd" for everything else. A last digit of 0 outside the teens therefore falls through to "rd". | The 20th of a month: `ones` is 0 and `tens` is 2, so the day line reads "20rd"; the 30th reads "30rd". | "20th" and "30th": a last digit of 0 takes "th", as in English. | not executed | TreePrint.Suffix, TreePrint.SuffixDays | TreePrint.DaySuffix, TreePrint.DaySuffixEnglish |
