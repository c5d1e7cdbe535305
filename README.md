# Go exercises: a verified model in Dafny

This project models, in Dafny, the eight exercises of a collection of small Go
programs whose behaviour can be stated as contracts. It then proves properties
of that model.

- **grep** (`06/main.go`, module `Grep`, `grep.dfy`):
  - option validation and pattern composition (`-F`, `-i`);
  - per-line match collection, in-place highlighting, and the printing pass with its `--` separators;
  - the count mode, and the unused `printInRange` helper.
- **string unpacking** (`03/main.go`, module `Unpack`, `unpack.dfy`): the run-length decoder with a backslash escape (`a4bc2d5e` gives `aaaabccddddde`).
- **cut** (`07/main.go`, module `Cut`, `cut.dfy`): the field-list parser, field selection, `applyCut` and the separated-only filter.
- **sort** (`04/main.go`, module `SortLines`, `sortlines.dfy`):
  - column keys, the `-b` trim, and reading keys as numbers or months;
  - the numbers-first arrangement of the numeric modes;
  - the forward/reverse output pass with `-u`, `checkSorted`, and the exclusive mode flags.
- **anagram groups** (`05/main.go`, module `Anagram`, `anagram.dfy`): the 33-slot letter imprint of Russian words, and the grouping map. The grouping keeps sorted, duplicate-free lists by binary-search insertion and drops the singleton groups.
- **event store** (`12/main.go`, module `Events`, `events.dfy`): the generic id-to-object `Store` and the event operations of a user. Also the queries for events strictly inside a time frame, with the week-start arithmetic.
- **editor state machine** (`01/state/main.go`, module `Editor`, `editor.dfy`): three states, five requests, the document text, and the lines printed.
- **chain of responsibility** (`01/chain_of_responsibility/main.go`, module `Chain`, `chain.dfy`): handlers linked in a fixed order, the first whose flag is set taking the event.

Shared modules:

- `wrappers.dfy` (`Wrappers`) holds `Option` and `Result`.
- `gostrings.dfy` (`GoStrings`) models the Go library functions the exercises call:
  - `strings.Split`, `strings.Join`, `strings.Trim(s, " ")`, `strings.ToLower`;
  - `strconv.ParseInt`/`Atoi`;
  - Go's `<` on strings.

Where the Go code mutates state, the model mutates state:

- grep's `highlightResults`, sort's `tryToNumber`, `tryToMonth` and `sortNumeric` work in place on an `array`.
- The store, the editor and the event objects are classes with fields.
- The loops of `findAll`, `sendResults`, `buildHighlitedString`, `ParseCount`, `Unpack`, `parseFields`, `applyCut`, `sendSorted`, `checkSorted`, `getImprint`, `GetAnagrams` and `getEventsInTimeFrame` are `while`/`for` loops. Each is proved against a specification function, whose properties are proved as lemmas.
- Printing becomes a returned value: a sequence of output items, or the line an operation prints.

## Model

| member | source | states |
|---|---|---|
| Grep.GetConfig | 06/main.go:47-60 | `-C` together with a non-zero `-A` or `-B` is refused. Otherwise an empty pattern is refused. On success a non-zero `-C` becomes both `-A` and `-B`, otherwise they are kept, and every other option is unchanged. |
| Grep.QuoteMetaIsLiteral | 06/main.go:222-224 | `QuoteMeta` of any text is a pattern made only of literal characters, and the one string it matches is that text. |
| Grep.EffectivePatternShape | 06/main.go:219-228 | The compiled text is `(?i)` exactly when `-i` is given, followed by the pattern itself, or with `-F` by a literal pattern for exactly the pattern text. |
| Grep.GetRegEx | 06/main.go:219-237 | Succeeds with the effective pattern iff the compiler accepts it; otherwise fails with the invalid-pattern error. |
| Grep.FindAll | 06/main.go:86-106 | Records come in strictly increasing line order. There is one record for each line where the engine finds a span and for no other line, carrying that line's span starts and ends. The number of records is the number of matching lines. |
| Grep.RecordsAreMatchingLines | 06/main.go:86-106 | A line has a record iff the engine finds a span in it, and at most one record. The `from`/`to` lists of every record are equally long and not empty. |
| Grep.RecordsAreHits | 06/main.go:86-106 | The per-line "has a record" flags are exactly the per-line "engine found a span" flags. |
| Grep.MatchesHighlightable | 06/main.go:86-106 | The spans of every record are ordered, disjoint and inside their line. |
| Grep.BuildHighlightedString | 06/main.go:190-211 | The result is the line with every span wrapped in the red and reset markers. It is the input unchanged when there are no spans. Its length grows by the two markers per span. |
| Grep.HighlightedLength | 06/main.go:199-207 | The rendering of the line from a cursor is the remaining text plus both markers once per span. |
| Grep.UnmarkHighlighted | 06/main.go:190-211 | Removing the markers from a highlighted line gives back the original line, for lines without ESC bytes. |
| Grep.HighlightResults | 06/main.go:213-217 | Every line with a record is replaced, in place, by its highlighted rendering. Every other line is left unchanged. |
| Grep.HighlightedIsDisplay | 06/main.go:213-217 | After highlighting, the lines are the displayed text: highlighted where the engine found spans, unchanged elsewhere. |
| Grep.HighlightCopy | 06/main.go:213-217 | Highlighting a copy of the lines produces exactly the displayed text. |
| Grep.SendResults | 06/main.go:152-188 | In count mode the only output is the number of records. Otherwise it is the selected lines (record XOR `-v`) in increasing order, with a `--` separator in front of each one that does not directly follow the previously printed line. |
| Grep.WalkEmits | 06/main.go:158-186 | From any consistent cursor/skip state, the rest of the printing loop completes the output produced so far to the full reference output. |
| Grep.SelectionMembers | 06/main.go:161-177 | Line i is selected iff its match flag differs from `-v`. |
| Grep.SelectionIncreasing | 06/main.go:161-185 | Selected line indices strictly increase, so lines are printed in order and each at most once. |
| Grep.SelectionGapsSkipped | 06/main.go:172-177 | Every line strictly between two consecutive selected lines is unselected. |
| Grep.InvertComplements | 06/main.go:162-166 | With `-v` a line is selected iff it is not selected without `-v`. |
| Grep.PrintedLines | 06/main.go:179-185 | The printed texts, separators aside, are exactly the selected lines' texts, in order. |
| Grep.PrintedGaps | 06/main.go:173-181 | There is exactly one separator per place where a selected line does not directly follow the previous selected line. |
| Grep.SeparatorsBetweenLines | 06/main.go:173-183 | A separator is never the first or last output item and never next to another separator. |
| Grep.ContiguousNoSeparator | 06/main.go:179-181 | When the selected lines form one contiguous run there is no separator at all. |
| Grep.PrintInRange | 06/main.go:123-150 | Start is raised to at least 0 and to at least `lastLine + 1`; end is lowered to at most the line count. If end is at most `lastLine` nothing is printed and `lastLine` is returned. Otherwise `data[start:end]` is printed, preceded by a separator iff start is not `lastLine + 1` and `lastLine >= 0`, and `end - 1` is returned. The result is never below `lastLine`. |
| Grep.SearchAndSend | 06/main.go:250-254 | Once the pattern is compiled: count mode prints the number of matching lines. Otherwise the printed output is the separated selection over the highlighted lines. |
| Grep.Run | 06/main.go:239-255 | An option error or a pattern the compiler refuses stops the run with that error before any output. Otherwise the output is the count, or the separated selection of highlighted lines. `-A`, `-B` and `-C` have no influence on it. |
| Unpack.RunEnd | 03/main.go:21-27 | The end of the maximal run of digits starting at an index. |
| Unpack.RunEndUnique | 03/main.go:21-27 | Any index that ends a digit run and is followed by a non-digit (or the end) is the run end. |
| Unpack.RepeatCount | 03/main.go:26-33 | A digit run's count is at least one: a zero value or an empty run counts as one. |
| Unpack.ParseCount | 03/main.go:18-34 | Consumes exactly the maximal digit run from `startAt`, returns the index just past it, and returns the run's value, or one when that is zero. |
| Unpack.HandleEscapeSeq | 03/main.go:36-51 | Succeeds iff a digit or a backslash is at `startAt`. It then returns that rune literally and advances by one. End of input or any other rune is an error. |
| Unpack.ParseRune | 03/main.go:53-67 | Out of range is an error. A backslash defers to the escape handler. An unescaped digit is an error. Otherwise the result is the rune and the next index. A success always advances. |
| Unpack.ReadToken | 03/main.go:78-83 | Reading one rune and its count strictly advances the index and stays inside the input, so the unpacking loop terminates. |
| Unpack.Unpack | 03/main.go:69-93 | A parse error anywhere gives no result at all. Otherwise the output is the concatenation, over the parsed (rune, count) pairs, of each rune repeated count times. The empty string unpacks to the empty string. |
| Unpack.PlainUnchanged | 03/main.go:73-88 | A string without digits and backslashes unpacks to itself. |
| Unpack.PackWithRoundTrip | 03/main.go:69-93 | Writing any token list with escaped digits and backslashes and any decimal spelling of its counts, the unpacker reads back exactly that token list. |
| Unpack.PackRoundTrip | 03/main.go:69-93 | Decoding inverts encoding: any token list whose counts are all at least one, written with its shortest count spelling, reads back as that list. |
| Cut.ParseSingleField | 07/main.go:84-90 | Accepts exactly a decimal integer N > 0 within 64 bits and stores the 0-based index N-1. Everything else is an error. |
| Cut.ParseRangeFieldAsWritten | 07/main.go:40-71 | The parser as written: an accepted field is a range and the item has exactly two `-`-separated parts. An open start is stored as -2 (see Findings). |
| Cut.ParseRangeField | 07/main.go:40-71 | The corrected parser accepts an item iff it splits on `-` into exactly two parts, each empty (open) or an integer, with at least one of them positive. Anything else, such as `a-3`, is refused. An empty start is stored as the open marker -1, a written start N as N-1. An empty end is stored as -1, a written end as its number. An accepted range never starts below -1. |
| Cut.OpenEndReadsBack | 07/main.go:57-70 | The open-ended item `N-` reads back as the range from N-1 with the open end -1, which `getString` reads as the line's length. |
| Cut.ParseField | 07/main.go:103-111 | An item is tried as a single field first, then as a range, with the corrected range parser (`ParseRangeField`). Whatever is accepted is then well formed. |
| Cut.ParseFields | 07/main.go:98-117 | Succeeds iff every comma-separated item parses, ranges with the corrected range parser. The result then holds one well-formed field per item, in item order. |
| Cut.EmptyFieldListRejected | 07/main.go:98-117 | The empty field list splits into one empty item, which no parser accepts, so the empty list is an error. |
| Cut.SingleReadsBack | 07/main.go:84-90 | The decimal text of n > 0 reads back as the single field n-1. |
| Cut.RangeReadsBack | 07/main.go:40-71 | `a-b` with a, b > 0 reads back as the range from a-1 up to b. |
| Cut.OpenStartReadsBack | 07/main.go:48-70 | With the correction, `-b` reads back as the range open at the start (-1) and ending at b. |
| Cut.OpenStartAsWritten | 07/main.go:48-70 | As written, `-b` is accepted as a range starting at -2, which is not a well-formed field. On every line holding the delimiter, `getString`'s guard lets -2 through, so the first index read is -2. |
| Cut.WellFormedReadsInBounds | 07/main.go:22-38 | From a well-formed range, the first index `getString` reads is inside the pieces, and the loop reads at all iff the range selects something. |
| Cut.AsWrittenDiffersOnlyOnOpenStart | 07/main.go:48-70 | The parser as written and the corrected one agree on every input, except open-start ranges, where they store -2 and -1 for the same end. |
| Cut.SingleGetString | 07/main.go:77-82 | A single field yields `[strs[idx]]` when the index is inside, else nothing. |
| Cut.RangeSelects | 07/main.go:22-38 | With start -1 read as 0 and end -1 read as the length, a range selects exactly the pieces at indices from start up to min(end, length). |
| Cut.RangeGetString | 07/main.go:22-38 | The range getter returns exactly the pieces its range covers, in order. |
| Cut.GetString | 07/main.go:13-15 | Either kind of field returns exactly the pieces it covers, in order. |
| Cut.SingleSelects | 07/main.go:77-82 | The selection of one single field is that piece, or nothing when the line has too few pieces. |
| Cut.SelectionAppend | 07/main.go:159-162 | Selections of field lists concatenate: field order is kept and repeated pieces are kept. |
| Cut.ApplyCut | 07/main.go:151-165 | A line without the delimiter comes back unchanged with false. Otherwise the result is the delimiter-join of every field's selection, in field order, with true. |
| Cut.WholeRangeKeepsLine | 07/main.go:151-165 | The item `1-` parses to the range from 0 with an open end, and that field reproduces every line. |
| Cut.SingleOfJoined | 07/main.go:151-165 | Cutting field N from a line joined out of delimiter-free pieces gives back the N-th piece, or nothing. |
| Cut.SendResults | 07/main.go:167-174 | Lines are cut in order. A line is emitted iff it was cut or separated mode is off. |
| Cut.PrintedOnePerLine | 07/main.go:167-174 | Without `-s` there is exactly one output line per input line. |
| Cut.SeparatedKeepsDelimited | 07/main.go:170-172 | With `-s` the output is that of the lines holding the delimiter, without `-s`. |
| SortLines.ModesExclusive | 04/main.go:326-329 | Accepted iff no two of `-n`, `-h`, `-M` are set. |
| SortLines.TrimAll | 04/main.go:367-371 | Every line, in place, loses its leading and trailing spaces. |
| SortLines.TrimIdempotent | 04/main.go:369 | Trimming a trimmed line changes nothing. |
| SortLines.GetKey | 04/main.go:170-189 | With a negative column the key is the whole line. Otherwise it is the line itself (when empty), an empty key, or one of the line's parts. |
| SortLines.KeyOfJoined | 04/main.go:177-188 | On a line made of separator-free parts, the key is the column-th part, or empty when there are too few parts. Proved for one-character separators only, though `-s` accepts any string. |
| SortLines.NumberKeyed | 04/main.go:256-258 | An item is numeric iff its key parses, and the numeric key is then the parsed value. Text and key text are kept. |
| SortLines.TryToNumber | 04/main.go:210-260 | Every item, in place, is replaced by its number-keyed version. |
| SortLines.FirstWithPrefix | 04/main.go:283-289 | The first month name, from an index on, that starts with the key, or none. |
| SortLines.TryToMonth | 04/main.go:262-291 | Every item, in place, is replaced by its month-keyed version: unchanged for keys shorter than three or naming no month, else keyed by the first matching month's index and marked numeric. |
| SortLines.MonthsAbbreviated | 04/main.go:263-276 | Twelve month names, each beginning with its three-letter abbreviation. |
| SortLines.MonthStartsDistinct | 04/main.go:263-276 | No two months share their first three letters. |
| SortLines.MonthPrefixNamesMonth | 04/main.go:283-289 | A prefix of at least three letters of month m finds month m. |
| SortLines.MonthNamesKeyed | 04/main.go:278-290 | A key of three or more letters that, lowered, begins month m is keyed as m and marked numeric. |
| SortLines.NonMonthUnchanged | 04/main.go:283-289 | A key that begins no month name leaves the item unchanged. |
| SortLines.Keyed | 04/main.go:191-205 | Each item keeps its line and carries that line's key. Outside the numeric modes it is never numeric. |
| SortLines.IntoSortItems | 04/main.go:169-208 | One item per line, in line order, each keyed as the flags ask. |
| SortLines.PartitionPermutes | 04/main.go:76-82 | Splitting into numeric and other items loses and adds nothing. |
| SortLines.SplitByNumber | 04/main.go:73-82 | The loop collects exactly the numeric items and exactly the others, each in input order. |
| SortLines.SortByKeySorted | 04/main.go:93 | Sorting numeric items orders them by numeric key. |
| SortLines.SortByKeyPermutes | 04/main.go:93 | Sorting is a permutation. |
| SortLines.WriteBack | 04/main.go:96-105 | The array becomes the numeric items followed by the others. |
| SortLines.SortNumeric | 04/main.go:72-106 | The array becomes its numeric items in key order, followed by its other items. |
| SortLines.NumbersFirstPermutes | 04/main.go:72-106 | The numbers-first arrangement is a permutation of the input. |
| SortLines.NumbersFirstSplits | 04/main.go:96-105 | After it, an item is numeric iff it lies in the first block, whose size is the number of numeric items. |
| SortLines.VisitAt | 04/main.go:131-139 | The k-th visited value is item k, or item len-1-k with `-r`: every item is visited exactly once. |
| SortLines.SendSorted | 04/main.go:130-167 | The output is the visited values, first to last (or last to first with `-r`), with adjacent repeats dropped under `-u`. |
| SortLines.Dedup | 04/main.go:159-161 | Dropping adjacent repeats never lengthens and keeps the last value. |
| SortLines.DedupNoRepeats | 04/main.go:159-161 | After `-u` no two neighbouring output lines are equal. |
| SortLines.DedupSameValues | 04/main.go:159-161 | `-u` drops no distinct value. |
| SortLines.DedupKeepsDistinctNeighbours | 04/main.go:159-161 | Input without equal neighbours passes `-u` unchanged. |
| SortLines.DedupKeepsFirst | 04/main.go:156-165 | The first item is always printed. |
| SortLines.CheckSorted | 04/main.go:334-348 | Returns -1 iff every neighbouring pair is strictly ascending (not ascending with `-r`). Otherwise it returns idx+2 for the first pair that is not. |
| SortLines.InOrderTransitive | 04/main.go:335-342 | The neighbour order checkSorted accepts is transitive. |
| SortLines.SortedEveryPair | 04/main.go:341-347 | If checkSorted accepts, every earlier item is in order with every later one. |
| SortLines.EqualKeysOutOfOrder | 04/main.go:341-343 | In forward mode equal neighbouring keys count as unsorted. |
| Anagram.GetImprint | 05/main.go:16-25 | For a word inside the alphabet, the imprint counts а..я at rune-0x430 and ё at 32. |
| Anagram.CountIsMultiplicity | 05/main.go:16-25 | Slot k of a Russian word's imprint is the number of occurrences of letter k. |
| Anagram.ImprintIffAnagram | 05/main.go:16-25 | Two Russian words have equal imprints iff one is a letter permutation of the other. |
| Anagram.GraveEShareSlot | 05/main.go:18-21 | ѐ (U+0450) lands in ё's slot: two different one-letter words share an imprint. |
| Anagram.BinarySearchSpec | 05/main.go:40-44 | On an ascending list the search reports "found" iff the word is present. Its position splits the list into smaller words before and the rest after. |
| Anagram.InsertAscending | 05/main.go:46 | Inserting an absent word at the search position keeps the list strictly ascending, with the old words plus the new one. |
| Anagram.AddEffect | 05/main.go:33-46 | Filing a word creates its imprint's entry if missing, with the word as first. It puts the word into that entry's list and changes no other first word. No other words appear. |
| Anagram.AddValid | 05/main.go:33-46 | Filing a word keeps every entry valid: first word in the list, list ascending, every word with the entry's imprint. |
| Anagram.GroupsValid | 05/main.go:30-47 | The grouping map of any word list is valid. |
| Anagram.GroupsWordsSeen | 05/main.go:30-47 | Every grouped word comes from the input. |
| Anagram.GroupsWordsFiled | 05/main.go:30-47 | Every input word is in the list of its imprint. |
| Anagram.GroupsFirstSeen | 05/main.go:35-37 | Each entry's first word is the earliest input word with that imprint. |
| Anagram.CollectStep | 05/main.go:51-57 | Visiting one entry adds its list under its first word when it has two or more words, else nothing. |
| Anagram.GetAnagrams | 05/main.go:27-60 | The returned map is the reference grouping of the lowercased words, with groups of fewer than two words dropped. The lemmas below prove its properties. |
| Anagram.ResultLists | 05/main.go:40-57 | Every returned list has at least two words, is strictly ascending and holds its key. |
| Anagram.ResultFromInput | 05/main.go:30-57 | Every returned word is a lowercased input word and is in lower case. |
| Anagram.ResultDisjoint | 05/main.go:49-57 | No word is in two returned lists. |
| Anagram.PartnerReturned | 05/main.go:51-57 | A lowered input word with a different anagram among the lowered inputs is returned. |
| Anagram.ReturnedHasPartner | 05/main.go:51-57 | A returned word has a different anagram among the lowered inputs. |
| Anagram.ResultComplete | 05/main.go:51-57 | A lowered input word is returned iff some other lowered input word has the same imprint. |
| Anagram.ResultKeyIsFirst | 05/main.go:35-37 | A list's key is the first lowered input word with the imprint of its words. |
| Events.Store.constructor | 12/main.go:58-63 | A new store is empty with counter 0. |
| Events.Store.Add | 12/main.go:65-73 | Returns the old counter, stores the object under it and increments the counter by one. The id was unused and exceeds every stored id, so ids are never reused. |
| Events.Store.Get | 12/main.go:75-84 | Returns the object iff the id is present, else the "No such obj" error. The store is unchanged. |
| Events.Store.Update | 12/main.go:95-104 | Replaces an existing id's entry only. A missing id gives the error and leaves the map unchanged. The counter never changes. |
| Events.Store.Delete | 12/main.go:106-115 | Removes that id only. A missing id gives the error and an unchanged map. The counter never drops. |
| Events.User.constructor | 12/main.go:30-36 | A new user has id -1, its name and a fresh empty event store. |
| Events.Event.constructor | 12/main.go:42-46 | An event holds its id, title and time. |
| Events.CreateEvent | 12/main.go:118-127 | An unknown user gives -1 and the store error, with nothing changed. Otherwise the event is added to the user's store and its id is set to the returned index. |
| Events.UpdateEvent | 12/main.go:130-142 | An unknown user fails. Otherwise the event store's update result and effect are propagated. |
| Events.DeleteEvent | 12/main.go:145-157 | An unknown user fails. Otherwise the event store's delete result and effect are propagated. |
| Events.GetEventsInTimeFrame | 12/main.go:159-169 | The result holds each in-frame event exactly once and nothing else. |
| Events.Weekday | 12/main.go:184 | Day of the week, 0 for Sunday. |
| Events.WeekOffsetRange | 12/main.go:184 | `(weekday+6)%7` is in 0..6 and is 0 exactly on Monday. |
| Events.WeekStartIsMonday | 12/main.go:184-188 | The week frame starts at a midnight that is a Monday and holds the date. |
| Events.EventsForDay | 12/main.go:172-179 | An unknown user gives "No such user". Otherwise the result is exactly the user's events strictly inside the day starting at the date, each stored id once. |
| Events.EventsForWeek | 12/main.go:182-193 | An unknown user gives "No such user". Otherwise the result is exactly the user's events strictly inside the Monday-to-Monday week of the date, each stored id once. |
| Editor.Editor.constructor | 01/state/main.go:23-36 | A new editor has no document and empty contents. |
| Editor.Editor.SetState | 01/state/main.go:38-40 | Changes the state only. |
| Editor.Editor.OpenDocument | 01/state/main.go:42-44 | Moves as its state's method does (lines 66-69, 91-93, 118-122) and returns the line it prints. |
| Editor.Editor.ReadDocument | 01/state/main.go:46-48 | Changes nothing and returns what its state prints (lines 71-73, 95-97, 124-126). |
| Editor.Editor.AddText | 01/state/main.go:50-52 | Moves as its state's method does (lines 75-77, 99-102, 128-132) and returns the line it prints. |
| Editor.Editor.SaveDocument | 01/state/main.go:54-56 | Moves as its state's method does (lines 79-81, 104-107, 134-136) and returns the line it prints. |
| Editor.Editor.CloseDocument | 01/state/main.go:58-60 | Moves as its state's method does (lines 83-85, 109-112, 138-141) and returns the line it prints. |
| Editor.NoDocumentOnlyOpens | 01/state/main.go:66-85 | Without a document only Open changes the state (to open). Nothing changes the text. |
| Editor.ContentsChanges | 01/state/main.go:99-129 | The text changes only by an append of the added text in an open or saved state, or by clearing on Open from saved. Those two requests go to the open state. |
| Editor.ReadIsInert | 01/state/main.go:95-126 | Read changes nothing, and with a document it prints the text. |
| Editor.ClosingNeedsSave | 01/state/main.go:109-141 | The editor ends without a document iff it had none and the request was not Open, or the document was saved and the request was Close. Close on an open document only marks it saved. |
| Editor.CloseThenOpenKeepsText | 01/state/main.go:66-69 | From saved, Close then Open reopens with the old text. |
| Editor.TextOnlyGrows | 01/state/main.go:99-132 | Without Open requests the old text stays a prefix of the text. |
| Editor.MainSession | 01/state/main.go:143-157 | main's session: the read prints "hi", and the session ends with no document and text "hi". |
| Chain.Event.constructor | 01/chain_of_responsibility/main.go:5-11 | An event carries its four flags and starts unprocessed. |
| Chain.FirstTaker | 01/chain_of_responsibility/main.go:22-30 | The first handler along the chain whose flag is set, or none. |
| Chain.Handler.constructor | 01/chain_of_responsibility/main.go:101-105 | A handler of a kind with no link yet. |
| Chain.Handler.SetNext | 01/chain_of_responsibility/main.go:32-34 | Sets the link; the end handler ignores it (line 97-98). |
| Chain.Handler.Execute | 01/chain_of_responsibility/main.go:22-30 | The event ends processed iff a handler along the chain takes it, and is otherwise untouched; the flags never change. The printed line is the taker's, or the end handler's complaint. |
| Chain.BuildChain | 01/chain_of_responsibility/main.go:100-110 | main's wiring is a linked chain Drag, Click, Hover, Scroll, End; the returned head is the drag handler, linked to the click handler. |
| Chain.Precedence | 01/chain_of_responsibility/main.go:107-110 | Along main's chain drag wins over click, click over hover, hover over scroll. With no flag the event reaches the end. |
| Chain.TakenIffFlagged | 01/chain_of_responsibility/main.go:93-95 | An event is taken iff any of its four flags is set. |
| GoStrings.ParseInt | 07/main.go:85 | `strconv.ParseInt(s, 10, 64)`: an accepted string is an optional leading sign followed by one or more decimal digits, and its value is within 64 bits. |
| GoStrings.ParseIntOfDigits | 07/main.go:85 | The decimal text of n within 64 bits reads back as n. |
| GoStrings.Split | 07/main.go:41 | `strings.Split`: at least one part for a non-empty separator. |
| GoStrings.JoinSplit | 07/main.go:164 | Joining the parts of a split with the separator gives the string back. |
| GoStrings.SplitJoin | 07/main.go:152 | Splitting a join of separator-free parts gives the parts back. |
| GoStrings.SplitHasSeveralParts | 07/main.go:152-155 | A string splits into two or more parts iff the separator occurs in it. |
| GoStrings.TrimSpaces | 04/main.go:369 | `strings.Trim(s, " ")`: the middle of the string, with all spaces outside it and none at its ends. |
| GoStrings.ToLowerIdempotent | 05/main.go:31 | Lowering twice is lowering once. |
| GoStrings.StrLessIrreflexive | 05/main.go:40 | No string is less than itself. |
| GoStrings.StrLessTransitive | 05/main.go:40 | String order is transitive. |
| GoStrings.StrLessTotal | 05/main.go:40 | Of two different strings one is less than the other. |

## Left out

- The regular-expression engine: it is a parameter that, for each line, returns ordered, disjoint, in-bounds spans. Whether `regexp.Compile` accepts a pattern is a parameter too.
- Flag parsing, file and stdin reading, writing to stdout or an output file, and `os.Exit`. Inputs are sequences of lines; outputs are returned sequences, and errors are `Result` values.
- grep's `findString` (06/main.go:108-117) is never called. The `-h` line-number flag and the `-A/-B/-C` values have no effect on the output in the source, nor in the model.
- Grep.SendResults: the colour escape sequences around the `--` separator are an output item `Separator`, not text.
- The Go `int` width:
  - counts and indices are unbounded, so an over-long digit run in the unpacker does not wrap;
  - `strconv.ParseInt` keeps its 64-bit range check.
- Unpack.Unpack: digits are ASCII `0`..`9` only, where the source accepts every Unicode decimal digit via `unicode.IsDigit`.
- GoStrings.ToLower: lowers ASCII and basic Cyrillic capitals only, not the rest of Unicode.
- Sort:
  - Floating-point parsing, the `k/m/g/t/p` suffix multipliers and float comparisons: a numeric key is an integer given by the parameter `parseNum`.
  - The `sortStrData` comparator pair is not a consistent ordering, so no sortedness property holds for it.
- SortLines.GetKey: that the key is the column-th part of a line (`KeyOfJoined`) is proved only for one-character `-s` separators. It rests on `SplitJoin`, and a longer separator can overlap the pieces it joins.
- SortLines.SortNumeric: the non-numeric block keeps its input order, where the source orders it with `sortStrData`. The numeric block is ordered by an insertion sort on values (`SortByKey`) standing for `slices.SortFunc`.
- SortLines.TryToMonth: the month table, local to the function in the source, is a parameter; `IntoSortItems` passes the constant `Months`.
- Anagram.BinarySearch: the search is specified by the position it must return (a linear reference function), not by the halving steps of `slices.BinarySearch`.
- Anagram.GetAnagrams:
  - Go's random map iteration order: the result map does not depend on it, and the loop over entries takes the keys in any order;
  - the source's index-out-of-range panic for a rune outside U+0430..U+0451 is excluded by the precondition.
- Events:
  - the HTTP handlers, JSON, the server configuration, the `sync.RWMutex` (the model is sequential) and `eventsForMonth`;
  - `time.Time`, calendar normalisation, time zones and daylight saving: times are integer seconds from a Monday midnight, and days are 86400 seconds.
- Events.GetEventsInTimeFrame: the order of the result follows Go's map iteration order, which is not fixed. The contract states which events come back, each once, and not their order. The `iterate` callback is inlined into the loop.
- Cut.ParseFields: the field-list pipeline (`ParseField`, `ParseFields`, and through them `ApplyCut` and `SendResults`, which require well-formed fields) uses the corrected range parser. The source's open-start `-b` gives start -2 and is kept only in `ParseRangeFieldAsWritten`; `OpenStartAsWritten` shows its effect.
- Chain.Handler.Execute: requires a linked chain, so the nil-`next` panic of a handler that was never given a successor is not modelled; `main` links every handler.
- Editor and Chain: the printed line is returned rather than printed. Go's interface values for the states and handlers are a state enumeration and a handler kind tag.

## Findings

| source | as written | input that shows it | evidently intended | confidence | as-written member | corrected member |
|---|---|---|---|---|---|---|
| 07/main.go:48-70 | `parseRangeField` stores `num1 - 1` as the start even when the start was left out (`num1 = -1`), giving -2. `getString` only normalises -1, so its loop indexes `strs[-2]`. | field list `-3` on any line holding the delimiter | an open start means "from the first field", stored as the open marker -1 | high (not executed) | Cut.OpenStartAsWritten | Cut.OpenStartReadsBack |
