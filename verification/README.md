# pgmoneta: verified models

Dafny models of four parts of pgmoneta, with the properties that each of them is relied on for:

* the WAL viewer (`src/walinfo.c`): substring search, record view and filters, list tokens, Tab completion,
  export of transactions, jump to a search hit;
* the configuration editor (`src/config.c`): `get`, `set`, `del` and `ls` over the lines of a file;
* the WAL filter (`src/walfilter.c`): transaction filters over many files, and the repair of checksums and links;
* the block reference table (`src/libpgmoneta/brt.c`): modified blocks per relation fork in two chunk
  representations, and the file they are written to.

Code that works step by step is modelled step by step: loops with invariants over arrays, classes whose methods update
their fields. Each such method is tied to a function of its inputs, and the laws are proved about those
functions. `dafny verify dfyconfig.toml` checks everything.

Where the code does not keep what its comments promise, the code is modelled as it is, one lemma says exactly when
the promise holds, and another shows an input for which it does not:

* `config set` writes into the last piece of a section that occurs in several pieces, while `config get` stops at the
  first foreign header behind the first piece (`ConfigLaws.SetThenGet`; input: `ConfigLaws.SplitSectionHidesKey`).
* `config set` on a file whose last line is unterminated writes the binding directly behind that line when it belongs
  there (`ConfigText.SetFileThenGet`, `ConfigText.SetFileLines`; input: any such line that is not blank, by
  `ConfigText.JoinedIsOther`).
* `config del` of a whole section removes its last piece only, and can join two pieces of another section
  (`ConfigLaws.DeleteSectionThenGet`; inputs: `ConfigLaws.DeletedSectionStays`, `ConfigLaws.DeletedSectionUncovers`).
* The reader of the block reference table copies both parts of a request that straddles its 64 KiB buffer to the same
  place, so a part of the destination keeps what was in memory before (`BrtStream.ReadMeaning`, `BrtPlan.ReaderFaithful`,
  `BrtFormat.EmptyForksLimit`; input: the table of `BrtWitness.ManyForksAreLost`).
* An all-zero entry of the block reference table is read back as the terminator (`BrtRoundTrip.WriteThenRead`; input:
  `BrtWitness.ZeroForkIsLost`).
* The radix-tree key of a fork is cut to ten characters a number, so very large object ids can collide
  (`BrtKey.KeysCollide`; input: `BrtKey.LargeKeysCollide`).
* Listing the blocks of a fork reports a failure when the blocks of the range exactly fill the array, although all of
  them were found, and leaves the count unset (`BrtListing.GetBlocks`; input: `BrtListing.ExactFitFails`, and every
  range that is modified as a whole, by `BrtListing.FullRange`). Its loop passes the end of a bitmap for some ranges
  (`BrtListing.WithinBitmapsExactly`; input: `BrtListing.BitmapIsPassed`).
* Opening another file in the viewer keeps the filter criteria without applying them (`WalState.ViewAgrees`; input:
  `WalState.OpenIgnoresCriteria`).
* A search hit counts partial records, which the view drops (`SearchHits.JumpIsRight`, `SearchHits.NavigateIsRight`;
  input: `SearchHits.JumpGoesWrong`).

Two results describe behaviour that nothing in the code promises otherwise: search and filter compare different
positions with their bounds (`SearchHits.RangesCompared`), and the list that Tab cycles through in a position field can
grow when the text is completed (`Candidates.ExtendThenCycleAll`, `Candidates.SameList`; input:
`Candidates.ListChanges`).

## Model

| member | source | states |
|---|---|---|
| `Kmp.BuildFailureFunction` | src/walinfo.c:1731-1759 | Entry i of the table is the length of the longest proper prefix of `pattern[0..i]` that is also its suffix; the array behind the pattern is untouched; at most pattern-length fallbacks in total. |
| `Kmp.FallbackKeeps` | src/walinfo.c:1744-1749 | A fallback loses no candidate: every longer border that could still be extended is at most the table entry. |
| `Kmp.ExtendLongest` | src/walinfo.c:1744-1757 | The candidate left after the fallbacks, extended by the next character if it fits, is the longest match again. |
| `Kmp.Search` | src/walinfo.c:1771-1808 | On the right table the result is the least offset at which the pattern occurs, as an int, or -1 exactly when it occurs nowhere; at most text-length fallbacks. |
| `Kmp.NextOccurrence` | src/walinfo.c:2366-2379 | One search in the rest of the field finds the next occurrence, with none skipped. |
| `Kmp.CountMatches` | src/walinfo.c:2353-2384 | The counter terminates and counts every offset at which a non-empty query occurs, overlapping ones too, also for a query longer than the field, where the unsigned difference wraps; 0 for an empty query. |
| `CsvTokens.SplitCsvTrim` | src/walinfo.c:1282-1336 | The tokens are the first `maxTokens` of the comma-separated fields of the first 1023 characters that are not blank, trimmed and cut to 255 characters. |
| `CsvTokens.SplitOfJoin` | src/walinfo.c:1282-1336 | Splitting the comma-join of a list that fits the buffer gives the list back if and only if every token is non-empty, trimmed, comma-free and shorter than 256, and there are at most `max` of them. |
| `CsvTokens.TokensMeaning` | src/walinfo.c:1282-1336 | Of any list: the texts between the commas without the white space around them, empty ones dropped and long ones cut to 255 characters, and of these the first `max`; nothing behind 1023 characters is read. |
| `LsnText.LsnRoundTrip` | src/libpgmoneta/utils.c:4994-5022 | The text of every 64-bit position is read back as that position. |
| `LsnText.ScanDecimal` | src/walinfo.c:1531 | The decimal text of a 32-bit number is parsed back to it as a whole. |
| `LsnText.LsnInjective` | src/libpgmoneta/utils.c:4994-5007 | Two positions have the same text only if they are equal. |
| `LsnText.LsnLength` | src/libpgmoneta/utils.c:4994-5007 | The text of a position has at most 17 characters. |
| `PositionLaws.PositionShown` | src/libpgmoneta/utils.c:4994-5007 | A position is shown as the hexadecimal numerals of its two halves, in capital letters and without leading zeros, upper half first. |
| `PositionLaws.DecimalIsNumeral` | src/walinfo.c:1531 | The text of a number is its decimal numeral without leading zeros. |
| `PositionLaws.TypedPosition` | src/libpgmoneta/utils.c:5009-5022 | A position is read whether typed in capital or small letters, also behind white space. |
| `PositionLaws.LetterCases` | src/walinfo.c:420-427 | Changing the case takes each of the 26 letters to its counterpart and keeps every other character. |
| `WalView.Contains` | src/walinfo.c:1386 | The substring test is true exactly if the token occurs at some offset. |
| `WalView.RelationTokenMatches` | src/walinfo.c:1338-1392 | A relation token matches exactly if it is non-empty and either resolves to a non-zero number of a block in use or occurs in the description. |
| `WalView.RowPasses` | src/walinfo.c:1488-1562 | The tests on one row, in their order and with their early ends, amount to the conjunction of the five criteria; a list without tokens asks for nothing. |
| `WalView.IndexMeaning` | src/walinfo.c:1581-1595 | A position is in the index exactly if a visible row starts or ends there. |
| `ViewLaws.NumberTyped` | src/walinfo.c:1526-1542 | Of a typed transaction id, white space in front, a plus and text behind the digits do not matter; a minus counts down from 2^32. |
| `ViewLaws.NumberWithMore` | src/walinfo.c:1338-1375 | Digits with other text behind them are no relation number. |
| `ViewLaws.RelationNamed` | src/walinfo.c:1338-1392 | A relation that is typed by name or number matches exactly the records that use a block of that number or whose shown description contains the typed text. |
| `ViewLaws.ListCut` | src/walinfo.c:1475-1486 | Of more than 32 tokens the first 32 count. |
| `WalState.Viewer.LoadRecords` | src/walinfo.c:1066-1249 | The rows are the complete records of the file in order, unmarked; the unfiltered count is their number and the index theirs; the criteria stay. |
| `WalState.Viewer.RebuildIndex` | src/walinfo.c:1574-1595 | The index holds the start and end texts of exactly the visible rows. |
| `WalState.Viewer.Compact` | src/walinfo.c:1488-1572 | The in-place loop leaves exactly the rows that pass, in their order. |
| `WalState.Viewer.ApplyFilters` | src/walinfo.c:1460-1596 | Filtering selects the rows that pass the current criteria, rebuilds the index and changes nothing else; without criteria nothing changes. |
| `WalState.Viewer.LoadFile` | src/walinfo.c:877-926 | Opening a file shows all its complete records and keeps the criteria, unapplied. |
| `WalState.Viewer.SubmitFilters` | src/walinfo.c:3864-3902 | New criteria replace the old ones and are applied to the file read anew. |
| `WalState.Viewer.ClearFilters` | src/walinfo.c:3798-3808 | Clearing drops the criteria and shows the whole file again. |
| `WalState.ResubmitKeepsCriteria` | src/walinfo.c:3819-3896 | Submitting the dialog as it opens on existing criteria keeps them. |
| `ViewLaws.SubmittedFields` | src/walinfo.c:3864-3902 | Each of the five criteria comes from its field: none if the field is empty, else the text in 255 characters, or the position whose text was typed. |
| `ViewLaws.PassesMeaning` | src/walinfo.c:1488-1562 | For lists of managers, transactions and relation numbers and for positions that are typed, a record passes exactly if it is in range, has a listed manager and transaction, and uses a listed relation or mentions its number. |
| `ViewLaws.SubmitShows` | src/walinfo.c:3864-3902 | Opening a file after any run and submitting such a dialog shows exactly the complete records that pass, in order, each as a row of its own values. |
| `WalState.SelectAt` | src/walinfo.c:1564-1571 | A passing row is found behind exactly the passing rows before it. |
| `WalState.SelectOnlyPassing` | src/walinfo.c:1564-1571 | Every selected row is a passing row of the file, at the place given by the passing rows before it. |
| `WalState.RunMeaning` | src/walinfo.c:1460-1596 | After any run of open, filter and clear steps: the criteria are the last ones, never an accumulation; the unfiltered count is that of all complete records; the index is that of the visible rows; and the view is the order-preserving filter of the complete records by the current criteria, unless the last step opened a file. |
| `WalState.ViewAgrees` | src/walinfo.c:877-926 | The view agrees with the criteria if and only if the last step was not an open or every complete record passes. |
| `WalState.OpenIgnoresCriteria` | src/walinfo.c:877-926 | A Btree record that is opened while the criteria ask for Heap records is shown. |
| `Completion.LongestCommonPrefix` | src/walinfo.c:496-549 | The loops with their early end compute the common prefix of all matching values, in the spelling of the first; nothing if none matches. |
| `Completion.ExtensionMeaning` | src/walinfo.c:496-549 | That prefix extends the typed text, all matches start with it in either case, and no longer prefix of the first match has this property. |
| `Completion.KnownValue` | src/walinfo.c:551-581 | The result is match number `cycle`, or nothing if there are not that many. |
| `Completion.MatchAt` | src/walinfo.c:551-581 | Match number k is the value that starts with the typed text and has k such values before it. |
| `Completion.ExtendOnce` | src/walinfo.c:634-655 | Extending keeps the list of matches, and extending again changes nothing. |
| `Completion.BetweenKeepsMatches` | src/walinfo.c:634-655 | The same for every text between the typed one and its extension. |
| `Completion.Field.HandleTab` | src/walinfo.c:614-687 | One press of Tab takes the field from its old state to the new one given by the completion step; without known values nothing happens. |
| `Completion.TabCycles` | src/walinfo.c:657-676 | When nothing is left to extend, the k-th further Tab shows match number k modulo the number of matches; without matches the input stays. |
| `Completion.ExtendThenCycle` | src/walinfo.c:634-676 | One Tab completes the text, and Tab number k+2 shows match k modulo the number of matches of the typed text. |
| `Completion.CutExtensionRepeats` | src/walinfo.c:640-642 | For lists and field sizes given as parameters: an extension that does not fit the field is cut and shown again by every Tab. |
| `Completion.CyclingStarts` | src/walinfo.c:634-676 | For lists and field sizes given as parameters: cycling starts with the second Tab if and only if the extension fits the field. |
| `Completion.OfferedFits` | src/walinfo.c:175-181 | Every extension of an offered resource manager name or position fits the field it is completed in. |
| `Completion.OfferedCycles` | src/walinfo.c:614-687 | For the resource manager, whose list is fixed, the first Tab completes an extensible text, and Tab number k+2 shows match k modulo the number of matches. |
| `Candidates.PrefixSearch` | src/libpgmoneta/art.c:383-473 | Of the keys of the index, in its order, the first 64 with the prefix are found. |
| `Candidates.DropOutside` | src/walinfo.c:431-474 | The in-place loop leaves exactly the candidates within the bound, in their order. |
| `Candidates.KnownPositions` | src/walinfo.c:416-477 | The list for a position field: the first 64 keys with the typed prefix in upper case, and of these the ones on the right side of the position in the other field, if it holds one; no list for an empty index. |
| `PositionLaws.OfferedMeaning` | src/walinfo.c:416-477 | Next to a typed position the start field offers exactly the smaller ones and the end field exactly the larger ones of the first 64 positions with the typed prefix; next to an empty field both offer all of these. |
| `Candidates.HandlePosition` | src/walinfo.c:614-687 | One Tab in a position field takes its state to that of the completion step on the list looked up for the seed or the text. |
| `Candidates.OffersAfter` | src/walinfo.c:416-477 | Completing the text to what its candidates have in common keeps all candidates in order and adds the later ones: keys within the bound behind the first 64 with the shorter prefix and among the first 64 with the longer one. |
| `Candidates.ExtendedOnce` | src/walinfo.c:634-655 | The completed text cannot be completed further, whatever keys were added. |
| `Candidates.PositionsCycle` | src/walinfo.c:657-676 | For a text that cannot be completed, looking the list up anew at every Tab is cycling through the list of that text. |
| `Candidates.ExtendThenCycleAll` | src/walinfo.c:614-687 | The first Tab completes an extensible position, and Tab number k+2 shows number k, modulo their number, of the candidates for the typed text followed by the later ones. |
| `Candidates.SameList` | src/walinfo.c:416-477 | The list stays the same if and only if nothing comes later; nothing does when the other field asks for nothing or at most 64 keys have the typed prefix. |
| `Candidates.ListChanges` | src/walinfo.c:416-477 | A hundred positions, 0/1 typed and 0/1043 in the other field: the first list has four positions, and the sixth Tab shows another one. |
| `XidExport.CollectXids` | src/walinfo.c:1618-1648 | The list has no duplicates, holds 32-bit ints, and names exactly the non-zero transactions of marked rows. |
| `XidExport.CastAndBack` | src/walinfo.c:1646 | The cast to a signed int and back keeps every transaction id. |
| `XidExport.ExportThenFilter` | src/walfilter.c:419-471 | Fed to the XID filter, the list turns into NOOPs exactly the records whose transaction or top-level transaction is exported. |
| `XidExport.MarkedIsFiltered` | src/walfilter.c:455-471 | Every marked record with a transaction becomes a NOOP. |
| `SearchHits.CaseEqual` | src/walinfo.c:1817-1848 | The comparison loop decides equality up to case. |
| `SearchHits.DescriptionMatches` | src/walinfo.c:2003-2041 | The description test with its table and search is true exactly if both texts exist and the non-empty query occurs. |
| `SearchHits.RecordMatches` | src/walinfo.c:1964-2041 | The tests on one record amount to the conjunction of the query fields. |
| `SearchHits.SearchFile` | src/walinfo.c:1952-2109 | One file contributes its matching records, each with its index among all records, partial ones included, until there is no more room. |
| `SearchHits.SearchAll` | src/walinfo.c:1914-2136 | The hits are the first matching records of all files in order, as many as there is room for. |
| `SearchHits.HitMeaning` | src/walinfo.c:2044-2049 | A hit is exactly a matching complete record with its file, index and position. |
| `SearchHits.HitsInOrder` | src/walinfo.c:1917-2049 | The hits strictly increase in file and index, so each record is found once, and none is left out while there is room. |
| `SearchHits.TrueRow` | src/walinfo.c:1092-1100 | The row of a complete record is its index minus the number of partial records before it. |
| `SearchHits.JumpIsRight` | src/walinfo.c:2183-2188 | The jump lands on the true row if and only if no partial record precedes the hit, or the index is out of range and the viewer is already there. |
| `SearchHits.JumpGoesWrong` | src/walinfo.c:2183-2188 | A hit behind a partial record whose index is in range: the jump shows the record behind it. |
| `SearchHits.NavigateIsRight` | src/walinfo.c:2401-2443 | Going to the next or previous hit sets the row to the index: in a view that may be filtered this is the row of the record if and only if every record before it is complete and passes the criteria. |
| `SearchHits.RangesCompared` | src/walinfo.c:1977-1992 | For records in order, search and filter bounds imply each other in one direction each, and differ exactly when the bound lies between the compared positions. |
| `SearchHits.RmgrAgrees` | src/walinfo.c:1493-1508 | For a single plain resource manager name, search and filter pick the same records, if the record's own name is known and fits its column. |
| `SearchHits.XidAgrees` | src/walinfo.c:1526-1542 | For a single transaction id, search and filter pick the same records. |
| `Text.TrimInPlace` | src/config.c:532-555 | The two loops remove the white space at both ends and nothing else. |
| `Text.TrimMeaning` | src/config.c:532-555 | Blank, tab, newline, vertical tab, form feed and carriage return are trimmed at both ends; a text whose first and last characters are others stays as it is. |
| `ConfigMeaning.BlankReads` | src/config.c:585-589 | A line is blank exactly if it consists of these six characters. |
| `ConfigMeaning.MarkReads` | src/config.c:585-623 | The first other character of a line makes it a comment or a header; a line without `=` that is neither means nothing. |
| `ConfigMeaning.HeaderReads` | src/config.c:591-607 | A header is read up to its first closing bracket, whatever is behind it. |
| `ConfigMeaning.BindingReads` | src/config.c:618-642 | Any of these characters around key, `=` and value change nothing: the line binds the key to the value. |
| `ConfigFile.Fgets` | src/config.c:583 | One read delivers the next line, or the next 4095 characters of a longer one. |
| `ConfigMeaning.LinesMeaning` | src/config.c:583 | The lines of a text are the only way to cut it into pieces of at most 4095 characters that end at a newline, at the limit or at the end of the text, with no newline before that. |
| `ConfigFile.ConfigGet` | src/config.c:564-656 | The command prints what the abstract lookup over the lines finds, and fails when it finds nothing or there is no file. |
| `ConfigEdit.GetMeaning` | src/config.c:581-644 | The lookup finds the first binding of the key in the first piece of the section, where the piece ends at the first foreign header. |
| `ConfigMeaning.BindingInFile` | src/config.c:564-1064 | For a text that begins with a header and a binding, however spaced: `get` prints the value, `set` writes that line anew and keeps all others, and `del` removes it. |
| `ConfigFile.ConfigLs` | src/config.c:1072-1143 | Without a section the names of all headers are listed in order, with one the keys of its first piece. |
| `ConfigFile.NamesAreHeaders` | src/config.c:1098-1109 | A listed name is that of a header which the other commands recognise under that name. |
| `ConfigEdit.KeysAreHits` | src/config.c:1072-1143 | A key is listed for a section exactly if `get` finds a value for it. |
| `ConfigMeaning.ListingMeaning` | src/config.c:1072-1143 | Of a file of headers the names are listed in order, and of a section its keys in order. |
| `ConfigFile.ReadLines` | src/config.c:692-703 | The array receives the lines of the file, at most 8192 of them. |
| `ConfigFile.ScanSection` | src/config.c:707-768 | One scan finds the last header of the section, the header behind it, and the first (for `set`) or last (for `del`) binding of the key in any piece of the section. |
| `ConfigFile.FindInsertLine` | src/config.c:791-805 | A new binding goes behind the last line of the section that is not blank. |
| `ConfigFile.InsertLine` | src/config.c:807-811 | The shifting loop inserts one line and moves the others down unchanged. |
| `ConfigFile.ConfigSet` | src/config.c:668-906 | The command leaves the lines that the abstract `set` describes, in all three branches, within the line limit, and fails exactly when they do not fit. |
| `ConfigFile.ConfigDel` | src/config.c:915-1064 | The command leaves all lines but the last binding of the key, or but the last piece of the section, and fails exactly when there is none or no file. |
| `ConfigLines.KeyLineReads` | src/config.c:771-779 | The written line is read back as a binding of the key to the trimmed value if and only if the key is trimmed, free of `=` and does not start like a comment or header. |
| `ConfigLines.HeaderLineReads` | src/config.c:834-837 | The written header is recognised as the header of the section if and only if the name has no `]` that cuts it. |
| `ConfigLines.BoundKeysArePlain` | src/config.c:618-642 | Only such keys can ever be read from a line. |
| `ConfigLaws.SetShape` | src/config.c:770-845 | What `set` changes among the meanings of the lines: one binding replaced at its first place, or one inserted in the last piece of the section, or a new section appended. |
| `ConfigMeaning.SetReplaces` | src/config.c:767-779 | If the key is bound in the section, its first line is replaced by `key = value`, and all other lines stay. |
| `ConfigMeaning.SetInsertsBehind` | src/config.c:780-819 | If it is not, the line is inserted in the last piece of the section behind its last line that is not blank, or at its end if all are blank; with 8192 lines it fails. |
| `ConfigMeaning.SetAddsSection` | src/config.c:820-845 | If no header names the section, an empty line behind other text, the header and the binding are added at the end; from 8189 lines on it fails. |
| `ConfigMeaning.SectionIsAppended` | src/config.c:668-906 | The text that results, for any text without the section. |
| `ConfigMeaning.FileIsMade` | src/config.c:686-703 | The text that is written when there is no file. |
| `ConfigMeaning.DelRemoves` | src/config.c:1016-1035 | `del` of a key leaves out its last line in the section and no other, and fails if there is none. |
| `ConfigMeaning.DelRemovesPiece` | src/config.c:1016-1035 | `del` of a section leaves out its last piece, from its header to the next header, and no other line, and fails if there is none. |
| `ConfigLaws.SetThenGet` | src/config.c:705-845 | After a successful `set`, `get` yields the trimmed value if and only if it could read the key before or the section is in one piece; every other lookup is unchanged. |
| `ConfigLaws.SplitSectionHidesKey` | src/config.c:729-740 | A file of three headers where the new key is not found. |
| `ConfigLaws.SetTwice` | src/config.c:767-845 | Setting twice leaves the same lines as setting once with the last value; in particular setting is idempotent. |
| `ConfigLaws.SetThenDelete` | src/config.c:1016-1035 | Setting a new key in an existing section and deleting it restores the lines exactly. |
| `ConfigLaws.DeleteKeyThenGet` | src/config.c:946-1035 | Deleting a key removes its last binding: `get` then fails if it was the only one and answers as before otherwise; other lookups are unchanged. |
| `ConfigLaws.DeleteSectionThenGet` | src/config.c:946-1035 | Deleting a section removes its last block of lines; then the section reads as the lines above that block do, so not at all if it was the only one; any other section reads as before unless the block separated two of its pieces, and then exactly what is read is stated. |
| `ConfigLaws.DeletedSectionStays` | src/config.c:946-1035 | A section in two pieces that is still read after `del`, for all names and values. |
| `ConfigLaws.DeletedSectionUncovers` | src/config.c:946-1035 | A file in which `del` of one section makes a binding of another one readable, for all names and values. |
| `ConfigText.LooseReads` | src/config.c:848-870 | Lines of which at most the last is unterminated are read back as they were written. |
| `ConfigText.SetFileLines` | src/config.c:668-906 | For any text: the written file is read back as the lines `set` meant to write if and only if it did not write below an unterminated line; otherwise exactly which lines are read instead is stated. |
| `ConfigText.SetFileThenGet` | src/config.c:668-906 | For any text: the new value is read from the written file if and only if the law for lines allows it and the binding was not written directly behind an unterminated line that is not blank; then every other lookup is unchanged. |
| `ConfigText.SetFileTwice` | src/config.c:668-906 | For any text: setting twice leaves the same file as setting once with the last value if and only if the binding was not written directly behind an unterminated line. |
| `ConfigText.SetFileThenDelete` | src/config.c:915-1064 | For any text: setting a new key in an existing section and deleting it gives back the lines that `set` kept, so a file of at most 8192 lines byte by byte, if and only if the binding was not written directly behind an unterminated line. |
| `ConfigText.KeptAnswers` | src/config.c:692-703 | What `get` finds in the first 8192 lines it finds in the whole file; without further lines both agree on every key. |
| `ConfigText.DelFileLines` | src/config.c:915-1064 | For any text: the file that `del` leaves is read back as exactly the lines that it kept. |
| `ConfigText.DelFileKeyThenGet` | src/config.c:915-1064 | For any text: after `del` of a key its last binding is gone, and everything else reads as before. |
| `ConfigText.DelFileSectionThenGet` | src/config.c:915-1064 | For any text: what is read in the deleted section and in every other one after `del` of a section. |
| `ConfigText.UnterminatedLineGlues` | src/config.c:848-856 | Whatever non-empty text is written behind an unterminated line is read back as one text with it, so never as the lines that were meant. |
| `ConfigText.JoinedIsOther` | src/config.c:848-856 | A binding glued to a line that is not blank and does not bind the key itself does not bind it either. |
| `WalRecords.CrcFoldConcat` | src/libpgmoneta/security.c:3179-3256 | Feeding two buffers in turn gives the checksum of their concatenation (CRC-32C, section 12.1 of RFC 3720). |
| `CrcLaws.RoundsLinear` | src/libpgmoneta/security.c:3179-3256 | The division is linear: the rounds of a sum are the sum of the rounds. |
| `CrcLaws.TableEntries` | src/libpgmoneta/security.c:3184-3247 | The eight table entries for single bits have the values of the table; by linearity they fix all entries. |
| `CrcLaws.CrcByteRounds` | src/libpgmoneta/security.c:3249-3252 | One step with the table is eight rounds of division with the byte added. |
| `CrcLaws.OneByteShows` | src/libpgmoneta/security.c:3179-3256 | Two byte sequences that differ in one place have different checksums. |
| `CrcLaws.CheckValue` | src/libpgmoneta/security.c:3179-3256 | The checksum of "123456789" is 0xE3069283, the check value of CRC-32C. |
| `WalRecords.RecalculateCrc` | src/walfilter.c:169-237 | The new checksum is the one of body and then header prefix, and nothing else of the record changes. |
| `CrcLaws.ChecksumLayout` | src/walfilter.c:188-212 | The checksum of a record is that of its body followed by the header bytes in front of the checksum field, in little-endian order. |
| `CrcLaws.OneByteDetected` | src/walfilter.c:188-212 | Two records that differ in one byte of body or header prefix never have the same valid checksum. |
| `WalRecords.OneValidCrc` | src/walfilter.c:188-212 | A record has exactly one valid checksum: the field is not part of the sum. |
| `WalRecords.ToNoop` | src/walfilter.c:379-384 | The marked record is a NOOP under the info mask and no longer a heap DELETE, and only its info and manager changed. |
| `WalFilter.CollectDeletedXids` | src/walfilter.c:281-345 | The first pass collects, without duplicates, exactly the xmax of the heap DELETE records that carry main data, over all files. |
| `WalFilter.MarkDeletes` | src/walfilter.c:344-389 | The second pass turns into NOOPs exactly the heap DELETE records and the records of the collected transactions. |
| `WalFilter.FilterDeletes` | src/walfilter.c:261-407 | The DELETE filter is one marking of all files by the transactions collected from all of them. |
| `WalFilter.FilterXids` | src/walfilter.c:418-495 | The XID filter marks exactly the records whose transaction or top-level transaction is listed, as unsigned numbers. |
| `WalFilter.MarkTwice` | src/walfilter.c:895-919 | DELETE filter and XID filter in turn are one marking by the union of both lists. |
| `WalFilter.DeleteFilterIdempotent` | src/walfilter.c:261-407 | After the DELETE filter no DELETE is left, and repeating it changes nothing. |
| `WalFilter.ApplyRules` | src/walfilter.c:895-919 | All rules of a configuration amount to one declarative marking, however often DELETE is listed. |
| `WalFilter.FilteredMeaning` | src/walfilter.c:895-919 | A record becomes the NOOP with info 0x20 and manager 0 if and only if DELETE is listed and it is a heap DELETE or some heap DELETE names its transaction or top-level transaction, or a listed int is one of them as an unsigned number; otherwise it stays. |
| `WalFilter.HeapDeleteMeaning` | src/walfilter.c:296-300 | A heap DELETE is a record of manager 10 with operation bits 001. |
| `WalRepair.ProcessFile` | src/walfilter.c:126-158 | The loop, whose iterator advances twice behind a NOOP, leaves at every position the record that the declarative repair describes. |
| `WalRepair.ProcessWalFiles` | src/walfilter.c:90-163 | The same for all files; a missing file is skipped. |
| `WalRepair.RepairExactly` | src/walfilter.c:126-158 | For arbitrary links: the back link is set for exactly the successors of the NOOPs at even offsets of their maximal runs; a checksum is valid afterwards exactly if the record is a NOOP, was relinked, or was valid; nothing else changes. |
| `WalRepair.RelinkedMeaning` | src/walfilter.c:126-158 | A record is relinked if and only if an odd number of NOOPs stands directly before it. |
| `WalRepair.LinkedAfterRepair` | src/walfilter.c:141-147 | The chain comes out right if and only if every wrong link stood behind such a NOOP. |
| `WalRepair.FilterThenRepair` | src/walfilter.c:126-237 | From valid, linked records, marking and repair give valid, linked records with the same chain, and unmarked records are untouched. |
| `WalRepair.FilterAndRepair` | src/walfilter.c:895-921 | The whole run over all files is the declarative marking followed by the declarative repair. |
| `WalRepair.RunKeepsIntegrity` | src/walfilter.c:895-921 | A file that was valid and linked is so after the run, and a record that no rule matches is unchanged. |
| `WalRepair.RunMeaning` | src/walfilter.c:895-921 | Every record after the whole run: info and manager by the rules, the back link by the NOOPs before it, a valid checksum if a rule matched, and nothing else changed. |
| `BrtChunk.PutBitAt` | src/libpgmoneta/brt.c:671-679 | Setting the bit of one block sets no other bit of the bitmap. |
| `BrtChunk.DropBitAt` | src/libpgmoneta/brt.c:566-575 | Clearing the bit of one block clears no other bit of the bitmap. |
| `BrtChunk.ToBitmap` | src/libpgmoneta/brt.c:690-705 | The bitmap has the bit of an offset set exactly if the offset is in the array. |
| `BrtChunk.AddOffset` | src/libpgmoneta/brt.c:645-744 | In either representation, and across the switch, the chunk afterwards stands for its old offsets and the new one. |
| `BrtChunk.DropFrom` | src/libpgmoneta/brt.c:562-590 | Bit by bit or by compaction in place, exactly the offsets below the limit remain. |
| `BrtEntry.Entry.Enlarge` | src/libpgmoneta/brt.c:608-643 | Growing the chunk arrays to a power of two from 16 on loses and adds no block. |
| `BrtEntry.Entry.MarkBlockModified` | src/libpgmoneta/brt.c:593-744 | The set of modified blocks gains exactly the marked one; the limit stays and the maximum is kept. |
| `BrtEntry.Entry.SetLimitBlock` | src/libpgmoneta/brt.c:531-591 | A limit below the recorded one removes exactly the blocks from it on; any other limit changes nothing. |
| `BrtListing.WithinBitmapsExactly` | src/libpgmoneta/brt.c:196-214 | The condition on the range under which every loop bound stays inside its bitmap, both ways. |
| `BrtListing.BitmapIsPassed` | src/libpgmoneta/brt.c:196-214 | Sixteen chunks of which the last is an empty bitmap, and a stop behind them: the loop bound is 65537, and no array size prevents it. |
| `BrtListing.GetBlocks` | src/libpgmoneta/brt.c:171-256 | With room for more than the blocks in range, all of them are listed and counted; otherwise the array is filled, its size returned and the count left alone, also when it fills up before the loop would pass a bitmap. |
| `BrtListing.FullRange` | src/libpgmoneta/wf_backup_incremental.c:460-474 | A range of which every block is modified fills an array of its own size, so that the call reports a failure. |
| `BrtListing.ExactFitFails` | src/include/brt.h:203-216 | One marked block and an array of one place: the block is listed, the result is 1 and the count is not set. |
| `BrtListing.AllListedMeaning` | src/include/brt.h:203-216 | The list is every recorded block of the range, exactly once. |
| `BrtListing.ListIsBlocks` | src/include/brt.h:203-216 | The list of an entry is its set of modified blocks in the range, of the same size. |
| `BrtKey.PrintIntShows` | src/libpgmoneta/utils.c:1594-1603 | Ten characters show every int except those from -1000000000 down, which lose their last digit. |
| `BrtKey.KeysCollide` | src/libpgmoneta/brt.c:463-476 | Two keys have the same text if and only if their four shown numbers agree. |
| `BrtKey.SmallKeysDiffer` | src/libpgmoneta/brt.c:463-476 | Keys whose numbers are small enough never collide. |
| `BrtKey.LargeKeysCollide` | src/libpgmoneta/brt.c:463-476 | Two different object ids with the same text. |
| `BrtTable.Table.Insert` | src/libpgmoneta/brt.c:478-516 | An existing entry is found unchanged; otherwise an empty one with the given limit is added. |
| `BrtTable.Table.MarkBlockModified` | src/libpgmoneta/brt.c:111-150 | The table afterwards records one more block of the fork, and every other fork is unchanged. |
| `BrtTable.Table.SetLimitBlock` | src/libpgmoneta/brt.c:71-109 | The fork is created with the limit, or its limit lowered and its blocks cut; every other fork is unchanged. |
| `BrtTable.RunMeaning` | src/libpgmoneta/brt.c:71-150 | After any run of marks and limits a fork has an entry exactly if it was mentioned, its limit is the smallest one set, and a block is recorded exactly if it was marked and no later lowering of the limit reached it. |
| `BrtTable.ForksStay` | src/libpgmoneta/brt.c:71-150 | No later operation removes a fork from the table. |
| `BrtStream.Writer.Write` | src/libpgmoneta/brt.c:953-979 | Through or past the buffer, the stream gains exactly the bytes written. |
| `BrtStream.Reader.ReadInto` | src/libpgmoneta/brt.c:981-1017 | The loop with buffer, direct read and refill computes the outcome of the read function, which never advances its destination. |
| `BrtStream.ReadMeaning` | src/libpgmoneta/brt.c:981-1017 | The whole outcome of a request: it moves on by its length and delivers the next bytes unless it straddles the buffer; then the destination is the old one with the buffered bytes, and over them the bytes behind the buffer, written from its start. |
| `BrtPlan.ReaderFaithful` | src/libpgmoneta/brt.c:981-1017 | For each file: whatever uninitialised memory holds, every request delivers its bytes if and only if each straddling request comes out right over the memory that its destination is known to hold. |
| `BrtPlan.KnownMemory` | src/libpgmoneta/brt.c:981-1017 | For destinations of known content: the file is delivered if and only if the two parts of each straddling request come out right over that content. |
| `BrtPlan.UniformIsSafe` | src/libpgmoneta/brt.c:981-1017 | A straddling request for bytes that are all alike comes out right over such bytes. |
| `BrtPlan.SmallFileIsFaithful` | src/libpgmoneta/brt.c:981-1017 | In a file that fits the buffer no request straddles. |
| `BrtFormat.EmptyForksLimit` | src/libpgmoneta/brt.c:383-461 | The file of forks without modified blocks is delivered whatever the memory holds if and only if there are fewer than 2730 of them. |
| `BrtFormat.WordsRoundTrip` | src/libpgmoneta/brt.c:331-348 | Words are read back as they were written. |
| `BrtFormat.HeaderRoundTrip` | src/libpgmoneta/brt.c:770-783 | A header is read field by field as it was written. |
| `BrtFormat.ZeroHeader` | src/libpgmoneta/brt.c:752-765 | A header reads as the terminator if and only if the entry is all zero. |
| `BrtLayout.HeaderLayout` | src/include/brt.h:128-134 | A header is six numbers of four bytes: tablespace, database, relation, fork, limit and number of chunks. |
| `BrtLayout.ItemLayout` | src/libpgmoneta/brt.c:333-361 | An entry is its header, the usage of each chunk, and the chunks one behind the other, in words of two bytes. |
| `BrtLayout.FileLayout` | src/libpgmoneta/brt.c:271-381 | A file is the bytes 7b 13 2b 65, the entries one behind the other, and 24 zero bytes. |
| `BrtLayout.BlocksLayout` | src/include/brt.h:96-105 | A block is modified exactly if the written chunk of its upper 16 bits records the lower ones: by a bit, lowest bit first, in 4096 words, and by value in fewer. |
| `BrtFormat.DeliverableMeaning` | src/libpgmoneta/brt.c:383-461 | A table file is deliverable exactly if every request of its reader gets its bytes whatever uninitialised memory holds. |
| `BrtFormat.SmallFileDeliverable` | src/libpgmoneta/brt.c:383-461 | A table file of at most 64 KiB is deliverable. |
| `BrtWrite.WriteEntry` | src/libpgmoneta/brt.c:300-348 | Header without trailing empty chunks, usage array and chunks in use are written in this order. |
| `BrtWrite.WriteTable` | src/libpgmoneta/brt.c:271-381 | The file is the magic number, the items of the entries and the terminator. |
| `BrtRead.TableReader.ReadNextRelation` | src/libpgmoneta/brt.c:746-785 | The next item is found unless the terminator or an all-zero item comes, and the scan starts at its first chunk. |
| `BrtRead.TableReader.GetBlocks` | src/libpgmoneta/brt.c:787-867 | Each call continues the list of blocks where the last one stopped, and delivers less than asked for only at the end. |
| `BrtRead.ReadTable` | src/libpgmoneta/brt.c:383-461 | From a deliverable file, every item before the first all-zero one ends up in the table with its limit and blocks; a wrong magic number is refused. |
| `BrtRoundTrip.ItemMeansEntry` | src/libpgmoneta/brt.c:300-348 | What is written for an entry stands for exactly its limit and its modified blocks, in both chunk representations. |
| `BrtRoundTrip.ItemsMeanTable` | src/include/brt.h:245-259 | What is written for a table, in any order, stands for the whole table. |
| `BrtRoundTrip.ZeroItem` | src/include/brt.h:245-259 | An entry is written as the terminator exactly if its key and limit are zero and no chunk is in use. |
| `BrtRoundTrip.WriteThenRead` | src/include/brt.h:245-268 | A table with a deliverable file that is written and read back, in any order, comes back with the same limit and blocks for every fork if and only if no entry is written as the terminator. |
| `BrtRoundTrip.WriteThenReadSmall` | src/include/brt.h:245-268 | The same for every table whose file has at most 64 KiB. |
| `BrtCut.ReadCut` | src/libpgmoneta/brt.c:383-461 | When the header behind 2730 forks without modified blocks is cut by the buffer, the reader either stops with those forks or goes on with an entry whose tablespace is the fork number of that header. |
| `BrtCut.CutTerminator` | src/libpgmoneta/brt.c:746-765 | A terminator cut in two, as behind 2730 forks without modified blocks, is recognised if and only if the second half of the uninitialised header was zero. |
| `BrtCut.WrongKeyStays` | src/libpgmoneta/brt.c:383-461 | A table with such an entry does not become the written one, whatever is read behind it. |
| `BrtCut.CutIsLost` | src/include/brt.h:245-268 | So a table with more than 2730 such forks, in tablespaces whose numbers differ from that fork number, is not read back, whatever memory holds. |
| `BrtWitness.ZeroForkIsLost` | src/libpgmoneta/brt.c:752-765 | A table whose one fork has only zero numbers and limit zero is read back without it. |
| `BrtWitness.ManyForksAreLost` | src/include/brt.h:245-268 | The tables of 2731 and more created relations in the default tablespace are not read back. |

## Left out

- User interface: windows, colours, key dispatch, scrolling, the file selector, the display of marks, statistics and column alignment.
- Archives, temporary directories, decoding of WAL pages and of YAML text: decoded records and lists are inputs.
- Failing system calls, short writes, failing allocation and the rename of temporary files; a file that cannot be opened is modelled where the code handles it.
- Failed reloads in the viewer, after which the criteria are new and the rows old or none.
- Timestamps, lengths, hex dumps and verification state of a row in the viewer; its description and resource manager name are inputs.
- The order of the index: Tab completion takes the keys in whatever order the radix tree yields them, and its laws hold for any.
- LsnText.LsnRoundTrip: an `0x` without a digit behind it, on which C libraries differ, is read as no number.
- SearchHits.DescriptionMatches: texts are shorter than 2 GiB, so an offset fits the int result of the search.
- Kmp.BuildFailureFunction: the pattern is shorter than 2 GiB, because the table holds ints.
- Kmp.CountMatches: field and query are shorter than 2 GiB for the same reason.
- NUL bytes inside a configuration file, where C strings end early.
- ConfigLaws.SetThenGet: the key has no `=` and is trimmed, the section has no `]` that cuts it, and the value is one line that fits; `ConfigLines.KeyLineReads` and `ConfigLines.HeaderLineReads` show that otherwise the written line is not read back.
- ConfigText.SetFileThenGet: when the binding is written behind an unterminated line, the two together fit the line buffer of 4095 characters; `ConfigText.SetFileLines` says what is read otherwise too. All laws of `ConfigText` speak of the 8192 lines that the commands keep, as they drop what is behind them; `ConfigText.KeptAnswers` relates these to the whole file.
- ConfigText.SetFileTwice: the same two bounds.
- ConfigText.SetFileThenDelete: the same two bounds.
- `config init` and the command line of the tools.
- The encoder of WAL records beyond the header: the body is a sequence of bytes whose length the header states.
- WalRecords.RecalculateCrc: the length stored in the header is that of the encoded record; the code reads past the record otherwise.
- Null records in a list of decoded records.
- The radix tree and its iteration order: the table is a map from key texts to entries, and the file theorem holds for any order of the entries, so the sort is not modelled.
- Chunk arrays of the block reference table are values that the methods reassign; that the C code keeps each chunk at one address is not modelled.
- The highest block number after reading a file, which is not written to it.
- BrtListing.GetBlocks: calls in which the code reads past the last bitmap or writes into an array of size zero are excluded, and no others (`BrtListing.StaysInside`).
- BrtRead.ReadTable: malformed and truncated files, whose headers the code uses unchecked, and files that are not deliverable, for which some content of memory makes the reader deliver other bytes (`BrtFormat.DeliverableMeaning`); what such a reader makes of the rest of the file depends on that memory, and is followed only as far as `BrtCut.CutIsLost` needs it.
- BrtRoundTrip.WriteThenRead: tables whose file is not deliverable, for the same reason.
- BrtCut.CutIsLost: the cut is in a header behind forks without modified blocks, or in the terminator (`BrtCut.CutTerminator`); which tables survive a straddling request for chunk data, where blocks can come out in another order and still be all there, is not stated.
- Server processes (`src/main.c`), administration (`src/admin.c`, `src/cli.c`), `benchmarks` and `contrib`.
