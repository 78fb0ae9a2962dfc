# Verified models of the configuration, storage and game kernels

This project models, in Dafny, the parts of the repository that carry an algorithm of their own: the packed
string map `zipmap.c`, the string library `sds.c`, CONFIG REWRITE of `config.c`, the list `adlist.c`, the XML
printer, parser and pool allocator of `tinyxml2`, the streaming MD5, base 64, the path smoothing of the fishing
game and the settlement of a betting round.  Every operation that changes state is a method on a class or an
array and is proved against a specification; the laws each part exists for are lemmas about that specification.

* **Zipmap** (`Zipmap.dfy`).  A byte array edited in place, against a list of entries.  `Image` says what bytes a
  list of entries has, `ImageInjective` that the bytes determine the list.  `Set` and `Del` are proved through every
  path (append, grow, reuse of spare bytes, shrink, cut), and `Run` for all sequences of operations.
* **Strings** (`SdsStrings.dfy`, `Quoting.dfy`, `QuotingGrammar.dfy`, `Decimal.dfy`).  The growing string object,
  trimming, splitting and joining, and the quoting printer with the argument parser that undoes it on every list of byte
  strings.  `SplitArgsExactly` gives the language of the parser: the lines it accepts, and what it makes of each.
* **CONFIG REWRITE** (`ConfigLines`, `ConfigRewrite`, `ConfigAccounting`, `ConfigOptions`, `ConfigWriters`,
  `ConfigReload`, `ConfigMerge`, `ConfigRoundTrip`, `ConfigShadows`, `ConfigIdempotence`, `ConfigMemory`, `ConfigTwice`,
  `ConfigOverwrite`, `ConfigLanguage`).
  `RewriteState` mutates the line array and the option lists as the code does, against `Apply` and `Run` on an abstract
  `State`.  The main results: which lines an option owns after any run (`RewriteAccounting`); when loading the rewritten
  file gives back the running configuration, for every old file (`ReloadExactly`, `ReloadRoundTrip`); when a second
  rewrite changes nothing (`RewriteIdempotence`), as is always the case for the writers of this model (`RewriteTwice`);
  and that no intermediate state of the file on disk mixes old and new directives (`OverwriteFile`, `RewriteOnDisk`).
  `ConfigLanguage` says in characters what is read and written: lines, their options, directives and values.
* **XML** (`XmlTree`, `XmlParser`, `XmlReader`, `XmlRoundTrip`, `XmlValid`, `XmlText`, `XmlSource`, `XmlLanguage`,
  `XmlLayout`).  The visitor printer and the recursive-descent parser as methods, each tied to a function, and
  `ParsePrintWhen`: parsing the compact print of a tree gives the tree back exactly for valid trees, as the parser
  returns no others.  `ParseExactly` gives the language of the parser, with its liberties in blanks, quotes, line ends
  and end tags, and `PrintIsPlain` says which of the ways to write a tree the printer takes.
* **Allocation** (`MemPool.dfy`, `DynArray.dfy`).  The pool's free list over linked chunks, and the growing array.
* **MD5** (`Md5.dfy`).  Buffered updates against the one-shot definition of sections 3.1 to 3.5 of RFC 1321, for any
  block function; `GuardWraps` gives the exact input size at which the 32-bit loop guard goes wrong.
* **List** (`AdList.dfy`).  Heap nodes with both links, iterators, and a walk that deletes any of the nodes it meets.
* **Base 64** (`Base64.dfy`).  Encoder and decoder against section 4 of RFC 4648.
* **Path smoothing** (`SmoothPath.dfy`).  A list edited while it is traversed, with its termination measure, an exact
  description of the result, and the closed form of the curve that is put in (`BezierBernstein`).
* **Settlement** (`Settlement.dfy`).  Who is paid what from the banker's deposit, and conservation of money.

Where the code and its promises disagree, the model follows the code, and a lemma says when the promise holds:

* A string option that is NULL while its default is not is left out of the file, so that loading brings the default
  back; a directive of the old file that the loader does not know stops it (`ConfigShadows.ForeignFails`); and one whose
  quoted name has a NUL is kept by the rewrite, which compares whole names, and then taken by the loader, which compares
  C strings, for the option before the NUL (`ConfigShadows.NulNameShadows`).  `ReloadExactly` gives the condition
  on every old file, by the merge of its lines with those written; `ReloadRoundTrip` the simple one for files without
  such names.
* `client-output-buffer-limit` passes a different `force` in each of its three calls.  `ConfigTwice.LimitsSettleWhen`
  says when a second rewrite of all options leaves the text alone; on the empty file, with one class off its default, it
  does not (`BufferLimitsNotIdempotent`).
* `repl-backlog-ttl` is written as a memory size and read by `atoi`; `ConfigMemory.TtlComesBackWhen` says for which
  numbers that gives the number back.
* `sdsjoin` takes C strings: joining the tokens of a string gives it back exactly when it has no NUL
  (`SdsStrings.SplitThenJoin`, `JoinCutsAtNul`); splitting a joined list returns it exactly when the tokens have no NUL,
  are not the single empty token and are not kept apart by NUL (`SdsStrings.JoinThenSplit`).
* `i + 63 < inputLen` in the update loop of MD5 is a 32-bit sum (`Md5.GuardWraps`).
* `strchr` in `sdstrim` also matches NUL, and the model does so.
* After a run of corners was replaced, the next point is tested again, seen from the last new point, so that a point
  that is no corner of the path can be replaced too (`SmoothPaths.TouchingRuns`).  The traversal replaces exactly the
  maximal runs of corners of the path if and only if none of these tests succeeds (`SmoothPaths.MaximalRunsReplaced`).

## Model

| member | source | states |
|---|---|---|
| `Zipmaps.LengthRoundTrip` | zipmap.c:106-131 | a length of one or five bytes, wherever it stands, decodes to the number encoded and never begins with the END byte |
| `Zipmaps.EncodeExactly` | zipmap.c:43-76 | an entry is its key length, key, value length, number of spare bytes, value and spare bytes, and nothing else; a length is one byte below 254, or 254 and four bytes with the lowest first |
| `Zipmaps.EntryFields` | zipmap.c:179-201 | from the first byte of an entry the offset arithmetic finds its key, value, spare count and spare bytes |
| `Zipmaps.EntryUnique` | zipmap.c:179-201 | bytes at a place can be read as one entry only |
| `Zipmaps.AtBoundary` | zipmap.c:139-167 | from the boundary of one entry the raw length leads to the next, and after the last one to the END byte |
| `Zipmaps.ReplaceImage` | zipmap.c:238-277 | exchanging the bytes of one entry exchanges that entry of the list and no other |
| `Zipmaps.CutImage` | zipmap.c:282-298 | removing the bytes of one entry removes that entry of the list |
| `Zipmaps.AppendImage` | zipmap.c:222-228 | an entry in place of END, followed by END, is one more entry at the end |
| `Zipmaps.ImageInjective` | zipmap.c:43-76 | two different lists of entries never have the same bytes |
| `Zipmaps.PutLookup` | zipmap.c:212-278 | setting a key makes it map to the value and leaves every other key alone |
| `Zipmaps.DropLookup` | zipmap.c:282-298 | deleting a key unmaps it and leaves every other key alone |
| `Zipmaps.SetKeepsDistinct` | zipmap.c:212-278 | a set keeps the keys distinct |
| `Zipmaps.SetIsPut` | zipmap.c:212-278 | replacing one entry in place, or appending one, is the map operation |
| `Zipmaps.RemovedIsDrop` | zipmap.c:282-298 | cutting the entry of a key is the map operation, and the order of the rest stays |
| `Zipmaps.Zipmap.constructor` | zipmap.c:97-103 | the new buffer is the image of no entries |
| `Zipmaps.Zipmap.LengthAt` | zipmap.c:106-112 | reads the length at a place of the buffer |
| `Zipmaps.Zipmap.LookupRaw` | zipmap.c:139-167 | finds the boundary of the first entry with the key, or none, and the total length |
| `Zipmaps.Zipmap.Resize` | zipmap.c:203-207 | keeps the common prefix and ends the buffer with END |
| `Zipmaps.Zipmap.MemMove` | zipmap.c:242-259 | an overlapping move copies the bytes that were there before |
| `Zipmaps.Zipmap.WriteEntry` | zipmap.c:268-277 | writes lengths, key, spare count and value, and no other byte |
| `Zipmaps.Zipmap.Set` | zipmap.c:212-278 | as long as the new size stays below 2^32, the buffer becomes the image of the list with the value replaced in place, its spare count below four, or the pair appended; `update` says which |
| `Zipmaps.Zipmap.Insert` | zipmap.c:221-228 | key absent: one more entry, count raised unless it is saturated, and exactly the required bytes more |
| `Zipmaps.Zipmap.MakeRoom` | zipmap.c:233-266 | grow, shrink or keep: the bytes around the entry are the old ones, and the spare count follows the three cases |
| `Zipmaps.Zipmap.Overwrite` | zipmap.c:229-277 | key present: the entry is replaced on all three paths |
| `Zipmaps.Zipmap.Del` | zipmap.c:282-298 | exactly the entry of the key goes, the others keep order and bytes, and `deleted` says whether it was there |
| `Zipmaps.Zipmap.Get` | zipmap.c:335-343 | returns a place and a length in the buffer that hold the value the map has for the key |
| `Zipmaps.Zipmap.Exists` | zipmap.c:346-348 | true exactly for the keys of the map |
| `Zipmaps.Zipmap.Next` | zipmap.c:316-331 | from one boundary to the next with the pair there, and NULL after the last |
| `Zipmaps.Zipmap.Items` | zipmap.c:301-331 | the rewind/next loop ends and gives every pair once, in buffer order |
| `Zipmaps.Zipmap.Len` | zipmap.c:351-363 | the true number of entries, also after the count byte was saturated; it is restored when the number allows |
| `Zipmaps.Zipmap.BlobLen` | zipmap.c:368-372 | the size of the buffer |
| `Zipmaps.Run` | zipmap.c:212-372 | after any run of sets, deletions and length queries the buffer is valid and holds what the map operations give |
| `SdsStrings.TrimSpec` | sds.c:572-587 | the trimmed string is what remains between a prefix and a suffix of set characters, and neither end is in the set |
| `SdsStrings.TrimOfTrimmed` | sds.c:572-587 | trimming a trimmed string changes nothing |
| `SdsStrings.TrimUnique` | sds.c:572-587 | there is one way to strip set characters from both ends until neither end has one |
| `SdsStrings.SplitThenJoin` | sds.c:688-735 | joining the tokens with the separator gives the string back exactly when it has no NUL, and no token contains the separator |
| `SdsStrings.JoinThenSplit` | sds.c:688-735 | for one-character separators, splitting a join of tokens free of it returns them exactly when they have no NUL, are not the single empty token, and are at most one if the separator is NUL |
| `SdsStrings.TokensExactly` | sds.c:688-735 | for separators of any length, the tokens of a string are the only ones that join to it and in which each separator is taken where it first occurs |
| `SdsStrings.SplitLen` | sds.c:688-735 | the scanning loop returns the tokens; an empty separator is refused |
| `SdsStrings.JoinAll` | sds.c:961-970 | the loop joins with the separator between and not after, each part up to its first NUL |
| `SdsStrings.JoinCutsAtNul` | sds.c:961-970 | the join of the one token of a, NUL, b is a |
| `SdsStrings.Sds.constructor` | sds.c:52-67 | the string holds the bytes given, without spare room |
| `SdsStrings.Sds.MakeRoomFor` | sds.c:130-148 | contents stay, room suffices, and the spare room is doubled or raised by a megabyte |
| `SdsStrings.Sds.CatLen` | sds.c:240-252 | contents followed by the new bytes, and the capacity does not fall |
| `SdsStrings.Sds.CpyLen` | sds.c:272-287 | contents replaced |
| `SdsStrings.Sds.GrowZero` | sds.c:218-233 | contents followed by zero bytes up to the length, or unchanged |
| `SdsStrings.Sds.TrimInPlace` | sds.c:572-587 | contents become the trimmed contents, moved to the front, and no room is lost |
| `SdsStrings.Sds.TrimBounds` | sds.c:577-581 | the two cursors enclose the trimmed part, also when they pass each other |
| `Quoting.CatReprChar` | sds.c:754-772 | appends the escape of one byte |
| `Quoting.CatRepr` | sds.c:751-774 | appends the quoted form of the bytes |
| `Quoting.NextToken` | sds.c:836-914 | on every input the mode-driven loop reads one argument and its end, or reports unbalanced quotes or a closing quote with something behind it, as the grammar of `QuotingGrammar` says |
| `Quoting.SdsSplitArgs` | sds.c:826-934 | the loop ends on every input, with the argument list that `SplitArgsExactly` characterises, or with none |
| `Quoting.ReadReprBody` | sds.c:751-774 | reading inside double quotes undoes the escapes of any bytes, NUL and `\x41` look-alikes included |
| `Quoting.ReadSingle` | sds.c:878-892 | a single-quoted argument reads back as its value |
| `Quoting.ArgsRoundTrip` | sds.c:826-934 | any mixture of double-quoted, single-quoted and bare arguments reads back as their values |
| `Quoting.QuotingRoundTrip` | sds.c:751-934 | the argument parser returns exactly the byte strings whose quoted forms were joined by spaces |
| `Quoting.SplitSeparated` | sds.c:826-934 | arguments written in any of the three ways are read back exactly with white space before, between and behind them: a bare argument is ended by a space, tab, line feed or carriage return, a quoted one by any white space |
| `QuotingGrammar.SplitArgsExactly` | sds.c:826-934 | the parser accepts a line if and only if it is white space and arguments of bare characters and at most one quoted part at the end, with the escapes of either kind of quotes, and it returns exactly the values written there; every other line is refused |
| `QuotingGrammar.HexTable` | sds.c:776-806 | the sixteen hexadecimal digits, in either case, and their values |
| `QuotingGrammar.Chosen` | sds.c:751-774 | the escape printed for a byte is printable and reads as that byte |
| `QuotingGrammar.ReprShortest` | sds.c:751-774 | no other spelling of a byte in printable characters is shorter than the one printed, and one as long differs in nothing but capital hexadecimal digits |
| `Decimal.AtoiText` | config.c:190-192 | the number read from a printed number is that number |
| `Decimal.AtoiReads` | config.c:190-192 | white space, at most one sign and then as many digits as there are make the number, whatever follows; every string can be cut up like that |
| `Decimal.TextCanonical` | sds.c:301-331 | a number is printed with decimal digits of that value, no leading zero, and a minus sign only if it is negative |
| `Decimal.DigitsLength` | sds.c:301-301 | a number below a power of ten has no more digits than its exponent |
| `Decimal.LL2Str` | sds.c:301-331 | the digits of the value, a sign and NUL, within the buffer, for every value but the smallest |
| `Decimal.ReverseInPlace` | sds.c:321-329 | the two-pointer loop reverses the part it is given and touches nothing after it |
| `ConfigLines.PositionsSpec` | config.c:1412-1415 | an option's line numbers are ascending and are those of the lines that set it |
| `ConfigLines.PositionsUnique` | config.c:1341-1349 | no other ascending list has these members |
| `ConfigLines.OwnedUpdate` | config.c:1452-1461 | rewriting the m-th line of an option changes its m-th line |
| `ConfigLines.OwnedUpdateOther` | config.c:1452-1461 | rewriting the m-th line of an option changes no line of another option |
| `ConfigLines.OwnedCollapse` | config.c:1684-1700 | dropping repeated empty lines loses no line of any option |
| `ConfigLines.NamedCollapse` | config.c:1684-1700 | dropping repeated empty lines loses no line that the loader takes for a name |
| `ConfigLines.CollapseTwice` | config.c:1684-1700 | dropping them again changes nothing |
| `ConfigLines.GetContent` | config.c:1684-1700 | the content is, each with a newline and in order, the lines with the ascending indices j except those where both line j and the line before it are empty |
| `ConfigLines.ThinnedUnique` | config.c:1686-1696 | exactly one list of lines keeps all lines in order but the empty ones right behind an empty line, and it is the one that is written |
| `ConfigLines.OneEmptyLine` | config.c:1686-1696 | of two lines that are not empty, with nothing but empty lines between them, exactly one empty line remains in between if there was any, and none otherwise |
| `ConfigRewrite.InitialWf` | config.c:1366-1421 | a freshly read state satisfies what the rewriting steps rely on |
| `ConfigRewrite.StoredClean` | config.c:1385-1407 | a line as stored has no newline, no NUL and no blank at its ends |
| `ConfigLanguage.ChunksExactly` | config.c:1382-1383 | the file is cut into lines that end with a newline, but perhaps for the last, and have no other, in the only way there is |
| `ConfigLanguage.StoredExactly` | config.c:1385-1407 | a line is kept up to its first NUL and without the blanks at its ends; one that is no comment and not in the language of the argument parser gets `# ??? ` in front |
| `ConfigLanguage.OptionExactly` | config.c:1389-1415 | a line belongs to an option if and only if it is no comment, it is in the language of the argument parser, and its first argument with small letters is the name |
| `ConfigRewrite.RewriteState.ReadOldFile` | config.c:1366-1421 | the state built from any old file: its lines as stored, the line numbers of every option, the signature flag |
| `ConfigRewrite.InitialIsStateOf` | config.c:1366-1421 | there is one state that a file can be read as |
| `ConfigRewrite.RewriteState.ReadLine` | config.c:1385-1417 | one line: comment, commented if it does not parse, or an option line |
| `ConfigRewrite.RewriteState.AddLineNumberToOption` | config.c:1341-1349 | the number goes to the end of the option's list |
| `ConfigRewrite.RewriteState.RewriteLine` | config.c:1439-1472 | the whole new state: the first listed line overwritten and unlisted, or the line appended after at most one signature, or dropped when not forced |
| `ConfigRewrite.RewriteState.BlankLines` | config.c:1733-1740 | the listed lines and only they become empty, and the list ends |
| `ConfigRewrite.RewriteState.VisitEntry` | config.c:1722-1741 | one option: blanked if it was processed, otherwise left |
| `ConfigRewrite.RewriteState.RemoveOrphaned` | config.c:1718-1743 | in whatever order the map is walked, the lines still listed under processed options are blanked and no others |
| `ConfigAccounting.RunAccounts` | config.c:1439-1472 | throughout a run an option's lines are its emitted lines followed by the old lines not yet used, and its list says which |
| `ConfigAccounting.OrphanOwner` | config.c:1718-1743 | a line is an orphan exactly when its own option was processed and still lists it |
| `ConfigAccounting.FinalOwned` | config.c:1718-1743 | what is left of an option's lines after orphan removal |
| `ConfigAccounting.RewriteAccounting` | config.c:1439-1743 | after orphan removal a processed option owns exactly its emitted lines, in the order of emission, and another option its old lines |
| `ConfigAccounting.LineLists` | config.c:1335-1472 | until orphan removal the lists are not empty, strictly ascending, in range, and disjoint between options |
| `ConfigAccounting.FinalExtends` | config.c:1439-1743 | comments and lines of options that were not processed stay where they are, unchanged |
| `ConfigAccounting.UnprocessedKept` | config.c:1439-1472 | an option that was not processed keeps its lines |
| `ConfigAccounting.RunSignatures` | config.c:1462-1470 | the flag says whether there is a signature line, and a run adds at most one |
| `ConfigAccounting.RunAppends` | config.c:1439-1472 | what a run appends is the lines of the forced calls that find no old line of their option left, in the order of the calls, with a signature before the first of them unless the file had one |
| `ConfigAccounting.FinalAppends` | config.c:1718-1743 | orphan removal leaves the appended lines and the signature as they are |
| `ConfigAccounting.FinalSignatures` | config.c:1462-1743 | after orphan removal, too, there is at most one signature line more than in the old file |
| `ConfigOptions.EnumRoundTrip` | config.c:104-119 | in a table of distinct names the value of the name of a value is that value |
| `ConfigLanguage.DirectiveExactly` | config.c:104-141 | a directive of a string, yes/no, number or enum option has one word; it gives the word up to its first NUL, the flag for yes or no in any case, the number if it is within its bounds, or the value of the first entry with that name in any case, and everything else is an error |
| `ConfigLanguage.SaveExactly` | config.c:230-240 | two numbers, of at least one second and no fewer than zero changes, add a save point and other numbers are an error; an empty word removes all points; other numbers of words change nothing |
| `ConfigLanguage.CallsExactly` | config.c:1504-1589 | the text of each line that a writer produces, whether it is forced, and that a NULL string produces none |
| `ConfigOptions.WrittenLine` | config.c:1504-1589 | a line of a name and arguments belongs to that name, is stored unchanged, and reads back as name and arguments |
| `ConfigOptions.WrittenWord` | config.c:1504-1560 | a line of a name and one plain word belongs to that name, is stored unchanged, and reads back as the two |
| `ConfigOptions.WrittenString` | config.c:1513-1532 | a line of a name and a quoted string of any bytes belongs to that name, is stored unchanged, and reads back as the two |
| `ConfigOptions.WrittenSave` | config.c:1575-1589 | a line of a save point belongs to its name, is stored unchanged, and reads back as the name and two numbers |
| `ConfigWriters.RewriteYesNo` | config.c:1504-1510 | writes the calls of a yes/no option |
| `ConfigWriters.RewriteString` | config.c:1513-1532 | writes the calls of a string option; a NULL value is only marked as processed |
| `ConfigWriters.RewriteNumerical` | config.c:1535-1540 | writes the calls of a number |
| `ConfigWriters.EnumGetNameOrUnknown` | config.c:113-126 | finds the first name of a value, or "unknown" |
| `ConfigWriters.RewriteEnum` | config.c:1553-1560 | writes the calls of an enum option |
| `ConfigWriters.RewriteSave` | config.c:1575-1589 | one forced line for each save point, and the mark that removes all others |
| `ConfigWriters.RewriteAll` | config.c:1810-1899 | the state after the writers of all options is the run of all their calls |
| `ConfigWriters.RewriteConfig` | config.c:1810-1917 | read, rewrite, orphan removal and content generation give the content of the model; the old file tells, by the condition of `ReloadExactly`, whether loading it gives the running configuration, and by that of `ReloadGivesValues` whether every option gets its value, or its default for a NULL string |
| `ConfigReload.Loader.LoadFromString` | config.c:156-190 | the line loop loads every line, compares names up to their first NUL, and stops at the first bad or unknown one |
| `ConfigReload.LoadIsFold` | config.c:164-190 | loading succeeds exactly if all directives outside the schema are taken and the lines of each name can be applied in order; each option then has what its lines say, wherever they stand |
| `ConfigReload.ContentTokens` | config.c:162-169 | splitting a produced content at newlines gives its lines and a last empty one |
| `ConfigReload.LoadContent` | config.c:156-186 | loading a produced content succeeds exactly if all directives outside the schema are taken and the lines of each name can be applied in order, and gives what they say, in terms of the lines the content was made of |
| `ConfigRoundTrip.SaveRoundTrip` | config.c:1575-1589 | the save points come back in order when loading starts from none |
| `ConfigRoundTrip.OptionRoundTrip` | config.c:1504-1589 | reading back what one option's writer emits, with any number of old lines, gives its value, or the default for a NULL string |
| `ConfigRoundTrip.FoldIsSaid` | config.c:189-240 | applying lines of one option one after the other fails exactly if one is bad, and otherwise gives what the last says, or for `save` the points after the last clearing |
| `ConfigRoundTrip.EmittedByOne` | config.c:1810-1899 | the calls of other options emit no line of this one |
| `ConfigRoundTrip.ForeignKept` | config.c:1439-1743 | the rewritten file has the directives of unprocessed options of the old one, and no others |
| `ConfigMerge.BlankedLast` | config.c:1718-1743 | a place of an option that is blanked lies behind every line written for it |
| `ConfigMerge.NamedIsMerge` | config.c:1439-1743 | in the rewritten file the loader takes for an option the old lines that name it up to a NUL, with the lines written in the places of its own: used up from the front, then blank, and the remaining ones at the end |
| `ConfigRoundTrip.RunLoadable` | config.c:1366-1472 | every line of a rewritten file parses again |
| `ConfigRoundTrip.ReloadGivesValues` | config.c:156-1743 | if no line of the old file passes for an option, loading the new content from the defaults gives every option its value, or its default for a NULL string, exactly if the loader takes all foreign directives of the old file |
| `ConfigRoundTrip.ReloadExactly` | config.c:156-1743 | for every parsable old file and every running configuration: loading the new content gives the configuration if and only if the loader takes the foreign directives of the old file and, for each option, the merge of the old lines that pass for it with those its writer emits can be read and says its value |
| `ConfigRoundTrip.RestoredByLast` | config.c:189-240 | told from the old file, `save` included: a merge says the value if and only if the lines that only pass for the option can be read, and the last line is its own or says the same; with no line, that the option has its default; for `save`, that the points after the last clearing are its points |
| `ConfigRoundTrip.RejectedFails` | config.c:646-648 | one foreign directive that is not taken makes the load fail |
| `ConfigRoundTrip.ReloadRoundTrip` | config.c:156-1743 | if no line of the old file passes for an option, loading the new content from the defaults gives exactly the running configuration if and only if the foreign directives are taken and no string option is NULL while its default is not |
| `ConfigShadows.NulNameShadows` | config.c:203-206 | on the file with the one line `"port\x00" 1234` and the port at its default, the rewrite keeps the line and loading sets the port to 1234 |
| `ConfigShadows.ForeignFails` | config.c:646-648 | on the file with the one line `foo bar`, the rewrite keeps the line and a loader that does not know it fails |
| `ConfigIdempotence.SteadyFixpoint` | config.c:1439-1472 | steady calls emit the same lines again when they start from as many lines as they emitted |
| `ConfigIdempotence.FixpointIsSteady` | config.c:1439-1472 | when the lines are distinct, calls emit the same lines again if and only if they are steady |
| `ConfigIdempotence.ReadBack` | config.c:1366-1421 | reading a produced content stores exactly its lines |
| `ConfigIdempotence.SettledRun` | config.c:1439-1472 | calls that emit the lines that are there leave every line as it is |
| `ConfigIdempotence.SecondRewrite` | config.c:1366-1743 | a second rewrite gives the same text if and only if every option's emitted lines are a fixpoint |
| `ConfigIdempotence.RewriteIdempotence` | config.c:1366-1743 | when an option's lines are distinct, a second rewrite gives the same text if and only if, beyond its old lines, no unforced call comes before a forced one |
| `ConfigIdempotence.RewriteIdempotent` | config.c:1366-1743 | a second rewrite gives the same text whenever each option is written by one call or by forced calls only |
| `ConfigTwice.AllCallsOneOrForced` | config.c:1504-1589 | the writers together make, for each option, one rewriting call or forced ones only |
| `ConfigTwice.RewriteStable` | config.c:1366-1917 | so rewriting a rewritten file changes nothing, for every old file and all options |
| `ConfigTwice.RewriteTwice` | config.c:1366-1917 | two rewrites, one after the other, give the same text |
| `ConfigTwice.LimitsSettleWhen` | config.c:1633-1917 | for every old file, all options before and after it, and all limits: a second rewrite, with `client-output-buffer-limit` among the writers, gives the same text if and only if, past the lines the old file had for it, no class at its default comes before one that is not |
| `ConfigTwice.BufferLimitsNotIdempotent` | config.c:1633-1658 | on the empty file, with only the class `slave` off its default, the second rewrite gives another text, whatever the other options |
| `ConfigMemory.TtlComesBackWhen` | config.c:1476-1491 | a number written as a memory size and read by `atoi` comes back if and only if it is zero or no multiple of 1024 |
| `ConfigMemory.MemoryTextIs` | config.c:1476-1491 | a size is written as a whole number of the largest of the units gb, mb, kb and byte that divides it, and zero without a unit |
| `ConfigMemory.TtlLost` | config.c:1852-1852 | 1024 seconds of `repl-backlog-ttl` are written as 1kb and read as one |
| `ConfigOverwrite.EffectsDecide` | config.c:164-186 | whatever directives the loader takes, loading depends on the directives of a content only |
| `ConfigOverwrite.SameDirectivesLoadSame` | config.c:156-186 | contents with the same directives load alike |
| `ConfigOverwrite.PaddingIsHarmless` | config.c:1772-1781 | a newline and hash signs after a content add and change no directive |
| `ConfigOverwrite.PadIn` | config.c:1776-1781 | turns the grown tail into the newline and the hash signs |
| `ConfigOverwrite.OverwriteFile` | config.c:1757-1800 | after every system call the file has the directives of the old content or of the new one; what is returned when a call fails, and the final content |
| `ConfigOverwrite.RewriteOnDisk` | config.c:1757-1917 | a crash at any step leaves a file that loads like the old one or like the new content; the old file tells, by the condition of `ReloadExactly`, whether the latter gives the running configuration |
| `AdLists.List.constructor` | adlist.c:43-54 | an empty list |
| `AdLists.List.AddNodeHead` | adlist.c:81-99 | one new node in front, all links consistent |
| `AdLists.List.AddNodeTail` | adlist.c:107-125 | one new node behind |
| `AdLists.List.InsertNode` | adlist.c:127-154 | one new node before or after the given one, at any place |
| `AdLists.List.DelNode` | adlist.c:160-173 | the given node goes and the others keep their order; the links it held stay readable |
| `AdLists.List.Rotate` | adlist.c:329-342 | the last node becomes the first |
| `AdLists.RotationsAre` | adlist.c:329-342 | k rotations bring the last k to the front, and as many as the length change nothing |
| `AdLists.List.Index` | adlist.c:314-326 | the node at the index, counted from the tail when negative, or NULL out of range |
| `AdLists.Iter.Next` | adlist.c:222-233 | returns the node it stands on and moves in its direction |
| `AdLists.HalfwayPlace` | adlist.c:209-233 | while nodes already met are deleted, the next one to be met is beside the one in hand, in both directions |
| `AdLists.Sweep` | adlist.c:209-233 | a walk that deletes any subset of the nodes it is given meets every original node once, and leaves the others in order |
| `AdLists.Dup` | adlist.c:243-275 | a list of fresh nodes with the copied values in order, or none exactly when a copy fails; the original is untouched |
| `AdLists.SearchKey` | adlist.c:286-307 | the first node that answers to the key, or NULL when none does |
| `XmlTree.XmlPrinter.PrintString` | haixiangsrc/haixiang/fishing/tinyxml2.cpp:1802-1837 | runs of plain bytes and entities: appends the escaped text |
| `XmlTree.XmlPrinter.OpenElement` | haixiangsrc/haixiang/fishing/tinyxml2.cpp:1852-1868 | seals an open tag, pushes the name |
| `XmlTree.XmlPrinter.PushAttribute` | haixiangsrc/haixiang/fishing/tinyxml2.cpp:1871-1877 | appends name and escaped value |
| `XmlTree.XmlPrinter.CloseElement` | haixiangsrc/haixiang/fishing/tinyxml2.cpp:1912-1935 | ends an empty tag at once, or prints the end tag of the name on the stack |
| `XmlTree.XmlPrinter.PushText` | haixiangsrc/haixiang/fishing/tinyxml2.cpp:1945-1959 | seals an open tag, appends the escaped text |
| `XmlTree.XmlPrinter.Accept` | haixiangsrc/haixiang/fishing/tinyxml2.cpp:1475-1485 | visiting a tree, with all the flags and the stack of the printer, appends the print of the tree |
| `XmlReader.GetStr` | haixiangsrc/haixiang/fishing/tinyxml2.cpp:181-263 | one pass over the raw bytes gives what they spell by `XmlText`: entities, line ends of four kinds and plain bytes; text that spells nothing is refused |
| `XmlText.DecodeExactly` | haixiangsrc/haixiang/fishing/tinyxml2.cpp:175-263 | decoding accepts exactly the texts made of plain bytes, the five entities and line ends CR LF, LF CR, CR and LF, each taken as long as possible, and returns the characters these stand for, a line feed for each line end |
| `XmlText.LineEndsRead` | haixiangsrc/haixiang/fishing/tinyxml2.cpp:193-213 | any list of lines free of CR, LF and ampersands, joined by CR LF, by CR, by LF or by LF CR, is decoded to the same lines joined by LF |
| `XmlLanguage.LinesInAttribute` | haixiangsrc/haixiang/fishing/tinyxml2.cpp:1045-1070 | an attribute value of several lines, in either kind of quotes and with any blanks around the sign, is read with line feeds, whichever line end it is written with |
| `XmlLanguage.LinesInText` | haixiangsrc/haixiang/fishing/tinyxml2.cpp:854-879 | text of several lines between tags is read as one node with line feeds, whichever line end it is written with |
| `XmlReader.ReadName` | haixiangsrc/haixiang/fishing/tinyxml2.cpp:129-151 | the end of a name, or NULL |
| `XmlReader.ReadText` | haixiangsrc/haixiang/fishing/tinyxml2.cpp:109-126 | the first end mark, or NULL |
| `XmlReader.ReadAttribute` | haixiangsrc/haixiang/fishing/tinyxml2.cpp:1045-1070 | one attribute by the grammar, or why not |
| `XmlReader.FindAttribute` | haixiangsrc/haixiang/fishing/tinyxml2.cpp:1186-1195 | whether there is an attribute of the name |
| `XmlReader.ReadAttributes` | haixiangsrc/haixiang/fishing/tinyxml2.cpp:1344-1397 | the attribute loop, which refuses a repeated name |
| `XmlReader.ReadElement` | haixiangsrc/haixiang/fishing/tinyxml2.cpp:1405-1433 | an element with its children and its matching end tag, or an end tag, or why not |
| `XmlReader.ReadNodes` | haixiangsrc/haixiang/fishing/tinyxml2.cpp:493-851 | the children loop: elements, texts, the end tag that stops it, and the error cases |
| `XmlReader.ReadDocument` | haixiangsrc/haixiang/fishing/tinyxml2.cpp:1666-1691 | a document, empty, failed or parsed |
| `XmlReader.SaveAndLoad` | haixiangsrc/haixiang/fishing/tinyxml2.cpp:1666-1960 | the parser run on what the printer wrote returns the tree |
| `XmlRoundTrip.DecodeEscape` | haixiangsrc/haixiang/fishing/tinyxml2.cpp:181-263 | decoding an escaped text without carriage returns gives it back |
| `XmlRoundTrip.AttrsRead` | haixiangsrc/haixiang/fishing/tinyxml2.cpp:1344-1397 | printed attributes of different names read back in order |
| `XmlRoundTrip.EndTagRead` | haixiangsrc/haixiang/fishing/tinyxml2.cpp:1405-1418 | a printed end tag closes the list of children |
| `XmlRoundTrip.TextRead` | haixiangsrc/haixiang/fishing/tinyxml2.cpp:854-879 | printed text that is not blank reads back as one text node |
| `XmlRoundTrip.ElementRead` | haixiangsrc/haixiang/fishing/tinyxml2.cpp:1405-1433 | a printed element reads back, wherever it stands |
| `XmlRoundTrip.NodesRead` | haixiangsrc/haixiang/fishing/tinyxml2.cpp:775-851 | printed children read back in order |
| `XmlRoundTrip.ParsePrint` | haixiangsrc/haixiang/fishing/tinyxml2.cpp:493-1960 | parsing the compact print of a valid tree gives the tree |
| `XmlSource.ListRead` | haixiangsrc/haixiang/fishing/tinyxml2.cpp:493-879 | text, tags with any blanks, either kind of quotes and attributes set off by blanks, nested as written, are read as the nodes they stand for, wherever the list stands and up to its end tag or the end of the text |
| `XmlLanguage.ParseExactly` | haixiangsrc/haixiang/fishing/tinyxml2.cpp:493-1433 | the parser succeeds if and only if the text is a list of items of the grammar of `XmlSource`, up to its end or a stray end tag, and returns exactly the nodes written there; it takes exactly the blank texts for empty documents |
| `XmlLayout.PrintIsPlain` | haixiangsrc/haixiang/fishing/tinyxml2.cpp:1802-1960 | the compact print of every tree is the form of the grammar without blanks but one before each attribute, with double quotes, empty tags for elements without children, and entities for markup only; and that form means the tree |
| `XmlValid.ParsedAreValid` | haixiangsrc/haixiang/fishing/tinyxml2.cpp:493-1433 | whatever the text, the nodes the parser returns have valid names and values, different attribute names, no blank text and no two adjacent texts |
| `XmlValid.ParsePrintWhen` | haixiangsrc/haixiang/fishing/tinyxml2.cpp:493-1960 | parsing the compact print of any node gives the node back if and only if it is a valid element |
| `MemPools.LinkedAcyclic` | haixiangsrc/haixiang/fishing/tinyxml2.h:287-321 | a free list that ends meets no chunk twice |
| `MemPools.LinkedUnique` | haixiangsrc/haixiang/fishing/tinyxml2.h:287-321 | the links determine the free list |
| `MemPools.MemPool.Conserved` | haixiangsrc/haixiang/fishing/tinyxml2.h:287-321 | free chunks and current allocations make up COUNT chunks for every block; no chunk is twice free, or free and in use |
| `MemPools.MemPool.ClientWrites` | haixiangsrc/haixiang/fishing/tinyxml2.h:338-341 | what clients write into chunks they hold cannot break the pool |
| `MemPools.MemPool.NewBlock` | haixiangsrc/haixiang/fishing/tinyxml2.h:290-297 | the chunks of a new block are linked in order and the last link is null |
| `MemPools.MemPool.Alloc` | haixiangsrc/haixiang/fishing/tinyxml2.h:287-309 | returns a chunk that is not in use: the last one freed, or the first of a new block; counters and watermark follow |
| `MemPools.MemPool.Free` | haixiangsrc/haixiang/fishing/tinyxml2.h:310-321 | a chunk in use becomes the first free one; NULL is ignored |
| `MemPools.PeakIsMaximum` | haixiangsrc/haixiang/fishing/tinyxml2.h:302-305 | the peak of a run is reached and never exceeded |
| `MemPools.Client` | haixiangsrc/haixiang/fishing/tinyxml2.h:268-352 | over any run of a client, which may write anything into the chunks it holds, these are distinct, the watermark is the exact peak, and the blocks suffice |
| `DynArrays.DynArray.EnsureCapacity` | haixiangsrc/haixiang/fishing/tinyxml2.h:228-239 | grows to twice what is asked for and keeps the contents |
| `DynArrays.DynArray.Push` | haixiangsrc/haixiang/fishing/tinyxml2.h:176-179 | one more element |
| `DynArrays.DynArray.PushArr` | haixiangsrc/haixiang/fishing/tinyxml2.h:181-186 | room for more elements after the old ones |
| `DynArrays.DynArray.Pop` | haixiangsrc/haixiang/fishing/tinyxml2.h:188-190 | takes the last element |
| `DynArrays.DynArray.PopArr` | haixiangsrc/haixiang/fishing/tinyxml2.h:192-195 | takes the last elements, as many as asked for |
| `DynArrays.DynArray.CopyBound` | haixiangsrc/haixiang/fishing/tinyxml2.h:228-239 | all moves since construction together are bounded by the inline room and twice the peak size, and so is the capacity |
| `Md5.PadLengthUnique` | haixiangsrc/haixiang/md5/md5.cpp:84-87 | the padding is the one length from 1 to 64 that leaves eight bytes of the last block |
| `Md5.PadExactly` | haixiangsrc/haixiang/md5/md5.cpp:78-90 | the padded message is the message, 0x80, as few zeros as fill up blocks of 64 bytes with eight to spare, and in these the number of bits modulo 2^64, low-order byte first |
| `Md5.InitialBytes` | haixiangsrc/haixiang/md5/md5.cpp:22-31 | the words that a digest starts from are the bytes 01 23 45 67 89 ab cd ef fe dc ba 98 76 54 32 10 |
| `Md5.OutputWords` | haixiangsrc/haixiang/md5/md5.cpp:92-93 | the digest is sixteen bytes, the four words of the final state in order, each with its low-order byte first |
| `Md5.AddCountCorrect` | haixiangsrc/haixiang/md5/md5.cpp:44-49 | adding with carry keeps the count at eight times the length, modulo 2^64 |
| `Md5.CountIndex` | haixiangsrc/haixiang/md5/md5.cpp:41-42 | the low word gives the number of buffered bytes |
| `Md5.GuardWraps` | haixiangsrc/haixiang/md5/md5.cpp:60-61 | after the last full block the 32-bit guard lets the loop go on exactly when buffered bytes and input reach 2^32 |
| `Md5.NoWrap` | haixiangsrc/haixiang/md5/md5.cpp:60-61 | while buffered bytes and input stay below 2^32 the guard is the plain sum |
| `Md5.CMD5.Init` | haixiangsrc/haixiang/md5/md5.cpp:22-31 | the state of the empty message |
| `Md5.CMD5.FullBlocks` | haixiangsrc/haixiang/md5/md5.cpp:53-61 | the loop absorbs every full block of buffer and input |
| `Md5.CMD5.Update` | haixiangsrc/haixiang/md5/md5.cpp:37-70 | state, buffer and count are those of the message followed by the input |
| `Md5.CMD5.Final` | haixiangsrc/haixiang/md5/md5.cpp:76-97 | the digest of the padded message, and the context wiped |
| `Md5.CMD5.MessageDigest` | haixiangsrc/haixiang/md5/md5.cpp:190-198 | the digest of the input repeated |
| `Md5.CMD5.DigestOfPieces` | haixiangsrc/haixiang/md5/md5.cpp:37-97 | any cutting of a message into updates gives the one-shot digest |
| `Base64.AlphabetFound` | haixiangsrc/haixiang/base64/base64Con.cpp:4-12 | alphabet and search are inverses, and the decoder's character test is membership |
| `Base64.AlphabetTable` | haixiangsrc/haixiang/base64/base64Con.cpp:4-7 | the alphabet is the capitals, the small letters, the digits, plus and slash, by character codes |
| `Base64.DigitsOfGroup` | haixiangsrc/haixiang/base64/base64Con.cpp:24-27 | the masks and shifts give the four six-bit digits of the 24 bits |
| `Base64.TripleOfThree` | haixiangsrc/haixiang/base64/base64Con.cpp:71-73 | the decoder's shifts give the three bytes back |
| `Base64.EncodedShape` | haixiangsrc/haixiang/base64/base64Con.cpp:14-55 | length, alphabet and padding as the standard asks |
| `Base64.EncodedExactly` | haixiangsrc/haixiang/base64/base64Con.cpp:14-55 | every four characters stand, in base 64, for the number that three bytes make in base 256, the first highest; with one or two bytes left the missing ones are zero and the padding replaces letters that would be A |
| `Base64.DecodedExactly` | haixiangsrc/haixiang/base64/base64Con.cpp:57-95 | four characters give the three bytes of the number they stand for; two or three left over give the one or two bytes that are complete, and a single one gives none |
| `Base64.BodyLongest` | haixiangsrc/haixiang/base64/base64Con.cpp:57-63 | what is decoded is the longest part from the beginning that has characters of the alphabet only |
| `Base64.RoundTrip` | haixiangsrc/haixiang/base64/base64Con.cpp:14-95 | decoding what was encoded gives it back, for all bytes |
| `Base64.Encode` | haixiangsrc/haixiang/base64/base64Con.cpp:14-55 | the loop with its three-byte scratch array gives the encoding of the standard |
| `Base64.Decode` | haixiangsrc/haixiang/base64/base64Con.cpp:57-95 | the loop with its four-byte scratch array decodes up to the first foreign character |
| `Base64.EncodeThenDecode` | haixiangsrc/haixiang/base64/base64Con.cpp:14-95 | the two loops one after the other return the input |
| `SmoothPaths.BezierQuadratic` | haixiangsrc/haixiang/fishing/fish_cloud.cpp:287-302 | for one corner the recursion is the quadratic formula of the comment |
| `SmoothPaths.BezierBernstein` | haixiangsrc/haixiang/fishing/fish_cloud.cpp:282-298 | for any number of control points from two on, each coordinate of the recursion is the sum over k of C(n, k) (1 - t)^(n - k) t^k times coordinate k, with n one less than their number |
| `SmoothPaths.ChooseFactorial` | haixiangsrc/haixiang/fishing/fish_cloud.cpp:282-298 | the coefficients of that sum are n! / (k! (n - k)!) |
| `SmoothPaths.BendIsCurve` | haixiangsrc/haixiang/fishing/fish_cloud.cpp:321-326 | the nine points that replace a run are that curve, over the run and its two neighbours, at one tenth to nine tenths |
| `SmoothPaths.BezierEnds` | haixiangsrc/haixiang/fishing/fish_cloud.cpp:282-298 | the curve begins and ends at the outer control points |
| `SmoothPaths.BezierInBox` | haixiangsrc/haixiang/fishing/fish_cloud.cpp:282-298 | the curve stays in every box that holds its control points |
| `SmoothPaths.DoSmooth` | haixiangsrc/haixiang/fishing/fish_cloud.cpp:304-332 | the run is replaced by nine points, which are the Bezier curve of the run and its neighbours in closed form at one tenth to nine tenths; the rest of the path stays, no index is out of range |
| `SmoothPaths.SmoothPath` | haixiangsrc/haixiang/fishing/fish_cloud.cpp:334-367 | ends for every angle predicate, though the list grows, with the smoothed path: the one that `SmoothedCharacterised` describes, whose bends are the points of `BendIsCurve` |
| `SmoothPaths.PiecesUnique` | haixiangsrc/haixiang/fishing/fish_cloud.cpp:334-367 | there is one way to cut a path into the points the traversal keeps and the runs it replaces |
| `SmoothPaths.SmoothedCharacterised` | haixiangsrc/haixiang/fishing/fish_cloud.cpp:304-367 | a path is the result if and only if it comes from such a cutting, each run replaced by its bend |
| `SmoothPaths.SmoothedShape` | haixiangsrc/haixiang/fishing/fish_cloud.cpp:304-367 | the first and last points stay, and each run of k points that the traversal replaces changes the length by 9 - k |
| `SmoothPaths.CornersAreMaximal` | haixiangsrc/haixiang/fishing/fish_cloud.cpp:334-367 | testing the points of the path only cuts it into points that are no corners and maximal runs of corners |
| `SmoothPaths.TraversalFindsCorners` | haixiangsrc/haixiang/fishing/fish_cloud.cpp:334-367 | from any point on, the traversal makes the same cutting if and only if no point after a run is a corner when seen from the end of the bend |
| `SmoothPaths.MaximalRunsReplaced` | haixiangsrc/haixiang/fishing/fish_cloud.cpp:304-367 | for whole paths: exactly then each maximal run of k corners of the path, and nothing else, is replaced by nine points |
| `SmoothPaths.TouchingRuns` | haixiangsrc/haixiang/fishing/fish_cloud.cpp:334-367 | a path with one corner, and a bound of fifteen degrees, on which the point after the corner is replaced as well |
| `SmoothPaths.SmoothedInBox` | haixiangsrc/haixiang/fishing/fish_cloud.cpp:282-367 | no point leaves a box that holds the path |
| `Settlement.WinsWhen` | haixiangsrc/haixiang/BeautyAndBeast/game_logic.cpp:671-699 | a bet wins exactly when its field was drawn, or for a group bet one of the group's fields |
| `Settlement.OwedExactly` | haixiangsrc/haixiang/BeautyAndBeast/game_logic.cpp:1063-1063 | what is owed is the bet times the factor rounded to the nearest tenth, half up, cut to whole coins towards zero, for factors of either sign |
| `Settlement.WinsExactly` | haixiangsrc/haixiang/BeautyAndBeast/game_logic.cpp:671-699 | a group bet wins once for each place of its group whose field was drawn, with the group's factor; another bet wins once, with the factor of the first preset of its field that was drawn |
| `Settlement.WinsInOrder` | haixiangsrc/haixiang/BeautyAndBeast/game_logic.cpp:671-699 | the wins of a list of bets are those of its parts, in the order of the bets |
| `Settlement.WinsPositive` | haixiangsrc/haixiang/BeautyAndBeast/game_logic.cpp:671-699 | with factors not below zero, only bettors win and nothing owed is negative |
| `Settlement.PayAllReports` | haixiangsrc/haixiang/BeautyAndBeast/game_logic.cpp:1060-1092 | each report grows by what was owed and paid to its player |
| `Settlement.PayAllPlayers` | haixiangsrc/haixiang/BeautyAndBeast/game_logic.cpp:1074-1091 | a report is made for every winner and nobody else |
| `Settlement.BestFactor` | haixiangsrc/haixiang/BeautyAndBeast/game_logic.cpp:1080-1088 | a report names the best factor its player won with or had before |
| `Settlement.CollectReports` | haixiangsrc/haixiang/BeautyAndBeast/game_logic.cpp:1094-1107 | each report says what its player bet, and exactly the players that bet have one |
| `Settlement.CollectedInOrder` | haixiangsrc/haixiang/BeautyAndBeast/game_logic.cpp:624-668 | bet by bet and in order, a bet is given back exactly if round 100 was drawn and it names the pid of a preset or a group |
| `Settlement.TaxCases` | haixiangsrc/haixiang/BeautyAndBeast/game_logic.cpp:785-811 | a player that got no more than was paid pays the flat taxes only; one that got more pays the bracketed ones, also on what was owed |
| `Settlement.PaymentsTotal` | haixiangsrc/haixiang/BeautyAndBeast/game_logic.cpp:1060-1073 | all that is owed is paid as far as the deposit reaches |
| `Settlement.PaymentsInTurn` | haixiangsrc/haixiang/BeautyAndBeast/game_logic.cpp:1060-1073 | each winner gets what the ones before left, up to what is owed |
| `Settlement.DepositStays` | haixiangsrc/haixiang/BeautyAndBeast/game_logic.cpp:1060-1073 | the deposit does not fall below zero, whatever is owed |
| `Settlement.ShortOnlyWhenBroke` | haixiangsrc/haixiang/BeautyAndBeast/game_logic.cpp:1060-1092 | a player gets less than is owed only if the deposit reached zero, and never more |
| `Settlement.CollectConserves` | haixiangsrc/haixiang/BeautyAndBeast/game_logic.cpp:624-668 | collecting raises the deposit by the bets collected and no win |
| `Settlement.PayConserves` | haixiangsrc/haixiang/BeautyAndBeast/game_logic.cpp:671-699 | deposit and actual wins together do not change |
| `Settlement.RoundIsFair` | haixiangsrc/haixiang/BeautyAndBeast/game_logic.cpp:624-701 | for every configuration, result and list of bets, before tax: the deposit stays at or above zero, nobody gets more than is owed, anybody gets less only when the deposit is used up, and deposit plus wins are the old deposit plus the bets collected |
| `Settlement.Round.RecordLose` | haixiangsrc/haixiang/BeautyAndBeast/game_logic.cpp:1094-1107 | the bet is added to what its player paid |
| `Settlement.Round.RecordWinner` | haixiangsrc/haixiang/BeautyAndBeast/game_logic.cpp:1060-1092 | the whole new state of one payout: the deposit falls by the bet times the factor in tenths, rounded half up and cut to whole coins, or to zero if it does not suffice, and the winner gets what it lost |
| `Settlement.Round.CollectBets` | haixiangsrc/haixiang/BeautyAndBeast/game_logic.cpp:627-668 | every bet is either collected or, in the lotto round only, given back |
| `Settlement.Round.PayBet` | haixiangsrc/haixiang/BeautyAndBeast/game_logic.cpp:673-698 | the nested search loops pay exactly the wins of the bet |
| `Settlement.Round.PayWinners` | haixiangsrc/haixiang/BeautyAndBeast/game_logic.cpp:671-699 | the bets are paid in order |
| `Settlement.Round.TaxWinners` | haixiangsrc/haixiang/BeautyAndBeast/game_logic.cpp:778-811 | in whatever order reports are visited, each is taxed once, and the tax is what the wins lost |
| `Settlement.Round.BalanceResult` | haixiangsrc/haixiang/BeautyAndBeast/game_logic.cpp:600-811 | deposit, actual wins and all taxes together are the old deposit, old wins and collected bets, for any tax rules |

## Left out

- Sockets, databases, logging, timers and client messages of the game servers; the board game, whose rules are in a
  file that is not part of this model.
- Strings and dictionaries of the C code: `dict` is an abstract map, file contents and system calls are parameters.
- The writers for memory sizes, octal numbers, `dir`, `slaveof`, `bind`, `notify-keyspace-events` and the syslog
  facility, and the long list of directives of the loader: options are a name, a kind and a default, and the kinds are
  string, yes/no, number, enum and `save`.  `repl-backlog-ttl`, written as a memory size and read by `atoi`, is no such
  option; `ConfigMemory` says when it would come back.
- `include` and `rename-command`, sentinel rewriting, CONFIG GET and CONFIG SET.
- ConfigWriters.RewriteAll: covers the kinds of options above, not the other writers of `rewriteConfig`.
- ConfigReload.Loader.LoadFromString: which directives outside the schema are taken is a parameter that does not depend
  on the lines before; the cross-checks after the loop and what these directives set are left out.
- ConfigRewrite.RewriteState.RewriteLine: the dictionary keeps whole lower-case names apart.  Its hash and comparison
  functions are not part of this model; names that agree up to a NUL might fall together there.
- Lines longer than the reader's buffer: `ReadOldFile` reads whole lines.
- ConfigRewrite.RewriteState.ReadOldFile: assumes, as the code does, that a line that is no comment and parses has a
  first argument; lines of vertical tabs and form feeds only are excluded by `HasName`.
- ConfigRoundTrip.SaveRoundTrip: starts from an empty list of save points; the compiled-in ones, to which the loader
  adds, are outside.
- Decimal.AtoiText: `atoi` on numbers beyond `int` is undefined in C and not modelled.
- Decimal.LL2Str: the smallest `long long`, whose negation overflows, is excluded.
- Zipmaps.Zipmap.Set: the new size stays below 2^32; the big-endian build is not modelled, and `realloc` is a new array
  with the prefix copied.
- Zipmaps.Run: stated for runs whose insertions together stay below 2^32.
- Out-of-memory returns everywhere.
- XmlReader.ReadNodes: comments, declarations and CDATA end the model's parse as unmodelled, and so do numeric
  references and unknown entities; the lazy in-place decoding is done when a value is read.
- XmlReader.GetStr: numeric references and unknown entities end as unmodelled.
- XmlLanguage.ParseExactly: does not say which of the two errors is given for a text that is not accepted.
- XmlReader.ReadText: end marks of one byte; the longer ones belong to comments and CDATA.
- XmlReader.ReadDocument: no byte order mark, and the node kinds of `ReadNodes`.
- XML nodes and their sibling links are values, not heap objects; pretty-printing and error positions are left out.
- Md5.CMD5.Update: buffered bytes and input together stay below 2^32; from there on the loop guard lets the loop read
  past the end of the input (`GuardWraps`), which C does not define.  The block function is a parameter, and its contents are not modelled.
- AdLists.List.DelNode: freeing the node and the user's `free` method; node values do not change.
- AdLists.Sweep: the loop body deletes the node it was given or nothing.
- MemPools.MemPool.Free: `mem` is NULL or a chunk in use, which C does not check; the debug fill is left out.
- DynArrays.DynArray.PushArr: the new elements hold what the caller then writes.
- Base64: masks and shifts are quotients and remainders; the scratch array that holds letters and then digits is two.
- SmoothPaths.SmoothPath: coordinates are reals, the angle test is any predicate of three points.
- Settlement.Round.BalanceResult: tax rules are arbitrary integer functions of the amounts; factors are reals; the
  stock counters, reports cleared at the end of the round and messages are left out.
- `sdscatfmt`, `sdscatvprintf`, header arithmetic of SDS, `sparkline.c`, `poker.h`, `endianconv.c`: easy members only.
