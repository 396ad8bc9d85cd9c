# A verified model of sighttpd

sighttpd is a small HTTP server that streams media: one source feeds any number of clients through a
circular buffer, a configuration file says which streams there are, and request parameters and headers
are kept in ordered lists. This project models the parts of it that carry state and arithmetic, in
Dafny, and proves what they promise. `dafny verify dfyconfig.toml` checks everything.

| component | files | what it is about |
|---|---|---|
| circular buffer | `Modular`, `RingState`, `RingBuffer`, `RingSystem`, `RingRuns`, `RingCopies`, `RingProgress`, `RingReturns` | one writer, 16 readers, an array that wraps; every interleaving of their calls |
| search tree | `TreeShape`, `TreeOrder`, `XTree`, `XTreeFree` | pointer tree with parent links: insert, find, remove, destructive free |
| dictionary | `Words`, `JenkinsHash`, `JenkinsKnown`, `CaseFold`, `NameTree`, `NameTable`, `Dictionary` | 16 buckets of trees behind the Jenkins hash, as a map on names without case, for any outcome of the comparisons that insertion makes |
| configuration | `CopaScan`, `CopaScanner`, `CopaParse`, `CopaParser`, `CfgRead`, `CopaText`, `CopaLines`, `CopaReads`, `CopaFile`, `CopaStops`, `CopaStatus`, `CopaEnds`, `CopaRoundTrip` | scanner with escapes over an 8-byte buffer, parser, callbacks, and a round trip |
| parameters | `ParamList`, `ParamOrder`, `ParamTokens`, `HeaderText`, `ParamPrint`, `ParamRoundTrip` | lists of names and values, the in-place tokenizer, canonical headers, the printers, and a round trip |
| Ogg router | `OggRouter` | which pages of a stream are headers |
| linked list | `LinkedList` | prev/next links as sequence operations |
| shared | `Common` | Option, bytes, the NUL character |

Code that changes state step by step is modelled by classes, arrays and loops; each such method is proved
against a function of the old state (`RingState`, `TreeOrder`, `CopaScan`, `ParamTokens`, ...), and the
properties below are proved of those functions, over all inputs and all runs.

## Where the code differs from what is promised

The model keeps the code. Where a promise fails, a lemma names the condition under which it holds, or
inputs for which it does not.

- `ringbuffer_update_min` never stores the running maximum of its scan (`src/ringbuffer.c:56-58`), so it
  caches the highest-numbered open reader instead of the slowest. `MinRule` has both versions. The code
  as written is safe exactly when the highest-numbered reader is a slowest one (`UpdateMinExact`), so
  always with at most one open reader (`SingleReaderSafe`), and not with two (`LiteralScanOverwrites`).
- `ringbuffer_readfd` reads a second time even if the first read came short (`src/ringbuffer.c:215`).
  `OverrunExact` says exactly when that runs past the array; a complete first piece, which is the guard
  that `ringbuffer_writefd` has at `src/ringbuffer.c:179`, excludes it. Before the call, no reads can
  make it do so exactly if the free space does not wrap (`NeverOverrunsExactly`).
- A fill that began with no reader open may use the whole array. If a reader opens before it has
  finished, its backlog is safe exactly under `OpenGuard` (`OpenGuardExact`).
- `ringbuffer_open` does not refresh the cached minimum (`src/ringbuffer.c:99-113`). A reader that opens
  when there is no other and the buffer is a whole array ahead of the minimum finds nothing to read,
  returns before `update_min`, and leaves the writer no space: both are stuck. `NothingMovesExactly` says
  in which states nothing moves, `OnlyOpenBlocks` that they arise in this way only, `StallIsReached` that
  a buffer filled before its first reader comes gets there, and `StallStays` that it stays there.
- `src/ogg-stdin.c:86-87` calls `ringbuffer_write` without comparing the length with the free space.
  `UncheckedWriteExact` and `WriteKeepsExactly` say exactly when that spares what is unread and keeps the
  invariant, `WriteOverrunExact` when it stores past the array.
- The configuration scanner refills when its offset reaches 8, not when it has used up what was read
  (`src/cfg-parse.c:267`), so after a short read it also scans what was in the buffer. NULs aside, it sees
  the characters of the file exactly when each read leaves only NULs in the rest of the buffer
  (`OverlayExact`): for a file without NULs, when no read is shorter than the one before it
  (`ScannedExactly`). If, moreover, none that leaves the buffer short ends inside an escape, the file is
  scanned and parsed as one text, and only then (`ScannedAsOneText`).
- A numeric escape with fewer digits than it may have is ended by the next character, which the scanner
  keeps (`src/cfg-parse.c:283-293`). If its value is 0, nothing is delivered, and the character after that
  one comes out before it (`NulEscapeSwaps`). If the parser looks ahead at the escape, as it does at the
  first character of a name, of a bare value and of a start tag, the character kept is lost, unless it is
  a backslash (`PeekKeepsExactly`, `SecondIsLost`). At the end of a text the escape is lost itself
  (`DecodeInverse`).
- Callbacks return a status that, as documented (`src/cfg-parse.h:53-60`), stops the parse and comes back
  from `copa_read`. The code does neither. The loop of `copa_read_fd` runs on until the text ends or a
  syntax error, later tags are still reported and set the status anew (`NestedBlockGoesOn`), and
  `copa_read` drops what `copa_read_fd` returns (`ReadPath`). In any parse of any source the callbacks
  made so far tell the status, and what is returned is not COPA_OK exactly if the source is empty or the
  last tag repeats the kind of the one before it (`StatusTold`); no callback asks for a stop exactly if
  start and end tags alternate (`NoStopInAny`). `DroppedStatus` and `NoStopExactly` say so of the lines
  of a written file, `StopEndsExactly` when a stop ends its callbacks all the same.
- The tokenizer of `params.c` does not come to an end on a field without a value delimiter
  (`src/params.c:251-254`). `HaltsExactly` gives the texts on which it does.
- `headers_canonicalize` allocates as much as its input is long (`src/params.c:290`), but writes two
  characters for a lone CR or LF. `FitsExactly` says when the output fits, `LoneBreaksOverrun` gives a
  complete text for which it does not.
- `params_snprint` tests `len <= n` for queries (`src/params.c:98`) and subtracts 2 from an unsigned 1
  for headers (`src/params.c:102`). `SnprintParams` states for which sizes it writes past its buffer.
- Names are said to be case-insensitive (`src/params.h:15`), but `params_remove` uses `strcmp`:
  `RemoveExact` and `RemoveMissesOtherCase`.
- `dictionary_insert` hands a `Variable` to `x_tree_insert`, which passes it to the comparator
  (`src/x_tree.c:105`) where `variable_cmp` expects a name (`src/dictionary.c:60-65`). So the bytes of the
  struct are compared with the names in the tree, and a new variable can be hung where no lookup comes.
  What each comparison comes to is a parameter of insertion here. `RightExactly` says, for given
  outcomes, when all lookups are right throughout a run of inserts: if names are compared, always
  (`NamesAreRight`). For all outcomes that some bytes can have, exactly if no new name comes to a bucket
  that holds another non-empty one (`RightForAllExactly`); for any outcomes at all, exactly if no bucket
  receives two different names (`UncrowdedByAny`). `WrittenInsertMisses` has two names of one bucket of
  which the second is not found. The configuration (`CfgRead` and what builds on it) has dictionaries
  that compare names; `UncrowdedSettings` carries its contents over to dictionaries as they are written.
- A BOS page that follows another one after which no stream missed headers takes the place of all headers
  of the link (`HeadersAreLost`). The header file is right throughout a page sequence exactly if no page
  does that (`HeadersRightExactly`), and so whenever every BOS page leaves its stream without some of its
  headers (`ShortBosIsSafe`).

`ub4` is `unsigned long` (`src/jhash.c:25`), so a word has 32 bits on some machines and 64 on others. The
model has one for every width of at least 32 bits: the number of further bits is a constant of which
nothing is known.

## Model

| member | source | states |
|---|---|---|
| RingRuns.BroadcastSafe | src/ringbuffer.c:99-270 | in every interleaved run of opens, closes, flushes, sends, fills and checked copies, with short and failing transfers, each open reader has been sent one contiguous slice of all bytes ever stored, from where it opened; the last bytes stored, and with them what it has not been sent, are in the array, its backlog is as long as what it has not been sent, and the free space never covers that; all indices stay inside. The steps allowed are those of `Enabled`: each refresh finds a slowest reader (`RuleSafe`; the intended scan always does, the scan as written with one reader), a reader that opens during a fill finds room for the rest of it (`OpenGuard`), a second read of a fill ends inside the array, and copies are no longer than the backlog or the free space |
| RingRuns.LogIsStored | src/ringbuffer.c:194-224 | the log of a run is the bytes its fills stored, in order |
| RingSystem.StepKeeps | src/ringbuffer.c:44-270 | every step of every thread keeps the invariant that links the array, the indices and the log |
| RingSystem.InvNoOverwrite | src/ringbuffer.c:34-63 | free space plus any reader's backlog is at most size - 1 in every reachable state, also while the cached minimum is stale |
| RingSystem.AppendWindow | src/ringbuffer.c:194-224 | storing bytes at the write index extends the window on the log by exactly those bytes, wherever it wraps |
| RingSystem.FrontIsLog | src/ringbuffer.c:155-192 | the bytes in front of a reader's index are the next bytes of the log |
| RingSystem.UpdateKeeps | src/ringbuffer.c:44-63 | refreshing the cached minimum never uncovers unread bytes, if the scan picks a slowest reader |
| RingSystem.OpenKeeps | src/ringbuffer.c:99-113 | opening a reader keeps the invariant although the cached minimum is not refreshed |
| RingState.UpdateMinExact | src/ringbuffer.c:44-63 | after a refresh the no-overwrite bound holds if and only if the scan's choice is a slowest reader |
| RingState.UpdateMinTight | src/ringbuffer.c:44-63 | right after a refresh, free space and the slowest reader's backlog add up to size - 1 |
| RingState.LiteralScanOverwrites | src/ringbuffer.c:52-60 | two readers for which the scan as written reports unread bytes as free |
| RingRuns.SingleReaderSafe | src/ringbuffer.c:44-63 | the scan as written is right with at most one open reader |
| RingRuns.OpenGuardExact | src/ringbuffer.c:99-113 | opening during a fill that began without readers is safe if and only if the rest of the fill fits behind the cached minimum |
| RingRuns.SendCallIsRun | src/ringbuffer.c:155-192 | a complete ringbuffer_writefd call, with any counts and failures, is a run of the step machine |
| RingRuns.FullSendDrains | src/ringbuffer.c:155-192 | a send whose transfers are not cut short delivers the whole backlog |
| RingRuns.FillCallIsRun | src/ringbuffer.c:194-224 | a complete ringbuffer_readfd call that does not overrun is a run of the step machine |
| RingRuns.OverrunExact | src/ringbuffer.c:205-221 | when the unguarded second read stores past the end of the array: if and only if the first came short and the second delivers more than is left |
| RingRuns.NeverOverrunsExactly | src/ringbuffer.c:194-224 | no reads whatever make a ringbuffer_readfd call store past the array if and only if its free space ends inside the array |
| RingRuns.ReadKeeps | src/ringbuffer.c:226-248 | ringbuffer_read delivers the next bytes of the log |
| RingCopies.ReadCallIsRun | src/ringbuffer.c:226-248 | a complete ringbuffer_read call within the backlog is a run of the step machine |
| RingCopies.WriteCallIsRun | src/ringbuffer.c:250-270 | a complete ringbuffer_write call that fits the free space is a run of the step machine, and appends the whole buffer to the log |
| RingCopies.WriteOverrunExact | src/ringbuffer.c:250-270 | when ringbuffer_write stores past the end of the array: if and only if what is left after the first piece is longer than the array |
| RingCopies.WriteWindow | src/ringbuffer.c:250-270 | every other write, also one that is not compared with the free space, leaves the last bytes of the log in the array |
| RingCopies.UncheckedWriteExact | src/ogg-stdin.c:86-87 | an unchecked write keeps what every open reader has yet to be sent if and only if no backlog outgrows the array |
| RingCopies.WriteKeepsExactly | src/ogg-stdin.c:86-87 | and keeps the whole invariant if and only if no reader is open or it fits the free space |
| RingReturns.SendReturns | src/ringbuffer.c:155-192 | ringbuffer_writefd returns -1 if and only if there is a backlog and a write that it makes fails; otherwise the number of bytes handed over |
| RingReturns.SendDoes | src/ringbuffer.c:155-192 | also then it has handed over the first bytes of the backlog, as many as its writes took, and moved the reader by these; the cached minimum is refreshed if and only if no write failed |
| RingReturns.FillReturns | src/ringbuffer.c:194-224 | ringbuffer_readfd, inside the array, returns -1 if and only if a read that it makes fails; otherwise the number of bytes stored |
| RingReturns.FillMoves | src/ringbuffer.c:194-224 | what it stores, also then: the first bytes that its reads deliver, as many as each asks for |
| RingReturns.FillLeaves | src/ringbuffer.c:194-224 | they take the place of the oldest in the array, the writer moves by their number, and nothing else changes |
| RingReturns.WriteLeaves | src/ringbuffer.c:250-270 | ringbuffer_write returns the length of its buffer, and the array holds the last bytes of what was there and of the buffer |
| RingProgress.NothingMovesExactly | src/ringbuffer.c:155-224 | open readers and the writer are all stuck if and only if every backlog is empty and the cached minimum is size - 1 behind the write index |
| RingProgress.OnlyOpenBlocks | src/ringbuffer.c:99-113 | of all steps, only the opening of a reader when there is no other, with a minimum that far behind, gets there |
| RingProgress.StallStays | src/ringbuffer.c:155-224 | no sequence of sends, fills and checked writes leaves it |
| RingProgress.StallIsReached | src/ringbuffer.c:99-224 | a buffer of any size above 1 that is filled before its first reader opens is there, under either rule for the minimum |
| RingBuffer.RingBuffer.constructor | src/ringbuffer.c:79-96 | a new buffer is empty and without readers |
| RingBuffer.RingBuffer.Available | src/ringbuffer.c:34-42 | the array version of a reader's backlog |
| RingBuffer.RingBuffer.IsEmpty | src/ringbuffer.c:128-131 | equal indices mean an empty backlog |
| RingBuffer.RingBuffer.FreeSpace | src/ringbuffer.c:135-147 | the array version of the free space |
| RingBuffer.RingBuffer.RefreshMin | src/ringbuffer.c:44-63 | the loop over 16 descriptors refines the scan, in either version |
| RingBuffer.RingBuffer.Open | src/ringbuffer.c:99-113 | hands out the lowest closed descriptor, or -1, and starts it at the write index |
| RingBuffer.RingBuffer.Close | src/ringbuffer.c:116-125 | flips the descriptor's bit and refreshes the minimum |
| RingBuffer.RingBuffer.Flush | src/ringbuffer.c:149-153 | drops a reader's backlog |
| RingBuffer.RingBuffer.WriteFd | src/ringbuffer.c:155-192 | the two writes, their early returns and update_min, in place |
| RingBuffer.RingBuffer.ReadFd | src/ringbuffer.c:194-224 | the two reads, in place, with the case in which the second overruns |
| RingBuffer.RingBuffer.Read | src/ringbuffer.c:226-248 | the copy out of the array, in two pieces |
| RingBuffer.RingBuffer.Write | src/ringbuffer.c:250-270 | the copy into the array, in two pieces, for buffers of any length, with the case in which the second overruns |
| TreeOrder.InsertRefines | src/x_tree.c:90-121 | inserting into the tree is inserting into the sorted list behind all equal keys |
| TreeOrder.OrderedIsSorted | src/x_tree.c:90-121 | a search-ordered tree has a sorted in-order list |
| TreeOrder.HitIsFirst | src/x_tree.c:133-151 | the node at which the descent stops is the first with that key in order |
| TreeOrder.MissIsAbsent | src/x_tree.c:133-151 | a descent that falls out of the tree proves that no key is equal |
| TreeOrder.CutNode | src/x_tree.c:153-221 | joining a node's subtrees in its place removes exactly that node from the in-order list |
| TreeOrder.CutKeeps | src/x_tree.c:153-221 | and keeps the tree distinct and search-ordered |
| XTree.Tree.Insert | src/x_tree.c:90-131 | the pointer version of sorted insertion, when the comparator is given what it expects; adds one fresh node |
| XTree.Tree.InsertBy | src/x_tree.c:90-131 | whatever the comparisons come to, one fresh leaf is hung where they lead, and both links of every node are right |
| XTree.Tree.Find | src/x_tree.c:133-151 | stops where the comparisons lead in any tree; in a search tree finds the first node with an equal key, and nothing if and only if there is none |
| XTree.Tree.Remove | src/x_tree.c:153-221 | takes exactly the first node with that key out of the in-order list, and only changes the tree if there is one |
| XTree.Tree.Unhook | src/x_tree.c:163-218 | the pointer surgery, in all eight shapes, leaves the joined tree correctly linked both ways |
| XTreeFree.FreeWith | src/x_tree.c:321-359 | the destructive free ends, passes on the data of every node once, in post-order, and needs no link of a freed node |
| XTreeFree.PostOrderOnce | src/x_tree.c:337-359 | no node is passed on twice |
| XTreeFree.ChildFirst | src/x_tree.c:337-359 | children go before their parent |
| XTreeFree.NextLeaf | src/x_tree.c:321-335 | the next leaf is the head of what is left of the post-order |
| JenkinsHash.MixInverse | src/jhash.c:57-68 | mix has an inverse on triples of words, in both orders, for every word width of at least 32 bits |
| JenkinsHash.AbsorbInjective | src/jhash.c:123-130 | states before and after a block determine the block, and the block and the state after it the state before |
| JenkinsHash.FinishInjective | src/jhash.c:132-152 | the same for the tail of up to 11 bytes and the length |
| JenkinsHash.OneBlockDiffers | src/jhash.c:112-155 | keys of equal length that differ inside one block, or the tail, end in different states, for any number of blocks |
| JenkinsKnown.KnownRoundA | src/jhash.c:59-61 | known answers of the first three lines of mix, for every word width |
| JenkinsKnown.KnownRoundB | src/jhash.c:62-64 | of the next three |
| JenkinsKnown.KnownRoundC | src/jhash.c:65-67 | and of the last three |
| JenkinsKnown.KnownWords | src/jhash.c:127-151 | how the bytes of a key are put together |
| JenkinsKnown.KnownByte | src/jhash.c:118-155 | the hash of one byte, up to mix: the starting value, the length and the result |
| JenkinsHash.ComputeHash | src/jhash.c:112-155 | the loop and the fall-through switch refine the block-wise definition, for every word width of at least 32 bits |
| CaseFold.LettersFold | src/dictionary.c:41-43 | which characters are folded, and to what |
| CaseFold.CompareIsComparator | src/x_tree.h:41-46 | case-insensitive comparison keeps the comparator's contract that the tree relies on |
| CaseFold.CompareIsFold | src/dictionary.c:60-65 | names compare equal if and only if they are equal in lower case |
| NameTree.FindNew | src/x_tree.c:97-118 | in any tree a name inserted is found if and only if each comparison of the struct agrees with that of the name |
| NameTree.FindOther | src/x_tree.c:97-118 | and however they come out, all other lookups stay as they are |
| NameTree.StoreReads | src/dictionary.c:133-153 | all readings of a bucket after dictionary_insert, whether the name was found or not |
| NameTree.FoundForAll | src/dictionary.c:133-153 | a new name is found for all outcomes if and only if its bucket is empty (when bytes are compared: or holds only empty names on the way) |
| NameTable.LookupIsLastInsert | src/dictionary.c:115-153 | the promise: after any run of inserts, under each name the value of the last insert under a case-insensitively equal name, and nothing if there is none |
| NameTable.InsertExactly | src/dictionary.c:133-153 | an insert as written keeps all lookups as promised if and only if its comparisons agree with those of the lookup |
| NameTable.RightExactly | src/dictionary.c:115-153 | over any run, with given outcomes, all lookups are as promised after every insert if and only if every insert does so |
| NameTable.NamesAreRight | src/dictionary.c:60-65 | if names are compared, as is intended, they always are, whatever collides |
| NameTable.RightForAllExactly | src/dictionary.c:133-153 | as written, they are so for all outcomes (any, or those that some bytes can have) if and only if no new name comes to a bucket with another name (for bytes: another non-empty one) |
| NameTable.UncrowdedByAny | src/dictionary.c:133-153 | for any outcomes that is: no bucket receives two different names |
| NameTable.WrittenInsertMisses | src/dictionary.c:145 | two names of one bucket, and bytes of the second struct, with which the second name is not found after both have been inserted |
| Dictionary.Dictionary.Lookup | src/dictionary.c:115-131 | the pointer trees and buckets hold the table; the promised value, if lookups are right |
| Dictionary.Dictionary.Insert | src/dictionary.c:133-153 | one bucket of the table changes, as the comparisons that are its parameter lead; lookups stay right if and only if these agree |
| Dictionary.Dictionary.BucketIndex | src/dictionary.c:95-113 | the bucket depends on the name in lower case only |
| CopaReads.OverlayExact | src/cfg-parse.c:170-191 | NULs aside, the characters that come out of the buffer are those of the file if and only if every read leaves only NULs behind it |
| CopaReads.ScannedExactly | src/cfg-parse.c:170-191 | for a file without NULs, from the zeroed buffer: if and only if no read is shorter than the one before it |
| CopaReads.ScannedAsOneText | src/cfg-parse.c:247-370 | a file without NULs is scanned as one text, with NULs between escapes only, if and only if no read is shorter than the one before it and none that leaves the buffer short ends inside an escape; then the characters delivered are those of the text |
| CopaReads.ParseAlike | src/cfg-parse.c:656-684 | NULs that come between escapes change nothing in a whole parse |
| CopaScanner.Scanner.Refill | src/cfg-parse.c:170-191 | one read, over what was in the buffer |
| CopaScanner.Scanner.Decode | src/cfg-parse.c:270-362 | the escape, octal and hex machine for one character |
| CopaScanner.Scanner.NextChar | src/cfg-parse.c:247-370 | the buffered scanner refines the scanner on the whole text, wherever a refill falls inside an escape |
| CopaScanner.Scanner.PeekChar | src/cfg-parse.c:372-398 | one character of look-ahead |
| CopaScanner.Scanner.SlurpToClass | src/cfg-parse.c:438-475 | collects characters up to a class, and gives up on another |
| CopaScan.ClassesAre | src/cfg-parse.c:112-140 | the character classes, character by character |
| CopaScan.DigitsAre | src/cfg-parse.c:193-239 | the octal and hex digits, and their values |
| CopaText.DecodeInverse | src/cfg-parse.c:247-370 | any string without 0x00 and 0xFF, written with plain characters, escaped ones, hex and octal escapes of all lengths and continued lines in any mix, decodes to itself if and only if the text does not end in an escape that could have more digits |
| CopaText.PieceYields | src/cfg-parse.c:270-362 | each way of writing a character delivers that character alone, and then what follows it, also if the escape is ended by that |
| CopaText.TextYields | src/cfg-parse.c:247-370 | and so does a text of them, in front of any other text |
| CopaText.NulEscapeSwaps | src/cfg-parse.c:283-294 | an escape of value 0, and the two characters after it, come out as these two in the other order |
| CopaText.PeekKeepsExactly | src/cfg-parse.c:372-398 | looking ahead at a short escape keeps the character that ends it if and only if that is a backslash |
| CopaParse.ParseLineProgress | src/cfg-parse.c:624-654 | every line ends the parse or uses up some of the text, through all escapes, look-ahead and push-back |
| CopaParser.Parser.ParseLines | src/cfg-parse.c:670-684 | the loop ends on every finite source, and is the function ParseAll |
| CopaParser.Parser.ParseOneLine | src/cfg-parse.c:624-654 | one line: white space, comment, block tag or assignment |
| CopaParser.ReadFd | src/cfg-parse.c:656-691 | the events, their effect on the configuration, and the result code, which is COPA_SYS_ERR for an empty source |
| CopaParser.ReadPath | src/cfg-parse.c:693-707 | COPA_SYS_ERR if and only if the file cannot be opened, 0 otherwise, whatever the parse returned |
| CopaParser.ReadConfig | src/cfg-read.c:79-102 | the configuration that a file makes, nothing if and only if it cannot be opened |
| CfgRead.CfgReader.OnBlockStart | src/cfg-read.c:18-31 | opens a scope, unless one is open |
| CfgRead.CfgReader.OnBlockEnd | src/cfg-read.c:33-61 | closes it and appends the resources it describes |
| CfgRead.CfgReader.OnAssign | src/cfg-read.c:63-77 | sets a name in the open scope, in a dictionary that compares names |
| CopaLines.SettingLine | src/cfg-parse.c:530-580 | a written setting, with any blanks and line ends between name and value, is read back as one assignment, in front of any text; a bare value ends at a line end or a comment |
| CopaLines.StartLine | src/cfg-parse.c:582-622 | a written start tag is read back as one block start |
| CopaLines.EndLine | src/cfg-parse.c:582-622 | a written end tag is read back as one block end |
| CopaLines.RemarkLine | src/cfg-parse.c:636-640 | a comment, whatever it says, is passed over up to its line end, and nothing else changes |
| CopaLines.SecondIsLost | src/cfg-parse.c:624-654 | of a name that starts with a short escape the character that ends it is lost |
| CopaFile.LinesRead | src/cfg-parse.c:624-684 | a sequence of written settings, start tags, end tags, comments and blanks, in any order, is read line by line as what the lines stand for, in front of any text |
| CopaFile.LinesRoundTrip | src/cfg-parse.c:656-691 | and a file of them, read so that it is seen as one text, makes the callbacks and the configuration that they stand for; copa_read_fd returns the status they end with, but COPA_SYS_ERR if the file is empty |
| CopaFile.Padded | src/cfg-parse.c:170-191 | every such text, with enough line ends after it, can be read so |
| CopaEnds.EndsRoundTrip | src/cfg-parse.c:530-684 | a file that ends without a line end, or in a line that the parser gives up on (a name cut by a comment, a value or a quote that is missing, a tag that is not closed), makes the callbacks and the configuration of the lines before, and of a last bare value, and nothing else |
| CopaStops.OnlyEffectiveCount | src/cfg-read.c:18-77 | the configuration is that of the lines that take effect: a tag that asks for a stop, and settings up to the next one that does not, change nothing |
| CopaStops.StatusExactly | src/cfg-read.c:18-61 | after any lines a block is open exactly after a start tag, and the status is a stop exactly after a tag that repeats the kind of the one before it |
| CopaStops.NoStopExactly | src/cfg-read.c:18-61 | no callback asks for a stop if and only if start and end tags alternate, a start tag first |
| CopaStops.StopEndsExactly | src/cfg-parse.h:53-60 | before a certain line no callback asks for a stop, at it one does, and the callbacks made are only those up to there if and only if no tag follows |
| CopaStops.DroppedStatus | src/cfg-parse.c:656-707 | what copa_read_fd returns for a written file, and copa_read drops, is not COPA_OK if and only if the file is empty or its last tag repeats the kind of the one before it |
| CopaStatus.StatusTold | src/cfg-parse.c:656-691 | in any parse of any source, after every line, the callbacks made so far tell the status and whether a block is open; those of the whole parse tell what is returned |
| CopaStatus.NoStopInAny | src/cfg-parse.c:656-691 | no callback of any parse asks for a stop if and only if the tags it reports alternate, a start tag first |
| CopaStops.NestedBlockGoesOn | src/cfg-parse.h:53-60 | a written file whose second start tag asks for a stop, after which the end tag is still reported and the status is COPA_OK |
| CopaRoundTrip.FileRoundTrip | src/cfg-parse.c:438-691 | reading back a file of settings, comments, blanks and blocks that are not nested, read so that it is seen as one text, with dictionaries that compare names, makes the events that were written in order, the dictionary of each scope and the resources of the blocks in order |
| CopaRoundTrip.BlockMakes | src/cfg-read.c:33-61 | which resource a block makes, if any, by the start of the name in its end tag without case and the settings it needs; its path, text and type are the last values set under these names without case, and the default type if none is |
| CopaRoundTrip.ReadingIsLast | src/dictionary.c:115-153 | the last value set under a name without case is the one that is read |
| CopaRoundTrip.UncrowdedSettings | src/dictionary.c:133-153 | the dictionary of a file's global settings, or of a block's, finds as written what the round trip says, for all outcomes, if no setting crowds a bucket |
| CopaRoundTrip.PrintedIsLegal | src/cfg-parse.c:438-528 | exactly which names and values can be printed |
| ParamList.RunReads | src/params.c:157-212 | over any run of append, replace, merge and remove, names stay distinct without case, and a name that is only appended to holds the comma-join of its values in order (section 4.2 of RFC 2616) |
| ParamList.AppendReads | src/params.c:157-178 | append changes the reading of one name, by joining |
| ParamList.ReplaceReads | src/params.c:180-198 | replace sets one name and no other |
| ParamList.MergeReads | src/params.c:200-212 | merge joins, for every name, all its values in order |
| ParamList.RemoveReads | src/params.c:392-409 | remove takes out the entry with exactly this spelling, and no other |
| ParamList.RemoveExact | src/params.c:392-409 | so a name is gone if and only if it was absent or spelled like this |
| ParamList.RemoveMissesOtherCase | src/params.c:392-409 | a name that is not found by another spelling |
| ParamOrder.AppendUpdates | src/params.c:157-178 | append leaves every entry in its place with the spelling of its name, joins to the value of the first with this name, and puts a new name last |
| ParamOrder.ReplaceUpdates | src/params.c:180-198 | so does replace, which sets that value |
| ParamOrder.RemoveTakesOut | src/params.c:392-409 | remove takes out the first entry with this spelling and moves no other |
| ParamOrder.MergeFirsts | src/params.c:200-212 | after a merge the names stand in the order in which they come first, each as it is spelled there |
| ParamOrder.RunOrder | src/params.c:157-212 | and so after any run of append, replace and merge |
| ParamOrder.RunNames | src/params.c:157-409 | after any run, with removals, they stand as each call leaves them |
| ParamList.Params.AppendValue | src/params.c:157-178 | the loop over the list refines append |
| ParamList.Params.GetValue | src/params.c:114-128 | the loop over the list finds the first value under a name without case |
| ParamList.Params.ReplaceValue | src/params.c:180-198 | the loop over the list refines replace |
| ParamList.Params.MergeFrom | src/params.c:200-212 | the loop over the other list refines merge |
| ParamList.Params.RemoveKey | src/params.c:392-409 | the loop over the list refines remove |
| ParamTokens.HaltsExactly | src/params.c:216-259 | the tokenizer comes to an end if and only if every field has a name that is not empty and a value delimiter |
| ParamTokens.Ends | src/params.c:216-259 | then it appends the fields of the text in order |
| ParamTokens.NeverEnds | src/params.c:251-258 | and on any other text no number of turns ends it |
| ParamTokens.GoodTurn | src/params.c:227-256 | a turn at a good field passes on its name and value, although it overwrites the delimiters with NUL, and leaves the rest of the text in place |
| ParamTokens.BadTurn | src/params.c:227-256 | at any other field the key pointer stays and the next turn changes nothing |
| ParamTokens.TurnInPlace | src/params.c:227-256 | the loop body, on the buffer |
| ParamTokens.ParseDelim | src/params.c:216-259 | the whole loop, on the buffer, merges the fields into an empty list |
| HeaderText.CompleteExactly | src/params.c:312-329 | canonicalisation succeeds if and only if some run of CR and LF holds two CRs or two LFs |
| HeaderText.CompleteIsStable | src/params.c:278-350 | a success does not change with anything that follows |
| HeaderText.CanonIsTidy | src/params.c:278-350 | the output breaks lines with CRLF only, has no HT and no continuation line |
| HeaderText.WordsAreKept | src/params.c:278-350 | the output has the words of the input up to the closing run, in order, and no others |
| HeaderText.LengthExactly | src/params.c:290-341 | how long the output gets: what was read, less the white space dropped, and one more for each lone break |
| HeaderText.FitsExactly | src/params.c:290 | when it fits the buffer that is as long as the input |
| HeaderText.LongBreaksFit | src/params.c:278-350 | always, when every break has at least two characters |
| HeaderText.LoneBreaksOverrun | src/params.c:290-341 | complete texts whose output does not fit |
| HeaderText.Canonicalize | src/params.c:278-350 | the loop, with its buffer, refines the canonical form, and writes past the end if and only if the form is longer than the text |
| HeaderText.CountBreaks | src/params.c:317-321 | the loop that counts CR and LF |
| ParamPrint.SnprintParams | src/params.c:66-112 | the length returned does not depend on the buffer; the buffer holds a NUL-terminated prefix of the text, all of it if there is room; for an empty list only the empty line after headers; and for which sizes a store goes past the end |
| ParamPrint.SnprintParamsFormat | src/params.c:37-64 | the loop over snprintf fills the buffer as one snprintf of all lines would |
| ParamPrint.EndHeaders | src/params.c:100-109 | the empty line after headers, with the unsigned n - 2 |
| ParamPrint.EndQuery | src/params.c:94-99 | the last '&' of a query, with the test that lets it store at index n |
| ParamRoundTrip.QueryRoundTrip | src/params.c:261-272 | a printed query is read back as the same list if and only if names are distinct and the delimiters do not get in the way |
| ParamRoundTrip.TagAttributes | src/params.c:80-85 | name and value of an entry are the attributes of its tag and can be told apart in it if and only if neither holds a quote |
| ParamRoundTrip.TagsInOrder | src/params.c:37-64 | a list printed as tags is the tags of its entries in order |
| ParamRoundTrip.HeadersRoundTrip | src/params.c:352-365 | printed headers are read back, through canonicalisation, as the same list if and only if it is legal |
| ParamRoundTrip.HeadersRead | src/params.c:352-365 | in general they are complete, fit, and are read back with the white space of their values squeezed |
| ParamRoundTrip.FieldsOfGlue | src/params.c:216-259 | the tokenizer takes apart what was put together with any delimiters of its two sets |
| ParamRoundTrip.MergeClean | src/params.c:216-259 | whatever it returns has distinct names and entries that a field can spell |
| ParamRoundTrip.MergeDistinct | src/params.c:200-212 | merging a list with distinct names changes nothing |
| ParamRoundTrip.ParseQuery | src/params.c:261-272 | the query parser, on a copy of the string |
| ParamRoundTrip.ParseHeaders | src/params.c:352-365 | the header parser: nothing unless the headers are complete |
| OggRouter.RunRoutes | src/ogg-stdin.c:51-91 | for every page sequence that keeps the grouping and chaining rules of section 4 of RFC 3533, with new serial numbers: in_headers counts the streams that miss headers, the first headers_len bytes are the header pages since the last BOS page that came when none did, in order, and all other pages went to the ring in order |
| OggRouter.HeaderKeeps | src/ogg-stdin.c:56-83 | a page that goes to the header file keeps that, also when it starts a new link |
| OggRouter.DataKeeps | src/ogg-stdin.c:84-87 | so does a page that goes to the ring |
| OggRouter.HeadersRightNow | src/ogg-stdin.c:56-83 | the header file is the current link's header pages if and only if no byte of them has been overwritten, and what was overwritten is what is missing in front |
| OggRouter.HeadersRightExactly | src/ogg-stdin.c:56-83 | it is so after every page of a sequence if and only if no BOS page comes right after a BOS page with which no stream missed headers any more, while the link has header bytes |
| OggRouter.HeadersAreLost | src/ogg-stdin.c:56-83 | a BOS page that does so leaves only itself in the header file |
| OggRouter.ShortBosIsSafe | src/ogg-stdin.c:56-83 | the header file is right if every BOS page leaves its stream without some of its headers |
| OggRouter.OggStdin.ReadPage | src/ogg-stdin.c:51-91 | the callback refines one step |
| OggRouter.OggStdin.FindOrPrepend | src/ogg-stdin.c:65-72 | the search for a stream's tracker |
| LinkedList.Append | src/list.c:53-65 | adds a node at the end |
| LinkedList.Prepend | src/list.c:40-51 | adds a node at the front |
| LinkedList.AddBefore | src/list.c:67-85 | puts a node before another, or at the end; prev and next stay inverse |
| LinkedList.AddAfter | src/list.c:87-103 | puts a node after another, or at the front |
| LinkedList.Remove | src/list.c:116-126 | takes a node out, at either end or in the middle |
| LinkedList.Join | src/list.c:128-139 | concatenates two lists |
| LinkedList.Find | src/list.c:105-114 | the first node with this data, or none |
| LinkedList.Tail | src/list.c:31-38 | the last node |
| LinkedList.Length | src/list.c:141-151 | the number of nodes |
| LinkedList.InsertThenRemove | src/list.c:67-126 | list_add_before and then list_remove of the new node, found by the links, restore the head and both links of every node |
| LinkedList.FreeWith | src/list.c:173-185 | passes on the data of every node once, in order, and reads no link of a freed node |

## Left out

- Sockets, threads, `select`, signals, launching processes, temporary files: a read or write appears as the count and bytes it moves, a file as the sequence of its reads.
- The mutex of the circular buffer and memory ordering: a step of the machine is atomic, a call is not.
- Failing allocation, `realloc` and NULL arguments where the callers never pass them.
- `ringbuffer_reset` on a buffer in use, and the prototypes of `ringbuffer.h` that `ringbuffer.c` does not define.
- RingBuffer.RingBuffer.Open: the bit mask of open readers is a sequence of 16 booleans, so shifts and masks of the word are not modelled.
- RingBuffer.RingBuffer.ReadFd: when the second read overruns, the bytes it stores outside the array are not modelled, only that it happens.
- RingBuffer.RingBuffer.Write: when the second piece overruns, the bytes it stores outside the array are not modelled, only that it happens.
- `_x_node_next` and `_x_node_prev` look only one parent up; no traversal is claimed of them.
- NameTree.FoundForAll: the bytes of a `Variable` are any string without 0; which of them its two pointers can have depends on the machine.
- JenkinsHash.ComputeHash: `jenkins_hash2`, `jenkins_hash3` and statistical claims are not part of this model.
- CopaScanner.Scanner.Refill: a failing read counts as the end of the source, as in the code.
- CfgRead.CfgReader.OnAssign: its dictionaries compare names on both sides; `NameTable` has both versions.
- CfgRead.CfgReader.OnBlockEnd: `SHRecord` blocks, whose resources need encoders and files of the machine, are left out, and the Ogg support that is a build option is on; the resources are values, without their callbacks.
- CopaText.DecodeInverse: a line continuation after the last character of a name, a value or a comment is decoded by the model but not among the ways of writing.
- ParamList.Params.AppendValue: the parameter list is a sequence here; its links are the subject of `LinkedList`.
- ParamTokens.ParseDelim: called only on texts on which it returns; `HaltsExactly` is about all texts.
- HeaderText.Canonicalize: what a store past the end of the buffer changes is not modelled, only that it happens.
- ParamRoundTrip.ParseQuery: texts on which the parser does not return are excluded; `NeverEnds` is about them.
- ParamRoundTrip.ParseHeaders: headers that overrun the buffer, or on which the tokenizer does not return, are excluded; `FitsExactly`, `LoneBreaksOverrun` and `NeverEnds` are about them.
- ParamPrint.SnprintParams: encoding errors of snprintf, and lengths that do not fit an `int` of the size of `size_t`.
- `params_foreach`, `params_free`, `list_is_empty`, `list_is_singleton`, `list_free`: a loop or a test each, without a property of their own.
- OggRouter.OggStdin.ReadPage: liboggz is a function that gives each stream's number of headers; how pages are found is not modelled.
- HTTP requests, status lines, dates, logging, resources and the other stream sources: small tables and glue.
