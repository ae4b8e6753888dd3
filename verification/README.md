# Verified models of the netmt command library

Dafny models of the parts of netmt with the most intricate behaviour, and proofs of
what they promise: the routing trie, the regular-expression compiler and matcher, the
MD5 context, the file transfer between client and server, and the in-place algorithms
of the embedded Zebra and GNU library. `dafny verify dfyconfig.toml` checks everything.

## What is modelled

**Routing table** (`Prefix.dfy`, `RouteTable.dfy`). Nodes live on the heap with parent
pointers, two links, a lock count and info. `Valid` says that every link leads to a
strictly longer prefix on the side of its next bit, that parent pointers mirror links,
that every node lies on the way down along its own bits, and that a node with lock 0
branches and has no info. Every operation keeps it. What the table means is a map from
bit strings to info, and lookups are proved against a linear longest-prefix search.

**Regular expressions** (`Regex*.dfy`). The fragment is literals, `.`, bracket sets,
concatenation, `|`, `*`, `+`, `?` and groups, under the POSIX extended syntax of the
library. `RegexSyntax` gives the language; `RegexEmit` the bytecode by recursion;
`RegexCompile` and `RegexBuffer` the one-pass compiler, first on values, then on the
array it edits in place; `RegexRun` proves that the bytecode means the pattern.
`RegexMachine` is the backtracking machine with its failure stack, the saved best match
and all arms of maybe_pop_jump; a parameter says whether maybe_pop_jump may pop, as it
does in regex.c, or is a plain jump. `RegexTidy`, `RegexEnds`, `RegexHalts` and
`RegexMatch` prove what the machine comes to while it rewrites the program it runs.
`RegexFastmap` and `RegexSearch` are the fastmap and the search; `RegexEndToEnd` puts
compiler, matcher and search together.

The theorems are about `RegexHalts.Proper` patterns: at most 255 groups, code of less
than 2^15 bytes, and no repeated part that can match nothing. On all of them the machine
comes to an end, on one result, which is none or a word of the pattern; the search with a
fastmap and the one without agree; and with maybe_pop_jump as a plain jump the result is
the longest match. With popping it is the longest match on `RegexHalts.Sound` patterns,
where besides no loop end drops a failure point that is needed: in front of something
else the character just read cannot start it, and at the end of the pattern every point
that the body may leave on top belongs to a choice that the next character decides, as in
`(ab?)*`.

The code does lose matches, although the comments around lines 4744-4797 of regex.c
promise the contrary:

- a loop over a literal before a set that contains it, where the code looks up the length
  byte of the exactn command instead of its character (`a*[a]` does not match "a");
- a loop over a set with a full 32-byte map before a literal in it, where the width in
  bits does not fit an unsigned char (`[a\377]*a` does not match "a");
- at the end of the pattern, a repeated group whose newest failure point may belong to
  something inside it (`(ab?(bc)?)*` on "abc" gives 2, the longest match has 3).

`RegexLimits.LongestUnlessLoses` says exactly when the first two lose a match, for every
pattern that starts with a loop over one character and another character behind it. For
the third there is no such equivalence: `Sound` is sufficient there, and whether an
unsound loop at the end loses a match depends on how its words overlap.

**MD5** (`Md5Words.dfy`, `Md5.dfy`). The context, with its 128-byte staging buffer and
two-word count, against RFC 1321 sections 3.1 to 3.5. The 64 constants T[i] are those of
the source.

**Transfer** (`Frame.dfy`, `Transfer.dfy`). The fixed record of 5168 bytes, the client's
answer to a NETMT_GET request, and the server's reassembly loop and file handling. When a
segment ends inside a length field, the server reads that field together with what its
buffer holds behind the bytes that have arrived. `Transfer.PartialLength` says when that
is harmless; it always is, because frames are only ever put at multiples of their size
into a buffer that is zero at first, so that a zero stands where the fourth byte belongs.

**In-place algorithms.** `Getopt.dfy`: the block exchange and the permuting scan for
short options. `Buffer.dfy`: the chain of chunks. `Pqueue.dfy`: the heap. `Checksum.dfy`:
RFC 1071. `RouteMap.dfy`: clause lists and their evaluation. `Command.dfy`: splitting,
joining and completing command lines.

Memory allocation succeeds, `writev` accepts all bytes, file operations succeed, and
match and set rules are function parameters. The pattern buffer is zero behind the code,
which is where re_compile_fastmap and maybe_pop_jump may look. Words are stored low-order
byte first.

## Model

| member | source | states |
|---|---|---|
| `Prefix.PrefixMatch` | `source/pub3/cmd/prefix.c:68-93` | True exactly when the bits of n are a prefix of the bits of p. |
| `Prefix.SameHead` | `source/pub3/cmd/prefix.c:82-92` | The byte loop that runs from the last whole byte down, with its mask test in front, decides equality of the first prefixlen bits. |
| `Prefix.PrefixCmp` | `source/pub3/cmd/prefix.c:141-166` | 0 exactly when family, length and network bits coincide. |
| `Prefix.PrefixCopy` | `source/pub3/cmd/prefix.c:96-119` | The copy has the same family and the same bits, though only the family's address bytes are copied. |
| `Prefix.CheckBit` | `source/pub3/cmd/table.c:172-185` | 0 or 1; below the prefix length it is that bit of the prefix. Past a full-length address nothing is assumed of the byte read. |
| `Prefix.HighestBitFirst` | `source/pub3/cmd/table.c:172-185` | Bits are counted from the highest one of a byte. |
| `Prefix.ApplyMask` | `source/pub3/cmd/prefix.c:298-319` | In place: network bits stay, host bits become zero (4 and 16 byte addresses). |
| `Prefix.MaskLenToIp` | `source/pub3/cmd/prefix.c:245-264` | The mask has exactly its first masklen bits set. |
| `Prefix.IpMaskLen` | `source/pub3/cmd/prefix.c:266-296` | On a sequential mask, the length whose mask this is. |
| `Prefix.NetmaskUnique` | `source/pub3/cmd/prefix.c:245-296` | Masks and lengths correspond one to one, so the two conversions undo each other. |
| `RouteTable.RouteNode.SetLink` | `source/pub3/cmd/table.c:191-202` | The child goes on the link chosen by its bit after the parent's prefix; the other link stays; the child points back. |
| `RouteTable.RouteCommon` | `source/pub3/cmd/table.c:133-166` | The longest common prefix: a prefix of both, and where it stops short of p the next bits of p and n differ. |
| `RouteTable.BestMatchIsLongest` | `source/pub3/cmd/table.c:239-264` | The reference for longest-prefix match returns a longest stored prefix of the address, or None exactly when there is none. |
| `RouteTable.AnswersAfterSet` | `source/pub3/cmd/table.c:239-264` | Storing info under k changes exactly the answers for addresses under k that had nothing longer. |
| `RouteTable.AnswersAfterClear` | `source/pub3/cmd/table.c:369-407` | Removing the info of k changes no answer that was not k. |
| `RouteTable.RouteTable.NodeMatch` | `source/pub3/cmd/table.c:239-264` | On every valid table the node returned is the reference's answer, NULL exactly when there is none; only its lock changes. |
| `RouteTable.RouteTable.NodeLookup` | `source/pub3/cmd/table.c:294-312` | NULL exactly when p has no info; otherwise p's node, with one more lock. |
| `RouteTable.RouteTable.StepTowards` | `source/pub3/cmd/table.c:251-257` | Following p's next bit leaves behind no node that contains p. |
| `RouteTable.RouteTable.FindPlace` | `source/pub3/cmd/table.c:322-334` | p's node if there is one; otherwise the free link or the departing node where it belongs. |
| `RouteTable.RouteTable.InsertBranch` | `source/pub3/cmd/table.c:344-363` | A node for the common prefix between `up` and `node` keeps the shape, and gives no other node fewer children. |
| `RouteTable.RouteTable.NodeGet` | `source/pub3/cmd/table.c:314-367` | Keeps every invariant and the stored info; returns p's node with one lock more; at most two new nodes, of p's family, none if p had one; all other locks unchanged. |
| `RouteTable.RouteTable.NodeDelete` | `source/pub3/cmd/table.c:369-407` | The upward cascade ends; invariants and stored info are kept; says exactly which nodes go. |
| `RouteTable.RouteTable.UnlockNode` | `source/pub3/cmd/table.c:212-220` | One lock less; only lock-0 nodes disappear; nothing at all happens to the tree if the node is still held or branches. |
| `RouteTable.RouteTable.Top` | `source/pub3/cmd/table.c:409-421` | The first node in pre-order, with one lock more. |
| `RouteTable.RouteTable.FindNext` | `source/pub3/cmd/table.c:430-462` | The node that follows in pre-order. |
| `RouteTable.RouteTable.Next` | `source/pub3/cmd/table.c:423-462` | Moves exactly one lock to the following node; a walk over a branching stub deletes nothing. |
| `RouteTable.RouteTable.Walk` | `source/pub3/cmd/table.c:409-462` | The whole walk visits every node exactly once, in pre-order, and ends with every lock and link as before. |
| `RouteTable.RouteTable.LexIsPreOrder` | `source/pub3/cmd/table.c:423-462` | The order of the walk is: a node, what is below its left link, what is below its right link. |
| `RouteTable.RouteTable.AtMostTwiceHeld` | `source/pub3/cmd/table.c:379-406` | With k held nodes there are at most 2k-1 nodes. |
| `RouteTable.LexTotal` | `source/pub3/cmd/table.c:423-462` | The walk's order is a strict total order that puts a prefix before what it contains. |
| `RegexSyntax.CollapseKeepsMeaning` | `source/pub3/cmd/regex.c:2048-2098` | Collapsing any run of `*`, `+`, `?` into zero_times_ok and many_times_ok keeps the language. |
| `RegexEmit.StoreExtract` | `source/pub3/cmd/regex.c:526-549` | A number survives the two-byte format exactly when it is in [-2^15, 2^15). |
| `RegexEmit.SetListBit` | `source/pub3/cmd/regex.c:1754-1756` | Adds exactly one character to the map. |
| `RegexEmit.Bitmap` | `source/pub3/cmd/regex.c:2188-2380` | The map has exactly the listed characters. |
| `RegexEmit.Trim` | `source/pub3/cmd/regex.c:2382-2386` | Dropping zero bytes at the end changes no membership. |
| `RegexCompile.InsertKeepsJumps` | `source/pub3/cmd/regex.c:3015-3051` | After opening any number of bytes at loc, a jump in the moved part to a place in it reaches the same code, and what is before loc is untouched. |
| `RegexCompile.CompileIsAltCode` | `source/pub3/cmd/regex.c:1991-2919` | For every pattern the one-pass compiler, with its inserted and patched jumps, produces the layout defined by recursion on the pattern. |
| `RegexCompile.UnmatchedIfOpen` | `source/pub3/cmd/regex.c:2440-2923` | Exactly the texts that leave a group open are refused, whatever else they hold; a `)` without a `(` is a literal. |
| `RegexBuffer.Compilation.GetSpace` | `source/pub3/cmd/regex.c:1610-1705` | Doubling keeps the contents and succeeds exactly up to MAX_BUF_SIZE. |
| `RegexBuffer.Compilation.InsertOp1` | `source/pub3/cmd/regex.c:3015-3032` | In place: the code is opened at loc and the command written there. |
| `RegexBuffer.Compilation.RepeatLast` | `source/pub3/cmd/regex.c:2098-2155` | The emission of a repetition on the array equals that on values. |
| `RegexBuffer.Compilation.OpenGroup` | `source/pub3/cmd/regex.c:2440-2482` | Likewise for an opening parenthesis. |
| `RegexBuffer.Compilation.CloseGroup` | `source/pub3/cmd/regex.c:2496-2552` | Likewise for a closing one. |
| `RegexBuffer.Compilation.Alternative` | `source/pub3/cmd/regex.c:2558-2597` | Likewise for the alternation bar. |
| `RegexBuffer.Compilation.PushSet` | `source/pub3/cmd/regex.c:2167-2388` | A bracket expression leaves its opcode, the trimmed width and the trimmed map. |
| `RegexBuffer.Compilation.Compile` | `source/pub3/cmd/regex.c:1991-2932` | The buffer holds exactly the code of the run over the tokens; EPAREN only if a group is left open, success only if none is; ESIZE only where it is due. |
| `RegexRun.AtomRuns` | `source/pub3/cmd/regex.c:4264-4340` | Any accepting run that starts with an atom's code first consumes a word of the atom. |
| `RegexRun.LoopRuns` | `source/pub3/cmd/regex.c:2098-2144` | A run through a loop consumes a word of any number of bodies. |
| `RegexRun.AltRuns` | `source/pub3/cmd/regex.c:4690-4703` | A run through alternatives consumes a word of one of them, and the chain of jump_past_alt ends behind the last. |
| `RegexRun.AtomRunsBack` | `source/pub3/cmd/regex.c:4264-4340` | For every word of an atom there is such a run. |
| `RegexRun.AltRunsBack` | `source/pub3/cmd/regex.c:4690-4703` | For every word of one of the alternatives there is such a run. |
| `RegexRun.CodeMeansPattern` | `source/pub3/cmd/regex.c:1991-2919` | For every pattern the code takes the machine from d to e exactly when the text between is in the pattern's language. |
| `RegexTidy.AltTidy` | `source/pub3/cmd/regex.c:1991-2919` | Compiled code is a row of whole commands. |
| `RegexMachine.ResultIsOne` | `source/pub3/cmd/regex.c:4092-5238` | The machine comes to one result. |
| `RegexTidy.RewrittenDecode` | `source/pub3/cmd/regex.c:4889-4895` | After any loop ends have been rewritten, every command reads the same, but for the kind of a jump. |
| `RegexTidy.RewrittenPop` | `source/pub3/cmd/regex.c:4744-4888` | What maybe_pop_jump decides does not depend on loop ends already rewritten. |
| `RegexTidy.AheadEnds` | `source/pub3/cmd/regex.c:4754-4769` | Looking past register commands and the front of `x+` sees what a run would reach. |
| `RegexEnds.SkipIsTame` | `source/pub3/cmd/regex.c:2098-2144` | Where the next character tells whether to read an optional part, the failure point that skips it leads no further once it has been read. |
| `RegexHalts.ShorterIsHarmless` | `source/pub3/cmd/regex.c:4775-4783` | At the end of the pattern the loop's own point stands only for a shorter match. |
| `RegexHalts.HopelessIsHarmless` | `source/pub3/cmd/regex.c:4785-4797` | If what follows cannot start with the character just read, the dropped point leads nowhere. |
| `RegexHalts.TameIsHarmless` | `source/pub3/cmd/regex.c:4775-4783` | At the end of the pattern a point that leads no further than the current position is not missed. |
| `RegexHalts.LoopFinishes` | `source/pub3/cmd/regex.c:4744-4911` | A loop over a body that matches no empty word comes to an end on every path, also after backtracking and with any failure points below it; popping or not. |
| `RegexHalts.PatternFinishes` | `source/pub3/cmd/regex.c:4092-5230` | On every proper pattern every path of the machine ends and resumes at no loop jump; where results are to be exact, no needed failure point is dropped. |
| `RegexMatch.FailKeeps` | `source/pub3/cmd/regex.c:5187-5226` | The fail loop keeps the invariant or delivers the result. |
| `RegexMatch.FinishKeeps` | `source/pub3/cmd/regex.c:4092-4151` | Saving a best match and backtracking offers no new end, and if results are exact keeps every end that could still be longest. |
| `RegexMatch.StepKeeps` | `source/pub3/cmd/regex.c:4092-5230` | Every turn of the machine keeps the invariant and makes progress; the last one delivers an end that can be reached, or none, and if results are exact the longest one. |
| `RegexMatch.StepAlike` | `source/pub3/cmd/regex.c:4889-4911` | On code whose loop ends have been rewritten every turn does the same as on the original. |
| `RegexMatch.MachineMatches` | `source/pub3/cmd/regex.c:4092-5238` | On every proper pattern, from every position: the machine ends, with no match or a word of the pattern; with the longest one if maybe_pop_jump is a plain jump or its pops are sound. |
| `RegexMatch.PopsChangeNothing` | `source/pub3/cmd/regex.c:4744-4911` | Where its pops are sound, maybe_pop_jump changes no result on any subject. |
| `RegexMatch.MayPop` | `source/pub3/cmd/regex.c:4744-4888` | The loops of maybe_pop_jump compute the decision. |
| `RegexMatch.PopFailure` | `source/pub3/cmd/regex.c:5187-5226` | The fail loop pops the newest point that is neither a dummy nor at a loop jump. |
| `RegexMatch.ReMatch` | `source/pub3/cmd/regex.c:4092-5238` | On every proper pattern, from any buffer whose loop ends may have been rewritten: terminates with the machine's result, a word of the pattern or -1; the longest word if maybe_pop_jump is a plain jump or its pops are sound; and leaves such a buffer. |
| `RegexLimits.SoundUnlessSuspect` | `source/pub3/cmd/regex.c:4775-4888` | Where something follows, a pop drops only points that lead nowhere exactly when the loop is none of two suspects, told by the bytes of the code. |
| `RegexLimits.ShortestIsLost` | `source/pub3/cmd/regex.c:4785-4887` | If a loop over one character pops although what follows can start with that character, a shortest such word is not matched, for every pattern of this kind. |
| `RegexLimits.LongestUnlessLoses` | `source/pub3/cmd/regex.c:4785-4887` | A pattern that starts with `*` or `+` over one character and another character behind it gets its longest match on every subject exactly when the pair is neither a literal and a set with it but without the character 1, nor a set with a character from 248 up and a literal in it. |
| `RegexLimits.StarThenSetFails` | `source/pub3/cmd/regex.c:4811-4823` | `a*[a]` does not match "a": the test of p1[4] reads the count. |
| `RegexLimits.FullSetThenLiteralFails` | `source/pub3/cmd/regex.c:4789-4797` | `[a\377]*a` does not match "a": the width of a full map becomes 0 as an unsigned char. |
| `RegexLimits.GroupAtEndFails` | `source/pub3/cmd/regex.c:4775-4783` | `(ab?(bc)?)*` matches 2 of the 3 characters of "abc": at the end of the pattern the newest failure point belongs to `b?`. |
| `RegexLimits.OptTailIsSound` | `source/pub3/cmd/regex.c:4775-4783` | `(xy?)*` gets its longest match for any two characters, although the loop's end drops the point of `y?`. |
| `RegexFastmap.PatternNulls` | `source/pub3/cmd/regex.c:3320-3346` | On every path that consumes nothing, jumps go forward, but for loop ends whose body has been entered. |
| `RegexSearch.CatchOn` | `source/pub3/cmd/regex.c:3227-3450` | One step of the walk keeps all runs accounted for. |
| `RegexSearch.CompileFastmap` | `source/pub3/cmd/regex.c:3187-3465` | For every pattern: can_be_null is set exactly when the pattern matches the empty string; otherwise every word starts with a character of the table; and every character of the table is there for a command that can come first. Terminates. |
| `RegexSearch.PatternBuffer.SkipAhead` | `source/pub3/cmd/regex.c:3624-3651` | Only positions are skipped at which the machine finds nothing. |
| `RegexSearch.PatternBuffer.Search` | `source/pub3/cmd/regex.c:3559-3693` | On every proper pattern, with or without a fastmap: for range >= 0 the least position from startpos to startpos + range, inside the subject, at which the machine matches, for range < 0 the greatest one from there to startpos, and -1 exactly if there is none; the same for positions at which a word starts, if results are exact. |
| `RegexSearch.FindsWords` | `source/pub3/cmd/regex.c:3617-3693` | The machine finds words only, and finds one wherever one starts if results are exact. |
| `RegexSearch.FirstHitIsOne` | `source/pub3/cmd/regex.c:3617-3693` | The position is determined. |
| `RegexSearch.FirstHitMeans` | `source/pub3/cmd/regex.c:3572-3693` | Direction and extent of a search: the least hit forwards, the greatest one backwards, cut off at the ends of the subject. |
| `RegexEndToEnd.CompileAndSearch` | `source/pub3/cmd/regex.c:1879-3693` | Compiling the text of a proper pattern succeeds, and searching finds the least (for a negative range the greatest) position in the range at which the machine matches; if results are exact, at which a word of the pattern starts. |
| `RegexEndToEnd.SearchBothWays` | `source/pub3/cmd/regex.c:3559-3693` | On every proper pattern a search with a fastmap and one without return the same position, for every subject, start and range. |
| `Md5Words.MacrosAgree` | `source/pub3/cmd/md5.c:258-265` | FF, optimised, FG, which is FF with its words turned, FH and FI are F, G, H and I of RFC 1321, section 3.4. |
| `Md5Words.CyclicRotates` | `source/pub3/cmd/md5.c:319-321` | CYCLIC is the rotation of the RFC for all sixteen shifts. |
| `Md5.MacroIsOperation` | `source/pub3/cmd/md5.c:309-358` | One OP is one operation of the RFC. |
| `Md5.WordIsValue` | `source/pub3/cmd/md5.c:309-321` | A word of a block is the number that its four bytes stand for, low-order byte first. |
| `Md5.WordRoundTrip` | `source/pub3/cmd/md5.c:84-98` | A word that is written and read back is the same. |
| `Md5.BytesRoundTrip` | `source/pub3/cmd/md5.c:84-98` | Four bytes that are read and written back are the same. |
| `Md5.WordBytesValue` | `source/pub3/cmd/md5.c:84-98` | The bytes of a word are its value, low-order byte first. |
| `Md5.Low8Value` | `source/pub3/cmd/md5.c:122-125` | The eight bytes of the appended length are the number modulo 2^64, low-order byte first. |
| `Md5Answer.DigestOfA` | `source/pub3/cmd/md5.c:193-209` | The digest of "a" is 0cc175b9c0f1b6a831c399e269772661, as in RFC 1321, appendix A.5; shown operation by operation. |
| `Md5.BlocksConcat` | `source/pub3/cmd/md5.c:292-419` | Blocks may be processed in any number of calls. |
| `Md5.CountsBytes` | `source/pub3/cmd/md5.c:285-290` | The two-word count is right modulo 2^64 for any length below 2^32, and for a longer one exactly while the low word plus the length stays below 2^33. |
| `Md5.Context.DoBlock` | `source/pub3/cmd/md5.c:294-419` | The 64 operations on one block equal the RFC's. |
| `Md5.Context.ProcessBlock` | `source/pub3/cmd/md5.c:270-426` | All blocks in order, and the count. |
| `Md5.Context.TopUp` | `source/pub3/cmd/md5.c:218-239` | Staged and new bytes stay in order; at most 128 are staged during a call and 64 after it. |
| `Md5.Context.ProcessBytes` | `source/pub3/cmd/md5.c:212-255` | The context then stands for the message with the data appended. |
| `Md5.Context.LengthWords` | `source/pub3/cmd/md5.c:122-125` | The two shifted words are the low 64 bits of eight times the byte count, low-order byte first. |
| `Md5.PadIsShortest` | `source/pub3/cmd/md5.c:119-120` | No shorter padding fills a block. |
| `Md5.Context.Finish` | `source/pub3/cmd/md5.c:100-131` | The result is the RFC 1321 digest of all bytes fed. |
| `Md5.DigestOf` | `source/pub3/cmd/md5.c:193-209` | md5_buffer is the digest. |
| `Md5.DigestOfPieces` | `source/pub3/cmd/md5.c:212-255` | Every way of cutting a message into calls gives the digest of the message. |
| `Frame.PutInt` | `source/pubinc/netmt.h:93-111` | An int field reads back, and writing it changes no other field. |
| `Frame.SessionWellFramed` | `source/netmtclient/netmtclient.c:246-298` | A session is a row of whole frames that carry their length. |
| `Transfer.SendFile` | `source/netmtclient/netmtclient.c:236-298` | For every file: FILE_OPEN, DATA frames that carry the file in order, GET_END with its size. |
| `Transfer.SessionEnds` | `source/netmtserver/netmtserver.c:288-338` | The frames of a session leave the file as sent, closed, whatever the server held before, and are answered with exactly one GET_SUCCESS if the number of bytes announced at the end is right, and not at all otherwise. |
| `Transfer.OthersIgnored` | `source/netmtserver/netmtserver.c:288-338` | Frames of other commands in between change nothing. |
| `Transfer.PartialLength` | `source/netmtserver/netmtserver.c:233-240` | A length field of which 1 to 3 bytes have arrived reads as too long, as it should, exactly when the stale fourth byte is below 128. |
| `Transfer.StillZero` | `source/netmtserver/netmtserver.c:224-232` | What is copied into the buffer leaves a zero wherever the fourth byte of a length field belongs. |
| `Transfer.LengthRead` | `source/netmtserver/netmtserver.c:366-375` | The length read at a frame start is a frame's, or makes the loop wait. |
| `Transfer.Receiver.DispatchAll` | `source/netmtserver/netmtserver.c:242-377` | The loop dispatches exactly the whole frames that are there and moves the rest to the front. |
| `Transfer.Receiver.TcpRecv` | `source/netmtserver/netmtserver.c:216-378` | After every segment, wherever it ends, the frames so far have been dispatched in order, less than a frame waits, and the buffer never overflows. |
| `Transfer.Receive` | `source/netmtserver/netmtserver.c:216-378` | For every segmentation of a session the file arrives as sent, and it is answered exactly if the number of bytes announced is right. |
| `Getopt.SortedKeepsAll` | `source/pub3/cmd/getopt.c:458-500` | Sorting arguments into options and others loses and invents none. |
| `Getopt.SwapBlocks` | `source/pub3/cmd/getopt.c:351-376` | Two blocks of one length change places. |
| `Getopt.Exchange` | `source/pub3/cmd/getopt.c:307-385` | The two adjacent blocks change places, each in its old order, for any sizes. |
| `Getopt.Scanner.Gather` | `source/pub3/cmd/getopt.c:556-565` | Options read since go in front of the skipped non-options. |
| `Getopt.Scanner.NextElement` | `source/pub3/cmd/getopt.c:545-619` | At the end the arguments are sorted and optind is behind the options; otherwise the next option element is found. |
| `Getopt.Scanner.TakeChar` | `source/pub3/cmd/getopt.c:771-967` | The character, error and argument that are reported, and the invariant. |
| `Getopt.Scanner.Next` | `source/pub3/cmd/getopt.c:511-968` | Each call reports the next option of the reference reading, with its argument, or ends the scan with the arguments sorted and nothing left to report; and makes progress. |
| `Getopt.ScanAll` | `source/pub3/cmd/getopt.c:458-500` | Until it returns -1 the calls report exactly the options, errors and arguments of a reading of the original argv from left to right, and turn argv into: name, options with their arguments, others, each in the old order. |
| `Getopt.RequiredArgument` | `source/pub3/cmd/getopt.c:941-967` | For a character with one colon behind it in the option string: `-c v` reports c with v and sorts both to the options, `-cv` reports it from the same element, and `-c` at the end is an error, a colon or a question mark. |
| `Getopt.OptionalArgument` | `source/pub3/cmd/getopt.c:926-940` | With two colons: `-c` reports no argument and leaves the next element alone, `-cv` reports v. |
| `Getopt.NoArgument` | `source/pub3/cmd/getopt.c:771-967` | Without a colon: c is reported without argument and the element is read on. |
| `Getopt.UnknownOption` | `source/pub3/cmd/getopt.c:781-809` | A character that is not in the option string, and the colon, is an error, and the element is read on. |
| `Getopt.Elements` | `source/pub3/cmd/getopt.c:545-619` | How elements are told apart: non-options are passed over, `--` ends the options, and an option takes the next element along exactly if its characters want it. |
| `Buffer.Buffer.Empty` | `source/pub3/cmd/buffer.c:96-104` | True exactly when nothing is pending. |
| `Buffer.Buffer.AddChunk` | `source/pub3/cmd/buffer.c:123-148` | A chunk is linked in at the tail and counted. |
| `Buffer.Buffer.Write` | `source/pub3/cmd/buffer.c:150-188` | The bytes are pending behind what was pending, over any number of chunks. |
| `Buffer.Buffer.Collect` | `source/pub3/cmd/buffer.c:425-443` | The bytes collected are the first ones pending, as many as wanted or as there are. |
| `Buffer.Buffer.FreeUntil` | `source/pub3/cmd/buffer.c:501-513` | Freeing chunks loses no pending byte and keeps links and count. |
| `Buffer.Buffer.Flush` | `source/pub3/cmd/buffer.c:217-268` | What is handed out followed by what is pending is what was pending. |
| `Buffer.Buffer.FlushVty` | `source/pub3/cmd/buffer.c:382-519` | The same, with the erase sequence before and the prompt behind exactly when bytes are left; at most two iovecs more than chunks. |
| `Buffer.Buffer.CountWindow` | `source/pub3/cmd/buffer.c:536-562` | The nested loops count the bytes of one window, never more than are pending. |
| `Buffer.WindowIsLines` | `source/pub3/cmd/buffer.c:536-562` | The window ends with line end number height, where a line ends at its first newline or width bytes behind the last line end; or it is all that is pending, with fewer line ends. |
| `Buffer.Buffer.FlushWindow` | `source/pub3/cmd/buffer.c:521-568` | Writes exactly that window. |
| `Buffer.Buffer.FlushAll` | `source/pub3/cmd/buffer.c:270-298` | Everything pending is handed out and the chain is empty. |
| `Buffer.Run` | `source/pub3/cmd/buffer.c:96-568` | Over every sequence of writes and flushes, for every chunk size, each operation hands to writev exactly what it should (for a page: erasing, data, prompt), and data handed out followed by what is left is what was written, in order. |
| `Buffer.FirstInFirstOut` | `source/pub3/cmd/buffer.c:96-568` | The data that operations should hand out, followed by what should be left, is what was written. |
| `Pqueue.RootIsFirst` | `source/pub3/cmd/pqueue.c:27-36` | The first element of a heap comes before all others. |
| `Pqueue.UpStep` | `source/pub3/cmd/pqueue.c:54-60` | One step up keeps the heap but for one node. |
| `Pqueue.DownStep` | `source/pub3/cmd/pqueue.c:76-94` | One step down keeps the heap around one node. |
| `Pqueue.Queue.TrickleUp` | `source/pub3/cmd/pqueue.c:44-64` | Heap order again, same elements. |
| `Pqueue.Queue.TrickleDown` | `source/pub3/cmd/pqueue.c:66-98` | Heap order again, same elements. |
| `Pqueue.Queue.Expand` | `source/pub3/cmd/pqueue.c:123-140` | The array doubles and holds the same elements. |
| `Pqueue.Queue.Enqueue` | `source/pub3/cmd/pqueue.c:142-151` | Heap order and exactly one element more, also across doubling. |
| `Pqueue.Queue.Dequeue` | `source/pub3/cmd/pqueue.c:153-160` | Returns an element that comes before all others; heap order and exactly that element less. |
| `Pqueue.Drain` | `source/pub3/cmd/pqueue.c:153-160` | Draining gives all elements in order. |
| `Checksum.SumsAgree` | `source/pub3/cmd/checksum.c:20-37` | Adding carries back at every word or once at the end gives the same ones-complement sum. |
| `Checksum.OddByteIsPadded` | `source/pub3/cmd/checksum.c:30-36` | An odd byte counts as if a zero came behind it. |
| `Checksum.RfcExample` | `source/pub3/cmd/checksum.c:20-37` | The example of RFC 1071, section 3. |
| `Checksum.TwoFolds` | `source/pub3/cmd/checksum.c:39-46` | Two folds are enough exactly when the second makes no carry of its own. |
| `Checksum.InCksum` | `source/pub3/cmd/checksum.c:11-47` | For up to 131074 bytes: the complement of the RFC 1071 sum. |
| `Checksum.StoreAndCheck` | `source/pub3/cmd/checksum.c:11-47` | A buffer that carries its checksum in an aligned field that was zero has the checksum 0. |
| `RouteMap.AnyRuleMatches` | `source/pub3/cmd/routemap.c:720-736` | A clause matches exactly when it has no match rules or one of them matches. |
| `RouteMap.ClauseMeans` | `source/pub3/cmd/routemap.c:712-762` | A clause whose rules match runs its set rules and matches if it permits, and denies otherwise; one whose rules do not match gives the answer of its last rule and changes nothing. |
| `RouteMap.SetsTurnOnce` | `source/pub3/cmd/routemap.c:746-753` | The set rules run from first to last, each on what the one before it has made. |
| `RouteMap.EvaluateWay` | `source/pub3/cmd/routemap.c:764-810` | On any clause list the evaluation goes from clause to clause as their rules, permissions and exit policies say. |
| `RouteMap.RunsOnce` | `source/pub3/cmd/routemap.c:764-810` | Clauses run their set rules in rising order, so none twice. |
| `RouteMap.FirstToLast` | `source/pub3/cmd/routemap.c:675-709` | Without GOTO the first clause that denies, or matches and exits, gives the result, and running off the end denies; exactly the clauses up to there that match have changed the object. |
| `RouteMap.GotoLands` | `source/pub3/cmd/routemap.c:788-804` | A GOTO lands where the documentation says exactly when every clause it has to skip, but for the first, is below the nextpref of the clause before it, and the documented one is not; on any list of clauses. |
| `RouteMap.GotoSkipsOne` | `source/pub3/cmd/routemap.c:788-804` | When no clause behind jumps past its neighbour: exactly when it has at most one clause to skip. |
| `RouteMap.ContinueLandsShort` | `source/pub3/cmd/routemap.c:788-804` | `continue 40` in the map 10, 20, 30, 40 goes on at 30. |
| `RouteMap.Map.Add` | `source/pub3/cmd/routemap.c:322-372` | The new clause is linked in before the first with a higher number; all others keep their order. |
| `RouteMap.Map.Delete` | `source/pub3/cmd/routemap.c:275-306` | Exactly that clause is unlinked. |
| `RouteMap.Map.Get` | `source/pub3/cmd/routemap.c:374-391` | A clause of that number and type is in the list, one of the other type is gone, all others stay; the numbers still increase. |
| `RouteMap.ApplyIndex` | `source/pub3/cmd/routemap.c:712-762` | RMAP_MATCH exactly if the clause permits and has no match rules or one that matches; RMAP_DENYMATCH if it matches and denies; otherwise the answer of the last rule; the object is changed by all set rules in order, or not at all. |
| `RouteMap.Map.GoOn` | `source/pub3/cmd/routemap.c:788-804` | The jump ends where its own loop leads. |
| `RouteMap.Map.Apply` | `source/pub3/cmd/routemap.c:764-810` | On every map, with GOTO or not: terminates; there is a way from the first clause to the one that ends it on which every move and the end are as the clauses' rules, permissions and exit policies say, and the result and the object are those of that end. |
| `Command.ArgvConcat` | `source/pub3/cmd/command.c:71-103` | The arguments from shift on, with one space between. |
| `Command.SpaceCodes` | `source/pub3/cmd/command.c:173-199` | White space is the blank and the codes 9 to 13. |
| `Command.SplitIsComplete` | `source/pub3/cmd/command.c:159-208` | Every piece is a nonempty word, and together they are all that is not white space, in order. |
| `Command.MakeStrvec` | `source/pub3/cmd/command.c:159-208` | No vector exactly for blank lines and comments; otherwise all words. |
| `Command.SplitJoined` | `source/pub3/cmd/command.c:71-208` | Splitting joined words gives the words back. |
| `Command.JoinAndSplit` | `source/pub3/cmd/command.c:71-208` | cmd_make_strvec undoes argv_concat on words that start no comment. |
| `Command.CmdLcd` | `source/pub3/cmd/command.c:1616-1647` | The minimum over neighbours is the length of the longest common prefix of all candidates. |
| `Command.Complete` | `source/pub3/cmd/command.c:1694-1795` | The candidates, in the order found; each status exactly when it is due; a CMD_COMPLETE_MATCH properly extends the typed word and is the longest common prefix of all candidates, and a list is returned only if nothing can be added. |

## Left out

- RegexMatch.ReMatch: the longest match with popping only on `Sound` patterns; on the others the code may lose it. For a group repeated at the end of the pattern `Sound` is sufficient and not necessary.
- RegexHalts.PatternFinishes: repeated parts that can match nothing are not covered, because the register bookkeeping that ends such loops is not modelled.
- RegexLimits.LongestUnlessLoses: the loop over one character stands at the front of the pattern, with one more character behind it.
- RegexEmit.Bitmap: the characters of a bracket expression are given as a list; ranges, classes and escapes are not parsed.
- RegexBuffer.Compilation.PushSet: likewise.
- RegexCompile.CompileIsAltCode: tokens carry the characters of a bracket expression; the parsing of ranges and classes inside brackets is not modelled.
- RegexBuffer.Compilation.Compile: ESIZE is reported within 34 bytes of the limit, the room that a bracket expression asks for at once.
- RegexFastmap.PatternNulls: a jump_past_alt of length 0 reads the byte behind its target; the buffer is taken to be zero behind the code.
- Back references, intervals, anchors, word operators, translate tables, the `.*\n` special case, two-part subjects, register contents, more than 16-bit offsets, and a limited failure stack.
- Transfer.Receive: one connection, segments of at most 8192 bytes, records as this client builds them, and files below 2^31 bytes, where the C int counters do not overflow; a data size beyond the record and data without an open file are not modelled.
- The NETMT_SEND direction, whose byte count is never reset, heartbeats, registration and command execution.
- Getopt.ScanAll: long options, `W;`, the two other orderings and calls after -1 are not modelled; an option string that starts with `-` or `+` is read as it stands.
- Md5.DigestOf: messages below 2^32 bytes, as for each call of md5_process_bytes.
- Md5.Context.ProcessBytes: each call below 2^32 bytes; `Md5.CountsBytes` says when a longer one is still counted right. md5_stream, which reads a file, is left out.
- Buffer.Buffer.Flush: one chunk size greater than zero, and the length field that only accumulates is not kept.
- Checksum.StoreAndCheck: up to 131074 bytes, as Checksum.InCksum.
- Checksum.InCksum: up to 131074 bytes, the longest buffer whose sum is below 2^32 for any contents; `Checksum.TwoFolds` says exactly when more is still right.
- RouteMap.Map.Add: for a number that no clause has yet, which is how route_map_index_get calls it.
- Command.Complete: the words that fitting commands have at a place are a parameter; filtering commands by the preceding words is not modelled.
- RouteTable.RouteTable.NodeGet: families are stored but, as in the source, never compared; lock counts are unbounded; aggregate nodes, dumping and freeing a whole table are left out.
- Hash tables, vectors, linked lists, streams, filters, keychains and sockets: they would only add simple members.
