# Rhino-Rox in Dafny

A model of the core of the Rhino-Rox data-structure server, with proofs that the
fast in-place code does what its simple description says.  `dafny verify
dfyconfig.toml` checks the project, which is written in Dafny 4.11 and needs no
library.

Code that changes state in the source is a class or a method here: the crit-bit
tree lives in the heap as cells and nodes, the linked list as nodes chained both
ways, the stemmer, SHA-1, `ll2string`, the heap and the static reply buffer work
on arrays.  Each is proved against a function or an abstract value, and the
properties are proved about those.

* **Crit-bit dictionary** (`KeyBits`, `CritBitTree`, `CritBitHeap`, `CritBitDict`,
  `CritBitIter`).  Keys are NUL-free byte strings.  The bit tested by a node is one
  position `8 * byte_idx + 7 - bit_idx`; `CritBit` says that the keys below a node
  agree before its position, that child 0 and 1 hold the keys with that bit 0 and
  1, and so on downwards.  `Dict.Valid` ties the cells in the heap to such a tree and
  the tree to a finite map.  Set, delete and clear update the map, iteration lists
  it in byte order, and a prefix query finds exactly the one matching subtree.
* **Request parser** (`RespParser`, `RespWire`, `RespClient`, `RespInline`,
  `RespBytes`).  The parser on a client's fields computes the functions of
  `RespParser`; `RespWire` proves what those do on an encoded list of commands, for
  every way of cutting the bytes into reads that the read-size rule allows;
  `RespInline` does so for inline requests, and `RespBytes` says which lines of
  arbitrary bytes are accepted and what the others cost.
* **Reply stream** (`Replies`, `Loopback`).  Two-tier output buffering with
  arbitrary short writes conserves the stream, pending output is always scheduled,
  and what the server prints and sends for an array, the server reads back.
* **SHA-1** (`Sha1Spec`, `Sha1`, `Sha1Example`).  `Sha1Spec` is the definition of sections 4.1.1,
  4.2.1, 5.1.1, 5.3.1 and 6.1.2 of FIPS 180-4; `Sha1` is the streaming code with its 16-word
  circular schedule (section 6.1.3); `Sha1Example` takes the definition through the
  first test vector.
* **Full-text index** (`Stemmer`, `StemmerRules`, `StemmerExamples`, `Tokenizer`,
  `TokenizerRules`, `Postings`, `Fts`, `FtsSearch`).  The inverted index agrees, after
  any run, with tokenising every stored document afresh; a search returns the
  documents that share a term, each once, best first.  `StemmerRules` states every
  line of the stemmer's tables for every stem, and `TokenizerRules` what becomes of
  words, punctuation and case.
* **Heap** (`MinHeap`), **decimal codec** (`Decimal`), **quoted arguments**
  (`QuotedArgs`, and `QuotedWords` for the ways of writing one), **object encodings**
  (`Robj`), **linked list** (`AdList`), **background worker** (`BgTask`).

## What the proofs found

Each of these is stated with its condition, and with an input that meets it where
that is not plain.

* `dict_copy` leaves a wrong length unless the destination's keys are among the
  source's (or the source is empty): exactly then is the result valid
  (`DictCopy`, `CopyLosesCount`).
* Iterating `dict_get_prefix` is undefined exactly when the dictionary is not empty
  and no key has the prefix; the model returns `None` there (`WithPrefix`,
  `NoIteratorForB`).
* The parser admits arguments of 512 MiB, but the query buffer is limited to the
  same size and an argument is followed by two bytes.  A stream of commands is
  delivered whole if and only if every argument has at most 512 MiB - 2 bytes;
  otherwise the client is freed, with everything before the first such command
  delivered (`Serve`, `FitsButUndeliverable`).
* An inline request that ends in a bare LF loses the byte that follows it, if one
  does (`InlineLine`, `BareLineFeedLosesByte`).
* `sdstrim` also trims NUL bytes, because `strchr` finds the terminator of its set:
  it does what its documentation says exactly on strings whose first and last
  characters outside the set are not NUL (`TrimIsSetTrim`, `TrimDropsNul`).
* `compareStringObjects` returns the difference of two lengths as a 32-bit int.  Its
  sign is lexicographic order unless one string continues the other and that
  difference loses its sign; it is zero for different strings exactly when one
  continues the other by a multiple of 2^32 bytes (`CompareIsLexicographic`,
  `CompareIsEquality`, `LongIsLessThanEmpty`, `FourGiBEqualsEmpty`).
* `SHA1Update` adds the length of a call to the bytes left in its buffer in 32 bits.
  It absorbs the data exactly when that sum does not wrap (`Context.Update`,
  `LongestPieceWraps`).
* The stemmer's step 5a differs from the published rule exactly on words of measure
  above one that end in "e" after a consonant-vowel-consonant (`Step5aDeparts`,
  `Step5aKeepsProbate`).
* A vertical tab or form feed is skipped between arguments but does not end an
  unquoted one: there it is part of the argument (`ArgsOfLine`).
* An inline line of more than 64 KiB is answered with an error once per read while
  it is incomplete, and is then run all the same: that branch does not close the
  connection (`UserInputInline`, `ServeInline`).

The comparison and hash inputs above do not arise in this server: nothing outside
`robj.c` calls the comparisons, an argument has at most 512 MiB, and `SHA1Update`
is called with small fixed lengths only (`src/util.c:570-571`).  They concern other
callers of these functions.

## Model

| member | source | states |
|---|---|---|
| KeyBits.TopBitOfDifference | src/rr_dict.c:199-204 | the bit scan on the xor of two different bytes yields the highest bit on which they differ, and that bit orders them |
| KeyBits.DifferenceFound | src/rr_dict.c:189-204 | the first differing byte and its highest differing bit are the first position at which the two keys differ as bit strings |
| KeyBits.BitOrderIsByteOrder | src/rr_dict.c:199-204 | the key with a 0 at the first differing position is the lesser one in unsigned byte order |
| KeyBits.PrefixIsAgreement | src/rr_dict.c:107-114 | a key has a prefix iff it agrees with it on all the prefix's bits |
| KeyBits.LessIsTotalOrder | src/rr_dict.c:370-399 | the byte order of iteration is irreflexive, asymmetric, transitive and total on keys |
| CritBitTree.PositionsIncrease | src/rr_dict.c:217-231 | tested positions strictly increase down every path of a crit-bit tree |
| CritBitTree.ClosestIsExact | src/rr_dict.c:74-88 | the leaf reached by following a key's bits is a stored pair, and is the key's own iff the key is stored |
| CritBitTree.AssignUpdatesModel | src/rr_dict.c:188-197 | overwriting the closest leaf's value keeps the tree crit-bit and updates the map at that key only |
| CritBitTree.InsertUpdatesModel | src/rr_dict.c:206-236 | splicing at the first difference from the closest leaf keeps the tree crit-bit and adds exactly the new pair |
| CritBitTree.RemoveUpdatesModel | src/rr_dict.c:240-282 | lifting the sibling keeps the tree crit-bit and removes exactly that key |
| CritBitTree.SizeIsLeaves | src/rr_dict.c:65-67 | the map has one entry per leaf |
| CritBitHeap.SpliceIsUnique | src/rr_dict.c:217-231 | two places that a key's bits lead to past positions up to d, each a leaf or testing a later position, are the same place |
| CritBitHeap.AncestorsTestBefore | src/rr_dict.c:217-231 | when d is the first difference from the closest key, every node above the splice point tests a position strictly before d |
| CritBitTree.InOrderPairs | src/rr_dict.c:284-290 | the leaves from left to right list the map, each pair once |
| CritBitTree.InOrderIncreases | src/rr_dict.c:370-399 | the leaves from left to right are strictly increasing in unsigned byte order |
| CritBitTree.TopIsMatching | src/rr_dict.c:90-119 | the subtree chosen for a prefix holds exactly the stored keys with that prefix, with their values, if the closest leaf has it; otherwise no key has it |
| CritBitDict.Dict.constructor | src/rr_dict.c:125-137 | a new dictionary is valid and stands for the empty map |
| CritBitDict.Dict.Length | src/rr_dict.c:65-67 | the size field is the size of the map |
| CritBitDict.Dict.Closest | src/rr_dict.c:74-88 | the pointer walk reaches the cell of the tree's closest leaf |
| CritBitDict.Dict.Get | src/rr_dict.c:146-155 | lookup in the finite map |
| CritBitDict.Dict.FindSplice | src/rr_dict.c:217-231 | in the heap, the second walk stops at that one place: all ancestors test smaller positions than the first difference, and what hangs there a larger one or is a leaf |
| CritBitDict.Dict.Insert | src/rr_dict.c:206-236 | in the heap, a key not present is added to the map; nothing is freed |
| CritBitDict.Dict.Overwrite | src/rr_dict.c:188-197 | in the heap, the stored value is replaced and the old one given to the free callback if there is one |
| CritBitDict.Dict.Set | src/rr_dict.c:165-238 | the map update m[k := v], false and no change for a NULL value; frees exactly the replaced value |
| CritBitDict.Dict.Raise | src/rr_dict.c:270-281 | copying the sibling over the parent removes exactly the key |
| CritBitDict.Dict.Del | src/rr_dict.c:240-282 | returns what the map held, removes the key, keeps the tree valid |
| CritBitDict.Dict.Clear | src/rr_dict.c:300-319 | the empty map; the free callback gets every value, in leaf order |
| CritBitDict.Dict.GetPrefix | src/rr_dict.c:90-119 | the cell found is the top of the matching subtree, or an empty cell when there is none |
| CritBitIter.IterCreate | src/rr_dict.c:338-353 | a new iterator has all the subtree's pairs before it; it has no meaning iff the size is positive and the subtree empty |
| CritBitIter.Iterator.Descend | src/rr_dict.c:346-351 | pushing left children puts a leaf on top and represents the leaf, then the right subtrees of the stacked ancestors |
| CritBitIter.Iterator.Next | src/rr_dict.c:370-399 | returns the first remaining pair and leaves the rest; the two assertions hold |
| CritBitIter.Collect | src/rr_cmd_trie.c:93-122 | repeated next yields the remaining pairs, in order |
| CritBitIter.All | src/rr_dict.c:362-399 | iteration yields every pair of the map exactly once, keys strictly increasing |
| CritBitIter.DictHasPrefix | src/rr_dict.c:157-159 | true iff some stored key has the prefix |
| CritBitIter.WithPrefix | src/rr_dict.c:355-360 | when some key matches, or nothing is stored, exactly the pairs with the prefix, in increasing order; undefined iff the dictionary is non-empty and no key matches |
| CritBitIter.DictCopy | src/rr_dict.c:321-336 | the destination's map is overridden with the source's, its callback gets exactly the values replaced, in the source's order, and is then the source's; its length is right iff its old keys were among the source's keys |
| CritBitIter.CopyLosesCount | src/rr_dict.c:329-336 | copying {b} into {a} leaves two pairs and a length of one |
| CritBitIter.NoIteratorForB | src/rr_dict.c:355-360 | a dictionary holding "a" and the prefix "b" are an undefined case |
| CritBitIter.Run | src/rr_dict.c:146-319 | after any run of set, del and clear, lookup and length are those of a finite map put through the same run |
| Decimal.PairTable | src/util.c:278-283 | entry i of the 200-character table is the two digits of i |
| Decimal.Digits10 | src/util.c:234-252 | the comparisons and the 10^12 recursion give the length of the decimal text |
| Decimal.SDigits10 | src/util.c:255-264 | the same with a sign, for every signed 64-bit value |
| Decimal.FillPairs | src/util.c:309-315 | the back-to-front fill writes the last digits two at a time, each position once, and touches nothing else |
| Decimal.LL2String | src/util.c:277-329 | writes the decimal text and a NUL and returns its length, or 0 and no change when it does not fit |
| Decimal.String2LL | src/util.c:343-404 | succeeds with v iff v fits in 64 bits signed and the string is exactly the text of v; the accumulator never wraps |
| Decimal.TextIsInjective | src/util.c:277-329 | different integers have different texts |
| QuotedArgs.CatRepr | src/sds.c:858-881 | appends the quoted form of the bytes |
| QuotedArgs.SplitArgs | src/sds.c:933-1041 | the loops compute the specification of the argument grammar on every line, failure included, and terminate |
| QuotedArgs.RoundTrip | src/sds.c:926-927 | splitting the space-joined quoted forms of any list of byte strings gives back the list |
| QuotedWords.ArgsOfLine | src/sds.c:933-1041 | with any blanks between them, words are read as what they stand for: a bare part, then nothing, or a part in single quotes (where only the quote is written with a backslash) or in double quotes (plain, escaped and \xHH bytes, in either case of the digits) |
| QuotedWords.FlawRefused | src/sds.c:975-998 | after any words, a quote that is not closed, or is closed before something that is not a blank, fails the whole line |
| QuotedWords.ReprForms | src/sds.c:858-881 | how each byte is printed: two escaped, five control characters as letters, printable ones plain, the rest as \x and two small digits |
| RespParser.RequestKeepsValid | src/rr_server.c:691-725 | one request keeps the parser's state consistent: lengths in range, a pending length only inside a command |
| RespClient.Client.ReadCount | src/rr_server.c:560-598 | the first part of the multi-bulk routine: the line with the number of arguments, its waiting and its refusals |
| RespClient.Client.ReadBulkLength | src/rr_server.c:603-650 | the line with an argument's length, the big-argument trim, its waiting and its refusals |
| RespClient.Client.TakeArgument | src/rr_server.c:653-678 | the argument is the next bulk_len bytes and the buffer goes on after its CRLF, whether copied or stolen with the whole query buffer |
| RespClient.Client.ProcessMultiBulkInput | src/rr_server.c:555-689 | the routine on the client's fields is the specification's step, state and verdict |
| RespClient.Client.ProcessInlineInput | src/rr_server.c:494-546 | the inline routine is the specification's step, state and verdict |
| RespClient.Client.ProcessUserInput | src/rr_server.c:691-725 | the dispatch loop handles requests until the parser waits, refuses, or the buffer is empty |
| RespClient.Client.HandleRead | src/rr_server.c:847-872 | bytes read are appended and parsed, and a client whose buffer exceeds the limit is freed; end of file and errors free the client, a read that would block changes nothing |
| RespWire.ArgumentsRead | src/rr_server.c:601-688 | from any point inside a command, the loop takes exactly the arguments the buffer completes, and waits otherwise |
| RespWire.UserInputOnTrack | src/rr_server.c:691-725 | whatever part of an encoded command list the buffer holds, the commands dispatched stay a prefix of the list, no error is replied, and the parser stops only when the buffer ends inside a line or argument |
| RespWire.ReadLengthIsPositive | src/rr_server.c:832-846 | the read-size rule always asks for between 1 byte and 16 KiB |
| RespWire.ChunkOnTrack | src/rr_server.c:832-871 | appending any read the rule allows keeps the client on track; the buffer holds at most 48 KiB or one big argument, so the 64 KiB refusals cannot fire |
| RespWire.WholeCommand | src/rr_server.c:555-689 | an encoded command in the buffer is parsed in one call, and what follows it stays |
| RespWire.InlineLine | src/rr_server.c:494-546 | a line gives its non-empty arguments; what follows is kept whole iff the line ended in CRLF or nothing follows |
| RespWire.BareLineFeedLosesByte | src/rr_server.c:511-528 | "ping" and "get", each ended by a bare LF, leave "et" for the second request |
| RespWire.InlineReadsBack | src/rr_server.c:494-546 | quoted arguments sent inline are read back |
| RespBytes.LengthLine | src/rr_server.c:602-650 | on any bytes, a length line is accepted iff it is a dollar sign and the text of a number from 0 to 512 MiB, and then the bytes after it are left; any other adds exactly one error, which names the first byte when that is not a dollar sign, and closes the client |
| RespBytes.LengthLineMissing | src/rr_server.c:604-613 | without a carriage return, before the end or the first NUL, the parser waits up to 64 KiB and then refuses |
| RespBytes.CountLine | src/rr_server.c:564-598 | on any bytes, the line with the number of arguments is accepted iff what follows its star is the text of a 64-bit number up to 2^20; any other adds exactly one error and closes the client |
| RespBytes.CountLineMissing | src/rr_server.c:565-573 | the same as for a length line that is missing |
| RespBytes.EmptyCommandSkipped | src/rr_server.c:587-591 | a command of no or fewer arguments runs nothing and replies nothing, and what follows its line is processed as if it came first |
| RespBytes.BadCountRefused | src/rr_server.c:580-585 | a bad count line: one error, the client closing, nothing run, nothing consumed |
| RespBytes.BadLengthRefused | src/rr_server.c:601-631 | a bad length line, first or after any good arguments: one error, the client closing, nothing run |
| RespBytes.ColonRefused | src/rr_server.c:619-624 | "*1", ":4", "ping": the error names the colon, and ping is not run |
| RespBytes.QuitMeans | src/rr_server.c:740 | quit is recognised in any case, and as nothing else |
| RespBytes.QuitCloses | src/rr_server.c:740-744 | it is not run; the client is closing and what follows stays unread |
| RespBytes.NonEmptyMeans | src/rr_server.c:535-544 | empty inline arguments are dropped wherever they stand, and no others |
| RespBytes.WordsRun | src/rr_server.c:494-546 | the words of a CRLF line are the arguments, but for the empty ones, and what follows the line stays |
| RespBytes.FlawStops | src/rr_server.c:517-525 | a line with unbalanced quotes: one error, the client closing, nothing run |
| RespBytes.InlineLineMissing | src/rr_server.c:501-509 | without a line feed, before the end or the first NUL, an inline request waits; above 64 KiB one error is added each time, and the client is not closed |
| RespBytes.ReadLengthMeans | src/rr_server.c:832-846 | a read asks for 16 KiB, and for less only to end exactly at the end of a big argument, which it never passes |
| RespBytes.GetOnTheWire | src/rr_server.c:555-689 | the bytes of one request |
| RespInline.LineRuns | src/rr_server.c:494-546 | a CRLF line that has arrived is run with its non-empty arguments, and what follows it stays |
| RespInline.LineWaits | src/rr_server.c:503-509 | an incomplete line waits, with one error if the buffer exceeds 64 KiB, and is not given up |
| RespInline.UserInputInline | src/rr_server.c:691-725 | processing the buffer runs every complete line in it and adds at most one error |
| RespInline.ServeInline | src/rr_server.c:824-871 | CRLF lines cut into reads in any way are run as exactly their lists of non-empty arguments; no error when all are under 64 KiB, and the client is freed only at a line that may overflow the query buffer |
| RespClient.Serve | src/rr_server.c:824-871 | any list of commands, cut into reads in any way the rule allows, is dispatched as exactly that list iff every argument fits the query buffer; otherwise the client is freed at the first command that does not |
| RespClient.FitsButUndeliverable | src/rr_server.c:627-631 | a command with an argument of 512 MiB - 1 bytes is within the parser's limits and does not fit the query buffer |
| Robj.TryObjectEncoding | src/robj.c:468-542 | never changes the string denoted; an unshared string becomes an integer iff it is the text of a 64-bit integer, shared iff that is from 0 to 9999 and memory is unlimited; other strings of up to 44 bytes are embedded |
| Robj.GetDecodedObject | src/robj.c:546-563 | a string-encoded object denoting the same string: a new one for an integer, else the same with one more reference |
| Robj.StringObjectLen | src/robj.c:633-640 | the length of the denoted string |
| Robj.OrderDecided | src/robj.c:576-606 | lexicographic order is decided at the first difference, or by the true difference of lengths when one string continues the other |
| Robj.CompareIsLexicographic | src/robj.c:576-606 | memcmp and the length difference as an int have the sign of lexicographic order iff, where one string continues the other, the difference keeps its sign in 32 bits |
| Robj.CompareIsEquality | src/robj.c:576-606 | zero means equality iff the strings are not different ones of which one continues the other by a multiple of 2^32 bytes |
| Robj.LongIsLessThanEmpty | src/robj.c:603 | 2^31 bytes compare as less than the empty string |
| Robj.FourGiBEqualsEmpty | src/robj.c:603 | 2^32 bytes compare as equal to the empty string |
| Robj.ShortStringsCompare | src/robj.c:576-606 | below 2^31 bytes the sign is lexicographic order and zero is equality |
| Robj.LexLessIsTotalOrder | src/robj.c:576-606 | lexicographic order is total, asymmetric and transitive on all strings |
| Robj.CompareStringObjects | src/robj.c:609-611 | the comparison of the denoted strings, for every mix of encodings, with the exact condition under which its sign is their order |
| Robj.EqualStringObjects | src/robj.c:622-631 | true iff the denoted strings are equal, the integer shortcut included, unless one continues the other by a multiple of 2^32 bytes |
| Replies.Output.PrepareToWrite | src/rr_replying.c:26-45 | flags and lists a connected client iff it has no output and is not scheduled already |
| Replies.Output.AddToBuffer | src/rr_replying.c:48-63 | accepts all or nothing, only while the list is empty and there is room; the stream grows by exactly the bytes |
| Replies.Output.AddToList | src/rr_replying.c:65-138 | the stream grows by exactly the bytes and replied_len stays the sum of the node lengths |
| Replies.Output.AddStr | src/rr_replying.c:175-179 | the stream grows by the bytes, for a connected client that is not closing |
| Replies.Output.AddObj | src/rr_replying.c:140-173 | the stream grows by the denoted string, for every encoding and through the short-integer path |
| Replies.CountDigits | src/rr_replying.c:270-280 | the loop's digit count is the length of the integer's text, the least integer included |
| Replies.Output.AddMultiBulkLen | src/rr_replying.c:258-264 | prints the array header, by the shared header or the general path alike |
| Replies.Output.AddBulkLen | src/rr_replying.c:266-290 | prints the bulk header with the length of the denoted string |
| Replies.Output.AddBulkObj | src/rr_replying.c:292-296 | prints the bulk string |
| Replies.Output.AddArray | src/rr_cmd_trie.c:93-122 | header and bulk strings together are the encoding of a command with these arguments |
| Loopback.Print | src/rr_replying.c:140-392 | an array reply, drained by any writes, failures to accept included, until all is sent, puts exactly the encoding of the strings on the wire |
| Loopback.ParsePrinted | src/rr_server.c:555-689 | that text, printed for raw, embedded and integer-encoded objects, is parsed by the multi-bulk routine into the same strings |
| Loopback.DeliverPrinted | src/rr_server.c:824-871 | read in any pieces, it is dispatched as one command of these strings iff each fits the query buffer |
| Replies.Output.Drain | src/rr_replying.c:338-382 | over any results of write, what was sent followed by what is pending is unchanged; of the n writes made all but the last accepted something, and output stays pending only if the last accepted nothing or the share of bytes was exceeded below the memory limit |
| Replies.Output.WriteToClient | src/rr_replying.c:333-404 | the same, and the client is freed iff the last write made failed for good, or it is closing and nothing is pending; a drained client loses its handler |
| Replies.Output.Flush | src/rr_server.c:464-487 | a scheduled client is written to; output left over has a write handler, or the client is queued to close; freed iff as above |
| Replies.Output.Writable | src/rr_replying.c:406-410 | the event keeps the stream and the schedule; the handler stays iff output is pending; freed iff as above |
| Replies.Take | src/rr_replying.c:21-410 | one reply, closing, flush or event: nothing joins the stream of a closing client, and with output pending it is freed or still has some |
| Replies.Run | src/rr_replying.c:21-410 | over any run of replies, closing, flushes and events: sent followed by pending is exactly what was added before closing, pending output is always scheduled, and the client is freed only on a write made that failed for good, or when closing with everything sent |
| Sha1.SwappedIsBigEndian | src/sha1.c:35-37 | the byte swap of blk0 on a little-endian load gives the big-endian word |
| Sha1.CircularStep | src/sha1.c:35-44 | slot i mod 16 of the circular block holds word i of the 80-word schedule |
| Sha1.RoundFunctions | src/sha1.c:47-51 | the macros' bit formulas are Ch, Parity and Maj of FIPS 180-4 |
| Sha1.RoundDone | src/sha1.c:47-51 | one macro, with its rotated argument names, is one round of section 6.1.2 |
| Sha1.Transform | src/sha1.c:56-112 | the 80 unrolled rounds over the 16-word block are the compression function |
| Sha1.Context.Count | src/sha1.c:135-138 | the two 32-bit words with their carry test hold the bit count modulo 2^64 |
| Sha1.Context.Update | src/sha1.c:131-150 | absorbing data after a message leaves the context of the concatenation iff the 32-bit sum of the data's length and the bytes buffered does not wrap |
| Sha1.Context.Final | src/sha1.c:155-197 | padding byte by byte through update gives the digest of the padded message |
| Sha1.HashPieces | src/sha1.c:117-197 | any cutting of a message into updates, none of which wraps, gives the SHA-1 of the message; there is none if one does |
| Sha1.LongestPieceWraps | src/sha1.c:140 | one byte and then 2^32 - 1 in one call wrap |
| Sha1Example.ConstantsAreRoots | src/sha1.c:47-51 | the four round constants are 2^30 times the square roots of 2, 3, 5 and 10, rounded down |
| Sha1Example.DigestOfAbc | src/sha1.c:11-12 | the first test vector: the digest of "abc", through all 80 rounds of the definition |
| MinHeap.Array.Push | src/rr_array.c:34-55 | a new last slot; what is stored stays; slots used and free make up the storage through every doubling |
| MinHeap.SwapSinks | src/rr_minheap.c:106-112 | swapping with the smaller child moves the only defect of the heap order one level down |
| MinHeap.SwapRises | src/rr_minheap.c:88-92 | swapping with a greater parent moves the only defect one level up |
| MinHeap.Heap.ShiftDown | src/rr_minheap.c:78-96 | a heap with one element too small for its place becomes ordered, its elements permuted |
| MinHeap.Heap.ShiftUp | src/rr_minheap.c:98-116 | sinking the root to a leaf and letting it rise restores the order, its elements permuted |
| MinHeap.Heap.Push | src/rr_minheap.c:43-58 | the multiset grows by the value and the order holds |
| MinHeap.Heap.Pop | src/rr_minheap.c:60-71 | a least element is taken out of the multiset, the rest stays ordered; nothing on an empty heap |
| MinHeap.Heap.Min | src/rr_minheap.c:73-77 | a least element |
| MinHeap.Heap.PopN | src/rr_cmd_heapq.c:78-86 | the min(n, len) smallest elements in non-decreasing order, each at most every one that stays |
| Stemmer.Stemmer.Measure | src/rr_stemmer.c:65-89 | the nested loops count the consonants that follow a vowel up to j, with y resolved recursively |
| Stemmer.Stemmer.VowelInStem | src/rr_stemmer.c:93-97 | whether some letter up to j is a vowel |
| Stemmer.Stemmer.Ends | src/rr_stemmer.c:127-136 | whether the word ends with the suffix, j then standing before it and otherwise unchanged |
| Stemmer.Stemmer.SetTo | src/rr_stemmer.c:141-146 | the text up to j followed by the string; nothing past the new end is written |
| Stemmer.Stemmer.Step1ab | src/rr_stemmer.c:174-195 | plurals, -ed and -ing come off as the word-level rules say, without writing past the old end |
| Stemmer.Stemmer.DoubleSuffixes | src/rr_stemmer.c:209-246 | step 2 as a table of rules on words; nothing past the old end is written |
| Stemmer.Stemmer.OtherSuffixes | src/rr_stemmer.c:250-263 | step 3 likewise |
| Stemmer.Stemmer.DropSuffix | src/rr_stemmer.c:267-292 | step 4 likewise |
| Stemmer.Stemmer.DropEnd | src/rr_stemmer.c:297-306 | step 5 likewise, the second test using the measure of the word before the first |
| Stemmer.Stemmer.StemInPlace | src/rr_stemmer.c:315-330 | the new end k' has 0 <= k' <= k, b[0..k'] is the stem of the word, nothing past k is written, b[k-1] is never read with k = 0 |
| Stemmer.StemBounds | src/rr_stemmer.c:308-313 | no word is lengthened and none is emptied |
| Stemmer.Step5aDeparts | src/rr_stemmer.c:301-304 | agrees with the published step 5a iff the word is not one of measure above one that ends in e after a consonant-vowel-consonant |
| Stemmer.Step5aKeepsProbate | src/rr_stemmer.c:301-304 | one word on which they differ |
| StemmerRules.PlainLetters | src/rr_stemmer.c:45-54 | a letter other than y is a vowel iff it is one of five |
| StemmerRules.RunOfY | src/rr_stemmer.c:50 | in a run of y, consonant and vowel alternate, beginning with a consonant iff the run begins the word or follows a vowel |
| StemmerRules.MeasureOfStart | src/rr_stemmer.c:56-64 | consonants followed by vowels have measure 0 |
| StemmerRules.MeasureOfBlock | src/rr_stemmer.c:56-64 | every further block of vowels and then consonants adds 1 |
| StemmerRules.MeasureOfEnd | src/rr_stemmer.c:56-64 | vowels at the end add nothing |
| StemmerRules.CvcExamples | src/rr_stemmer.c:108-125 | the words given for the consonant-vowel-consonant test, and four others |
| StemmerRules.Step1aLines | src/rr_stemmer.c:176-180 | every line of the plurals, for every stem |
| StemmerRules.Step1bLines | src/rr_stemmer.c:181-183 | "eed", "ed" and "ing", for every stem |
| StemmerRules.TidyLines | src/rr_stemmer.c:184-193 | what follows the loss of "ed" or "ing", for every stem |
| StemmerRules.Step1cLines | src/rr_stemmer.c:199-202 | a final y becomes i iff a vowel precedes it; other words stay |
| StemmerRules.Step2Lines | src/rr_stemmer.c:209-246 | for every stem x and line of the table: x with the ending becomes x with the new ending iff the measure of x is positive |
| StemmerRules.Step2Otherwise | src/rr_stemmer.c:209-246 | a word with no ending of the table stays |
| StemmerRules.Step3Lines | src/rr_stemmer.c:250-263 | step 3 likewise |
| StemmerRules.Step3Otherwise | src/rr_stemmer.c:250-263 | a word with no ending of the table stays |
| StemmerRules.Step4Lines | src/rr_stemmer.c:267-292 | for every stem x and line: the ending goes iff the measure of x is above 1; "ion" only after s or t |
| StemmerRules.Step4Otherwise | src/rr_stemmer.c:267-292 | a word with no ending of the list stays |
| StemmerRules.Step5Lines | src/rr_stemmer.c:297-306 | a final e and a final double l, for every stem; other words stay |
| StemmerExamples.StemExamples | src/rr_stemmer.c:315-330 | the stems of six words that between them go through every step, and of one of two letters |
| StemmerRules.StemHasNoCapitals | src/rr_stemmer.c:315-330 | stemming brings no capital letter into a word |
| Tokenizer.SplitLen | src/sds.c:795-842 | the pieces between separators; none for the empty string |
| Tokenizer.PiecesJoin | src/sds.c:795-842 | joining the pieces gives the text back, and no piece holds a separator |
| Tokenizer.PiecesOfJoined | src/sds.c:795-842 | they are the only separator-free strings that do |
| Tokenizer.TrimEnds | src/sds.c:683-696 | the text without the characters of the set, or NUL, at its ends |
| Tokenizer.TrimMeaning | src/sds.c:683-696 | only characters to be cut are taken off, and none is left at either end |
| Tokenizer.TrimIsSetTrim | src/sds.c:669-696 | the result is what the documentation promises, trimming the set alone, iff neither the first nor the last character outside the set is NUL |
| Tokenizer.TrimDropsNul | src/sds.c:683-696 | one string on which it is not |
| Tokenizer.Tokenize | src/rr_fts.c:84-114 | the token of every piece, and the number of tokens that are not empty |
| TokenizerRules.LowerLetters | src/rr_fts.c:97 | every capital becomes its small letter and nothing else changes |
| TokenizerRules.TermsIgnoreCase | src/rr_fts.c:84-114 | a text and the same text in small letters have the same terms |
| TokenizerRules.TermsHaveNoCapitals | src/rr_fts.c:84-114 | no term of any text has a capital letter |
| TokenizerRules.PunctuationIgnored | src/rr_fts.c:95 | any of ,.:;?! and NUL before or after a piece leave its token as it is |
| TokenizerRules.TokenOfWord | src/rr_fts.c:94-110 | every piece is such characters around a word that neither begins nor ends with one: its token is the stem of the word in small letters, or nothing if there is no word or that is a stopword |
| TokenizerRules.TermsOfBoth | src/rr_fts.c:90-110 | the terms of two texts with a space between are those of the one and then those of the other |
| TokenizerRules.TermsOfWord | src/rr_fts.c:94-110 | the term of a text of one word |
| TokenizerRules.CapitalsExample | src/rr_fts.c:97-101 | "The Enemy!" and "enemy" have the same one term when "the" is a stopword |
| Postings.AddTermAgrees | src/rr_fts.c:132-146 | one more occurrence filed keeps the index in agreement with the counted terms |
| Postings.BumpMeans | src/rr_fts.c:132-146 | a first occurrence puts the document at the head of the list; a further one changes only its own count |
| Postings.TermIsFiled | src/rr_fts.c:171-174 | where a term still counts in a document, both lookups of the deletion succeed |
| Postings.DropTermAgrees | src/rr_fts.c:175-177 | one occurrence less keeps the agreement; a posting goes with its last occurrence |
| Postings.PostingIff | src/rr_fts.c:19-22 | a posting is under a term iff its frequency is the positive count of the term in its document |
| Postings.LengthIsTfSum | src/rr_fts.c:150 | a document's number of terms is the sum of its frequencies over the index |
| Fts.Fts.AddTerm | src/rr_fts.c:123-147 | one round of the indexing loop |
| Fts.Fts.DelTerm | src/rr_fts.c:162-179 | one round of the unindexing loop; its assertions never fail |
| Fts.Fts.IndexAdd | src/rr_fts.c:116-153 | the document is filed under exactly its terms, and both lengths grow by their number |
| Fts.Fts.IndexDel | src/rr_fts.c:155-183 | no trace of the document is left in the index, and the total shrinks by its length |
| Fts.Fts.Add | src/rr_fts.c:206-221 | the document is stored, replacing one of the same title; the index is that of the new contents |
| Fts.Fts.Del | src/rr_fts.c:227-234 | true iff the title was stored; the index is that of the remaining documents |
| Fts.IndexIsBruteForce | src/rr_fts.c:116-183 | a valid index says of every term and document what tokenising the document says |
| Fts.LengthAddsUp | src/rr_fts.c:28-29 | a document's length field is the sum of its frequencies over the whole index |
| Fts.Run | src/rr_fts.c:206-234 | after any run of additions, replacements and deletions the stored documents are those of a finite map, the index is theirs, and the total is the sum of their lengths |
| FtsSearch.ScoreTerm | src/rr_fts.c:242-266 | each document with the term gets the term's weight once |
| FtsSearch.ScoreQuery | src/rr_fts.c:268-298 | exactly the documents hit by the distinct query terms are scored, each with the sum of the weights of the terms it has |
| FtsSearch.ScoreIsPlain | src/rr_fts.c:242-266 | the score read from the lists is the one counted in the documents: for each query term the number of documents with it, its count in the document, and the number of the document's terms |
| FtsSearch.FillHeap | src/rr_fts.c:333-343 | the heap holds every scored document once |
| FtsSearch.Search | src/rr_fts.c:333-352 | each stored document that shares a term with the query exactly once and no other, in non-increasing order of score, with the score counted in the documents |
| AdList.List.AddNodeHead | src/adlist.c:80-98 | the sequence with the value in front; links, ends and length consistent |
| AdList.List.AddNodeTail | src/adlist.c:106-124 | the sequence with the value at the end |
| AdList.List.InsertNode | src/adlist.c:126-153 | the value next to the given node, before or after |
| AdList.List.DelNode | src/adlist.c:159-172 | the sequence without that position, the other nodes in their order; the free method, if set, gets exactly that value |
| AdList.List.Rotate | src/adlist.c:328-341 | the last element first, the others after it |
| AdList.KeptMeans | src/adlist.c:207-232 | what is left and what is freed when nothing is deleted on the way, everything, or one element |
| AdList.ChangesMean | src/adlist.c:126-172 | deleting, inserting and rotating, from the parts of the sequence |
| AdList.List.Index | src/adlist.c:313-325 | the node at a position counted from the head, or from the tail for negative numbers; none out of range |
| AdList.List.SearchKey | src/adlist.c:285-306 | the first node whose value matches |
| AdList.List.Release | src/adlist.c:58-72 | the free method, if set, gets every value once, in order |
| AdList.Dup | src/adlist.c:242-274 | a new list with the duplicated values in order and the same free method, the original unchanged; if a duplicate is NULL, no list, and the duplicates made so far are released |
| AdList.Iter.Next | src/adlist.c:221-232 | the next node in the iterator's direction, or none |
| AdList.Sweep | src/adlist.c:207-232 | deleting any of the returned nodes on the way, an iteration from the head still visits every original element exactly once in order, leaves the others, and frees exactly the deleted values |
| AdList.SweepBack | src/adlist.c:207-232 | the same from the tail, in reverse |
| BgTask.StepKeepsInv | src/rr_bgtask.c:86-127 | every atomic step of a producer or the consumer keeps the invariant |
| BgTask.LockIffFree | src/rr_bgtask.c:123 | a producer gets the lock iff it is free |
| BgTask.EnqueuedIsSubmitted | src/rr_bgtask.c:117-127 | after any run, what has been enqueued is what the producers brought, in the order in which they got the lock, but for the last task while its producer has not appended it |
| BgTask.ExecutedInOrder | src/rr_bgtask.c:86-112 | in every reachable state the executed tasks are the first ones enqueued, in order, each once |
| BgTask.ExecutedWereSubmitted | src/rr_bgtask.c:86-127 | at any time the executed tasks are the first ones brought |
| BgTask.HeadStays | src/rr_bgtask.c:93-111 | the node being executed stays the head of the queue and is what the deletion removes |
| BgTask.WaitingMeansEmpty | src/rr_bgtask.c:89-92 | a waiting consumer, with no producer between append and signal, has an empty queue and everything executed |
| BgTask.InternalRunIsShort | src/rr_bgtask.c:86-112 | without new producers and spurious wake-ups only boundedly many steps follow |
| BgTask.StuckMeansDone | src/rr_bgtask.c:86-112 | they end only with every task executed, the lock free and the consumer waiting |
| BgTask.StuckRunExecutedAll | src/rr_bgtask.c:86-127 | a run that can go no further by itself has executed every task that the producers brought, in order, each once |

## Left out

- Allocation failure, logging, configuration, sockets, polling and signals: `read` and `write` are parameters that may return anything their types allow, and allocation succeeds.
- Robj.TryObjectEncoding: objects are values; reference counts of shared objects changing elsewhere, shared small integers as pointers, and aliasing are not captured.
- Robj.CompareStringObjects: the result of memcmp is its sign only; the collating variant depends on the locale and is not modelled.
- CritBitDict.Dict.Clear: free callbacks, here and of the linked list, are modelled as a log of the values they get, not as code that could run anything.
- CritBitIter.Iterator.Next: the iterator's stack is a sequence instead of a linked list; `AdList` models the list on its own.
- Replies.Output.Drain: the list of reply strings is a sequence, and the results of the writes are the parameter `results`; one client only, so clients freed in the middle of a walk over the global lists are not modelled.
- Replies.Output.AddMultiBulkLen: requires a length that is not negative, as every caller in the server passes.
- Replies.CountDigits: the negation of the least 64-bit integer, undefined in C, wraps as in two's complement.
- Sha1.Context.Update: what happens after the index wraps, when memcpy runs past the buffer, is the outcome false and not followed further.
- Sha1.Context.Final: requires a message of fewer than 2^64 bits, as FIPS 180-4 does; the wiping of the context afterwards is not modelled.
- RespClient.Serve: the command table, permissions and the `quit` command, which closes the client, are outside the model; commands are dispatched by appending them to a log.
- MinHeap.Heap.Push: comparators are assumed to be total preorders, which floating-point scores are except for NaN; `array_push_n` is not used by the heap and not modelled.
- FtsSearch.Search: the BM25 weight is an arbitrary real function of list length, frequency and document length; rounding and the logarithm are not modelled, and the result lists titles where the source lists pointers to the documents under these titles.
- Fts.Fts.Add: documents and index are finite maps keyed by titles and terms up to their first NUL, which is what the crit-bit dictionary is proved to be; the stopword list is a parameter, titles are string-encoded, and 32-bit counters do not overflow on texts below 512 MiB.
- Stemmer.Stemmer.StemInPlace: the buffer is an array of its own for each term, where the source works in the term's storage.
- AdList.List.Index: the least long, whose negation overflows in C, is treated as out of range like every other such index.
- AdList.Sweep: node values never change after a node is made, as in the list code itself.
- BgTask.ExecutedInOrder: one task type, as in the source; thread creation, cancellation and termination are not modelled, and what a task does is not either.
- Glob matching, random strings and the printing of floating-point numbers, which the modelled code does not use.
- Conformance of the whole stemmer to the published algorithm; only step 5a is compared.
