# Verification of the mptcore data paths

This project models six parts of `mptcore` in Dafny and proves what they are for.

- **COBS codec** (`Bytes`, `Cobs*`). The plain, tail-inline (/R), zero-pair (/ZPE) and combined variants of the
  streaming encoder and of the in-place decoder. `CobsFormat` is an automaton that reads one byte at a time and
  knows nothing of buffers or calls; encoder and decoder are both compared with it. `CobsTransfer` puts the
  encoder object, the buffer and the decoder object together.
- **Fragmented messages** (`Scatter`, `Messages`, `Arguments`). Reading, searching, copying and splitting over
  scatter lists, compared with the concatenated bytes.
- **Node forest** (`Nodes`, `Traverse`). Sibling lists with parent and child links, positional and named
  insertion, and level-order traversal by bounded climbing.
- **Paths and configuration** (`Paths`, `Config`). Packed paths as element lists, and the node tree they address
  as a finite map.
- **Commands and replies** (`Commands`, `Replies`). Unique ids with in-place compaction, handler tables with
  exactly one final null call, and the right to reply that moves between a context and its deferred copies.
- **Copy-on-write buffers** (`Buffers`). Counted buffers under arrays that clone, drop, extend and insert.

Code that changes state in place is a class or a method over arrays, proved against functions on values; what is
claimed over whole runs is proved about those functions, or by a method that performs any run on the objects.

Integers are unbounded; widths appear where the source depends on them (the packed decoder word, the byte that
caches a path length, reference counts, id ranges, result types of searches). Memory exhaustion is a parameter of
the operations that allocate. Answers of callbacks (send functions, traversal handlers) are parameters or functions
of the calls made so far. Addresses, on which the decoder's alignment depends, are parameters.

Where a promise does not hold the model follows the code and states when it does:

- An encoder call whose block ends exactly at the end of the buffer leaves a wrong state
  (`CobsEncode.Fill`, `CobsSize.ExactFillOccurs`); with room for the bound this does not occur
  (`CobsSize.RoomSuffices`).
- Terminating an empty message behind other messages sets `done` to 2 (`CobsEncode.Encoder.Finish`).
- Terminating a full vector in the tail variants writes behind it when the last byte is not inlined
  (`CobsEncode.Encoder.FinishTail`, `CobsSize.TailOverrun`).
- The decoder's alignment can use up the gap of a code that is held with nothing decoded
  (`CobsRoom.PlainProgress`, `CobsScatter.AlignmentStalls`); in the same way it can hide an input position
  behind the memory (`CobsScatter.Locate`).
- The Lua binding's reserve is too small for long messages without zeros (`CobsSize.ReserveSuffices`).
- A first text element longer than 255 bytes is cached with a truncated length (`Paths.Path.Add`).
- Reserving an id wraps to 0 if an entry holds the largest value of the id type (`Commands.Entered`).
- A failed send clears the top bit of an id that had it set (`ReplyRights.FailedSendKeeps`).
- Detaching a shared buffer to less than its data gives up the reference and fails
  (`Buffers.Buffer.Detach`); the array operations never ask for that.

## Model

| member | source | states |
|---|---|---|
| `CobsFormat.RunConcat` | mptcore/convert/decode_cobs.c:170-269 | the reading automaton, and so the format, does not depend on where the input is cut |
| `CobsEncoder.TakeCarries` | mptcore/convert/encode_cobs.c:145-166 | one step of the data loop (a byte, a zero, or a zero pair) adds exactly the bytes it takes to the message the encoded bytes stand for, for all four variants |
| `CobsEncoder.ChunkCarries` | mptcore/convert/encode_cobs.c:135-172 | a whole data call adds exactly its chunk to that message, whatever was encoded before |
| `CobsEncoder.InlineReads` | mptcore/convert/encode_cobs_r.c:44-57 | termination with the last byte inlined: the byte is never mistaken for a code |
| `CobsEncoder.RegularReads` | mptcore/convert/encode_cobs.c:83-88 | termination with the code of the open block |
| `CobsEncoder.TerminateReads` | mptcore/convert/encode_cobs_r.c:34-63 | after either termination the automaton has read exactly the message and stands at a message start |
| `CobsEncoder.StreamRoundTrip` | mptcore/convert/encode_cobs.c:47-181 | for every list of messages, each cut into any chunks, the encoded stream reads back as exactly those messages in order |
| `CobsEncoder.StreamReads` | mptcore/convert/encode_cobs.c:47-181 | the same for a whole stream from an empty buffer |
| `CobsEncode.PutZero` | mptcore/convert/encode_cobs_zpe.c:11-16 | the zero macro writes the block code in place, raised by 0xdf for a pair after 1 to 30 data bytes, and takes one or two input bytes as the step on values does |
| `CobsEncode.PutByte` | mptcore/convert/encode_cobs.c:150-165 | a data byte in place, closing a full block; it fails exactly when the block would end at the end of the vector; memory behind the vector is not touched |
| `CobsEncode.Fill` | mptcore/convert/encode_cobs.c:135-172 | the data loop: the bytes written stand for the bytes consumed exactly when no block ends at the end of the vector, and then it stops only at the end of the chunk or of the vector |
| `CobsEncode.Encoder.Push` | mptcore/convert/encode_cobs.c:126-181 | a data call on the saved `done` and `scratch`: when it lacks room (exactly), and otherwise the same statement about the new state |
| `CobsEncode.Encoder.Finish` | mptcore/convert/encode_cobs.c:66-94 | termination: when it lacks room (exactly); the result is the terminated stream if and only if a block is open or nothing was encoded before, because the empty message sets `done` to 2 |
| `CobsEncode.Encoder.FinishTail` | mptcore/convert/encode_cobs_r.c:34-63 | termination on the raw bytes: with code c and last byte b the block ends without a terminator of its own, as b, data, 0, if and only if c > 1, c < b and, with zero pairs, b <= 0xdf, and otherwise as c, data, last byte, 0; both refusals; exactly the byte behind a full vector is overwritten when nothing is inlined |
| `CobsEncode.TailBytes` | mptcore/convert/encode_cobs_r.c:44-57 | the bytes of both terminations: the last byte in front of the others, or the code in front of all |
| `CobsEncode.EndTail` | mptcore/convert/encode_cobs_r.c:43-63 | the same in place: refused exactly behind a full vector with nothing to inline, and no byte behind the end changes |
| `CobsEncode.Encoder.Encode` | mptcore/convert/encode_cobs.c:41-181 | one call of any of the four encoders on a vector inside memory: each error case exactly, data calls and termination, the bytes of the closed block in the tail variants, and what happens behind the vector |
| `CobsEncode.Encoder.Reset` | mptcore/convert/encode_cobs.c:41-46 | a call without a buffer clears the whole state |
| `CobsSize.SizeBound` | mptcore/convert/encode_cobs.c:135-181 | n bytes in any chunks take at most n + n/254 + 2 bytes, with zero pairs n + n/222 + 2 |
| `CobsSize.RoomSuffices` | mptcore/convert/encode_cobs.c:67-181 | a buffer of that size is never full and never meets the exact-fill branch, so one data call consumes everything and termination succeeds |
| `CobsSize.OneTerminator` | mptcore/convert/encode_cobs.c:77-88 | no zero byte before the terminator |
| `CobsSize.TailSavesOne` | mptcore/convert/encode_cobs_r.c:44-57 | tail inlining changes no data call, and the result is one byte shorter if and only if the last byte of the open block exceeds its code, with zero pairs up to 0xdf, and otherwise the regular one |
| `CobsSize.ShortWire` | mptcore/convert/encode_cobs_r.c:44-57 | the bytes sent for a message without zeros in one block: code, message, 0, or with inlining the last byte, the others, 0, with the condition on the last byte |
| `CobsSize.ZeroWire` | mptcore/convert/encode_cobs.c:145-148 | a zero behind a run of data closes its block with the length as code |
| `CobsSize.FullWire` | mptcore/convert/encode_cobs.c:150-165 | a full block has the largest code, 0xff or 0xdf |
| `CobsSize.PairExactly` | mptcore/convert/encode_cobs_zpe.c:11-16 | two zeros in one chunk are a pair if and only if there are 1 to 30 data bytes before them, with the bytes written in both cases |
| `CobsSize.NoZeroWire` | mptcore/convert/encode_cobs.c:150-165 | messages without zeros meet the plain bound exactly |
| `CobsSize.ReserveSuffices` | lua/mpt.c:40 | the space reserved by the Lua binding suffices for all messages of length n if and only if n/254 - n/255 <= 2 |
| `CobsSize.EncodeReserved` | lua/mpt.c:29-62 | the Lua encoder succeeds exactly for non-empty messages whose encoding fits the reserve, and then returns the encoding |
| `CobsSize.ExactFillOccurs` | mptcore/convert/encode_cobs.c:153-159 | the exact-fill branch is reached: any 254 non-zero bytes and 255 bytes of room |
| `CobsSize.TailOverrun` | mptcore/convert/encode_cobs_r.c:44-57 | three data bytes 1 fill a vector of four: the tail variants then report success and write the terminator behind it |
| `CobsSize.RegularRefuses` | mptcore/convert/encode_cobs.c:68-71 | on the same vector the regular termination asks for room |
| `CobsSize.PairAcrossChunks` | mptcore/convert/encode_cobs_zpe.c:11-16 | a zero pair cut by a chunk boundary takes one byte more than in one chunk |
| `CobsDecoder.LoopFollows` | mptcore/convert/decode_cobs.c:172-269 | in-place decoding follows the automaton over exactly the bytes consumed, leaves unread input and earlier data alone, and stops only for a message, for input, for room or for a zero inside a block |
| `CobsCall.TailFollows` | mptcore/convert/decode_cobs.c:304-334 | a zero inside a block is, in the tail variants, the end of the message whose last byte was read as a code |
| `CobsCall.CallCorrect` | mptcore/convert/decode_cobs.c:83-269 | one call from any saved state: the new state stands where the automaton does after the bytes consumed, with the message delimited by `pos` and `msg`, and `curr` behind its terminator |
| `CobsRun.DecodeInv` | mptcore/convert/decode_cobs.c:83-269 | a call keeps the invariant that consumed and unread bytes make up all bytes that arrived |
| `CobsRun.InsertInv` | examples/core/coding.c:57-62 | inserting bytes at `curr` and moving it behind them keeps the same invariant |
| `CobsRun.PlayInv` | mptcore/convert/decode_cobs.c:170-254 | every run of arrivals, insertions and calls keeps the invariant |
| `CobsRun.RunDelivers` | mptcore/convert/decode_cobs.c:83-269 | over every run, for every fragmentation, the messages returned are the first of the messages encoded, and all of those that are complete once the input is consumed |
| `CobsRoom.LoopMoves` | mptcore/convert/decode_cobs.c:187-264 | the loop gets past the next byte exactly if the gap covers what that byte needs |
| `CobsRoom.PlainCall` | mptcore/convert/decode_cobs.c:142-269 | without zero pairs a call never asks for room, and leaves the write position strictly behind the next unread byte |
| `CobsRoom.PlainRun` | mptcore/convert/decode_cobs.c:142-269 | the same over whole runs: every call returns a message or has consumed all input |
| `CobsRoom.ProgressExactly` | mptcore/convert/decode_cobs.c:187-264 | for all variants: a call with a held code and input consumes a byte if and only if the room left by the alignment covers what that byte needs |
| `CobsRoom.PlainProgress` | mptcore/convert/decode_cobs.c:113-141 | without zero pairs that fails exactly if the alignment takes the whole gap of a held code before a non-zero byte |
| `CobsRoom.OutputBound` | mptcore/convert/decode_cobs_zpe.c:5-6 | within a message the output outgrows the input by at most one byte for each zero pair |
| `CobsRoom.SpareStep` | mptcore/convert/decode_cobs.c:142-269 | from any state, within a message a call uses up at most one spare byte for each pair code it reads |
| `CobsRoom.SparePerPair` | mptcore/convert/decode_cobs_zpe.c:5-6 | a call that asks for room, from any state, has read more pair codes than there were spare bytes |
| `CobsRoom.PairCall` | mptcore/convert/decode_cobs.c:142-269 | with the spare bytes provided a call returns a message or has consumed all input, and the rest of the message still has its spare bytes |
| `CobsRoom.PairRun` | mptcore/convert/decode_cobs.c:142-269 | over whole runs of all variants: with a spare byte for each pair code of a message when its data starts, no call asks for room |
| `CobsRoom.SpareStart` | mptcore/convert/decode_cobs.c:83-86 | the invariant of that run holds at the start |
| `CobsRoom.PairWire` | mptcore/convert/encode_cobs_zpe.c:11-16 | the encoder makes n blocks of two bytes of n data bytes with a zero pair each |
| `CobsRoom.SpareExactly` | mptcore/convert/decode_cobs_zpe.c:5-6 | such a message decodes in one call with n spare bytes, and asks for room with fewer |
| `CobsRoom.PairsCounted` | mptcore/convert/decode_cobs.c:244-264 | n pair blocks are n pair codes |
| `CobsScatter.DataBlock` | mptcore/convert/decode_cobs.c:187-222 | the data loop over a scatter list computes the loop on the concatenated memory |
| `CobsScatter.ZeroRun` | mptcore/convert/decode_cobs.c:244-264 | the zero loop over a scatter list, likewise |
| `CobsScatter.Blocks` | mptcore/convert/decode_cobs.c:172-269 | all blocks up to the end of the message, of the input or of the room |
| `CobsScatter.AlignShift` | mptcore/convert/decode_cobs.c:113-141 | the alignment loop ends at the largest power of two up to 16 for which the part holds half of it and the gap the distance, and takes that distance |
| `CobsScatter.AlignLargest` | mptcore/convert/decode_cobs.c:113-141 | the shift belongs to the largest power of two up to 16 that passes both tests, or is none |
| `CobsScatter.Place` | mptcore/convert/decode_cobs.c:93-141 | the place of new data: behind the previous message, moved by the alignment; exactly when it fails |
| `CobsScatter.Locate` | mptcore/convert/decode_cobs.c:93-153 | both positions inside the scatter list; exactly when they are refused, and the one case in which an input position behind the memory is not noticed |
| `CobsScatter.Continue` | mptcore/convert/decode_cobs.c:169-269 | the blocks from a saved place on, and the state they leave |
| `CobsScatter.DecodeAt` | mptcore/convert/decode_cobs.c:83-270 | a call over any fragmentation is the call on the concatenated bytes; what it does with positions outside the memory |
| `CobsScatter.Decoder.Decode` | mptcore/convert/decode_cobs.c:62-270 | the call on the packed `(code, pos)` word, in place over the parts |
| `CobsScatter.Decoder.DecodeTail` | mptcore/convert/decode_cobs.c:304-334 | the tail-inline wrapper, in place over the parts |
| `CobsScatter.CallTail` | mptcore/convert/decode_cobs.c:304-334 | the tail wrapper of the regular call is the call of the tail variant |
| `CobsScatter.AlignmentStalls` | mptcore/convert/decode_cobs.c:127-139 | at an odd address, with the first code alone in the first call, no later call makes progress |
| `CobsReceive.GapLoop` | mptcore/convert/decode_cobs.c:187-269 | for all variants: the loop stops before the end of input only for zeros, and only with data decoded |
| `CobsReceive.ServedCall` | mptcore/convert/decode_cobs.c:83-269 | a call between messages, or after room was made, consumes input unless there is none |
| `CobsReceive.Receive` | examples/core/coding.c:47-70 | a caller that makes room of 8 bytes when asked gets exactly the messages, in order, for all four variants and any buffer addresses, and it ends |
| `CobsTransfer.SendChunk` | mptcore/convert/encode_cobs.c:95-181 | one chunk, with room: all of it is encoded; an empty chunk is refused without a change |
| `CobsTransfer.SendMessage` | examples/core/coding.c:36-45 | one message in any chunks, one call each, gives exactly its terminated encoding behind the earlier ones |
| `CobsTransfer.SendAll` | mptcore/convert/encode_cobs.c:47-181 | a stream of messages into a buffer of the sum of the bounds |
| `CobsTransfer.Transfer` | examples/core/coding.c:36-70 | round trip through encoder and decoder objects: for all four variants, all chunks and all messages that are not empty (the first one may be), what goes in comes out |
| `Scatter.GetByte` | mptcore/convert/decode_cobs.c:189-201 | reading a byte at a place in a scatter list, past empty parts, is indexing the concatenation |
| `Scatter.PutByte` | mptcore/convert/decode_cobs.c:215-220 | writing a byte at a place in a scatter list is updating the concatenation |
| `Messages.ReadFrom` | mptcore/message/message_read.c:26-57 | reading over parts consumes the first bytes of the concatenation and leaves the rest |
| `Messages.Message.Read` | mptcore/message/message_read.c:22-58 | the message after a read stands for the rest of its bytes |
| `Messages.Length` | mptcore/message/message_read.c:69-81 | the length of what is left |
| `Messages.MemFcn` | mptcore/message/memfcn.c:29-58 | the first accepted byte of the concatenation, or none; an overflow only beyond the result type |
| `Messages.MemRFcn` | mptcore/message/memfcn.c:72-100 | the last accepted byte of the concatenation |
| `Messages.MemChr` | mptcore/message/memchr.c:29-57 | the first occurrence of a byte |
| `Messages.MemRChr` | mptcore/message/memchr.c:66-90 | the last occurrence of a byte |
| `Messages.MemTok` | mptcore/message/memtok.c:35-120 | the token scan finds what it would find in one piece, escape state and previous byte carried across parts |
| `Messages.ScanPlain` | mptcore/message/memtok.c:94-103 | without escape characters the scan is the plain search |
| `Messages.ScanQuoted` | mptcore/message/memtok.c:60-74 | a scan inside an escape does not stop before the escape is closed |
| `Messages.ScanCloses` | mptcore/message/memtok.c:61-68 | behind the byte that closes an escape the scan goes on as from outside an escape |
| `Messages.ScanDecides` | mptcore/message/memtok.c:69-104 | outside an escape the first byte that opens one or is searched decides: an escape is entered, the position returned, or more data asked for |
| `Messages.ScanSkips` | mptcore/message/memtok.c:60-74 | a whole escaped section is passed |
| `Messages.CopyParts` | mptcore/message/memcpy.c:26-83 | the copy loop between scatter lists writes the first bytes of the source over the first bytes of the target and changes nothing else |
| `Messages.MemCpy` | mptcore/message/memcpy.c:26-83 | the checked copy: a positive length that either side lacks is refused without a change |
| `Arguments.NextArg` | mptcore/message/message_argv.c:14-30 | the length up to the first NUL of the concatenated rest, or all of it |
| `Arguments.Argv` | mptcore/message/message_argv.c:50-74 | the next argument, past empty parts, with the message otherwise unchanged |
| `Arguments.ArrayMessage` | mptcore/array/array_message.c:23-69 | for every fragmentation the array is the message with a final NUL ensured, and the count is the number of its NULs |
| `Arguments.ClosedIs` | mptcore/array/array_message.c:40-66 | the array form extends the message by at most one NUL, exactly when it does not end in one |
| `Arguments.SegLenIs` | mptcore/array/slice_next.c:71-78 | a segment ends with its first NUL or at the end of the array |
| `Arguments.Slice.Next` | mptcore/array/slice_next.c:25-79 | one step of a character slice: the next segment, the end, or missing data |
| `Arguments.Walk` | mptcore/array/slice_next.c:25-79 | stepping a slice through an array yields exactly its segments |
| `Arguments.SegmentsCover` | mptcore/array/slice_next.c:71-78 | the segments are consecutive pieces of the whole array |
| `Arguments.SegmentsAreArguments` | mptcore/array/array_message.c:40-66 | every segment of an argument array is one NUL-terminated argument, and there are as many as were counted |
| `Paths.NextPacked` | mptcore/config/path_next.c:29-45 | consuming the first element of a packed path leaves the packed form of the others, in text and in binary form |
| `Paths.Path.Next` | mptcore/config/path_next.c:16-46 | the first element is returned and removed, or missing data is reported |
| `Paths.AddText` | mptcore/config/path_add.c:60-91 | in text form the added element belongs to the path if and only if its cached length, truncated to a byte when it is the first, is right |
| `Paths.Path.Add` | mptcore/config/path_add.c:19-92 | exactly when an element is refused, and exactly when the path then holds it, in text and in binary form |
| `Paths.Path.Del` | mptcore/config/path_del.c:17-72 | the last element is removed, in text and in binary form |
| `Paths.SplitText` | mptcore/config/path_set.c:34-47 | splitting at separators is the inverse of the packed text form |
| `Paths.SetPath` | mptcore/config/path_set.c:19-60 | a path set from a string holds the elements before the assign character; the count returned leaves out an element at the end of the string |
| `Paths.Iterate` | mptcore/config/path_next.c:16-46 | iterating over a copy of a path yields exactly its elements |
| `Paths.Play` | mptcore/config/path_add.c:19-92 | after any run of add and delete, with elements of at most 255 bytes, iteration yields the element list of the sequence model |
| `Nodes.Pos` | mptcore/node/gnode_pos.c:13-39 | the node at a position relative to a node, or the last one |
| `Nodes.After` | mptcore/node/gnode_after.c:9-31 | the list with the node behind the position, all links consistent |
| `Nodes.InsertAfter` | mptcore/node/gnode_after.c:9-31 | the same with null nodes and a position equal to the node, where nothing changes |
| `Nodes.Before` | mptcore/node/gnode_before.c:9-33 | the list with the node before the position, all links consistent, including the child link of the parent |
| `Nodes.InsertBefore` | mptcore/node/gnode_before.c:9-33 | the same with null nodes and a position equal to the node, where nothing changes |
| `Nodes.Unlink` | mptcore/node/node_unlink.c:16-39 | the list without the node, all links consistent; the node has no links left |
| `Nodes.RemoveChild` | mptcore/node/node_unlink.c:16-39 | the same within a forest: it stays well-linked, and no other child list changes |
| `Nodes.InsertAndRemove` | mptcore/node/node_unlink.c:16-39 | unlinking an inserted node restores every child list of the forest, with all links |
| `Nodes.Locate` | mptcore/node/node_locate.c:27-118 | the n-th match forwards, backwards or from the end, with the number of matches before it, or none exactly if there are too few |
| `Nodes.GetNode` | mptcore/node/node_insert.c:46-50 | selection by position or among equal identifiers, with the exact condition for success |
| `Nodes.Candidate` | mptcore/node/node_insert.c:21-37 | the search from the first or last match, with its fallback, ends at a match next to the slot |
| `Nodes.Choose` | mptcore/node/node_insert.c:14-44 | the neighbour and the side of a new node give the slot of its rank |
| `Nodes.InsertNode` | mptcore/node/node_insert.c:14-72 | insertion at the slot keeps all links consistent |
| `Nodes.SlotByPosition` | mptcore/node/node_insert.c:52-61 | by position the index is min(pos - 1, n), n for 0, and max(n + pos, 0) for negative positions |
| `Nodes.SlotByName` | mptcore/node/node_insert.c:63-72 | by name min(pos - 1, n), n or max(n + pos, 0) of the n equal identifiers precede the new node, which goes directly before or behind one of them, each exactly when, or to the end of the list if there is none |
| `Nodes.LinkChild` | mptcore/node/node_insert.c:75-106 | insertion below a parent with or without children |
| `Nodes.InsertChild` | mptcore/node/node_insert.c:75-106 | the same within a forest: it stays well-linked, and no other child list changes |
| `Nodes.InsertChildAt` | mptcore/node/node_insert.c:75-89 | the new child list for every position: behind all for 0 and beyond the end, before the child of a positive position, counted from the end for negative ones |
| `Nodes.InsertChildNamed` | mptcore/node/node_insert.c:92-106 | the new child list by name: how many equal identifiers precede the node, and which one is its neighbour |
| `Levels.LevelHasDescent` | mptcore/node/gnode_level.c:10-36 | every node of a level is reached by a descent of that length |
| `Levels.DescentHasLevel` | mptcore/node/gnode_level.c:10-36 | the end of every descent is on the level of its length |
| `Levels.LevelsApart` | mptcore/node/gnode_traverse.c:76-99 | no node is on two levels |
| `Levels.LevelNoDup` | mptcore/node/gnode_traverse.c:76-99 | no node is twice on a level |
| `Levels.LevelOrderVisits` | mptcore/node/gnode_traverse.c:76-99 | the visits of all levels are, once each and by increasing depth, the nodes that can be reached and that the flags show |
| `Traverse.SameLevel` | mptcore/node/gnode_level.c:10-25 | climbing at most `up` parents finds exactly the successor on the level below the start list |
| `Traverse.SubLevel` | mptcore/node/gnode_level.c:27-36 | the first node of the next level |
| `Traverse.TraverseTier` | mptcore/node/gnode_traverse.c:81-94 | one level is visited in order, up to the first non-zero answer |
| `Traverse.TraverseLevel` | mptcore/node/gnode_traverse.c:76-99 | level order: the calls are the visits of all levels up to the first non-zero answer, whose node is returned; it ends |
| `Traverse.TraversalVisits` | mptcore/node/gnode_traverse.c:76-99 | what a complete traversal of a well-linked acyclic forest visits: every shown node below the start list, once, with its distance as depth |
| `ConfigTree.OnePath` | mptcore/config/node_query.c:30-69 | a node of the tree has one path |
| `ConfigTree.GrowWellFormed` | mptcore/config/node_assign.c:45-68 | a new node for a missing element keeps sibling names unique and every node in one list |
| `ConfigTree.GrowFind` | mptcore/config/node_assign.c:45-68 | a new node adds exactly one path |
| `ConfigTree.ExtendMore` | mptcore/config/node_assign.c:45-73 | the new nodes on the way change nothing but the missing prefixes |
| `ConfigTree.StoreAssigns` | mptcore/config/node_assign.c:29-38 | storing a value changes the value of its path alone |
| `Config.Located` | mptcore/node/node_locate.c:96-118 | locating by name in the linked list is picking the one node of that name |
| `Config.Descend` | mptcore/config/node_query.c:50-64 | one element of a query on the linked nodes |
| `Config.Query` | mptcore/config/node_query.c:30-69 | the longest prefix of a text path that has a node, and the path of the other elements |
| `Config.Attach` | mptcore/config/node_assign.c:57-63 | the linked nodes with the new one represent the grown tree |
| `Config.Extend` | mptcore/config/node_assign.c:45-63 | one missing element; refused exactly if its name is too long for an identifier |
| `Config.Create` | mptcore/config/node_assign.c:44-74 | all missing elements, up to the first name that is too long |
| `Config.AssignTo` | mptcore/config/node_assign.c:21-79 | the outcome of an assignment on the linked nodes |
| `Config.OutcomeValues` | mptcore/config/node_assign.c:29-67 | after success a path has the value assigned, old or new; without value a new path has none and an old one the default; of the other paths only missing prefixes change, to nodes without value |
| `Config.Root.Assign` | mptcore/config/node_assign.c:21-79 | after success the path has the value assigned, whether it existed or not, missing prefixes have nodes without value, and every other path is as before; after failure there are only such nodes; all links stay consistent |
| `Config.Root.Get` | mptcore/config/node_query.c:30-69 | a complete query gives the value of the path |
| `ConfigRun.AssignRefines` | mptcore/config/node_assign.c:21-79 | an assignment refines an update of a finite map, and succeeds exactly if the path is not empty and all names fit |
| `ConfigRun.LastKept` | mptcore/config/node_assign.c:21-79 | over any run the map keeps the value assigned last to a usable path |
| `ConfigRun.Play` | mptcore/config/node_assign.c:21-79 | after any run of assignments to text paths a query gives what the finite map holds, and the value v if the last assignment to a usable path was v |
| `ReplyRights.SendOpen` | mptcore/event/reply_deferrable.c:35-66 | sending a right makes at most one call, for its own id; the right is gone or still open |
| `ReplyRights.SendExactly` | mptcore/event/reply_deferrable.c:35-66 | all cases: refused without id, dropped without send function, kept without target, and otherwise exactly one call with the first byte modulo 0x80 plus 0x80; the id is gone if and only if the answer is not negative |
| `ReplyRights.ReplySent` | mptcore/event/reply_deferrable.c:139-143 | a reply on an open right adds exactly that call to the log |
| `ReplyRights.LateSent` | mptcore/event/reply_deferrable.c:123-137 | so does a deferred copy, which stays if and only if the answer is negative and there was a message |
| `ReplyRights.UnrefSent` | mptcore/event/reply_deferrable.c:75-87 | so does the last owner that lets go; an earlier one calls nothing and switches sending off |
| `ReplyRights.StepInv` | mptcore/event/reply_deferrable.c:35-176 | every step keeps: one holder for each accepted id, no call after a successful one, and a count of owners plus deferred copies |
| `ReplyRights.RunInv` | mptcore/event/reply_deferrable.c:35-176 | every run keeps it |
| `ReplyRights.AnsweredOnce` | mptcore/event/reply_deferrable.c:35-176 | over every run each accepted id is answered successfully at most once, with its own bytes and the reply flag |
| `ReplyRights.HeldOnce` | mptcore/event/reply_deferrable.c:123-176 | over every run no id has two holders, no answered id has one, and the context lives while a deferred copy does |
| `ReplyRights.FailedSendKeeps` | mptcore/event/reply_deferrable.c:56-64 | a failed send leaves the id as it was if and only if its flag bit was not set before |
| `Replies.ReplyData.Put` | mptcore/event/reply_set.c:21-34 | an id, or zeros without data, is stored unless it is too long |
| `Replies.Context.Send` | mptcore/event/reply_deferrable.c:35-66 | the send step on the stored bytes, and literally: the bytes handed to the send function and the one call it gets for an open id |
| `Replies.Context.AddRef` | mptcore/misc/refcount.c:15-21 | the count is raised by one unless it is 0 or at its maximum, exactly |
| `RefCounts.RaiseIs` | mptcore/misc/refcount.c:15-35 | raising and lowering a count, with its refusals and without wrapping |
| `Replies.Context.Unref` | mptcore/event/reply_deferrable.c:75-88 | an owner lets go: the others cannot send any more, and the last one hands exactly the flagged id to the send function if one is open |
| `Replies.Context.Detach` | mptcore/event/reply_deferrable.c:67-73 | a deferred copy lets go |
| `Replies.Context.Defer` | mptcore/event/reply_deferrable.c:144-176 | the id moves to a deferred copy, exactly when there is one, the count can be raised and there is memory |
| `Replies.Deferred.Reply` | mptcore/event/reply_deferrable.c:123-138 | the late reply with exactly the flagged id; the copy is gone unless a message could not be sent |
| `Replies.Do` | mptcore/event/reply_deferrable.c:35-176 | one event on the objects is the step of the system |
| `Replies.Play` | mptcore/event/reply_deferrable.c:35-176 | over every run the objects do what the system does, and nothing is used after it was freed |
| `Compaction.Compact` | mptcore/event/command_reserve.c:106-136 | in-place compaction keeps exactly the active entries, in order, and the highest id of all entries is found on the way |
| `Compaction.FilterConcat` | mptcore/event/command_reserve.c:106-136 | compaction of a table is that of its parts, one behind the other |
| `Compaction.ArrayCompact` | mptcore/array/array_compact.c:20-50 | the same for pointers |
| `CommandTables.ChangeLookup` | mptcore/event/command_set.c:31-63 | replacing an entry changes what is registered for its old and its new id alone |
| `CommandTables.FilterKeeps` | mptcore/event/command_reserve.c:106-136 | compaction loses no registration |
| `Commands.Find` | mptcore/event/command_get.c:73-82 | the active entry of an id, or none exactly if the id is free |
| `Commands.Empty` | mptcore/event/command_get.c:50-59 | the first unused entry |
| `Commands.MaxIdIs` | mptcore/event/command_reserve.c:79-92 | k bytes give the ids up to 2^(8k-1) - 1 |
| `Commands.FreeId` | mptcore/event/command_reserve.c:140-150 | the lowest free id, or none |
| `Commands.ChooseId` | mptcore/event/command_reserve.c:138-151 | the new id is the successor of the highest id of all entries while that is in the range, then the lowest id that is not active, and missing exactly if every id is active, unless the highest id wraps around to 0 |
| `Commands.NewIdFree` | mptcore/event/command_reserve.c:138-151 | unless it wrapped around a new id is in the range and not active |
| `Commands.TakesNew` | mptcore/event/command_reserve.c:138-161 | what the new entry holds: the log handler, its own id as argument, and the id chosen |
| `Commands.Entered` | mptcore/event/command_reserve.c:138-161 | the new entry keeps ids unique if and only if the highest id did not wrap around to an active 0 |
| `Commands.Table.Register` | mptcore/event/command_set.c:26-69 | only the id given is affected; a handler that was there gets its null call; nothing registered is lost, also when the table grows |
| `Commands.Table.Reserve` | mptcore/event/command_reserve.c:71-161 | the compacted table with a new entry behind it, whose id is the successor of the highest one or the lowest free one; on a raw table with memory it fails only if every id is active |
| `Commands.Table.Release` | mptio/stream/stream_sync.c:104-108 | an answered command is switched off |
| `Commands.Table.Clear` | mptcore/event/command_get.c:19-37 | every active handler gets its null call, and the table is empty |
| `Commands.Dispatch.Set` | mptcore/event/dispatch_set.c:21-43 | registration for a free id or removal of a used one, exactly; anything else is refused |
| `Commands.Dispatch.Fini` | mptcore/event/dispatch_finit.c:92-110 | the null calls made are exactly the pairs ever registered |
| `Commands.RegistersValues` | mptcore/event/command_get.c:19-37 | the active pairs of a table are the values of the map it stands for |
| `Commands.Apply` | mptcore/event/dispatch_set.c:21-43 | one register, replace, remove or close: its answer, its null calls and the table it leaves are those of a map of handlers, with unique ids |
| `Commands.FinalisedOnce` | mptcore/event/dispatch_finit.c:92-110 | over every run each registered pair is active or had its null call, and after a close each had exactly one |
| `Commands.PlayDispatch` | mptcore/event/command_set.c:26-69 | over every run of register, replace, remove and close the answers, null calls and tables are those of the map step by step; when it ends with a close the null calls are exactly the pairs that were registered |
| `Commands.PlayIds` | mptcore/event/command_reserve.c:71-161 | over every run of reserve and release: each id handed out is in the range and not in use, and with memory it fails only if all are |
| `Buffers.Buffer.Detach` | mptcore/array/buffer_alloc.c:92-166 | the same buffer if it is private and large enough, or a private copy, or the moved data; a copy that does not fit fails after the reference is given up, exactly then |
| `Buffers.Buffer.Insert` | mptcore/array/buffer_insert.c:27-88 | the data with a gap, behind zeros if need be; refused exactly if it does not fit |
| `Buffers.PaddedIs` | mptcore/array/buffer_insert.c:27-88 | data extended by zeros: the length and every byte |
| `Buffers.Buffer.Unref` | mptcore/array/buffer_alloc.c:59-79 | a reference less, freed with the last one |
| `Arrays.Private` | mptcore/array/buffer_alloc.c:92-166 | the array has a private buffer with its data; counts are right again, and no other array changes |
| `Arrays.Insert` | mptcore/array/array_insert.c:25-63 | the array is the sequence-level insert; counts stay right, and no other array changes |
| `Arrays.Slice` | mptcore/array/array_slice.c:25-95 | the array is extended by zeros, and private; counts stay right, and no other array changes |
| `Arrays.Clone` | mptcore/array/array_clone.c:25-52 | the array shares the other buffer and lets go of its own, or fails at the largest count; counts stay right, and no content changes but its own |
| `Arrays.Rebind` | mptcore/array/array_clone.c:43-51 | the array takes a buffer that counts it already |
| `ArrayRun.Do` | mptcore/array/array_insert.c:25-63 | one operation on arrays that may share buffers is the operation on one of separate sequences; it fails only for its arguments or for lack of memory, and then changes nothing |
| `ArrayRun.Play` | mptcore/array/array_clone.c:25-52 | after any run of copy, drop, overwrite and insert, failed ones included, each array holds what its own sequence would |

## Left out

- The encoder's message deletion (a chunk without data) and the decoder's peek mode, size query and reset: they take part in no round trip.
- `mpt_array_push` and other growth drivers of the encoder; the Python codec, which treats full blocks differently.
- CobsEncode.Encoder.FinishTail: the memory that the source writes is there, also behind the vector.
- CobsEncode.Encoder.Encode: the same for the tail variants.
- CobsScatter.Decoder.Decode: peek mode, size query and reset are not modelled.
- CobsTransfer.SendMessage: empty messages behind others are excluded, as the empty-message branch does not encode them there.
- CobsTransfer.SendAll: the same.
- CobsTransfer.Transfer: the same.
- Messages.Message.Read: the target buffer is a returned sequence.
- Messages.MemTok: comment characters are not modelled; NUL is no escape character, as the source takes it from a C string.
- Messages.CopyParts: source and target parts do not overlap, as `memcpy` demands.
- Messages.MemCpy: the same.
- Arguments.Argv: separator 0 only; messages shorter than the largest result value. Whitespace separators treat fragments differently.
- Arguments.NextArg: the same.
- Arguments.ArrayMessage: the target array is a returned sequence that starts empty.
- Paths.Path.Add: paths with offset 0, as the source ignores the offset.
- Paths.Path.Del: the same.
- Nodes.Locate: identifiers that are compared by address instead of content are not modelled.
- Traverse.TraverseLevel: the handler does not change the forest, whose acyclicity is given by a rank. In-, pre- and post-order are plain recursions and would only add easier members.
- Config.Query: text paths only; in binary form the cached length is not restored when an element is missing.
- Config.Root.Assign: values are opaque, so metatypes that take a new value themselves are not modelled; the tree is a list without parent.
- Paths.SetPath: a null string, which gives an empty path, is not modelled.
- Commands.Table.Register: capacity rounding is not modelled, only whether memory is there when the table grows.
- Commands.Dispatch.Fini: the fallback reply context is not modelled.
- Arrays.Insert: raw buffers without user flags; positions up to LONG_MAX.
- Arrays.Slice: raw buffers without user flags.
- Arrays.Clone: cloning from an array without buffer is excluded for a target that has one, where the source uses a null pointer.
- `mpt_array_append` and `mpt_slice_write` on shared buffers: they do not consult the shared flag, so isolation is not claimed for them.
- Node relinking, switching, moving and tree cloning; event emission and hashing; parsers, queues, number conversion, layout and plot objects.
- Sockets, streams, notification, logging, environment, files and language bindings other than the Lua encoder: input, output and foreign calls.
