# Verification model of the Etherbone and SDB code

A Dafny model of four parts of the repository, with proofs of what they promise.

**Etherbone master files** (`pcie-wb/wishbone.c`). A user writes a probe and then records into an 8192-byte ring
whose three positions are kept modulo 16384; every whole record is executed on the Wishbone bus and rewritten in
place into a reply of the same length. `Etherbone.dfy` says what a byte stream means, record by record, without any
ring: the bus commands it causes (`RecordCmds`) and the bytes it is answered with (`RecordReply`, `Master`).
`MasterEngine.dfy` is the ring, as an array in a class whose ghost fields are the unbounded streams; its methods follow
`etherbone_master_process` and the file operations loop by loop. `MasterSession.dfy` composes them over any sequence of
calls. `RecordMeaning.dfy` says in bytes and bits what each record does, `MasterMemory.dfy` what that makes of a memory
behind the bus. `ExclusiveCycles.dfy` interleaves any number of contexts on one device, one bus command per step, with
the mutex of `wb_cycle` as a guard.

**Etherbone slave files** (same source file). `SlaveSpec.dfy` gives the input side byte by byte and the meaning of
a reply record; `SlaveFile.dfy` says what every call on an open file does and returns (`Serve`), and what a script of
calls does (`Play`); `SlaveEngine.dfy` is the class with both buffers, each method proved equal to its step;
`SlaveSession.dfy` covers the life of an open file and what follows for its user, `SlaveMeaning.dfy` says in numbers what
its calls return and what the hardware is told, `ClosedLoop.dfy` passes its requests through a master and back.

**SDB trees** (`sdbfs/lib`, `sdbfs/userspace/gensdbfs.c`; SDB specification 1.1, sections 4.2, 4.3, 4.4.1, 4.4.3 and
5.4). `Sdb.dfy` defines the preorder walk by recursion; `SdbScan.dfy` is the scanner with its three stacks, opening
and reading; `SdbTables.dfy` says in bytes what is a table and what a bridge adds to the walk, `SdbVersion.dfy` is about
the format version, `WordSwap.dfy` is the word-oriented bridge. `GenSdbfs.dfy` allocates a tree, `GenImage.dfy` writes
it, `GenPlaces.dfy` says where every entry starts, `GenRecords.dfy` what every byte of a record is and where it is
written, `GenLayout.dfy` proves the layout sound, `GenFit.dfy` says exactly when it is, `RoundTrip.dfy` and
`FileRoundTrip.dfy` join builder and reader.

**Windowed bus access** (`pcie-wb/pcie_wb.c`) is `PcieWindow.dfy`: cached window register, byte lanes, and a card that
sees narrow accesses at window offsets. `FlatDevice` is the flat device they amount to; it is one of the devices the
master theorems quantify over. `PcieMasks.dfy` says which masks are taken and which bytes they select. `DeviceList.dfy`
is the list of registered bridges and their minor numbers, `DeviceSession.dfy` any sequence of calls on it.

The modules named Meaning, Memory, Masks, Tables, Places and GenRecords state results in bytes and numbers, and hold
the specification functions against them.

Conventions. A device is a function from the bus history of one context to the word it drives, so a theorem about all
devices covers every behaviour of the hardware, including what other contexts do between two cycles. Hardware queues,
file contents, memory contents and the kernel's consent are parameters. Unsigned fields wrap where the source's do.
What lies outside the software is a stub that says no more than it must: `MasterEngine.Bus` logs commands and asks the
device, `SlaveEngine.Hardware` is a queue of requests and a log of replies, `PcieWindow.Card` turns an access at window
offset `o` into one at `window + o` with the byte lanes it covers.

## Where code and text differ

The model follows the code.

- `docs/specification/sdb.tex:801` demands that enumeration stops at an unknown format version; `scan_newdir` does not
  look at the version (`sdbfs/lib/glue.c:103-120`). `VersionIgnored` says so for every record and every version: a table
  is entered if and only if its type and magic number are right. `AnyVersionIsScanned` carries it to whole images,
  `UnknownVersionIsScanned` gives, for every image and every other version, an image that is scanned all the same.
- `docs/specification/sdb.tex:930` gives 0x01 as the type of a bridge; its table, the header and the code use 0x02.
- `sdbfs/doc/sdbfs.in:240-241` promises `NULL` after the last file. With a record count of zero the signed
  count becomes -1 and the scan goes on for ever. `EndsExactly` and `ScanTimes` are exact about this: it ends
  if and only if no such table is entered; `ScansForEver` has an image that is.
- `pcie-wb/wishbone.h:86` orders the positions `sent <= processed <= received`. That holds of the unbounded counters; of
  the stored positions under the exact condition of `StoredOrder`, and not on the file of `OrderBreaks`.
- The comment "answer any requests pending" at `pcie-wb/wishbone.c:546` fails for 2^31 and more outstanding requests,
  because the count is read as a signed integer: `RepliesComplete` has the exact condition, `ReleaseMisses` a script.
- `alloc_storage` takes a subdirectory's last address for its size (`sdbfs/userspace/gensdbfs.c:382-384`), which can be
  less than it uses; what saves the next entry is the rounding to blocks. `DisjointExactly` and `DisjointIfFits` say
  exactly when it does, for trees of any depth. `SubdirectoryOverlap` (one byte short) and `NestedOverlap` (two bytes,
  two levels) are trees in which two files share an address.
- The master answers a probe with 0x12 (`pcie-wb/wishbone.c:129`); the slave wants the low three bits to be 6
  (`pcie-wb/wishbone.c:627`). `MasterProbeReplyRefused` states this; the loop is closed on records.
- Read requests without all byte lanes are echoed with their mask, and the echo is refused
  (`pcie-wb/wishbone.c:250`, `310`). `RequestAnswered` is an equivalence and contains this case.

## Model

| member | source | states |
|---|---|---|
| Bytes.DecodeEncode | pcie-wb/wishbone.c:93-112 | Reading a big-endian word back from the four bytes it was stored into gives the word, for all 2^32 words. |
| Records.FoldAppend | pcie-wb/wishbone.c:143-155 | Feeding whole records of `a + b` to any machine is feeding those of `a`, then those of what `a` left over followed by `b`: record parsing does not see where one write call ends. |
| Records.FoldStops | pcie-wb/wishbone.c:143-155 | Parsing stops only in front of a record that is not whole yet. |
| Records.FoldLength | pcie-wb/wishbone.c:143-227 | A machine that answers each record with as many bytes as it has answers a stream byte for byte, in whole words. |
| Records.DividePadded | pcie-wb/wishbone.c:174-177 | Erased words followed by a record parse as that many empty records and the record. |
| Etherbone.RecordReply | pcie-wb/wishbone.c:143-227 | The reply to a record has exactly the length of the record, for all counts and flags. |
| Etherbone.RunLength | pcie-wb/wishbone.c:143-229 | Every byte consumed is answered by one byte, in whole words. |
| Etherbone.MasterLength | pcie-wb/wishbone.c:114-230 | The same for the whole stream with its probe; nothing is consumed before eight bytes are there. |
| Etherbone.MasterAppend | pcie-wb/wishbone.c:114-230 | Executing a stream in two parts has the answers and the bus trace of executing it at once. |
| Etherbone.MasterMonotone | pcie-wb/wishbone.c:114-230 | Further input never changes bytes already answered or commands already issued. |
| Etherbone.MasterTail | pcie-wb/wishbone.c:143-155 | What stays unanswered is less than a probe or one record: at most 2051 bytes. |
| Etherbone.BusIgnoresAnswers | pcie-wb/wishbone.c:143-227 | Which commands are issued, and how many bytes are answered, does not depend on what any device answers. |
| Etherbone.CarrierIsRecord | pcie-wb/wishbone.c:194-221 | The part of a reply that carries the read values is one whole record with the request's byte enables, as many writes as there were reads, and no reads. |
| Etherbone.ReplyShape | pcie-wb/wishbone.c:164-221 | A reply divides into wcount + 1 empty records (none for wcount = 0) and one write record of rcount words, and nothing else. |
| Etherbone.AnswerWord | pcie-wb/wishbone.c:201-218 | Word k of the answers is what the device drives right after the k-th read, given everything that happened on the bus before. |
| Bytes.MaskIsModulo | pcie-wb/wishbone.h:74-75 | The bitwise conjunction with a mask of n low bits is the remainder modulo 2^n, for every n. |
| MasterEngine.RingIndexIsModulo | pcie-wb/wishbone.h:74 | The position masked with 8191 is the position modulo 8192. |
| MasterEngine.RingPosIsModulo | pcie-wb/wishbone.h:75 | The position masked with 16383 is the position modulo 16384, also for a difference that was negative and wrapped as an unsigned int before the mask. |
| MasterEngine.WordInRing | pcie-wb/wishbone.c:140-155 | A word at an aligned position never straddles the ring end. |
| MasterEngine.PositionsAgree | pcie-wb/wishbone.h:109-111 | For counters at most a ring apart, the masked differences that give the read, unprocessed and writable lengths are exact. |
| MasterEngine.PositionAdvances | pcie-wb/wishbone.c:229 | Advancing a stored position and masking it is the position of the advanced counter. |
| MasterEngine.HoldsPut | pcie-wb/wishbone.c:104-112 | Storing a word in the ring changes the stream the ring holds in that word and nowhere else. |
| MasterEngine.HoldsWord | pcie-wb/wishbone.c:93-102 | Loading a word from the ring gives the stream's bytes. |
| MasterEngine.HoldsWrapped | pcie-wb/wishbone.c:391-398 | Bytes copied out in one or two pieces are the next bytes of the stream. |
| MasterEngine.HoldsCopied | pcie-wb/wishbone.c:429-436 | Bytes copied in, in one or two pieces, extend the stream and overwrite nothing that is still held. |
| MasterEngine.Advance | pcie-wb/wishbone.c:172-189 | The running base address is the first one plus four times the words written, modulo 2^32, or unchanged for a FIFO; `RecordMeaning.CommandWrites` says so of every word of a record. |
| MasterEngine.MasterContinues | pcie-wb/wishbone.c:114-230 | What one processing call adds is the meaning of the unprocessed part, started where the previous call stopped. |
| MasterEngine.MasterContext.constructor | pcie-wb/wishbone.c:341-360 | A new context holds nothing and represents the empty stream. |
| MasterEngine.MasterContext.Erase | pcie-wb/wishbone.c:175-182 | Erasing one more word turns the rewritten prefix into one more zero word and leaves the rest of the stream alone. |
| MasterEngine.MasterContext.WriteOne | pcie-wb/wishbone.c:179-191 | Data word k reaches the bus at its address with its original value, although the word before it is erased first; a configuration write reaches no bus. Its address in numbers is `RecordMeaning.CommandWrites`. |
| MasterEngine.MasterContext.Writes | pcie-wb/wishbone.c:164-192 | The write part puts exactly the record's writes on the bus, in order, and erases exactly its own words but the last. |
| MasterEngine.MasterContext.WritePart | pcie-wb/wishbone.c:164-192 | The same including records without writes; the cursor ends where the reply header belongs. |
| MasterEngine.MasterContext.PutHeader | pcie-wb/wishbone.c:194-206 | The reply header goes over the last word of the request's write part; cycle, FIFO and configuration flags are carried over to their reply positions. |
| MasterEngine.MasterContext.ReadOne | pcie-wb/wishbone.c:208-218 | A read address is replaced by what the device answers to that very address. |
| MasterEngine.MasterContext.Reads | pcie-wb/wishbone.c:201-218 | All read addresses are replaced by their answers, in order. |
| MasterEngine.MasterContext.ReadPart | pcie-wb/wishbone.c:194-221 | Header, untouched return address and answers together are the carrier record. |
| MasterEngine.MasterContext.Execute | pcie-wb/wishbone.c:143-227 | One iteration: the record becomes its reply in place and no other byte of the ring changes; the bus sees exactly the record's commands; the cursor advances by the record's length; the state follows the cycle flag. |
| MasterEngine.MasterContext.Records | pcie-wb/wishbone.c:140-227 | The loop over whole records computes the pure run of the unprocessed stream: replies, bus, state and bytes left over. |
| MasterEngine.MasterContext.ProcessRecords | pcie-wb/wishbone.c:136-229 | The same with the stored positions. |
| MasterEngine.MasterContext.Probe | pcie-wb/wishbone.c:121-134 | The probe answer replaces the first four bytes and echoes the identifier. |
| MasterEngine.MasterContext.Process | pcie-wb/wishbone.c:114-230 | After processing, ring, state and bus are what the whole accepted byte stream means. |
| MasterEngine.MasterContext.CopyOut | pcie-wb/wishbone.c:390-399 | Exactly the next bytes of the stream are delivered, across the ring end if need be. |
| MasterEngine.MasterContext.Read | pcie-wb/wishbone.c:375-411 | Delivers as many of the answered, undelivered bytes as there is room for, no more and no less; what was ever delivered is a prefix of the answers to what was ever accepted. |
| MasterEngine.MasterContext.CopyIn | pcie-wb/wishbone.c:428-437 | The new bytes are appended to the stream, across the ring end if need be. |
| MasterEngine.MasterContext.Write | pcie-wb/wishbone.c:413-452 | Accepts exactly as much as the ring has room for and executes what became complete; delivered bytes are not touched. |
| MasterEngine.MasterContext.Release | pcie-wb/wishbone.c:362-373 | A cycle left open by the accepted input, and no other, is closed. |
| MasterSession.ServeKeepsSound | pcie-wb/wishbone.c:375-452 | Flow control keeps at most one ring full in flight and only ever gives bytes that answer what was taken. |
| MasterSession.Session | pcie-wb/wishbone.c:341-452 | Main theorem: for every device and every sequence of write and read calls of any sizes, the bytes moved are those of the pure flow-control model, and the bus trace is exactly what the accepted byte stream means, plus the closing of an open cycle. |
| MasterSession.Perform | pcie-wb/wishbone.c:375-452 | Each call on the ring engine has the effect of the pure flow-control step, and keeps the context valid. |
| MasterSession.Play | pcie-wb/wishbone.c:375-452 | Traffic only grows, and what was given stays a prefix of the answers to what was taken. |
| MasterSession.DrainedMeansAnswered | pcie-wb/wishbone.c:375-452 | A reader that empties the file then has the complete answer to everything accepted. |
| MasterSession.ChunkingUnobservable | pcie-wb/wishbone.c:375-452 | Two different ways to chunk calls that get the same bytes accepted yield answers of which one extends the other. |
| MasterSession.NeverStalls | pcie-wb/wishbone.c:425-440 | Once all answers are read, at most 2051 bytes are pending and at least 6141 bytes can be written, so every record can be completed. |
| MasterSession.RingAccounting | pcie-wb/wishbone.h:73-75 | In every valid state the three lengths computed from the positions are exact and sum to 8192. |
| MasterSession.ProcessedIsAligned | pcie-wb/wishbone.c:140-229 | The processed position is a multiple of four, so no word access crosses the ring end. |
| MasterSession.StoredOrder | pcie-wb/wishbone.h:84-86 | The unbounded counters are ordered sent, processed, received in every valid state; the stored positions are if and only if no multiple of 16384 lies between what was delivered and what was accepted. |
| MasterSession.OrderBreaks | pcie-wb/wishbone.h:84-86 | An open file on which the stored positions are out of order: two ring fulls written, the first of them read. |
| ExclusiveCycles.RecordProper | pcie-wb/wishbone.c:157-226 | A record raises the line exactly if it is down, does everything else while it is up, and drops it exactly if asked to. |
| ExclusiveCycles.CommandsProper | pcie-wb/wishbone.c:157-226 | So does every byte stream; the state field tells whether the line is up. |
| ExclusiveCycles.EmitKeepsTrace | pcie-wb/pcie_wb.c:55-71 | A command that the mutex lets through extends the open block of its own context, opens one, or closes it. |
| ExclusiveCycles.StepKeepsInv | pcie-wb/wishbone.c:362-452 | Opening, writing, each single bus command, and releasing all keep the invariant of the shared device. |
| ExclusiveCycles.BehaviourKeepsInv | pcie-wb/wishbone.c:362-452 | The invariant holds in every state of every interleaving. |
| ExclusiveCycles.ExclusiveCycles | pcie-wb/wishbone.c:157-226 | In every state of every interleaving of any number of contexts: at most one is in a cycle and it holds the mutex; the bus trace consists of on...off blocks of a single context each; each context's share of the trace is what its own input means, completed by release. |
| ExclusiveCycles.NoSelfDeadlock | pcie-wb/pcie_wb.c:55-71 | A context that cannot go on is blocked by another one's open cycle, never by its own. |
| ExclusiveCycles.ReleaseFreesDevice | pcie-wb/wishbone.c:362-373 | When all files are released nobody holds the mutex. |
| SlaveSpec.FeedAppend | pcie-wb/wishbone.c:606-658 | Feeding two chunks is feeding their concatenation, up to the first rejection. |
| SlaveSpec.FeedCollects | pcie-wb/wishbone.c:613-649 | Bytes that complete nothing are only collected. |
| SlaveSpec.FeedCompletes | pcie-wb/wishbone.c:638-654 | The byte that completes a record hands exactly that record over. |
| SlaveSpec.FeedChunk | pcie-wb/wishbone.c:641-649 | A chunk copied at once has the effect of its bytes one by one. |
| SlaveSpec.FeedCompleting | pcie-wb/wishbone.c:650-654 | A completing chunk likewise, also the empty one that hands over a bare header. |
| SlaveSpec.HeaderOnly | pcie-wb/wishbone.c:306-308 | A record without writes and reads changes nothing, whatever its flags. |
| SlaveSpec.Reassembly | pcie-wb/wishbone.c:595-664 | Once negotiated, any byte string, in any chunks, has the effect of dividing it into records and handling them up to the first rejected one; exactly these records are handed over, except that a last one that is a bare header waits for another byte. |
| SlaveSpec.FeedRecord | pcie-wb/wishbone.c:637-656 | A record at the front of the input is handled as a whole, at the latest when the next byte arrives. |
| SlaveSpec.Negotiation | pcie-wb/wishbone.c:624-636 | The first four bytes are judged when a fifth arrives; they are accepted exactly if signature, version bits and widths are as demanded, and cost nothing else. |
| SlaveSpec.FeedFrames | pcie-wb/wishbone.c:606-658 | Accepted input is accounted for byte by byte: probe answer, then exactly the records handed over, in order, then what is still collected. |
| SlaveSpec.FramedUnique | pcie-wb/wishbone.c:606-658 | The accepted bytes alone determine which records were handed over, what is still collected, and whether negotiation is done, whatever the chunks and the registers were. |
| SlaveSpec.NegotiatedAfterFour | pcie-wb/wishbone.c:624-636 | On accepted input negotiation is done exactly when more than four bytes were written. |
| SlaveSpec.WordsConserve | pcie-wb/wishbone.c:318-336 | Every reply uses up one pending request, also in a record that is then rejected. |
| SlaveSpec.HandleConserves | pcie-wb/wishbone.c:284-339 | Pending requests plus replies stay the same over a whole record; replies are only added. |
| SlaveSpec.FeedConserves | pcie-wb/wishbone.c:595-664 | And over any input. |
| SlaveSpec.WordsAccepted | pcie-wb/wishbone.c:318-336 | The write part is accepted if and only if its addresses stay within the two registers and the writes to the error register do not exceed the pending requests. |
| SlaveSpec.AcceptedExactly | pcie-wb/wishbone.c:298-339 | A record is accepted if and only if it reads nothing and either writes nothing or is a full-width configuration write of that kind. |
| SlaveFile.RequestRecord | pcie-wb/wishbone.c:249-268 | The first half of an encoded request is one whole 12-byte record. |
| SlaveFile.TakeKeepsSound | pcie-wb/wishbone.c:237-243 | Taking a request keeps the books: what was read is a prefix of what is owed, and every request taken is replied to or counted, modulo 2^32. |
| SlaveFile.ServeKeepsSound | pcie-wb/wishbone.c:563-685 | So does every call; nothing is taken before negotiation. |
| SlaveFile.PlayAppend | pcie-wb/wishbone.c:563-685 | A script performed in two parts is the script performed at once. |
| SlaveFile.TakenInOrder | pcie-wb/wishbone.c:237-243 | Over every script, the requests taken and those still waiting are those raised, in order: none dropped, none twice. |
| SlaveFile.ReadsAddUp | pcie-wb/wishbone.c:577-585 | Over every script, the bytes the reads return, put together, are what was given. |
| SlaveEngine.SlaveContext.constructor | pcie-wb/wishbone.c:498-536 | An opened file is the pure start state: the probe is owed, nothing was read, written, taken or replied. |
| SlaveEngine.SlaveContext.OutProcess | pcie-wb/wishbone.c:232-282 | A request is taken exactly when everything owed has been read, negotiation is done and one waits; otherwise nothing changes. |
| SlaveEngine.SlaveContext.FillBuffer | pcie-wb/wishbone.c:247-281 | The buffer becomes the encoding of the request: the access, then the read of the error register that ends the cycle. |
| SlaveEngine.SlaveContext.Read | pcie-wb/wishbone.c:563-593 | The exact effect of a read: with room, a waiting request is taken if everything before was read, and the reader gets exactly the next owed bytes, as many as there is room for. |
| SlaveEngine.SlaveContext.CopyOut | pcie-wb/wishbone.c:577-585 | The buffer gives the next owed bytes and then owes the rest. |
| SlaveEngine.SlaveContext.Poll | pcie-wb/wishbone.c:666-685 | The exact effect of a poll: a waiting request is taken if everything before was read; readable exactly if something is owed. |
| SlaveEngine.SlaveContext.StoreRegister | pcie-wb/wishbone.c:322-333 | One word written to the register space; writing the error register without a pending request is refused. |
| SlaveEngine.SlaveContext.InProcess | pcie-wb/wishbone.c:284-339 | The loop over a record's words computes the specified registers, replies and verdict. |
| SlaveEngine.SlaveContext.Collect | pcie-wb/wishbone.c:621-622 | A chunk is appended to the collected bytes. |
| SlaveEngine.SlaveContext.Iterate | pcie-wb/wishbone.c:606-658 | One iteration uses up bytes or disposes of a waiting unit, and agrees with feeding the bytes one by one; an iteration that consumes nothing shrinks the collected bytes, so the loop ends. |
| SlaveEngine.SlaveContext.Write | pcie-wb/wishbone.c:595-664 | The exact effect of a write: registers, replies, collected bytes and records handed over are those of feeding the bytes one by one; it returns the byte count, or -EIO exactly if something was rejected. |
| SlaveEngine.SlaveContext.Release | pcie-wb/wishbone.c:538-561 | Replies with an error to as many requests as the signed count says; reports -EIO exactly if the count is not zero. What the replies say is `SlaveMeaning.ReleaseReplies`. |
| SlaveSession.Perform | pcie-wb/wishbone.c:563-685 | Every call on the buffered engine has the effect, and returns what, the pure step says. |
| SlaveSession.Session | pcie-wb/wishbone.c:498-685 | Main theorem: for every sequence of requests raised, reads, polls and writes, each call returns what the pure meaning of the script says; the requests the hardware sees taken, the replies it gets including those of release, the records handed over and the result of release are those of that meaning. |
| SlaveSession.RepliesComplete | pcie-wb/wishbone.c:542-549 | Over every script there is never a reply without a request taken; after release every request taken has been replied to exactly once if and only if fewer than 2^31 were outstanding. |
| SlaveSession.FloodTakes | pcie-wb/wishbone.c:232-243 | A script that negotiates and then raises and reads n requests leaves all n of them outstanding, the count being n modulo 2^32. |
| SlaveSession.ReleaseMisses | pcie-wb/wishbone.c:542-549 | The failing family is reached: such a script with n = 2^31 is released without a single reply. |
| SlaveSession.ReaderGetsAll | pcie-wb/wishbone.c:563-593 | Once negotiated, a reader that goes on reading gets every request raised, in order, exactly once: one read of 24 bytes for each waiting request, and one for what is still owed. |
| SlaveSession.SameBytesSameRecords | pcie-wb/wishbone.c:595-664 | Two scripts that write the same accepted bytes have the same records handed over and the same bytes still collected, whatever their chunks and whatever is raised, read and polled in between. |
| SlaveSession.TakenAfterProbe | pcie-wb/wishbone.c:237-243 | On accepted input no request is taken before an acceptable probe answer and a further byte were written. |
| ClosedLoop.RequestCommands | pcie-wb/wishbone.c:249-268 | A master executing the request record issues byte enables and exactly the requested access. |
| ClosedLoop.RequestHandled | pcie-wb/wishbone.c:310-333 | What comes back is accepted if and only if it is a write or a read with all byte lanes; the data register then holds the value read, or what it held. |
| ClosedLoop.ErrorHandled | pcie-wb/wishbone.c:326-330 | What comes back for the error record is one write of the error word to the error register. |
| ClosedLoop.MasterOnRequest | pcie-wb/wishbone.c:143-227 | A master answers an encoded request with two records' replies and ends the cycle. |
| ClosedLoop.FeedReply | pcie-wb/wishbone.c:595-664 | Feeding a whole reply, padding included, is handling its carrier. |
| ClosedLoop.RequestAnswered | pcie-wb/wishbone.c:232-339 | A request looped through any master with any device is accepted if and only if it is answerable and outstanding, and then answered once, with the value read and the error bit of that very cycle. |
| ClosedLoop.EveryRequestAnswered | pcie-wb/wishbone.c:232-339 | Any number of answerable outstanding requests, executed as one stream and fed back as one stream, give exactly one reply each, in order. |
| ClosedLoop.MasterProbeReplyRefused | pcie-wb/wishbone.c:624-630 | The slave side always refuses this repository's own master probe answer (line 129 against line 627). |
| Sdb.EndsExactly | sdbfs/lib/glue.c:116-122 | The walk ends, even if bridges lead back to tables they are part of, if and only if every table entered states a count of at least one. |
| SdbVersion.VersionIgnored | sdbfs/lib/glue.c:103-120 | An interconnect record means the same and is accepted alike whatever its version byte. |
| SdbVersion.AlikeTables | sdbfs/lib/glue.c:122-182 | If the records a walk reads are alike, so are the walks: same records, same offsets, same end. |
| SdbVersion.AnyVersionIsScanned | sdbfs/lib/glue.c:103-182 | Two images with tables at multiples of 64 that differ in the version bytes of interconnects only are scanned alike. |
| SdbVersion.UnknownVersionIsScanned | sdbfs/lib/glue.c:103-182 | For every such image and every version other than the one its root table states there is a different image that is scanned alike. |
| SdbScan.Sdbfs.ReadEntry | sdbfs/lib/glue.c:70-100 | The record at an offset, with the bytes of each 32-bit word exchanged in place when so flagged. |
| SdbScan.Sdbfs.NewDir | sdbfs/lib/glue.c:103-120 | Enters a level exactly if a valid interconnect stands there; otherwise the stacks are untouched. What a valid one is in bytes is `SdbTables.TableLooks`. |
| SdbScan.Sdbfs.Climb | sdbfs/lib/glue.c:167-172 | Climbing out of exhausted levels skips nothing that is still to be visited; it fails only when nothing is left. |
| SdbScan.Sdbfs.NextEntry | sdbfs/lib/glue.c:167-181 | Returns the next record of the recursive preorder and leaves the rest of it. |
| SdbScan.Sdbfs.Scan | sdbfs/lib/glue.c:122-182 | One call delivers the first record of the remaining recursive walk, with its base, level and offset, and leaves the rest; null exactly if the walk is over. |
| SdbScan.Sdbfs.NextScan | sdbfs/lib/glue.c:141-181 | A continued scan goes into the bridge returned last, if its level is within the limit and a table is there, and otherwise on to the next entry, with the same result. |
| SdbScan.Sdbfs.ScanTimes | sdbfs/lib/glue.c:122-182 | Repeated calls yield exactly the recursive preorder walk, bridge before child table, invalid children skipped, cut at four levels, and end if and only if every table entered is counted. |
| SdbScan.ScansForEver | sdbfs/lib/glue.c:116 | An image whose scan never ends: an interconnect that counts no records. |
| SdbScan.Sdbfs.OpenName | sdbfs/lib/glue.c:184-211 | Opens the first record behind the first call's whose name matches, with its offset and length, or reports that there is none; also without a root table, and on an endless walk if something on it matches. |
| SdbScan.Sdbfs.Advance | sdbfs/lib/glue.c:122-182 | The k-th call delivers item k of the walk, and null exactly behind the last item of a walk that ends. |
| SdbScan.Sdbfs.Read | sdbfs/lib/access.c:22-40 | Reads from the given or the current place, cut at the end of the file, and moves the place only if something was read. |
| SdbScan.Sdbfs.ReadPieces | sdbfs/lib/access.c:22-40 | Sequential reads of any sizes give the file's bytes in order up to its end, then nothing. |
| SdbScan.EnterTable | sdbfs/lib/glue.c:103-120 | Entering a table leaves exactly its entries and then the rest of the levels above, or an endless walk for a count of zero. |
| SdbScan.EntryTaken | sdbfs/lib/glue.c:174-177 | Taking an entry leaves what is behind it, then the rest of its level and of the levels above. |
| WordSwap.MountExactly | sdbfs/lib/glue.c:21-34 | The mount decision, for every four bytes at the entry point: converted, plain, or not a directory. |
| WordSwap.SwappedMounts | sdbfs/lib/glue.c:26-34 | An image and its word-swapped copy are both mountable or both not, and exactly one of them converted. |
| WordSwap.SameRecord | sdbfs/lib/glue.c:91-97 | Reading a record of the swapped image with conversion gives the original record. |
| WordSwap.SameWalk | sdbfs/lib/glue.c:70-182 | Word-swap transparency: the same records in the same order, at the same offsets and levels, whenever the tables visited are word-aligned. |
| GenSdbfs.AllocStorage | sdbfs/userspace/gensdbfs.c:354-410 | The recursive loop computes the specified layout: every address, every subdirectory base, and the last address; `GenPlaces.EveryPlace` says where that is. |
| GenSdbfs.PlaceNode | sdbfs/userspace/gensdbfs.c:369-406 | One entry: a directory allocates itself first and takes at least the size it then reports; a demanded position does not move the cursor, which `GenPlaces.DemandedTransparent` proves of whole directories. |
| GenImage.WriteAtJoin | sdbfs/userspace/gensdbfs.c:462-471 | Two consecutive writes are one write of both pieces. |
| GenImage.WriteAllAppend | sdbfs/userspace/gensdbfs.c:413-476 | Writing one list of pieces and then another is writing both in order. |
| GenImage.CopyFile | sdbfs/userspace/gensdbfs.c:462-471 | Copying in blocks writes the file's bytes, whatever the block size. |
| GenImage.WriteTable | sdbfs/userspace/gensdbfs.c:432-434 | The records written one by one are the directory's table, at its possibly demanded position. |
| GenImage.WriteSdb | sdbfs/userspace/gensdbfs.c:413-476 | The recursive writer writes exactly the layout's pieces, in order. |
| GenImage.WriteEntry | sdbfs/userspace/gensdbfs.c:442-473 | A file goes to its demanded or relative position, a subdirectory writes itself. |
| GenLayout.AlignBounds | sdbfs/userspace/gensdbfs.c:41-44 | Alignment goes up by less than a block, for addresses below 2^32. |
| GenLayout.AlignAligned | sdbfs/userspace/gensdbfs.c:41-44 | And to a block boundary. |
| GenLayout.SizeBack | sdbfs/userspace/gensdbfs.c:397-400 | The length computed from first and last address is the size reserved, also for an empty file. |
| GenLayout.ChainDisjoint | sdbfs/userspace/gensdbfs.c:369-406 | Ranges in a chain are pairwise disjoint and in order. |
| GenLayout.AllocChains | sdbfs/userspace/gensdbfs.c:354-410 | Allocation disjointness: everything a sized and clear tree of any depth writes, tables and files, lies in disjoint ranges one behind the other. |
| GenLayout.AllocAligned | sdbfs/userspace/gensdbfs.c:366-408 | Every start after the first is block-aligned, the first one if and only if the table's own position is; the directory's last address bounds that of every entry. |
| GenFit.DisjointExactly | sdbfs/userspace/gensdbfs.c:354-410 | The exact condition: what a sized tree of any depth writes lies in disjoint ranges one behind the other if and only if the contents of every directory that is followed by an entry end in front of it. |
| GenFit.AllocShifts | sdbfs/userspace/gensdbfs.c:373-385 | Where a directory lies changes neither its last address nor how much it uses. |
| GenFit.DirectoryFits | sdbfs/userspace/gensdbfs.c:382-405 | At a block boundary, contents of any length stay clear of the next entry if and only if they fit the reserved room rounded up to blocks. |
| GenFit.ClearIfFits | sdbfs/userspace/gensdbfs.c:369-405 | With the table at a block boundary, being clear is a matter of sizes alone, at every depth. |
| GenFit.DisjointIfFits | sdbfs/userspace/gensdbfs.c:354-410 | The exact condition on the input tree: everything is disjoint if and only if every directory that is followed by an entry uses no more than the larger of its size and its last address, rounded up to blocks. |
| GenFit.RoomyFits | sdbfs/userspace/gensdbfs.c:372-385 | A tree of any depth in which every directory's size exceeds every offset in use below it meets the condition. |
| GenFit.RoomyDisjoint | sdbfs/userspace/gensdbfs.c:354-410 | So everything such a tree writes is disjoint. |
| GenFit.FlatTreeOk | sdbfs/userspace/gensdbfs.c:369-406 | Every flat directory whose files fit their reservations and stay below 2^32 is sized and clear. |
| GenFit.SubdirectoryOverlap | sdbfs/userspace/gensdbfs.c:382-405 | Counterexample to unconditional disjointness: a one-byte file in a subdirectory and the file behind the subdirectory are both placed at address 320. |
| GenFit.NestedOverlap | sdbfs/userspace/gensdbfs.c:382-405 | A second one, two levels deep, where the room is no whole number of blocks: the shortfall adds up and both files are placed at address 448. |
| RoundTrip.ReadBack | sdbfs/userspace/gensdbfs.c:413-476 | Whatever is written into a chain of ranges is there in the end, zero-filled, whatever was written afterwards. |
| RoundTrip.LongRoundTrip | sdbfs/lib/libsdbfs.h:75-88 | 64-bit fields survive conversion to storage order and back. |
| RoundTrip.DecodeEncodeRecord | sdbfs/include/linux/sdb.h:27-94 | Every field the library looks at comes back from a record as the builder put it. |
| RoundTrip.EntryFields | sdbfs/userspace/gensdbfs.c:374-400 | An entry's record states its addresses, its blank-filled name, and for a directory the place of its table. |
| RoundTrip.HeadFields | sdbfs/userspace/gensdbfs.c:66-82 | The directory's own record is an accepted interconnect with the right count and last address. |
| RoundTrip.TableRecord | sdbfs/userspace/gensdbfs.c:432-434 | Record k of a written table is the head or entry k - 1. |
| RoundTrip.ScanTable | sdbfs/lib/glue.c:122-182 | Scanning a layout that is on the device yields its preorder and ends. |
| RoundTrip.AllocSane | sdbfs/userspace/gensdbfs.c:373-394 | For every tree without demanded directory positions: each subdirectory table is where its bridge says, relative to the base the scanner then uses; demanded file positions in the root directory included, reserved sizes of no concern. |
| RoundTrip.SizedPlaceable | sdbfs/userspace/gensdbfs.c:354-410 | Sized trees are among these. |
| RoundTrip.ImageShowsTree | sdbfs/userspace/gensdbfs.c:354-476 | Every table and every file of a well-reserved tree can be read back from its image. |
| RoundTrip.ImageScansAsTree | sdbfs/userspace/gensdbfs.c:354-476 | Scanning the image visits exactly the input tree in preorder, cut at four levels, and ends. |
| RoundTrip.OffsetsAgree | sdbfs/lib/glue.c:145-180 | Nested address agreement, for every such tree and level: the absolute offset the scanner computes for a file is where the builder writes it, and the base and table it computes for a directory are the directory's own. |
| RoundTrip.FilesShown | sdbfs/userspace/gensdbfs.c:442-473 | Where the layout is on the device, the file's bytes are at that place, zero-filled to its reservation. |
| RoundTrip.DirectoryAgrees | sdbfs/userspace/gensdbfs.c:374-394 | A directory's stated position is where its contents are if and only if no other position was demanded for it. |
| FileRoundTrip.NameMatches | sdbfs/lib/glue.c:202-205 | Matching by length-limited comparison and trailing blank finds exactly the equal name, for names without blanks of at most 19 bytes. |
| FileRoundTrip.ImageMounts | sdbfs/lib/glue.c:21-34 | A generated image mounts, without conversion. |
| FileRoundTrip.BuildImage | sdbfs/userspace/gensdbfs.c:354-476 | Allocation followed by writing gives the specified image. |
| FileRoundTrip.ImageReady | sdbfs/userspace/gensdbfs.c:354-476 | On a generated image a name that is unique among what is visited finds its file, and the file's bytes are where its record says. |
| FileRoundTrip.OpenAndRead | sdbfs/lib/glue.c:193-211 | Mounting, opening by name and reading in pieces returns the bytes the device shows for that item. |
| FileRoundTrip.BuildAndRead | sdbfs/userspace/gensdbfs.c:354-476 | Generator and reader together, for trees of any depth: opening a unique name and reading in any pieces returns the file's bytes, zero-filled to its reservation, then nothing. |
| FileRoundTrip.FlatVisits | sdbfs/lib/glue.c:122-182 | Scanning the image of a flat directory visits its head and then its files in order, each with its name, size and bytes. |
| FileRoundTrip.FlatOnlyFile | sdbfs/userspace/gensdbfs.c:369-406 | In a flat directory of distinct names each file is the only one of its name, and has its size and bytes. |
| FileRoundTrip.BuildAndReadFlat | sdbfs/userspace/gensdbfs.c:354-476 | The flat case stated on the input directory alone: distinct blank-free names of at most 19 bytes, reservations no smaller than the files, no demanded positions. Opening any name and reading in any pieces returns that file, zero-filled to its reservation, then nothing. |
| PcieWindow.Mask | pcie-wb/pcie_wb.c:73-119 | Whatever masks were set before, the one in force is one of the seven legal ones, which are the aligned runs of `PcieMasks.MaskTakenExactly`. |
| PcieWindow.FetchedBytes | pcie-wb/pcie_wb.c:178-185 | A narrow load gives exactly the bytes of its lanes. |
| PcieWindow.MaskedBytes | pcie-wb/pcie_wb.c:79-114 | Clearing the other lanes of a word, in terms of width and position of the access. |
| PcieWindow.ShiftedStore | pcie-wb/pcie_wb.c:139-150 | Shifting down, truncating to the access width and moving back into the lanes is clearing the other lanes, for all widths and words. |
| PcieWindow.ShiftedLoad | pcie-wb/pcie_wb.c:173-186 | Shifting the fetched bytes up is clearing the other lanes. |
| PcieWindow.Address | pcie-wb/pcie_wb.c:132-150 | Window register plus window offset is the word of the address, and the offset is within the window. |
| PcieWindow.Bridge.constructor | pcie-wb/pcie_wb.c:347-361 | After probing, cache and registers agree, whatever the card held. |
| PcieWindow.Bridge.Cycle | pcie-wb/pcie_wb.c:55-71 | Raises or drops the cycle line and changes nothing else. |
| PcieWindow.Bridge.Enable | pcie-wb/pcie_wb.c:73-119 | Width, shift and low address become those of the mask in force; other masks are ignored. Which these are is `PcieMasks.MaskTakenExactly`. |
| PcieWindow.Bridge.Slide | pcie-wb/pcie_wb.c:132-136 | Moves the window to the address, writing the register only if the cached value differs, and the two stay equal. |
| PcieWindow.Bridge.Put | pcie-wb/pcie_wb.c:121-152 | A write is one masked 32-bit write of the word at the address rounded down. |
| PcieWindow.Bridge.Get | pcie-wb/pcie_wb.c:154-193 | A read is one masked 32-bit read, answered as a flat space answers it. |
| PcieWindow.Bridge.GetConfig | pcie-wb/pcie_wb.c:195-215 | The four configuration addresses read their registers, all others give zero. |
| PcieWindow.Drive | pcie-wb/pcie_wb.c:55-215 | For every target and every sequence of bus commands the card sees exactly the flat, masked accesses, and every read is answered as a flat 32-bit space under byte enables answers it. |
| PcieWindow.MemoryKeepsLastWrite | pcie-wb/pcie_wb.c:121-152 | With a memory behind the bus, each byte holds what the last write that covered it left there. |
| PcieWindow.ReadGivesLastWrites | pcie-wb/pcie_wb.c:121-193 | A read then gives, in each lane of the mask in force, the byte last written there under the mask then in force, and zero in the other lanes. |
| DeviceList.GivenBack | pcie-wb/wishbone.c:720-739 | A number given back is the next one given out unless a smaller one is free. |
| DeviceList.SortedBound | pcie-wb/wishbone.c:720-739 | A sorted list of numbers below the limit has at most as many entries as the limit, and that many only if none is left out. |
| DeviceList.Inserted | pcie-wb/wishbone.c:773-774 | Inserting in front of the gap keeps the list sorted and takes exactly that number. |
| DeviceList.Removed | pcie-wb/wishbone.c:790-804 | Taking an entry out keeps the list sorted and frees exactly its number. |
| DeviceList.Registry.Gap | pcie-wb/wishbone.c:724-732 | Where the number first differs from the place, that number is the least free one. |
| DeviceList.Registry.FindGap | pcie-wb/wishbone.c:717-741 | The search fails if and only if every number is taken, and otherwise finds the least free one and its place. |
| DeviceList.Registry.Register | pcie-wb/wishbone.c:708-788 | Succeeds if and only if a number is free and the kernel accepts the devices; the new device gets the least free number; on failure the list is unchanged. |
| DeviceList.Registry.Unregister | pcie-wb/wishbone.c:790-804 | Refuses a device that was never listed; otherwise removes it and frees its number only. |
| DeviceList.Registry.AtMostMax | pcie-wb/wishbone.c:735 | There are as many devices as numbers exactly when none is free. |
| DeviceSession.NextFree | pcie-wb/wishbone.c:720-739 | The search from a number on gives the first free one at or behind it, or the limit. |
| DeviceSession.JoinGetsLeast | pcie-wb/wishbone.c:708-788 | In the plain table a registration succeeds if and only if a number is free and the kernel accepts, and gets the least free one. |
| DeviceSession.PlayKeepsTidy | pcie-wb/wishbone.c:708-804 | Over every script of registrations and removals, the devices on the list have different numbers within the limit. |
| DeviceSession.Perform | pcie-wb/wishbone.c:708-804 | Each call on the list returns what the plain table says and leaves the list as it says. |
| DeviceSession.Session | pcie-wb/wishbone.c:708-804 | For every allowed script on any number of devices, every call returns what the plain table says, and every device ends up with the number it says. |
| RecordMeaning.FlagIsBit | pcie-wb/wishbone.c:164-216 | For every byte and every bit, the model's flag test is the bitwise conjunction of the source. |
| RecordMeaning.RecordIs | pcie-wb/wishbone.c:146-155 | A byte string is one record exactly if it has a header, then base address and data if anything is written, then return address and addresses if anything is read. |
| RecordMeaning.CommandsAre | pcie-wb/wishbone.c:157-227 | Number and order of all bus commands: the cycle is raised unless it is up, the byte enables are set, the words are written (none with bit 0x04), the addresses are read, and the cycle is dropped exactly with bit 0x08. |
| RecordMeaning.CommandWrites | pcie-wb/wishbone.c:172-189 | Data word k is the word at byte 8 + 4k; it goes to the base address with bit 0x02, and to the base address plus 4k, modulo 2^32, without it. |
| RecordMeaning.CommandReads | pcie-wb/wishbone.c:201-218 | Address k is the word at its literal place behind the writes; it is read from the configuration space exactly with bit 0x40. |
| RecordMeaning.ReplyIs | pcie-wb/wishbone.c:164-199 | Every byte of a reply but the words read: zeros, then the flags 0x08, 0x20 and 0x80 at 0x08, 0x02 and 0x04, the byte enables, the number of words read, zero, and the return address. |
| RecordMeaning.ReplyWords | pcie-wb/wishbone.c:201-218 | Word k behind the return address is what the device drives after all commands up to read k. |
| RecordMeaning.ProbeAnswered | pcie-wb/wishbone.c:120-128 | The first eight bytes of the answer are 4E 6F 12 44 and the identifier sent. |
| RecordMeaning.ProbeAlone | pcie-wb/wishbone.c:114-133 | Up to the probe nothing reaches the bus, the cycle is down, and nothing is answered before eight bytes are there. |
| RecordMeaning.OneMoreRecord | pcie-wb/wishbone.c:143-229 | A record behind fully answered input adds exactly its commands and its reply, and leaves the cycle up exactly without bit 0x08. |
| MasterMemory.EncodeDecode | pcie-wb/wishbone.c:93-112 | Storing the word loaded from four bytes gives these four bytes. |
| MasterMemory.PlainRecordStands | pcie-wb/wishbone.c:172-189 | With a memory behind the bus and no bit 0x02, after the record each of its data words stands at the base address plus 4k, byte for byte, also across the end of the address space. |
| MasterMemory.FifoRecordStands | pcie-wb/wishbone.c:172-189 | With bit 0x02 the last data word stands at the base address. |
| MasterMemory.RestStays | pcie-wb/wishbone.c:172-189 | A byte of the memory that no data word goes to is unchanged; with bit 0x04 that is every byte. |
| MasterMemory.ReadsMemory | pcie-wb/wishbone.c:201-218 | Each byte of each word read is the memory's byte there, as the record's own writes left it. |
| MasterMemory.WrittenReadsBack | pcie-wb/wishbone.c:143-229 | What one record of a stream writes to a memory, a following record that only reads gets back word for word, in whatever order it asks for the words. |
| MasterSession.CallsMoveAll | pcie-wb/wishbone.c:375-450 | A write takes all that is offered or fills the ring to 8192 bytes; a read gives the next answered bytes, all there is room for or all there are. |
| SlaveMeaning.ReleaseReplies | pcie-wb/wishbone.c:545-549 | After any script, every reply given by release has the error flag and data zero; there are as many as are outstanding modulo 2^32, or none if that is 2^31 or more. |
| SlaveMeaning.ReleaseRepliesToAll | pcie-wb/wishbone.c:545-549 | With fewer than 2^31 outstanding, the replies are the earlier ones followed by exactly one such error for each outstanding request. |
| SlaveMeaning.TakenExactly | pcie-wb/wishbone.c:232-243 | A request is taken exactly when everything before it was read, negotiation is done and one waits; it is the oldest, and is counted as pending modulo 2^32. |
| SlaveMeaning.ReadsAndPolls | pcie-wb/wishbone.c:563-593 | A read gives the next bytes owed, all there is room for or all that is owed; without room it changes nothing. A poll says yes exactly if a read of one byte, or of any number, in its place would return something. |
| SlaveMeaning.ProbeComesFirst | pcie-wb/wishbone.c:518-525 | Whatever the calls, what is read begins with 4E 6F 11 44 00 00 00 00. |
| SlaveMeaning.RequestEncoded | pcie-wb/wishbone.c:245-281 | Each field of the 24 bytes of a request stands where the source puts it, with return address 0x8000, and the second record is literally the query of the error flags that ends the cycle. |
| SlaveMeaning.RequestAt | pcie-wb/wishbone.c:245-281 | Request k of those taken stands at bytes 24k to 24k + 23 behind the probe. |
| SlaveMeaning.WritesReturn | pcie-wb/wishbone.c:595-664 | A write returns the number of bytes offered exactly if they are accepted, and -EIO exactly if not; it touches nothing but the input side. |
| SlaveMeaning.ProbeAccepted | pcie-wb/wishbone.c:623-632 | A probe answer is accepted exactly if it is 4E 6F, a byte whose low three bits are 6, and one with both bits of 0x44. |
| SlaveMeaning.RecordAccepted | pcie-wb/wishbone.c:306-336 | The exact condition under which a record is accepted, in its bytes: registers at 0x8000 and 0x8004, bits 0x04 and 0x02, and the number of outstanding requests. |
| SlaveMeaning.WordReplies | pcie-wb/wishbone.c:326-330 | A word to the error register uses up one outstanding request and replies with its lowest bit and the data register. |
| SlaveMeaning.RecordTells | pcie-wb/wishbone.c:312-336 | What every accepted record does: which word becomes the data register, and which reply each word is, with which data. |
| SdbTables.FieldsAre | sdbfs/include/linux/sdb.h:27-71 | Each field the library looks at is the big-endian number, or the bytes, at its place in the record, with or without word conversion. |
| Sdb.SwapIndexInWord | sdbfs/lib/glue.c:91-97 | Conversion takes byte r of a word from place 3 - r of the same word. |
| SdbTables.TableLooks | sdbfs/lib/glue.c:103-120 | A place holds a table exactly if its first four bytes are 53 44 42 2D and byte 63 is zero. |
| SdbTables.NoTable | sdbfs/lib/glue.c:138-168 | Walking a place that does not look like that gives nothing and ends, at the root too; any other gives something. |
| SdbTables.ATable | sdbfs/lib/glue.c:103-120 | A table gives its interconnect and then one entry less than bytes 4 and 5 count, 64 bytes apart; with a count of zero it never ends. |
| SdbTables.EntryPassed | sdbfs/lib/glue.c:138-174 | An entry that leads nowhere, a bridge in front of bytes that are no table included, is followed directly by the next one on its level. |
| SdbTables.BridgeEntered | sdbfs/lib/glue.c:138-149 | A bridge above the fourth level in front of a table is followed by that table, at base plus child, with addresses relative to base plus first, one level down, and then by the next entry. |
| SdbTables.FoundAt | sdbfs/lib/glue.c:177-181 | A record found is reported with the address of its table's base plus its first address, modulo 2^64. |
| SdbTables.BlankChildScan | sdbfs/lib/glue.c:103-120 | An image with a bridge into blank memory: the scan gives the table and the bridge, and ends. |
| GenPlaces.AlignIsMask | sdbfs/userspace/gensdbfs.c:41-44 | For every power of two up to 2^32, the model's rounding is the addition and the 32-bit mask of the source, bit for bit, for all addresses. |
| GenPlaces.EveryPlace | sdbfs/userspace/gensdbfs.c:354-410 | Every entry starts where it was demanded, or at the block boundary behind the last entry before it without a demand, or behind the table; every last address, subdirectory base and child address follows; the directory's last address is exactly that of the furthest entry or where entries begin. |
| GenPlaces.DemandedTransparent | sdbfs/userspace/gensdbfs.c:388-394 | Two directories that agree on the entries without a demanded position place these alike, contents included, whatever kind, size and position stand at the demanded ones. |
| GenPlaces.DemandedInstance | sdbfs/userspace/gensdbfs.c:388-394 | A file demanded at 0x1000 leaves the next file at 192, directly behind the table. |
| GenRecords.RecordBytes | sdbfs/userspace/gensdbfs.c:46-63 | Every byte of a record: addresses, vendor, device identifier, version, date, blank-filled name and type, each at its place. |
| GenRecords.EntryBytes | sdbfs/userspace/gensdbfs.c:86-139 | A file's record has four zero bytes, its flags and type 1; a directory's has its table's place and type 2. |
| GenRecords.HeadBytes | sdbfs/userspace/gensdbfs.c:66-82 | A table begins with 53 44 42 2D, its number of records, version 1, bus type 1, addresses from 0 to the last one, a dot and type 0. |
| GenRecords.PlacesWritten | sdbfs/userspace/gensdbfs.c:429-475 | Each table is written at its directory's base plus its position; each file, with its size reserved, at the position demanded or at base plus first address; and all that subdirectories write is written. |
| PcieMasks.MaskTakenExactly | pcie-wb/pcie_wb.c:73-119 | A mask is put in force exactly if it selects one, two or four neighbouring lanes from a multiple of that number on; any other mask and any other command leaves the one in force, and after probing it is 0xF. |
| PcieMasks.LanesOfRun | pcie-wb/pcie_wb.c:79-114 | Such a mask selects these lanes and no others. |
| PcieMasks.NarrowWrite | pcie-wb/pcie_wb.c:121-152 | With a memory behind the bus, a write under such a mask changes exactly the bytes of its lanes in the addressed word. |
| PcieMasks.NarrowReadBack | pcie-wb/pcie_wb.c:154-193 | A read right after it gives the bytes written in these lanes and zero in the others. |
| PcieMasks.ReadByte | pcie-wb/pcie_wb.c:154-193 | Every read gives the memory's bytes in the lanes of the mask in force and zero in the others. |
| PcieMasks.CycleWrites | pcie-wb/pcie_wb.c:66-70 | Raising a cycle is one write of 0xC0000000 to the control register, dropping it one of 0x40000000. |
| PcieMasks.ConfigReads | pcie-wb/pcie_wb.c:195-215 | Addresses 0, 4, 8 and 12 read the registers at 8, 12, 24 and 28 once and return them; any other address reads none and returns zero. |

## Left out

- Kernel glue: character device registration, sysfs, wait queues, `fasync`, PCI and VME probing, interrupts, messages.
- User memory: I/O vectors are flat byte sequences; `-EFAULT`, `-EINTR`, and `-EAGAIN` instead of zero are not modelled.
- `context->mutex`: the calls on one context are sequential; only the device mutex is interleaved.
- 32-bit wrap-around of `processed` and its fellows: they are masked to 14 bits before they can wrap.
- SlaveEngine.SlaveContext.Release: promises what the code does, replies to the signed count; the exact condition for complete answers is `RepliesComplete`.
- Hosts: little-endian, 64-bit `unsigned long`, as the word-swap branch and `sdbfs_fread` need it; the big-endian branches are not modelled.
- SdbScan.Sdbfs.Scan: the signed record counter is unbounded, so its overflow after 2^31 calls inside a table with a count of zero is not modelled.
- SdbScan.Sdbfs.ReadEntry: memory is mapped or read through a faithful `read` callback; the callback's truncation of offsets to `int` is not modelled.
- SdbScan.Sdbfs.OpenName: an absent name on an endless walk, where the source never comes back, and a search without a root interconnect after an endless scan; `sdbfs_dev_create` checks the magic number only.
- SdbScan.Sdbfs.Read: explicit offsets at most the file length and sums below 2^31, where `int` arithmetic is exact; beyond, a negative count reaches `memcpy`.
- FileRoundTrip.BuildAndRead: no piece, from the place it is read at, goes beyond 2^31 - 1, so that the reader's `int` sums are exact.
- `sdbfs_open_id`, `sdbfs_fstat`, `sdbfs_find_name`: the same walk with another comparison, or a copy.
- `sdbfs_fwrite`: documented as not implemented.
- GenLayout.AllocChains: for trees without demanded positions, with addresses below 2^32 (the alignment mask is 32 bits wide) and fewer than 65535 entries per directory; that the tree is clear is necessary by `GenFit.DisjointExactly`.
- GenFit.DisjointIfFits: for a root table at a block boundary; elsewhere the condition of `GenFit.DisjointExactly` depends on where the first entry lies.
- GenSdbfs.AllocStorage: block sizes are positive; only powers of two make the mask arithmetic a rounding.
- Image contents no reader in the model looks at: dates, and vendor, device and write flags overridden by the configuration file.
- Directory reading, configuration parsing, unreadable input files, `devsize` and `lastwritten`: input and user interface.
- Behind its end an image file reads as zeros, as on a blank device.
- RoundTrip.OffsetsAgree: addresses fit 64 bits, record counts 16, and no position is demanded for a directory; `DirectoryAgrees` says what a demanded one breaks.
- PcieWindow.Bridge.Cycle: without the mutex, which is a step guard in `ExclusiveCycles`.
- Interrupt enabling, and the request and reply registers of the card: their queue behaviour is `SlaveEngine.Hardware`.
- DeviceList.Registry.Unregister: a device is unregistered at most once per registration, as `list_del` demands; `max_devices` stays fixed while the module is loaded.
- `pcie-wb/spec_wb.c`, `vme-wb`, `wishbone-serial.c`: easier variants of the same bus operations, or wrappers.
- `sdbfs/kernel`, the listing and extraction tools, `historic/`: file system plumbing, user interface, superseded formats.
