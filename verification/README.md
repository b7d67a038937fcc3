# Verification model of the set-top-box libraries

These Dafny modules model the self-contained algorithms in the libraries of a set-top-box application and prove what
those algorithms are for. The user interface and the drivers are not modelled.

| Area | Files | What is modelled |
|---|---|---|
| MD5 | `Rfc1321.dfy`, `Md5.dfy` | RFC 1321 as a reference, and the incremental implementation with its 128-byte carry buffer, two-word counter and unrolled block function |
| Object list | `ObjectList.dfy` | the intrusive doubly linked list, in place, against a ghost sequence |
| Teletext | `Hamming2418.dfy`, `BitStreams.dfy`, `ExtensionPackets.dfy`, `ExtensionSender.dfy`, `PageCompression.dfy`, `TeletextCodes.dfy`, `TeletextPackets.dfy`, `TeletextCache.dfy`, `TeletextSender.dfy`, `PageNumbers.dfy` | error correction, packets 28 and 29 from sender to receiver, page compression, the page cache for eight interleaved magazines, pages from sender to cache, page stepping |
| Network interfaces | `TextFiles.dfy`, `Tokenizer.dfy`, `NetworkInterfaces.dfy`, `InterfacesTheorems.dfy` | the editor and the reader of an interfaces file |
| Common interface | `LengthFields.dfy`, `CommonInterfaceFrames.dfy`, `CommonInterface.dfy` | three length codecs, transport, session and application units, the session table |
| Recorder | `RingBuffers.dfy`, `Recorder.dfy` | two threads over a ring buffer, as interleaved atomic steps |
| Subtitles | `Bitmaps.dfy`, `SubtitleStrings.dfy`, `SubtitleObjects.dfy`, `SubtitleAssembler.dfy`, `BitFields.dfy`, `SubtitleReader.dfy` | palettes and bitmaps, run-length pixel strings, segment assembly, packet resynchronisation, time stamps |
| Shared | `Octets.dfy`, `Collections.dfy` | bytes, 32-bit words and their operators; optional values and concatenation |

`dafny verify dfyconfig.toml` checks all of it.

## How it is built

Code that changes things step by step is a class or a method with loops, proved against a specification function or an
abstract state; the theorems are lemmas about those. Three shapes recur:

* A fast form against a simple one. MD5 against RFC 1321, the teletext cache against a map from pages to 23-row images
  (`TeletextPackets.Step`), decompression against the page that was compressed.
* A reader against a writer. Teletext headers and rows, packets 28 and 29, length fields, session and transport units,
  subtitle segments and run-length strings, the interfaces file, packets and time stamps each have an encoder, written from
  the standard or from the sending half of the code, and a lemma that the decoder gives back what was encoded.
* A protocol as a state machine. The recorder's two threads take atomic steps in any order; `Recorder.TakeKeeps` says
  what every step keeps, `Recorder.FileIsPrefix` what follows for every run, and `Recorder.PlanCarriedOut` and
  `Recorder.LookCarriedOut` when each thread gets on.

C integers are natural numbers with the wrap-around written out; the four triplet tables of Hamming 24/18 and the mask
bytes of a cached page are bit vectors. Arrays that C embeds in a structure are sequence-valued fields, buffers that are
passed by address are arrays.

## Where the code falls short of what one might expect

Each of these is stated as a lemma or a postcondition with the exact condition.

* `Md5.AdvanceExact`: one call with 2^32 bytes or more can miscount, because a carry is added at most once.
* `ObjectList.ListBase.MoveObject`: moving an object onto itself takes it out of the list while the count still has it.
  `ObjectList.ListBase.Del`: taking an object out without deleting it leaves the count too high.
* `InterfacesTheorems.RoundTripExactly`, `IdempotentExactly`, `FrameExactly`: erasing an auto line that stands between a
  stanza and a line of two or more words makes that line part of the stanza. `OrphanFails` and `NeighbourFails` are such
  files.
* `CommonInterface.SessionTable.DeliverApdus`, `CommonInterfaceFrames.AllApdusExactly`: nothing tells the loop over the
  units of a payload that one does not fit. The number of remaining bytes is unsigned and wraps, and the loop goes on
  behind the payload, or in front of it for a length of 2^31 or more. `OverrunsAt` and `MalformedAt` are such inputs.
* `CommonInterface.StaysClosing`: a close request does not close its session when a unit in it makes the resource set a
  state of its own. `ReopenedAt` is such a request.
* `PageNumbers.Endless`: the search for another subpage never ends for a subpage above 0x79 when none is cached up to
  0x79.
* `Recorder.TailLost`: the file thread may look at the ring, find it empty, and then see the exit flag that was set after
  more data came in. `Recorder.EndsComplete` says exactly when nothing is lost.
* `SubtitleStrings.StringBack8`: the run length of an 8-bit code is masked with 0x63 where the standard has seven bits.
  `SubtitleStrings.TwoBitsExactly`: the first two bits of a byte are read from the byte in front of it.
* `SubtitleStrings.TableSkipped`: a map table from 2-bit to 4-bit pixels takes two bytes, and four are skipped.
* `SubtitleAssembler.KeptExactly`: data of three bytes or less is dropped, and data that happens to start with 20 00 0f
  loses two bytes.
* `Bitmaps.CopyExactly`: replacing a palette by one with more colours than fit leaves its number of colours too high.
* `SubtitleReader.ReaderThread`: a packet whose length field is above 65529 wraps a 16-bit length; the model stops there
  and says so.
* `LengthFields.BuiltShortest`: 127 is written in two bytes although one would do; it is read back all the same.

## Model

| member | source | states |
|---|---|---|
| Md5Rounds.FFIsF | lib/libmd5sum/md5.c:249-252 | The optimised FF(b, c, d) = d ^ (b & (c ^ d)) equals the function F of RFC 1321 section 3.4 on all 32-bit words. |
| Md5Rounds.FGIsG | lib/libmd5sum/md5.c:249-252 | FG, which is FF with its arguments exchanged, equals the function G of RFC 1321 on all 32-bit words. |
| Md5Rounds.OpIsMix | lib/libmd5sum/md5.c:296-308 | The OP macro, with its rotation made of two shifts and an or, leaves b + ((a + aux + x + t) <<< s) of the standard, for every rotation amount the standard uses. |
| Md5Rounds.OperationIsOp | lib/libmd5sum/md5.c:317-320 | One unrolled OP line is one operation of the standard followed by the rotation of the register names. |
| Md5Rounds.GroupIsUnrolled | lib/libmd5sum/md5.c:317-320 | Four OP lines with the argument orders ABCD, DABC, CDAB and BCDA are four operations of the standard. |
| Md5Rounds.Round1 | lib/libmd5sum/md5.c:316-332 | The sixteen lines of round 1 are the sixteen operations of the standard, word i in operation i. |
| Md5Rounds.Round2 | lib/libmd5sum/md5.c:347-363 | The lines of round 2 are those of the standard, word 5i + 1 mod 16 in operation i. |
| Md5Rounds.Round3 | lib/libmd5sum/md5.c:365-381 | The lines of round 3 are those of the standard, word 3i + 5 mod 16 in operation i. |
| Md5Rounds.Round4 | lib/libmd5sum/md5.c:383-399 | The lines of round 4 are those of the standard, word 7i mod 16 in operation i. |
| Rfc1321.SinesFollow | lib/libmd5sum/md5.c:316-399 | The 64 constants are the sines of 1 to 64: the first to ten digits, and each from the two before it by sin(i + 1) = 2 cos(1) sin(i) - sin(i - 1), up to the parts cut off. |
| Md5.OneBlock | lib/libmd5sum/md5.c:281-406 | One pass of the block loop is the compression function of RFC 1321 on the 64 bytes the pointer stands at. |
| Md5.AdvanceCounts | lib/libmd5sum/md5.c:272-277 | The two-word byte count, with its carry test, counts modulo 2^64 for every call of fewer than 2^32 bytes. |
| Md5.AdvanceExact | lib/libmd5sum/md5.c:272-277 | For longer calls the carry is added once at most: the count is right if and only if the old low word and the length together stay below twice 2^32. |
| Md5.LengthWords | lib/libmd5sum/md5.c:109-112 | The two words appended at the end are 8 * bytes mod 2^64, low-order word first, as RFC 1321 section 3.2 asks. |
| Md5.CarriedPad | lib/libmd5sum/md5.c:101-107 | With b carried bytes, 0 to 64, the padding is that of RFC 1321 section 3.1 for the whole message. |
| Md5.Context.ProcessBlock | lib/libmd5sum/md5.c:257-413 | Any number of whole blocks extends the digested message by exactly those bytes: chaining value and byte count follow RFC 1321. |
| Md5.Context.ProcessBytes | lib/libmd5sum/md5.c:199-242 | The context afterwards stands for the old message with the buffer appended, and at most 64 bytes are carried, whatever was carried before. |
| Md5.Context.ReadContext | lib/libmd5sum/md5.c:74-85 | The result is the four registers, low-order byte first. |
| Md5.Context.Finish | lib/libmd5sum/md5.c:92-118 | For every message the 16 bytes are its RFC 1321 digest; what was digested to get them is the padded message, 64 or 128 bytes more than before. |
| Md5.Buffer | lib/libmd5sum/md5.c:180-196 | md5_buffer yields the RFC 1321 digest of the buffer. |
| Md5.Pieces | lib/libmd5sum/md5.c:199-242 | For every way of cutting a message into md5_process_bytes calls the result is the digest of the whole. |
| Md5.ReadBlock | lib/libmd5sum/md5.c:138-160 | The inner loop collects a full 4096-byte block, or all that is left, from any pattern of short reads, and tells a read error from the end of the file. |
| Md5.StreamDigest | lib/libmd5sum/md5.c:123-174 | md5_stream yields the digest of everything the file holds, for any pattern of short reads, and reports an error exactly when a read fails. |
| ObjectList.ListObject.Append | lib/libdvbsub/tools.cpp:102-106 | The next object is linked behind this one, in both directions. |
| ObjectList.ListObject.Insert | lib/libdvbsub/tools.cpp:108-112 | The previous object is linked in front of this one, in both directions. |
| ObjectList.ListObject.Unlink | lib/libdvbsub/tools.cpp:114-121 | The neighbours of the object are linked to one another and the object to nothing; the rest of the chain is kept. |
| ObjectList.ListObject.Index | lib/libdvbsub/tools.cpp:123-133 | Index counts the predecessors: it is the position in the chain, so it undoes Get. |
| ObjectList.ListBase.Add | lib/libdvbsub/tools.cpp:148-162 | An object is put behind a given one or at the end: the sequence gets it there and nowhere else, both chains stay inverse, head, tail and count are exact. |
| ObjectList.ListBase.Ins | lib/libdvbsub/tools.cpp:164-178 | The same in front of a given object or at the start. |
| ObjectList.ListBase.Detach | lib/libdvbsub/tools.cpp:180-186 | The object leaves the sequence; head, tail and both chains follow. |
| ObjectList.ListBase.Del | lib/libdvbsub/tools.cpp:180-191 | The sequence loses the object; the list stays well formed with an exact count if and only if the object is deleted as well, because only then is the count decremented. |
| ObjectList.ListBase.MoveObject | lib/libdvbsub/tools.cpp:198-220 | Moving an object to another place is removing it and putting it in at the target index; the list is still well formed if and only if the two objects differ. |
| ObjectList.ListBase.Move | lib/libdvbsub/tools.cpp:193-196 | Moving by index is "remove at i, insert at j"; indexes outside the list leave it alone. |
| ObjectList.ListBase.Clear | lib/libdvbsub/tools.cpp:222-231 | The list is empty, with count zero. |
| ObjectList.ListBase.Get | lib/libdvbsub/tools.cpp:233-241 | The object at an index, or none for an index outside the list. |
| ObjectList.ListBase.Sort | lib/libdvbsub/tools.cpp:250-267 | Sort leaves a well-formed list that is sorted, holds the same objects as often as before, and has the same count. |
| ObjectList.ListBase.Rebuild | lib/libdvbsub/tools.cpp:258-265 | The relinking loop turns the list into any given reordering of its objects. |
| ObjectList.ListBase.TakeOver | lib/libdvbsub/tools.cpp:261-264 | At each step the sorted chain and the chain of what remains share no object, and both are well formed. |
| ObjectList.MovedBack | lib/libdvbsub/tools.cpp:198-220 | Moving an object back undoes the move. |
| ObjectList.MovedAt | lib/libdvbsub/tools.cpp:198-220 | Where every object stands after a move: the moved one at the target, those between shifted by one, all others unmoved. |
| Hamming2418.CodewordChecks | lib/libtuxtxt/tuxtxt_def.h:187-248 | The six parity checks of the table are all clear exactly on the triplets that pass tests A to F of ETS 300 706 section 8.3. |
| Hamming2418.OneErrorCorrected | lib/libtuxtxt/tuxtxt_def.h:305-316 | For every codeword deh24 gives its data bits, and still does after any one of the 24 bits is inverted. |
| Hamming2418.TwoErrorsReported | lib/libtuxtxt/tuxtxt_def.h:305-316 | After any two bits of a codeword are inverted deh24 reports an error. |
| ExtensionPackets.RowCorrected | lib/libtuxtxt/tuxtxt_common.h:438-482 | When each triplet of a packet arrives with at most one wrong bit, the bits read are the bits sent. |
| ExtensionPackets.TripletLost | lib/libtuxtxt/tuxtxt_common.h:471-489 | Two wrong bits in any one triplet make the row unreadable. |
| ExtensionPackets.NextColor | lib/libtuxtxt/tuxtxt_common.h:469-482 | One round of the colour loop keeps the reservoir below 2^bitsleft and stores the next twelve bits of the stream as the next colour. |
| ExtensionPackets.ReadColors | lib/libtuxtxt/tuxtxt_common.h:466-489 | Colour k is bits 10 + 12k to 21 + 12k of the stream that starts at the second triplet; a negative reservoir is left exactly when one of the eleven triplets cannot be corrected, else fourteen bits are left. |
| ExtensionPackets.ReadHead | lib/libtuxtxt/tuxtxt_common.h:458-464 | The character sets, panel flags and panel columns are the fields in the first 28 bits. |
| ExtensionPackets.ReadTail | lib/libtuxtxt/tuxtxt_common.h:491-496 | Screen colour, row colour, black substitution and table remapping are the fields in the last fourteen bits. |
| ExtensionPackets.DecodeP2829 | lib/libtuxtxt/tuxtxt_common.h:438-497 | Packets 28 and 29: nothing changes when one of the first two triplets is unreadable; otherwise p28Received tells whether all thirteen are readable, and then every field is the one at its place in the stream. No byte behind the row is looked at. |
| ExtensionSender.EncodeIsCodeword | lib/libtuxtxt/tuxtxt_def.h:305-316 | Every 18 bits have a codeword: a sender that sets the parity bits so that tests A to F of ETS 300 706 section 8.3 hold, one after the other, yields one that carries them. |
| ExtensionSender.TripletsCarry | lib/libtuxtxt/tuxtxt_common.h:438-482 | The triplets a sender makes of a row of bits are codewords and carry exactly those bits. |
| ExtensionSender.ColorBack | lib/libtuxtxt/tuxtxt_common.h:466-482 | Colour k of the fields that are sent is at the place from which it is read. |
| ExtensionSender.FieldsBack | lib/libtuxtxt/tuxtxt_common.h:458-496 | The places at which the receiver looks for its fields are those at which a sender puts them. |
| ExtensionSender.DecodeSent | lib/libtuxtxt/tuxtxt_common.h:438-497 | End to end: whatever fields are sent, with up to one wrong bit in each of the thirteen triplets, the structure afterwards says the same fields and that the packet was received. |
| PageCompression.RoundTrip | lib/libtuxtxt/tuxtxt_common.h:63-81 | Decompressing what was compressed gives every page back, whatever its bytes. |
| PageCompression.OneByteForEachRun | lib/libtuxtxt/tuxtxt_common.h:67-73 | One mask bit and one stored byte for each run of equal bytes, in order. |
| PageCompression.NoStarts | lib/libtuxtxt/tuxtxt_common.h:110-120 | A mask of zeros stands for a page of spaces. |
| PageCompression.CachedPage.Compress | lib/libtuxtxt/tuxtxt_common.h:38-89 | The entry stands for exactly the buffer; the stored bytes are the run heads and as many as there are runs and set mask bits. |
| PageCompression.CachedPage.FillMask | lib/libtuxtxt/tuxtxt_common.h:64-73 | The loop sets exactly the mask bits of the positions where a run starts. |
| PageCompression.CachedPage.Decompress | lib/libtuxtxt/tuxtxt_common.h:90-127 | The buffer becomes the page the entry stands for, spaces if it has no data. |
| PageCompression.CachedPage.ZipSize | lib/libtuxtxt/tuxtxt_common.h:18-37 | The size is the number of set mask bits plus the 115 bytes of the mask. |
| TeletextCodes.OneBitCorrected | lib/libtuxtxt/tuxtxt_def.h:114-133 | The Hamming 8/4 table gives every data nibble back after any one bit of its codeword is inverted. |
| TeletextCodes.ParityChecked | lib/libtuxtxt/tuxtxt_def.h:136-153 | Each seven-bit character, sent with an eighth bit that makes the number of set bits odd, is read as it was sent, and as a space after any one of its bits was inverted. |
| TeletextPackets.RunValid | lib/libtuxtxt/tuxtxt_common.h:586-773 | After every sequence of packets the page each magazine is sending is in the map and belongs to that magazine, so live pages of different magazines never alias. |
| TeletextPackets.StepTouchesOnePage | lib/libtuxtxt/tuxtxt_common.h:621-773 | A packet changes no image but that of the page its own magazine is sending. |
| TeletextPackets.MagazinesIndependent | lib/libtuxtxt/tuxtxt_common.h:586-773 | However the packets of the magazines are interleaved, each magazine has the pages and images its own packets alone would give. |
| TeletextPackets.RowsAsReceived | lib/libtuxtxt/tuxtxt_common.h:744-773 | Until the next header of its magazine every row of a page is the last copy received, decoded, or what it was before. |
| TeletextCache.WriteBackShows | lib/libtuxtxt/tuxtxt_common.h:621-622 | Writing a live buffer back into its entry changes no image. |
| TeletextCache.LeaveShows | lib/libtuxtxt/tuxtxt_common.h:630-663 | A header with a bit error in its page or subpage number, or for page xFF, changes no image and leaves its magazine without a page. |
| TeletextCache.OpenShows | lib/libtuxtxt/tuxtxt_common.h:670-707 | A header keeps the image of its page, or makes it blank when the page is new or control bit C4 is set, and touches no other image. |
| TeletextCache.StoreShows | lib/libtuxtxt/tuxtxt_common.h:750-773 | Row n of the page being sent replaces row n of its image and nothing else. |
| TeletextCache.Cache.CompressPage | lib/libtuxtxt/tuxtxt_common.h:38-89 | The entry of the page a magazine is sending takes over the live buffer; no other entry changes. |
| TeletextCache.Cache.AllocateCache | lib/libtuxtxt/tuxtxt_common.h:518-534 | A page without an entry gets a blank one of its own, and the number of cached pages stays the number of entries. |
| TeletextCache.Cache.OpenPage | lib/libtuxtxt/tuxtxt_common.h:670-707 | Current page, last subpage, entry and live buffer after a header are those of the abstract step. |
| TeletextCache.Cache.ReadHeader | lib/libtuxtxt/tuxtxt_common.h:627-733 | The header row is followed exactly as it parses, error cases included. |
| TeletextCache.CopyLine | lib/libtuxtxt/tuxtxt_common.h:750-772 | Forty bytes go to row n of the buffer, with parity removed for decimal pages, Hamming-decoded for xFE pages, and as sent for others; nothing else in the buffer changes. |
| TeletextCache.Cache.Receive | lib/libtuxtxt/tuxtxt_common.h:586-1017 | One row makes the cache show what the packet in it makes of a simple map of 23-row pages; the cache stays consistent: the page of every magazine is allocated, every last subpage names an allocated page, the count is exact. |
| TeletextCache.Cache.CacheThread | lib/libtuxtxt/tuxtxt_common.h:586-1017 | The same for every sequence of rows. |
| TeletextSender.HeaderBack | lib/libtuxtxt/tuxtxt_common.h:627-733 | A header sent with Hamming 8/4 codes, at most one bit of each byte wrong, announces the page, the subpage and the control bit C4 it was sent with. |
| TeletextSender.HeaderLostExactly | lib/libtuxtxt/tuxtxt_common.h:630-670 | A header announces no page exactly when one of its six bytes cannot be corrected or it has the number FF. |
| TeletextSender.TextBack | lib/libtuxtxt/tuxtxt_common.h:750-772 | Forty characters of odd parity are read as sent, each with a wrong bit as a space; on page FE of a magazine forty codes of four bits; on other hexadecimal pages the bytes themselves. |
| TeletextSender.PageBack | lib/libtuxtxt/tuxtxt_common.h:586-772 | A page as it is sent is a page as it is shown: for every stream of rows behind its header, other magazines in between, each of the 23 rows is the last copy of it, and otherwise what it was, or spaces for a new or erased page. |
| TeletextSender.ReceivePage | lib/libtuxtxt/tuxtxt_common.h:586-1017 | End to end: the cache shows each page character by character as it was sent. |
| TeletextCache.Cache.UpdateShown | lib/libtuxtxt/tuxtxt_common.h:1009-1017 | When the page a magazine is sending is on the screen its entry is brought up to date, and no image changes. |
| PageNumbers.PlacesDiffer | lib/libtuxtxt/tuxtxt_common.h:128-159 | Decimal pages are numbered without collisions. |
| PageNumbers.NextDec | lib/libtuxtxt/tuxtxt_common.h:128-140 | From each decimal page to the next one, and from the last to the first. |
| PageNumbers.PrevDec | lib/libtuxtxt/tuxtxt_common.h:142-154 | From each decimal page to the one before, so it undoes the step up. |
| PageNumbers.GetSubPage | lib/libtuxtxt/tuxtxt_common.h:317-344 | Under the condition that ends the search, the result is the first cached subpage met going round, or the given one when there is no other. |
| PageNumbers.Endless | lib/libtuxtxt/tuxtxt_common.h:322-338 | Without that condition, for a subpage above 0x79 with nothing cached up to 0x79, the loop never ends. |
| TextFiles.GetLines | lib/libnet/network_interfaces.cpp:46-47 | The getline loop yields the lines of the text, a last one without line end included. |
| TextFiles.PutLines | lib/libnet/network_interfaces.cpp:59-60 | Each line and a line end behind it. |
| TextFiles.LinesBackExactly | lib/libnet/network_interfaces.cpp:36-63 | Lines that were written are read back as they are, exactly when none of them has a line end in it. |
| NetworkInterfaces.WrittenAreLines | lib/libnet/network_interfaces.cpp:100-215 | No settings made of words put a line end into a line of the file. |
| NetworkInterfaces.AddAttributes | lib/libnet/network_interfaces.cpp:65-74 | The attribute lines go in front of the position, in key order. |
| NetworkInterfaces.RemoveInterfaceFromLine | lib/libnet/network_interfaces.cpp:76-98 | The line without the name, its other words kept in order; empty when no name is left. |
| NetworkInterfaces.RemoveAttributes | lib/libnet/network_interfaces.cpp:172-199 | Everything up to the next stanza word goes, except blank lines and comments. |
| NetworkInterfaces.EditLines | lib/libnet/network_interfaces.cpp:108-200 | The editing loop, with iterators that insert and erase, gives the specified rewriting of the line list. |
| NetworkInterfaces.InterfacesFile.WriteInterface | lib/libnet/network_interfaces.cpp:100-215 | write_interface leaves exactly the text of the specified lines, which is read back as those lines, or the old text when the file cannot be opened. |
| NetworkInterfaces.InterfacesFile.ReadInterface | lib/libnet/network_interfaces.cpp:217-309 | read_interface reports the automatic start flag, family, method and attributes that the line automaton finds in the lines of the text; family and method stay as they were when the name has no stanza. |
| InterfacesTheorems.RoundTrip | lib/libnet/network_interfaces.cpp:100-309 | For every prior file in which erasing an auto line exposes nothing, reading back gives exactly what was written, whatever duplicate stanzas and shared auto lines the file had. |
| InterfacesTheorems.RoundTripExactly | lib/libnet/network_interfaces.cpp:100-309 | Reading back works for all settings if and only if no erased auto line exposes a line of two or more words behind a stanza of the name. |
| InterfacesTheorems.IdempotentExactly | lib/libnet/network_interfaces.cpp:100-215 | A second identical write changes nothing, exactly when the first one exposed no line. |
| InterfacesTheorems.FrameExactly | lib/libnet/network_interfaces.cpp:100-309 | What is read for any other name is unchanged: start flag, family and method always, and the attribute map exactly when no line exposed behind a stanza of that name assigns a key last of all with a value other than the last one not exposed. |
| InterfacesTheorems.OtherReader | lib/libnet/network_interfaces.cpp:100-309 | The exact assignments another name gets from the edited file, told from the old lines alone: its own as before, and among them those of the exposed lines. |
| InterfacesTheorems.SameMapExactly | lib/libnet/network_interfaces.cpp:217-309 | Two sequences of assignments, with and without the exposed ones, come to the same map exactly when no exposed one is the last of its key with a value that differs from the last one not exposed. |
| InterfacesTheorems.NeighbourFails | lib/libnet/network_interfaces.cpp:108-309 | A concrete file in which plain DHCP settings for eth0 give eth1 an address. |
| InterfacesTheorems.NoteIsIgnored | lib/libnet/network_interfaces.cpp:176-187 | In terms of characters: the loops pass over exactly the lines in which nothing is visible or a hash is visible first. |
| InterfacesTheorems.NotesKept | lib/libnet/network_interfaces.cpp:108-200 | Every line in which nothing is visible or a hash is visible first is kept as it is, in order, and none is added. |
| InterfacesTheorems.HeadingsKept | lib/libnet/network_interfaces.cpp:108-200 | Every line that opens a mapping or a stanza of another interface is kept as it is, in order, and none is added. |
| InterfacesTheorems.KeysReported | lib/libnet/network_interfaces.cpp:279-307 | No attribute that is reported starts with a hash, and none is iface, auto or mapping. |
| InterfacesTheorems.NewFile | lib/libnet/network_interfaces.cpp:202-213 | The text that is written for settings alone: start line, header, and a line with a tab for each attribute. |
| InterfacesTheorems.OrphanFails | lib/libnet/network_interfaces.cpp:108-309 | A concrete file with an attribute line directly behind an auto line for which round trip and idempotence both fail. |
| Tokenizer.WordsOfSpaced | lib/libnet/network_interfaces.cpp:76-98 | Words joined with one blank between them are read back as the same words. |
| LengthFields.WriteLengthField | lib/connection/messagetools.cpp:26-55 | The bytes of EN 50221 section 7.1 for every length below 2^24, in the buffer from its start, nothing else changed. |
| LengthFields.ParseLengthField | lib/connection/messagetools.cpp:57-79 | The length a field says, for every field, modulo 2^32. |
| LengthFields.GetLengthFieldSize | lib/connection/messagetools.cpp:81-96 | The number of bytes the writer writes. |
| LengthFields.RoundTrip | lib/connection/messagetools.cpp:26-79 | The reader inverts the writer for every length below 2^24, whatever bytes follow. |
| LengthFields.ParseLength | lib/libazbox/dvbci_session.cpp:57-80 | The size of the field, and its length as the signed number the program gets. |
| LengthFields.BuiltRoundTrip | lib/libazbox/dvbci_session.cpp:27-80 | parseLengthField inverts buildLengthField for every length below 65535, whatever bytes follow. |
| LengthFields.BuiltShortest | lib/libazbox/dvbci_session.cpp:27-55 | A length is written in as few bytes as can be, exactly unless it is 127. |
| LengthFields.DecodersAgree | lib/libazbox/dvb-ci.cpp:128-156 | asn_1_decode agrees with the other readers on fields of one, two and three bytes that are all there, and rejects everything else. |
| CommonInterfaceFrames.ApdusBack | lib/libazbox/dvbci_session.cpp:82-97 | Application units as sendAPDU builds them are found again one by one with nothing left over; the correction of short remainders never applies to them. |
| CommonInterfaceFrames.AllApdusExactly | lib/libazbox/dvbci_session.cpp:399-428 | The loop over a payload stays in it and ends at its end exactly when the payload is made of whole units side by side, each with a length field that says how long its body is; the last one may say one or two bytes less. |
| CommonInterfaceFrames.CutBack | lib/libazbox/dvbci_session.cpp:399-428 | And then the units found are those, with their exact bodies. |
| CommonInterfaceFrames.TakenInWords | lib/libazbox/dvbci_session.cpp:411-418 | The correction of a short length, in unsigned words as the program computes it, applies exactly when one or two bytes would be left over. |
| CommonInterfaceFrames.OverrunsAt | lib/libazbox/dvbci_session.cpp:399-428 | A unit that announces 127 bytes and has none, and payloads of one or two bytes, are not taken apart to their end. |
| CommonInterfaceFrames.SpduBack | lib/libazbox/dvbci_session.cpp:110-136 | The session unit that sendSPDU builds is read back with its tag, session number and payload. |
| CommonInterfaceFrames.OpenBack | lib/libazbox/dvbci_session.cpp:337-349 | An open request is read as its four resource bytes. |
| CommonInterfaceFrames.MalformedAt | lib/libazbox/dvbci_session.cpp:350-357 | A close request without room for a session number is one whose number lies behind its end. |
| CommonInterfaceFrames.TpdusBack | lib/libazbox/dvb-ci.cpp:515-551 | Whole transport units in one read are found again one by one, in each of the three forms of their length, and nothing is left of the read. |
| CommonInterfaceFrames.PiecesBack | lib/libazbox/dvb-ci.cpp:501-551 | The same for read after read, behind the slot and connection number of each. |
| CommonInterfaceFrames.MessageReassembled | lib/libazbox/dvb-ci.cpp:324-393 | However a message is cut into T_DATA_MORE units and a T_DATA_LAST unit, with other units between them, exactly the concatenated bodies are passed on and the buffer is empty again. |
| CommonInterfaceFrames.MessagesReassembled | lib/libazbox/dvb-ci.cpp:324-393 | The same for message after message. |
| CommonInterfaceFrames.LettersRead | lib/libazbox/dvbci_session.cpp:317-437 | Messages as sendAPDU and sendSPDU build them are read as exactly their sessions and units. |
| CommonInterface.SessionTable.CreateSession | lib/libazbox/dvbci_session.cpp:194-274 | A session gets the lowest free number; 0xF3 when all 255 are taken, 0xF0 for an unknown resource, and then the table is unchanged. |
| CommonInterface.SessionTable.DeleteSessions | lib/libazbox/dvbci_session.cpp:179-192 | Exactly the sessions of the slot are gone. |
| CommonInterface.SessionTable.PollAll | lib/libazbox/dvbci_session.cpp:289-315 | The first session that is due acts, if there is one: one being closed sends its close response and goes, any other does what its resource wants; no other session changes and no open session is lost. |
| CommonInterface.SessionTable.PollOne | lib/libazbox/dvbci_session.cpp:293-311 | One turn of the loop: whether the session is due, and what becomes of it; all others stay as they are. |
| CommonInterface.SessionTable.DeliverApdus | lib/libazbox/dvbci_session.cpp:399-428 | The loop ends at the end of the payload exactly when the payload is whole units and nothing else, and then the session was given exactly those, in order, and its state is what its resource makes of them. Otherwise they come first, and what follows is found outside the payload. |
| CommonInterface.SessionTable.ReceiveOpen | lib/libazbox/dvbci_session.cpp:337-349 | An open request is answered with the lowest free number and the session is open, or with zero and the reason, and then nothing changes; whole units in the request go to the new session. |
| CommonInterface.SessionTable.ReceiveAddressed | lib/libazbox/dvbci_session.cpp:350-387 | Data, create responses and close requests reach the addressed session only; unknown numbers get nothing. After a close request made of whole units the session is being closed exactly when none of them makes its resource move to a state of its own. |
| CommonInterface.StaysClosing | lib/libazbox/dvbci_resmgr.cpp:16-50 | A session stays marked for closing over any units exactly when none of them is one to which its resource answers by setting a state of its own. |
| CommonInterface.ReopenedAt | lib/libazbox/dvbci_resmgr.cpp:18-29 | A close request that carries a profile enquiry leaves a session of the resource manager open. |
| CommonInterface.SessionTable.ReceiveData | lib/libazbox/dvbci_session.cpp:317-437 | Whole units for an open session are delivered to it and change no session; open and close requests have the outcomes above; nothing is promised for a unit that points behind its end. |
| CommonInterface.Slot.ProcessTpdu | lib/libazbox/dvb-ci.cpp:296-393 | T_DATA_MORE collects, T_DATA_LAST passes on what was collected and clears it, other units leave it alone. |
| CommonInterface.Slot.ReadTpdus | lib/libazbox/dvb-ci.cpp:515-551 | The loop over one read feeds exactly its whole units, in order; the bytes left are those behind them. |
| CommonInterface.Slot.ReadAll | lib/libazbox/dvb-ci.cpp:501-551 | The same over read after read. |
| CommonInterface.Slot.ReadLetters | lib/libazbox/dvb-ci.cpp:501-551 | From bytes to sessions: whatever is sent to open sessions as built by sendAPDU and sendSPDU, cut into fragments in any way, with other units between, over any number of reads and with every form of length: each session is given exactly its units, once, in order, with their exact bodies, and nothing is left of a read or in the buffer. |
| CommonInterface.OpenOnTheLink | lib/libazbox/dvb-ci.cpp:515-551 | Literal bytes: a unit with an open request on the link, and the same in two units. |
| CommonInterface.SessionUnits | lib/libazbox/dvbci_session.cpp:110-136 | Literal bytes: open request and answer, data, close request and answer. |
| CommonInterface.Resources | lib/libazbox/dvbci_session.cpp:223-252 | The five resource identifiers for which there are sessions, and no others. |
| RingBuffers.SpaceShared | src/driver/ringbuffer.c:87-117 | What can be read and what can be written add up to the size less one. |
| RingBuffers.FillUnseen | src/driver/ringbuffer.c:263-297 | Filling free cells does not change what can be read. |
| RingBuffers.AdvanceShows | src/driver/ringbuffer.c:212-216 | Advancing the write position appends exactly the cells passed. |
| RingBuffers.ReadStretch | src/driver/ringbuffer.c:202-256 | The cells from the read position on are the front of what can be read, and advancing drops them. |
| RingBuffers.VectorCovers | src/driver/ringbuffer.c:223-258 | The two stretches are as long together as what was asked for; the second is used only when the first ends with the ring. |
| RingBuffers.VectorShows | src/driver/ringbuffer.c:223-258 | The two stretches of the vector for reading show exactly the contents. |
| RingBuffers.PushShows | src/driver/ringbuffer.c:164-200 | ringbuffer_write appends as many of the bytes as there is room for, across the wrap. |
| RingBuffers.AndIsRemainder | src/driver/ringbuffer.c:33-51 | Masking with the size less one is the remainder by the size, since the size is a power of two. |
| RingBuffers.RingBuffer.constructor | src/driver/ringbuffer.c:33-51 | At least the size asked for, rounded up to a power of two, and nothing to read. |
| RingBuffers.RingBuffer.ReadSpace | src/driver/ringbuffer.c:87-98 | The number of bytes that can be read. |
| RingBuffers.RingBuffer.WriteSpace | src/driver/ringbuffer.c:104-117 | The number of bytes that can be written. |
| RingBuffers.RingBuffer.GetReadVector | src/driver/ringbuffer.c:223-256 | One stretch, or two across the end, of exactly what can be read. |
| RingBuffers.RingBuffer.GetWriteVector | src/driver/ringbuffer.c:263-297 | One stretch, or two across the end, of exactly what can be written. |
| RingBuffers.RingBuffer.ReadAdvance | src/driver/ringbuffer.c:204-208 | The read position moves on, across the end. |
| RingBuffers.RingBuffer.WriteAdvance | src/driver/ringbuffer.c:212-216 | The write position moves on, across the end. |
| RingBuffers.RingBuffer.Write | src/driver/ringbuffer.c:164-200 | As many of the bytes as there is room for are appended to what can be read, and their number is returned. |
| Recorder.SplitTodo | lib/libazbox/record_cs.cpp:247-261 | The two signed numbers of the source split the bytes wanted over the two parts of the vector, or find that there is no room, which is so exactly when more are wanted than both parts hold. |
| Recorder.PlannedExactly | lib/libazbox/record_cs.cpp:247-261 | A plan is made exactly when there is room, for all the bytes wanted, from the start of the vector on, the second part only when the first is full. |
| Recorder.SyncByteOffset | lib/libazbox/record_cs.cpp:42-51 | The position of the first 0x47, or -1. |
| Recorder.TakeKeeps | lib/libazbox/record_cs.cpp:90-300 | Every atomic step of either thread, those inside ringbuffer_write included, keeps the invariant: what is in the file, in the ring and on its way into the ring is, in this order, the stream read so far. |
| Recorder.PanicsExactly | lib/libazbox/record_cs.cpp:231-261 | The recording is given up for want of space exactly when fewer bytes are free than wanted, or when the first read does not fit. |
| Recorder.MeasuredExactly | src/driver/ringbuffer.c:164-200 | ringbuffer_write stores as many of the bytes as there is space for, from the first on. |
| Recorder.PlanCarriedOut | lib/libazbox/record_cs.cpp:245-300 | With room for n bytes exactly n are read for a plan, in any pieces and whatever the file thread does, and the next plan is made exactly when all of them are read and announced. |
| Recorder.LookCarriedOut | lib/libazbox/record_cs.cpp:100-150 | After a look that finds n bytes exactly these are written, in any pieces, and the next look comes exactly when all of them are written and released. |
| Recorder.FileIsPrefix | lib/libazbox/record_cs.cpp:90-300 | In every interleaving, with partial reads and writes and both parts of the vectors across the wrap, the file is a beginning of the stream from its first 0x47 on, and todo + todo2 never exceeds the free space. |
| Recorder.WholeWhenEmpty | lib/libazbox/record_cs.cpp:245-300 | The file is the whole stream read so far exactly when the ring is empty and nothing is on its way into it. |
| Recorder.EndsComplete | lib/libazbox/record_cs.cpp:90-300 | Over whole runs: a file thread that ends by the exit flag found the ring empty at its last look, and the file is the whole stream if and only if at that look nothing was on its way into the ring and no read after it brings bytes of the stream. |
| Recorder.StreamGrows | lib/libazbox/record_cs.cpp:193-300 | The stream only grows, exactly with the reads that bring bytes of it. |
| Recorder.NeverEnds | lib/libazbox/record_cs.cpp:100-150 | A file thread whose last look found something does not end by the exit flag. |
| Recorder.TailLost | lib/libazbox/record_cs.cpp:100-150 | A run in which the recording is stopped between the look at the ring and the look at the flag, and the end of it is lost. |
| Bitmaps.Palette.ClosestColor | lib/libdvbsub/osd.cpp:134-154 | The first of the colours with the least sum of byte differences, or -1 if and only if twice that sum is above the limit for all of them. |
| Bitmaps.DifferenceIsDistance | lib/libdvbsub/osd.cpp:143-147 | The weighted difference is twice the sum of the differences of the four bytes of the colours, alpha included. |
| Bitmaps.OnlyEqual | lib/libdvbsub/osd.cpp:143-147 | It is zero only for equal colours. |
| Bitmaps.Palette.Index | lib/libdvbsub/osd.cpp:44-63 | No entry in use changes; with room left the four bytes of the colour shown differ from those wanted by two in all at most; at most one entry is added. |
| Bitmaps.Palette.Take | lib/libdvbsub/osd.cpp:91-105 | No index already handed out changes its colour; with room for all, the four bytes of each colour differ from those wanted by two in all at most. |
| Bitmaps.Palette.Replace | lib/libdvbsub/osd.cpp:107-113 | The palette has the number of colours of the other one and its entries as far as it has room; what lies behind is what was there. |
| Bitmaps.CopyExactly | lib/libdvbsub/osd.cpp:107-113 | The copy has the colours of the other one exactly when those for which there is no room were there before. |
| Bitmaps.Bitmap.SetIndex | lib/libdvbsub/osd.cpp:170-183 | One pixel inside the bitmap is set and no other changes; after Clean the dirty rectangle is exactly the bounding box of the pixels changed. |
| Bitmaps.Bitmap.Clean | lib/libdvbsub/osd.cpp:275-281 | From now on nothing is dirty. |
| Bitmaps.Bitmap.Dirty | lib/libdvbsub/osd.cpp:263-273 | Whether any pixel changed since Clean, and the rectangle. |
| Bitmaps.Bitmap.CopyPixels | lib/libdvbsub/osd.cpp:224-232 | Exactly the pixels under the other bitmap that are not left out as overlay are copied, through the table. |
| Bitmaps.Bitmap.DrawBitmap | lib/libdvbsub/osd.cpp:208-235 | Copying with room in the palette, or over all of a bitmap, changes the four bytes of no colour shown by more than two in all, whatever the depths; with a replaced palette the indexes are exact; pixels outside the drawing stay. |
| Bitmaps.Bitmap.ShownColors | lib/libdvbsub/osd.cpp:91-105 | With a foreground or background colour the first two colours of the other bitmap are shown as the background and the foreground, all others as they are. |
| Bitmaps.Bitmap.CoversExactly | lib/libdvbsub/osd.cpp:244-251 | Covers tells exactly whether every pixel lies in the rectangle. |
| Bitmaps.Bitmap.IntersectsExactly | lib/libdvbsub/osd.cpp:254-261 | Intersects tells exactly whether some pixel does. |
| SubtitleStrings.SymbolBack | lib/libdvbsub/dvbsubtitle.cpp:283-327 | Each of the codes of ETSI EN 300 743 section 7.2.5.2 is read as its run. |
| SubtitleStrings.StringBack | lib/libdvbsub/dvbsubtitle.cpp:175-182 | A string of codes and its end code are read as exactly the pixels encoded. |
| SubtitleStrings.LineBack | lib/libdvbsub/dvbsubtitle.cpp:165-204 | A line is read as one stroke, the reader is byte aligned behind it, and the next line starts at the left, two lines down. |
| SubtitleStrings.FieldBack | lib/libdvbsub/dvbsubtitle.cpp:165-204 | A field written line by line is read back line by line. |
| SubtitleStrings.TwoBitsExactly | lib/libdvbsub/dvbsubtitle.cpp:217-226 | A 2-bit string is seen as it was stored exactly when each of its bytes starts with the two bits with which the one before it starts. |
| SubtitleStrings.FifthPixelWrong | lib/libdvbsub/dvbsubtitle.cpp:217-281 | Four pixels of colour 1 and one of colour 2 are read as five of colour 1. |
| SubtitleStrings.SymbolBack2 | lib/libdvbsub/dvbsubtitle.cpp:242-277 | Each code of the standard for 2-bit pixels, seen as it was stored, is read as its run. |
| SubtitleStrings.AlikeStringBack | lib/libdvbsub/dvbsubtitle.cpp:167-174 | A stored 2-bit string whose bytes all start with the same two bits is read as its pixels. |
| SubtitleStrings.TableSkipped | lib/libdvbsub/dvbsubtitle.cpp:189-200 | Map tables are skipped; behind one from 2-bit to 4-bit pixels two bytes too many are. |
| SubtitleStrings.StringBack8 | lib/libdvbsub/dvbsubtitle.cpp:329-347 | An 8-bit string is never read as more pixels than were encoded, and as exactly those if and only if no run length has one of the bits 0x1c. |
| SubtitleObjects.SubtitleObject.DrawLine | lib/libdvbsub/dvbsubtitle.cpp:207-215 | A run is painted at the offset of the object, clipped by the bitmap; nothing else changes, and nothing at all for colour 1 under the non-modifying flag. |
| SubtitleObjects.SubtitleObject.Get4Bits | lib/libdvbsub/dvbsubtitle.cpp:228-240 | The high half of a byte, then its low half; the position advances by one half byte. |
| SubtitleObjects.SubtitleObject.Get2Bits | lib/libdvbsub/dvbsubtitle.cpp:217-226 | Two bits from the high end of a byte on; the first two of every byte but the first of a string are those of the byte in front of it. |
| SubtitleObjects.SubtitleObject.ReadCode2 | lib/libdvbsub/dvbsubtitle.cpp:242-280 | The decision tree for 2-bit pixels yields the code at the position and moves behind it. |
| SubtitleObjects.SubtitleObject.ReadCode4 | lib/libdvbsub/dvbsubtitle.cpp:283-323 | The decision tree for 4-bit pixels yields the code at the position and moves behind it. |
| SubtitleObjects.SubtitleObject.ReadCode8 | lib/libdvbsub/dvbsubtitle.cpp:329-345 | The decision tree for 8-bit pixels yields the code at the position, its run length masked with 0x63, and moves behind it. |
| SubtitleObjects.SubtitleObject.DecodeString | lib/libdvbsub/dvbsubtitle.cpp:167-188 | A string of any of the three kinds is painted as one stroke; the position is behind it, and behind the byte for 4-bit pixels. |
| SubtitleObjects.SubtitleObject.DecodeSubBlock | lib/libdvbsub/dvbsubtitle.cpp:161-205 | The strokes of one field are painted and nothing else, for every block; the loop ends. |
| SubtitleObjects.SubtitleObject.DecodePixels | lib/libdvbsub/dvbsubtitle.cpp:1136-1146 | Top field, then bottom field, or the top field again when the bottom field is empty. |
| SubtitleObjects.SubtitleObject.DecodeObject | lib/libdvbsub/dvbsubtitle.cpp:1136-1146 | For an object encoded per the standard the region shows it afterwards, pixel by pixel, an empty bottom field as the top field once more, and elsewhere what it showed before. |
| SubtitleObjects.FieldDrawn | lib/libdvbsub/dvbsubtitle.cpp:161-215 | A field encoded per the standard colours exactly its own pixels. |
| SubtitleObjects.ObjectRebuilt | lib/libdvbsub/dvbsubtitle.cpp:161-327 | An object encoded per the standard is rebuilt at its offset: every pixel of the region shows the object where it has a colour that is not kept back, and otherwise what it showed before. |
| SubtitleAssembler.SegmentsBehind | lib/libdvbsub/dvbsubtitle.cpp:605-616 | Whole segments at the front of a stream are its first segments whatever follows. |
| SubtitleAssembler.Assembler.Put | lib/libdvbsub/dvbsubtitle.cpp:590-624 | A fragment is appended; nothing already there or already returned changes. |
| SubtitleAssembler.Assembler.Get | lib/libdvbsub/dvbsubtitle.cpp:605-616 | The next complete segment, or none exactly when none is complete yet. |
| SubtitleAssembler.Assembler.NothingLost | lib/libdvbsub/dvbsubtitle.cpp:584-624 | After any order of Put and Get the segments returned and those still to come are the segments of the whole stream, in order. |
| SubtitleAssembler.Assembler.Drain | lib/libdvbsub/dvbsubtitle.cpp:861-870 | The loop ends, and unless it is stopped by a segment it has returned all complete segments of the stream. |
| SubtitleAssembler.SegmentIsWhole | lib/libdvbsub/dvbsubtitle.cpp:605-616 | A segment laid out as in ETSI EN 300 743 section 7.2 has the length the assembler reads from it. |
| SubtitleAssembler.SegmentsBack | lib/libdvbsub/dvbsubtitle.cpp:590-624 | The segments of a stream are those that were sent, for every list of them. |
| SubtitleAssembler.ConvertFragment | lib/libdvbsub/dvbsubtitle.cpp:847-872 | The data of a packet goes behind the stream, without the two bytes in front of the first segment, and unless it is stopped all complete segments are handed on. |
| SubtitleAssembler.ConvertPackets | lib/libdvbsub/dvbsubtitle.cpp:847-872 | However packets cut a list of segments, exactly that list is handed on when no segment is refused. |
| SubtitleAssembler.KeptExactly | lib/libdvbsub/dvbsubtitle.cpp:854-858 | The data of a packet is put in as it is exactly when it is empty, or has more than three bytes and does not start with 20 00 0f. |
| BitFields.GetBits | lib/libdvbsub/helpers.cpp:6-34 | For every buffer, offset and length up to 24, the bits from the offset on as a number, most significant first. |
| BitFields.FieldOfWindow | lib/libdvbsub/helpers.cpp:32-33 | Shifting out the bits behind a field and masking those before it leaves the field. |
| BitFields.ReadStamp | lib/libdvbsub/dvbsub.cpp:322-324 | The 33-bit time stamp laid out as in ISO/IEC 13818-1 section 2.4.3.6 is read back. |
| BitFields.ReadTime | lib/libdvbsub/dvbsub.cpp:319-327 | A packet whose flags announce a time stamp yields it; any other yields zero, however short it is behind its flags. |
| SubtitleReader.SyncIsFirst | lib/libdvbsub/dvbsub.cpp:188-210 | No start code lies before the place where the reader syncs. |
| SubtitleReader.SyncIsThere | lib/libdvbsub/dvbsub.cpp:188-210 | And there is one at that place. |
| SubtitleReader.Sync | lib/libdvbsub/dvbsub.cpp:184-210 | The sliding window finds the first 00 00 01 under any pattern of short reads and loses no byte behind it. |
| SubtitleReader.ReadPacket | lib/libdvbsub/dvbsub.cpp:183-257 | One turn yields the next packet of the stream, or says that there is none or that its 16-bit length wraps. |
| SubtitleReader.ReaderThread | lib/libdvbsub/dvbsub.cpp:183-257 | While not paused, the packets queued are exactly the greedy sequence of packets from each next start code on, for every stream and every pattern of reads, up to the first whose length field is above 65529, if any. |
| SubtitleReader.PacketsBack | lib/libdvbsub/dvbsub.cpp:183-257 | The packets found in a stream are those that were sent, with any bytes between them in which no start code begins. |

## Left out

- User interface, menus, settings, device control, sockets, HTTP and the message dispatcher: nothing in them is
  self-contained. Reads and writes of devices and files appear as byte sequences that come in arbitrary pieces.
- Failing memory allocation: every allocation succeeds. A block of size zero is an empty block.
- md5_file, and the table of sines as a formula: the 64 constants are listed as the standard prints them.
- The C library's qsort is a method that returns some sorted permutation.
- Teletext: the header text and time string, national option and boxed flags, packets 24 to 27 and 30, the TOP tables,
  the update flag and the subpage being shown. They do not touch the images of rows 1 to 23. The page being shown comes
  with each row, since another thread chooses it.
- Teletext: one run of the cache thread from a cleared cache. A thread that is stopped and started again on the same
  stream keeps the current pages but not the live buffers; that case is not modelled.
- Teletext: rows arrive with their bits already in transmission order reversed, and only those with a teletext framing
  code.
- TeletextCodes.Deparity: is defined by the parity of the byte where the source lists a table of 256 entries with the
  same values.
- PageNumbers.GetSubPage: steps of one subpage up or down only, the two the search is made for.
- Common interface: what the resources do with a unit, beyond the state it leaves their session in, and what they send
  when they act, is arbitrary. The order of the send queue, transport connection set-up and host transport headers of
  128 bytes or more are not modelled.
- CommonInterface.SessionTable.ReceiveData: promises nothing for a unit with parts that would lie behind its end. The
  source reads on there, so that any request at all may come of it, and the model takes any.
- CommonInterface.SessionTable.DeliverApdus: a loop that has left its payload hands on any units, any number of times; a
  crash, or that it may never end, is not modelled.
- Bitmaps.Bitmap.DrawBitmap: a pixel whose index lies behind the colours of its palette becomes anything, as the source
  leaves that part of its table unset. Blending and anti-aliasing are not modelled.
- SubtitleObjects.SubtitleObject.DecodeSubBlock: the map tables are skipped as in the source.
- SubtitleStrings.AlikeStringBack: says when a 2-bit string is read as its pixels and not when it is not; units that are
  seen wrongly may come to the same pixels.
- SubtitleObjects.SubtitleObject.Get4Bits: bytes behind the end of a block read as zero. Operands of one sum are read
  from left to right, an order the language leaves open.
- SubtitleAssembler.ConvertFragment: when the assembler is reset, and where the data of a packet starts, is not modelled.
- Region, page and display-set handling of the subtitle decoder, and the colour conversion.
- SubtitleReader.ReaderThread: ends when everything has arrived, where the source waits or is paused. Threads, queues
  and condition variables are not modelled.
- BitFields.ReadTime: asks for nine bytes, and for 15 when the flags announce a time stamp, which the source does not
  check.
- BitFields.GetBits: fields of more than 24 bits, which its callers do not use.
- Md5.Context.ProcessBytes: calls with 2^32 bytes or more, which a platform with 32-bit sizes does not have.
- LengthFields.WriteLengthField: lengths from 2^24 on, where the source shifts a 32-bit value by 32.
- The two loops of the recorder are given as their atomic steps and not as loops, because they interleave. Locks and memory
  ordering are not modelled; each read, write, copy and pointer update, with its mask, is one atomic step. Time-outs and
  device errors are the step that clears the running flag. Splitting of files is not modelled.
