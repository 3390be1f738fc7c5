# Warp Pipe in Dafny

Warp Pipe carries PCI Express transactions over a byte stream. Two endpoints exchange transaction
layer packets (requests and completions) and data link layer packets (ACK and NAK), and together they
make the memory behind a remote BAR look like local memory. This project models the protocol code and
proves that it does.

The results build on each other:

1. **Codec and seal** (`Bits`, `Crc`, `CrcValues`, `Division`, `Proto`, `Seal`). Address, length and byte
   enables round-trip exactly when the format can carry them; the CRC is the remainder of dividing by the
   generator the standard names, is linear, has a fixed residue, given as a number, and detects every burst
   as wide as itself.
2. **Stream** (`Frames`, `Framing`). Concatenated frames are split back into themselves; a corrupted
   frame causes a NAK and nothing else; every frame fits the memory allocated for it.
3. **Endpoint** (`Endpoint`, `Client`). `Endpoint` says what a client does with a request or with the
   bytes that wait in its socket; `Client` is the object updated in place, proved against it for every
   way `send` and `recv` can split or fail. What the next calls of `send` and `recv` will do is a field of
   the object that no method chooses, so success is stated as exactly as failure.
4. **Two endpoints** (`MemoryMock`, `MockDevice`, `System`, `Refinement`, `Decoding`, `Slots`,
   `Theorems`, `Tags`, `Pair`). In every interleaving of requests and receptions, using the memory device over
   the link is the same as using it locally in the order the host issued its requests, provided a read is
   issued only while its tag is free. Tags never clash, acknowledgements are conserved, and a system that
   only receives falls silent. `Tags` drops the proviso: it proves over whole runs exactly when a host
   that does not look at the slots is still served correctly, and what happens when it is not.
5. **Plain memory** (`BarDecode`, `PlainMemory`). The mask comparison of BAR decoding is an interval
   lookup, so the remote device is a set of plain byte arrays.
6. **Enumeration** (`Enumerate`). The sizing handshake, under any schedule, assigns the BARs; host and
   device agree exactly when a condition on the sizes holds, and from then on item 5 applies.
7. **DMA, server, configuration space** (`Dma`, `Server`, `Yaml`). The DMA worker under concurrent
   stop calls, the server's client list, and the YAML header parser.

Functions give the value-level meaning; where the C code updates state in place, methods and classes do
the same and are proved against those functions. Bytes are integers below 256 and machine words are
naturals with explicit reduction modulo 2^32 or 2^64. The host is little-endian. Callbacks are handles;
what a read callback answers is a function parameter.

Where the code and the obvious expectation differ, the model follows the code and states the exact
condition:

- `Tags.CarelessExact`: a read issued over the slot of an answered read takes its callback away, and that
  is the only way a callback is lost. `Tags.ThirtyThreeReads` is such a run.
- `Tags.BlockedIff`: a read keeps its tag for ever exactly when the device does not answer it.
  `Tags.SilentDevice` is such a run.
- `Proto.LengthRecovered`, `Proto.LengthLost`, `Proto.EmptyLength`: the length of a request is read back
  exactly up to 4096 bytes, never above, and for no bytes exactly at an unaligned address: an aligned
  request of no bytes encodes as 1024 words.
- `Framing.WriteFitsIff`: such a write has no memory for its frame; every other write does.
- `Framing.OversizeIff`: the largest frame exceeds the receive buffer.
- `System.CountedIff`: a read of 4096 bytes is delivered as none.
- `BarDecode.FoundIffNoHole`: an unregistered BAR matches every address.
- `MemoryMock.RoomNegativeIff`: an access with 2 GiB or more behind it computes a negative length.
- `Enumerate.AgreementExact`: small or large BARs are enumerated differently on the two sides.
- `Server.Server.Serve`: a connection whose peer cannot be named, or for which memory runs out, stays open
  and unlisted. `Server.UnnamedPeerLeaks` is such an input.
- `Dma.PathIffEnds`: starting a chain returns exactly when following its links ends.
- `Dma.InsideIff`, `Dma.ConfigureOverflows`: first slot and block count are checked separately.

`Pair` joins the two objects, a `Client` and a `MockDevice.Device`, by their sockets and shows that every
method call is one step of `System` while both stay connected. Its invariant carries the whole-run
theorems down to the code that updates fields and buffers in place.

## Model

| member | source | states |
|---|---|---|
| `Theorems.RemoteIsLocal` | src/client.c:81-206 | In every interleaving of reads, writes and receptions, and in every state of it, the completion callbacks made so far are the first answers of the device used locally in issue order, with the same bytes; once the streams are drained none is missing and the device is in the same state. |
| `Theorems.StepGood` | src/client.c:262-323 | Every step of either endpoint keeps the invariant that ties streams, slots, log and device to the local device. |
| `Refinement.DevReceiveKeeps` | src/client.c:208-241 | A reception by the device executes the oldest request on the device as it then is, keeps every invariant, and uses up work. |
| `Refinement.HostReceiveKeeps` | src/client.c:190-206 | A reception by the host hands the oldest completion to the callback of the read it belongs to, keeps every invariant, and uses up work. |
| `Refinement.IssueReadKeeps` | src/client.c:371-398 | Issuing a read on a free slot appends exactly that read to the local history. |
| `Refinement.IssueWriteKeeps` | src/client.c:400-422 | Issuing a write appends exactly that write, whatever the uninitialised memory held. |
| `Theorems.CallbacksOnce` | src/client.c:190-206 | Callbacks are made at most once each, in issue order, across any number of wraps of the tag counter. |
| `Theorems.TagsExclusive` | src/client.c:371-398 | In every state of every run, for every decoding of the bytes in the streams, the reads in flight, as requests or as completions, have distinct tags and the slot of each holds a callback. |
| `Theorems.UnansweredBlocks` | src/client.c:132-138 | A read the device does not answer keeps its slot for ever, and at most 31 further reads can be issued. |
| `Tags.HeldUntilCalled` | src/client.c:197-205 | In every state of every run, a read holds its slot if and only if its callback was not made yet. |
| `Tags.UnansweredIff` | src/client.c:108-111 | A read is left unanswered for ever if and only if, on the device as it is when the read is issued, no callback is registered for it or the callback fails. |
| `Tags.BlockedIff` | src/client.c:108-138 | Once the streams are drained, the slot of a read is still occupied if and only if the device, used locally when the read was issued, does not answer it. |
| `Tags.SilentDevice` | src/client.c:101-111 | A device without a configuration callback: a first configuration read keeps slot 0 in every state of every run, and at most 31 reads follow it. |
| `Tags.SilentRunExists` | src/client.c:433-436 | Every fresh system whose device has no configuration callback has such a run, and its first step takes slot 0. |
| `Tags.CarelessExact` | src/client.c:392-395 | Over every run of a host that issues reads without looking at their slots: once drained, the callbacks made are exactly the device's answers, each to its own callback, if and only if no read was issued over the slot of a read that the device answers. |
| `Tags.BusyIsInFlight` | src/client.c:392-395 | That a slot holds a read the device answers means exactly that its answer is still under way. |
| `Tags.ClashOutcome` | src/client.c:190-206 | After such an issue, in every drain: the earlier read's answer goes to the later read's callback, the later read's own answer to nobody, every other answer to its callback. |
| `Tags.DrainsToLedger` | src/client.c:190-206 | Without any assumption about tags, the log after any drain is what handing the answers under way to the slots in order gives. |
| `Tags.ThirtyThreeReads` | src/client.c:371-398 | Thirty-three reads in a row and then any drain: read 0 is never called back, read 32 gets the answer to read 0, and its own answer is dropped. |
| `Tags.DrainExists` | src/client.c:262-323 | A drain exists from every state. |
| `Slots.StampedStep` | src/client.c:373-395 | Every step, careful or not, keeps this: a slot holds a read of its own tag whose callback was not made yet. |
| `Theorems.AcksConserved` | src/client.c:243-260 | For every decoding of the bytes in the streams, acknowledgements logged, acknowledgements in flight and packets in flight are, in this order, exactly the numbers 1, 2, ... modulo 4096 of the packets sent, on both sides. |
| `Decoding.SameStreams` | src/client.c:262-308 | The bytes in the streams determine tags, sequence numbers and acknowledgements: two decodings agree on them. |
| `Theorems.Drains` | src/client.c:262-323 | A system that only receives falls silent within its work bound, in every order of receptions. |
| `System.CountedIff` | src/client.c:202-204 | A completion delivers all its bytes exactly when there are fewer than 4096; 4096 bytes are delivered as none. |
| `PlainMemory.RemoteMemoryIsPlain` | src/client.c:424-445 | With the BARs laid out, in every interleaving of accesses inside them and less than 2 GiB before their end, the callbacks made so far are a prefix of the reads of plain byte arrays with all earlier writes applied and no later one; when drained, nothing is missing and the memories are the arrays. |
| `BarDecode.DecodeIsLookup` | src/client.c:32-39 | With registered BARs first, sizes powers of two and windows aligned and disjoint, decoding returns the one window that holds the address modulo 2^32, otherwise the first unregistered BAR. |
| `BarDecode.MatchIsWindow` | src/client.c:34-37 | The mask comparison is membership in the window, and the masked address is the offset in it. |
| `BarDecode.FoundIffNoHole` | src/client.c:32-39 | An address inside a window finds its BAR exactly when no unregistered BAR has a lower index. |
| `BarDecode.LocalReadIsSlice` | memory-mock/main.c:140-156 | Reading through a BAR, less than 2 GiB before its end, is slicing its memory. |
| `BarDecode.LocalWriteIsUpdate` | memory-mock/main.c:158-173 | Writing through a BAR, less than 2 GiB before its end, overwrites exactly those bytes, or nothing when it has no write callback. |
| `Enumerate.Enumerate` | zephyr-samples/common/common.c:102-161 | Under every schedule of the link, the device receiving before any request of the host and either side while the host waits: fails exactly when the vendor is all ones or the header type is not 0; otherwise host and device end with the BAR tables that the sizes determine, and inactive BARs stay unregistered on both sides. |
| `Enumerate.EnumerateAndDrain` | zephyr-samples/common/common.c:102-161 | Enumeration followed by a drain leaves these tables in the device itself, its registers hold the assigned addresses, and the rest of its configuration space is as it was; for active BARs first, with power-of-two sizes from 16 to 2^18, the tables are equal to the host's, aligned and disjoint, over the device's own memories. |
| `Enumerate.ReadBack` | zephyr-samples/common/common.c:12-156 | Reading over the link after enumeration: BAR register i holds the assigned address rounded down to a multiple of the size plus the configuration bits, and the vendor is the one it was. |
| `Enumerate.DeviceRuns` | src/client.c:262-323 | Any number of receptions by the device between two requests disturbs neither host nor answers. |
| `Enumerate.AssignBar` | zephyr-samples/common/common.c:129-156 | One pass of the loop assigns one BAR on both sides, sets its register, and leaves the others as they were. |
| `Enumerate.ProbeBar` | zephyr-samples/common/common.c:130-141 | The sizing handshake gives the host the register the device computes from all ones, and registers nothing. |
| `Enumerate.ReadConfigHeaderField` | zephyr-samples/common/common.c:12-44 | Returns the bytes of the field as the device has them after all earlier writes; refuses a field that crosses a word. |
| `Enumerate.WaitForCompletion` | zephyr-samples/common/common.c:90-100 | Whichever side receives next, the wait ends with the one outstanding callback made and its slot free. |
| `Enumerate.SizingLaw` | zephyr-samples/common/common.c:143-143 | The size the host computes is the device's size when that is at least 16, and 16 otherwise. |
| `Enumerate.Probe` | memory-mock/main.c:188-200 | The all-ones write changes only the register, which then reads back as the size mask with the configuration bits. |
| `Enumerate.DeviceRegisters` | memory-mock/main.c:188-200 | The first address write registers the device's BAR at the address with the bits below its size cleared, with the device's own callbacks. |
| `Enumerate.RegisterLaw` | memory-mock/main.c:188-200 | After any write of any value to BAR register i, it reads as the value rounded down to a multiple of the size plus the configuration bits, or as the configuration bits alone for a BAR without memory; no other byte of the configuration space changes. |
| `Enumerate.AgreementExact` | zephyr-samples/common/common.c:143-153 | Host and device agree on all bases and sizes if and only if every active size is at least 16 and divides the assigned address. |
| `Enumerate.PrefixAgrees` | memory-mock/main.c:188-233 | For active BARs first, with power-of-two sizes from 16 to 2^18, both sides agree and the windows are aligned and pairwise disjoint. |
| `Enumerate.EnumeratedMemoryIsPlain` | src/client.c:424-445 | After enumeration of such a device, remote memory is plain memory in every interleaving. |
| `Enumerate.ReadBytes` | zephyr-samples/common/common.c:46-68 | Under every schedule of the link, reading an assigned BAR and waiting gives the bytes of its memory with all earlier writes applied; an unassigned BAR is refused. |
| `Enumerate.Drain` | zephyr-samples/common/common.c:90-100 | Receiving until both streams are empty terminates and leaves host log, device memory and BARs equal to the local device's. |
| `Framing.SplitIsInverse` | src/client.c:262-308 | Any concatenation of well-formed frames is split back into the same frames. |
| `Framing.OversizeIff` | inc/warppipe/config.h:27-29 | A frame exceeds the receive buffer exactly when it has a four-word header and 1024 words of data. |
| `Framing.CorruptionOnlyNaks` | src/client.c:309-315 | Any change to at most four consecutive bytes of a TLP frame that keeps format and length makes the receiver send a NAK and do nothing else. |
| `Framing.CorruptAckIgnored` | src/client.c:277-282 | Any change to at most two consecutive bytes of an acknowledgement makes the receiver drop it: nothing is sent, recorded or changed. |
| `Framing.ReadFits` | src/client.c:374-389 | The frame of every read request fits the transport on the stack. |
| `Framing.CompletionFits` | src/client.c:113-138 | The frame of every completion fits the transport allocated for it. |
| `Framing.WriteFitsIff` | src/client.c:403-417 | For every address and length, the frame of a write fits the transport allocated for it exactly when it carries at least one word. |
| `Frames.ReadOnWire` | src/client.c:371-389 | Every byte of a read request on the wire, as a number: kind, length in words, tag, byte enables, and the address, most significant byte first, in four bytes below 4 GiB and in eight, with bit 5 of the kind set, from there on. |
| `Frames.AckOnWire` | src/client.c:243-260 | An acknowledgement on the wire, with its type and number in place; that of packet 0 is 2, 0, 0, 0, 0, 0xb3, 0x62. |
| `Endpoint.ReadDelivered` | src/client.c:81-132 | A read request makes the completer call exactly the callback, offset and length its issuer meant. |
| `Endpoint.WriteDelivered` | src/client.c:143-188 | A write request makes the completer call the callback and offset its issuer meant with exactly its bytes, for every content of uninitialised bits and padding. |
| `Endpoint.CompletionDelivered` | src/client.c:113-138 | A completion echoes the tag and brings back the bytes of the read callback, its byte count reduced modulo 4096. |
| `Endpoint.FailureDelivered` | src/client.c:134-135 | A failed read is answered by a well-formed completion without data. |
| `Endpoint.ReceiveTlp` | src/client.c:283-317 | A sealed TLP at the head of the stream is consumed whole, acknowledged under its own number, and handled, whatever follows it. |
| `Endpoint.DispatchByKind` | src/client.c:208-241 | By the number in the first byte of a packet: 0x00, 0x02 and 0x20 reach the read callbacks of the BARs, 0x04 that of the configuration space, 0x40, 0x42, 0x60 and 0x44 the write callbacks likewise, 0x4a the completion slots, and every other packet nothing. |
| `Endpoint.ReceiveAck` | src/client.c:41-53 | An acknowledgement at the head of the stream is consumed and its number read back. |
| `Endpoint.ReceiveCorrupt` | src/client.c:309-315 | A TLP whose LCRC is wrong is consumed, causes a NAK under the number it carries, and nothing else. |
| `Endpoint.StaysConnectedIff` | src/client.c:262-308 | A reception leaves the endpoint connected if and only if seven bytes wait, the first is 2 or 3, and a TLP has a known format and either arrived whole or is longer than 4117 bytes. |
| `Endpoint.RegisterBar` | src/client.c:342-359 | Registration succeeds exactly when the index is free and the size is a power of two; otherwise nothing changes. |
| `Endpoint.BarFrom` | src/client.c:32-39 | The first index whose masked address equals its base, or none. |
| `Client.Client.ClientRead` | src/client.c:262-323 | For every chunking by recv and every failure: nothing waited and nothing changed; or the connection broke inside a frame and the client only became inactive; or exactly one frame was consumed and dealt with as `Endpoint.Receive` says, even when a reply could not be sent whole. It is the last of these whenever every recv delivers something and the first all it was asked for; and when the replies are sent too, the client stays connected exactly as `Endpoint.Receive` says. |
| `Client.WholeFrameAcked` | src/client.c:283-317 | A client still connected after dealing with a sealed TLP at the head of the stream left the rest of the stream, sent the acknowledgement with that number before anything else, and reacted to the packet. |
| `Client.Client.ReceiveRest` | src/client.c:298-308 | The receive loop terminates; on success the buffer holds exactly the announced bytes of the stream. While every recv delivers something, in chunks of any size, it succeeds if and only if the stream holds the whole frame. |
| `Client.Client.ReceiveTlp` | src/client.c:283-317 | The TLP case: unknown formats and broken connections only deactivate the client, oversize aborts, a whole frame is acknowledged and handled. While recv delivers, it does what `Endpoint.Receive` says and nothing else, and stays connected exactly as it says when the replies are sent. |
| `Client.Client.HandleFrame` | src/client.c:309-316 | ACK and handling when the LCRC is right, NAK and nothing else when it is wrong, even if the acknowledgement itself cannot be sent. |
| `Client.Client.HandleTlp` | src/client.c:208-241 | Dispatch does what `Endpoint.React` says, and answers a served read. |
| `Client.Client.HandleMemoryReadRequest` | src/client.c:81-141 | Calls the read callback decoding selects and sends the completion of its outcome, or does nothing without a callback. |
| `Client.Client.HandleMemoryWriteRequest` | src/client.c:143-188 | Calls the write callback decoding selects, with the payload bytes the byte enables mark. |
| `Client.Client.HandleCompletion` | src/client.c:190-206 | Frees the slot of the tag and calls its callback with the announced data; an empty slot is ignored, and a tag outside the table is reported. |
| `Client.Client.GetBarIdx` | src/client.c:32-39 | The loop returns the first match. |
| `Client.Client.SendTransport` | src/client.c:55-79 | Numbers and seals the packet in place; it succeeds exactly when the one send takes the whole frame, and otherwise deactivates the client after a proper prefix. |
| `Client.Client.SealTransport` | src/client.c:55-67 | The transport holds the frame with the next sequence number and its CRC. |
| `Client.Client.Ack` | src/client.c:243-260 | Sends the acknowledgement frame without using a sequence number; fails exactly when the send does not take its seven bytes. |
| `Client.Client.ReadImp` | src/client.c:371-398 | Succeeds exactly when the send takes the whole frame, and then client and stream are those of `Endpoint.IssueRead`; on a failed send the tag is used up and no callback is left. |
| `Client.Client.WriteImp` | src/client.c:400-422 | For every address and length with at least one word, client and stream are those of `Endpoint.IssueWrite` for whatever the uninitialised memory held; exactly an aligned write of no bytes overruns its memory. |
| `Client.Client.ReadTransport` | src/client.c:374-387 | The bytes built on the stack are the read request. |
| `Client.Client.WriteTransport` | src/client.c:403-415 | The bytes built in uninitialised memory are the write request, for every length with at least one word. |
| `Client.Client.CompletionTransport` | src/client.c:113-135 | The bytes built in zeroed memory are the completion. |
| `Client.Client.Read` | src/client.c:424-431 | Refuses an unregistered BAR without any effect, otherwise reads at base plus offset. |
| `Client.Client.Write` | src/client.c:438-445 | Refuses an unregistered BAR without any effect, otherwise writes at base plus offset. |
| `Client.Client.RegisterBar` | src/client.c:342-359 | Updates the tables in place as `Endpoint.RegisterBar` says. |
| `Client.Client.constructor` | src/client.c:325-340 | A fresh client has no BARs and no callbacks, and keeps whatever was in the completion slots. |
| `MemoryMock.ReadBar` | memory-mock/main.c:140-156 | Fails exactly past the end of the memory; otherwise, with less than 2 GiB behind the address, every byte answered is the byte at its address, or zero past the end. |
| `MemoryMock.WriteBar` | memory-mock/main.c:158-173 | With less than 2 GiB behind the address, every byte inside the write and the memory is replaced, and no other byte changes. |
| `MemoryMock.RoomNegativeIff` | memory-mock/main.c:147-152 | The room left behind an address wraps to a negative length if and only if 2 GiB or more lie behind it. |
| `MemoryMock.UndefinedAt` | memory-mock/main.c:314-327 | Among the accepted sizes this happens exactly at offset 0 of a 2 GiB BAR. |
| `MockDevice.ReadMemory` | memory-mock/main.c:140-156 | Computes the room left in an int and fills the zeroed completion buffer with the memory, cut at its end. |
| `MockDevice.WriteMemory` | memory-mock/main.c:158-173 | Computes the room left in an int and overwrites the memory in place, cut at its end. |
| `MockDevice.VerifyArgs` | memory-mock/main.c:314-327 | Accepts exactly the configurations whose sizes are zero or powers of two. |
| `MockDevice.Device.HandleConfigBarWrite` | memory-mock/main.c:188-200 | The register and, at the first real address, the client's BAR table change as `MemoryMock.ConfigBarWrite` says; `Enumerate.RegisterLaw` gives the register as a number and `Enumerate.DeviceRegisters` the table. |
| `MockDevice.Device.Config0ReadCb` | memory-mock/main.c:202-216 | Answers aligned words, from the configuration space inside its header, and refuses anything else. |
| `MockDevice.Device.Config0WriteCb` | memory-mock/main.c:218-233 | Aligned word writes to BAR registers take effect; all others change nothing. |
| `MemoryMock.ConfigWriteEffects` | memory-mock/main.c:218-233 | Only four-byte writes at 0x10, 0x14, 0x18, 0x1c, 0x20 and 0x24 have an effect; the sizing pattern registers nothing, and a registered BAR is never moved. |
| `MockDevice.Device.WriteCb` | memory-mock/main.c:158-233 | A write callback changes only the memory or register it addresses. |
| `MockDevice.Device.Receive` | src/client.c:262-323 | The client object's read with the device's callbacks behind it is exactly one reception of the device in the system: same client, memories, registers, bytes consumed and bytes sent. As long as recv delivers, the packet is dealt with, and the write it asks for is done, even when a reply cannot be sent. |
| `Pair.Pair.Read` | src/client.c:424-436 | On the objects: a read that is sent is one step of the system and of the local device, and it is sent when the socket takes all it is given; one that fails disconnects, and no callback made is taken back. |
| `Pair.Pair.Write` | src/client.c:438-450 | The same for a write. |
| `Pair.Pair.DeviceReceive` | src/server.c:103-110 | The device's turn is one reception, or nothing, or a disconnection; the invariant holds in every case. When recv delivers and send takes all it is given, it is one reception and both stay connected. |
| `Pair.Pair.HostReceive` | src/server.c:103-110 | The host's turn likewise, with the same condition for staying connected; the callbacks made stay a prefix of the local device's answers even when the acknowledgement cannot be sent. |
| `Pair.Pair.Settled` | src/client.c:262-323 | When both sockets are empty and both ends connected, the objects' log, memories and BARs are those of the device used locally. |
| `Proto.AddrRecovered` | src/proto.c:128-146 | Decoding the address gives back every 64-bit address with its low two bits cleared. |
| `Proto.OffsetRecovered` | src/client.c:125-130 | The first byte enables give back the low two bits of the address. |
| `Proto.EnablesMark` | src/proto.c:90-108 | The byte enables mark exactly the bytes asked for: lane j of the first word is set if and only if byte j of the aligned window belongs to the request, lane j of the last word likewise, and a request within one word has no last one. |
| `Proto.LengthRecovered` | src/proto.c:27-59 | The byte enables and word count give back the exact byte length, up to 4096 bytes from the aligned address. |
| `Proto.LengthLost` | src/proto.c:104-109 | Above 4096 bytes from the aligned address the decoded length is always wrong. |
| `Proto.EmptyLength` | src/proto.c:104-109 | A request of no bytes is read back as such exactly at an unaligned address; with `Proto.LengthRecovered` and `Proto.LengthLost` this covers every length. |
| `Proto.TlpReqSetAddr` | src/proto.c:85-126 | Writes kind, length, byte enables and address bytes in place and keeps every other bit. |
| `Proto.TlpReqGetAddr` | src/proto.c:128-146 | The byte loop assembles the big-endian address. |
| `Crc.Crc32Linear` | src/crc.c:21-35 | The CRC of the XOR of two strings, with XORed initial states, is the XOR of their CRCs. |
| `Crc.Crc32Width` | src/crc.c:37-45 | A CRC started within the degree of its polynomial never leaves it. |
| `Crc.WordLaw` | src/crc.c:21-35 | Consuming a group of bytes is as many bit steps on the state XOR their little-endian word. |
| `Crc.ResidueLaw` | src/crc.c:72-85 | A trailer is the complemented CRC exactly when the CRC of data and trailer is one constant, for every data length. |
| `Crc.BurstDetected` | src/crc.c:21-35 | Strings that differ only within as many consecutive bytes as the polynomial is wide have different CRCs. |
| `Division.CrcIsRemainder` | src/crc.c:21-35 | The CRC is a remainder: it is the one number that the message XOR the start value, followed by as many zeros as the register has bits, leaves when divided by the generator over GF(2), for every message, start value and polynomial. |
| `Division.LcrcIsRemainder` | src/crc.c:59-64 | The same for the LCRC, with all ones as start value and x^32 + x^26 + x^23 + x^22 + x^16 + x^12 + x^11 + x^10 + x^8 + x^7 + x^5 + x^4 + x^2 + x + 1 as generator. |
| `Division.Crc16IsRemainder` | src/crc.c:37-40 | The same for the 16-bit CRC, with x^16 + x^12 + x^3 + x + 1. |
| `Division.Generators` | inc/warppipe/crc.h:24-28 | The two constants are these generators in reversed bit order without the highest power of x. |
| `Division.DivisionUnique` | src/crc.c:21-35 | Quotient and remainder of such a division are unique. |
| `CrcValues.StepIsBitStep` | src/crc.c:26-31 | A turn of the inner loop on a 32-bit machine word is the bit step on the number it stands for. |
| `CrcValues.LcrcValues` | src/crc.c:59-64 | From all ones, 32 bit steps of the LCRC lead to 0xdebb20e3 and 112 to 0x2e448638. |
| `CrcValues.Crc16Values` | src/crc.c:37-40 | From 0xffff, 16 bit steps of the 16-bit CRC lead to 0x556f and 32 to 0x9d4c. |
| `Seal.Crc32p` | src/crc.c:21-35 | The nested loops compute the bit-serial CRC of the bytes. |
| `Seal.PcieLcrc32` | src/crc.c:59-70 | Writes the complemented LCRC of the packet behind it and nothing else; `Division.LcrcIsRemainder` says what the LCRC is. |
| `Seal.PcieLcrc32Valid` | src/crc.c:72-85 | True exactly when the stored LCRC is the complemented LCRC of the packet; `Seal.LcrcResidue` says the same by a number. |
| `Seal.PcieCrc16` | src/crc.c:37-45 | Writes the complemented CRC of the four covered bytes and nothing else. |
| `Seal.PcieCrc16Valid` | src/crc.c:47-57 | True exactly when the stored CRC is the complemented CRC of the four covered bytes. |
| `Seal.LcrcResidue` | src/crc.c:72-85 | A TLP is accepted exactly when the CRC over all its bytes, LCRC included, is 0xdebb20e3. |
| `Seal.Crc16Residue` | src/crc.c:47-57 | A data link packet is accepted exactly when the CRC over all its bytes is 0x556f. |
| `Seal.KnownSeals` | tests/test_crc.cc:24-65 | The LCRC of fourteen zero bytes is c7 79 bb d1, and the CRC of four zero bytes is b3 62. |
| `Seal.TlpBurstDetected` | src/crc.c:72-85 | Every change within four consecutive bytes of an accepted TLP is noticed. |
| `Seal.DllpBurstDetected` | src/crc.c:47-57 | Every change within two consecutive bytes of an accepted data link packet is noticed. |
| `Dma.Driver.Work` | zephyr-samples/drivers/dma/dma_emul.c:232-336 | With every burst read over the link, under every schedule of it, and stop calls anywhere: the first channels of the chain were copied exactly from the remote BAR 0, in order, nothing else was written, and each reported COMPLETE once; the first one not completed was stopped, and those behind it are still STARTED unless stopped themselves; memory is what the recorded bursts, of one to four bytes each, wrote, and no channel had more than one of them after its stop; without stops the whole chain completes. |
| `Dma.Driver.Fetch` | zephyr-samples/drivers/dma/dma_emul.c:300-307 | One burst: the bytes of the remote BAR 0, read over the link. |
| `Dma.Driver.Visit` | zephyr-samples/drivers/dma/dma_emul.c:249-321 | COMPLETE means every block was copied whole; a cancelled visit copied whole blocks and part of one, and made at most one final callback; memory stays what the recorded bursts wrote. |
| `Dma.Driver.CopyBlock` | zephyr-samples/drivers/dma/dma_emul.c:275-308 | The burst loop terminates by the remaining size, copies the block whole unless the channel was stopped, in recorded bursts of one to four bytes that account for every byte written, at most one of them after the stop, and copies nothing for burst length 0. |
| `Dma.Driver.Start` | zephyr-samples/drivers/dma/dma_emul.c:449-504 | The remote device is enumerated; then, on every chain that ends, exactly its channels are marked STARTED, also when the work cannot be submitted. Refused out of range, without a connection or unconfigured; no effect when already started. |
| `Dma.EnumeratedIsWired` | zephyr-samples/drivers/dma/dma_emul.c:464-469 | The enumeration a start performs makes BAR 0 readable over the link, for active BARs first, with power-of-two sizes from 16 to 2^18. |
| `Dma.PathIffEnds` | zephyr-samples/drivers/dma/dma_emul.c:481-492 | Such a chain is what following the links gives exactly when it ever reaches an unlinked channel. |
| `Dma.Driver.StopChannel` | zephyr-samples/drivers/dma/dma_emul.c:506-516 | Stops one channel and no other. |
| `Dma.Driver.ConfigValid` | zephyr-samples/drivers/dma/dma_emul.c:338-384 | The exact condition under which a configuration is accepted. |
| `Dma.Driver.Configure` | zephyr-samples/drivers/dma/dma_emul.c:386-439 | A loaded or started channel is never reconfigured; otherwise the channel is LOADED with its blocks in its slots and all other slots unchanged, and blocks are written behind the last slot exactly for the last channel when first slot and count pass its slots. |
| `Dma.InsideIff` | zephyr-samples/drivers/dma/dma_emul.c:361-373 | An accepted configuration stays inside the driver's slots if and only if it is not the last channel's or its blocks fit that channel's own slots. |
| `Dma.ConfigureKeepsOthers` | zephyr-samples/drivers/dma/dma_emul.c:410-428 | Blocks that fit the channel's own slots leave every other channel's slots alone. |
| `Dma.ConfigureOverflows` | zephyr-samples/drivers/dma/dma_emul.c:361-373 | First slot and count are checked separately: when together they pass the channel's slots, the next channel's first slot is overwritten. |
| `Server.Server.Loop` | src/server.c:276-302 | One round, exactly: whoever accept returned while the listening descriptor was ready, and only they, join; exactly the ready clients whose connection broke become inactive; exactly the active clients remain, in order, each removed one is closed once, and in connect mode that sets quit. The descriptor bound, at most one client in connect mode until quit, and every descriptor listed, closed or dropped are kept. |
| `Server.ListedUntilBroken` | src/server.c:276-302 | A descriptor is listed as active after a round if and only if it was before or just joined, and was not both ready and broken. |
| `Server.Server.Serve` | src/server.c:112-164 | Over any rounds, a listening server accepted exactly the descriptors that accept returned while its descriptor was ready; the descriptors neither listed nor closed are exactly those whose naming or allocation failed after accept; from a fresh server every accepted descriptor is listed or closed if and only if there was no such failure. |
| `Server.UnnamedPeerLeaks` | src/server.c:129-133 | A fresh listening server that accepts descriptor 7 and cannot name its peer has accepted it and neither lists nor closes it. |
| `Server.BalancedIff` | src/server.c:112-164 | The accepted descriptors are accounted for exactly when none was dropped. |
| `Server.Server.Disconnect` | src/server.c:85-101 | Walking and cutting the list keeps exactly the clients that stay, in order, closes each removed one once, and sets quit in connect mode when one was removed. |
| `Server.Server.Accept` | src/server.c:112-164 | Appends one active client and raises the descriptor bound, or changes no list; a descriptor that accept returned is dropped when its peer cannot be named or memory runs out. |
| `Server.Server.Read` | src/server.c:103-110 | Exactly the clients that are ready and whose connection breaks become inactive; order and descriptors stay. |
| `Server.FdsSplit` | src/server.c:85-101 | A disconnection neither loses nor invents a descriptor. |
| `Yaml.ProcessEvent` | src/yaml_configspace.c:87-225 | One event: a known key selects its field, a number is stored in it even when malformed, an unknown key is skipped. |
| `Yaml.StoreField` | src/yaml_configspace.c:121-204 | Each case writes its own field, little-endian and cut to its width, and nothing else. |
| `Yaml.FromYaml` | src/yaml_configspace.c:227-259 | The loop stops at the first end or error, and fails when events run out. |
| `Yaml.EntryByText` | inc/warppipe/proto.h:284-309 | By the text of each of the 19 keys, with first byte and width as numbers: a key and its number change exactly the bytes of the member the key names; a malformed number is stored as well and ends the parsing with -34. |
| `Yaml.UnknownSkipped` | src/yaml_configspace.c:113-120 | Any other text in the place of a key is skipped, and what follows it is taken for a key. |
| `Yaml.ParsesEntries` | src/yaml_configspace.c:87-259 | Known keys alternating with numbers and then an end parse with result 0, every entry stored in order. |
| `Yaml.LastWins` | src/yaml_configspace.c:121-204 | The last entry of a key decides its field; other fields keep their value. |
| `Yaml.RoundTrip` | src/yaml_configspace.c:227-259 | Printing any header as its keys in any order and parsing it over any other header restores every field and leaves BARs and reserved bytes alone. |
| `Yaml.BarsUncovered` | inc/warppipe/proto.h:284-309 | The BARs and the reserved bytes belong to no key. |
| `Yaml.FieldsApart` | inc/warppipe/proto.h:284-309 | Fields do not overlap. |

## Left out

- Theorems.RemoteIsLocal: the link neither loses bytes nor fails, the first seven bytes of a frame arrive together (the code disconnects otherwise, which `Client.Client.ClientRead` covers), and the completion slots of a new client are empty, which `warppipe_client_create` leaves to its caller. What an access the C program leaves undefined produces is arbitrary, but not a crash.
- Theorems.AcksConserved: the sequence counter is unbounded; the C counter is an int and would overflow after 2^31 packets.
- Enumerate.Enumerate: both ends stay connected. When the server quits or a send fails during enumeration, the server has removed the client that the loop goes on to use, so what follows is not modelled; the same holds for the members below.
- Enumerate.EnumerateAndDrain: see `Enumerate.Enumerate`.
- Enumerate.AssignBar: see `Enumerate.Enumerate`.
- Enumerate.ProbeBar: see `Enumerate.Enumerate`.
- Enumerate.ReadConfigHeaderField: see `Enumerate.Enumerate`.
- Enumerate.WaitForCompletion: see `Enumerate.Enumerate`.
- Enumerate.ReadBytes: see `Enumerate.Enumerate`.
- Client.Client.ClientRead: a completion whose tag is above 31 indexes past the slots in C; the model reports it as `WildTag` and stops there. Data announced beyond the end of a completion is cut at its end.
- Client.Client.HandleCompletion: see `Client.Client.ClientRead` for tags above 31.
- Client.Client.WriteImp: an aligned write of no bytes reads and writes behind its memory in C; the model reports it as `wild` and stops there.
- Client.Client.WriteTransport: excludes that write; see `Client.Client.WriteImp`.
- Client.Client.HandleMemoryReadRequest: a request whose byte enables are rejected reaches the read callback with length -1 in C and with length 0 here. No request of the library is of that kind.
- MemoryMock.Config0Read: the configuration space is the 64-byte header; what lies behind it is arbitrary.
- Dma.Driver.Configure: blocks written behind the last slot are reported as `wild`; what they overwrite is not modelled.
- Dma.Driver.Work: both ends of the link stay connected, and the remote memory is below 2 GiB. A fetched result shorter than four bytes is not padded.
- Dma.Driver.Start: chains that never end, on which the code does not return, are excluded; `Dma.PathIffEnds` says which they are.
- Callbacks that call back into the client while a packet is handled.
- Socket set-up, name resolution, select timeouts, signals and logging.
- Tokenising of YAML text and number parsing, which libyaml and strtoul do.
- Flow-control packets and locked reads, which the code only logs; big-endian bitfield layouts; extended capabilities.
- Argument parsing, device-tree glue, sample applications and build files, which have no protocol logic.
