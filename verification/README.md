# OpenSPODES in Dafny

OpenSPODES is a heap-free DLMS/COSEM stack in C. This project models five of its parts and proves
what they promise:

- **General block transfer** (`Gbt*`): encoding, both senders, the receiver, safety over links that lose, repeat
  and reorder, and the exact condition for progress.
- **Values** (`Values`, `Value*`, `FieldRead`, `Pool`, `Compact*`, `SkipDepth`, `Streaming`, `ProfileWindow`): the A-XDR
  reader with its static pool, the writers, compact arrays with their two-pass decoder, and the streaming writers.
- **Sessions** (`Acl`, `Session*`, `Server`, `Long*`, `BlockWrite`): association, handshake, ciphering, access control,
  counters, and GET, SET and ACTION in blocks.
- **Protection and handshake** (`Protect`, `Hls`): control octet, keys, vectors, replay state, the four passes for every
  mechanism, and the lock-out.
- **Cryptographic arithmetic** (`Limbs`, `Modular`, `Field*`, `Group`, `Gost`, `Curve`, `Kuznyechik*`, `Gf`, `Aes`):
  256-bit limb arithmetic, the curve and GOST signatures, Kuznyechik with its modes, and the AES routine of mechanism 2.

Each operation the C code performs by updating memory is a method over arrays and objects, proved
equal to a specification function; the theorems are about those functions. Machine integers are subset
types (`byte`, `u16`, `u32`, `u64`), so every assignment carries a proof that nothing wraps. Where the code
does wrap, the model wraps too or names the bound below which it does not.

Some promises do not hold of the code as it stands; the model keeps the code and proves the exact condition:

- A block transfer may deliver another APDU exactly when its largest header fits the send scratch and the frame does not
  (`GbtReceive.TransferSafeIff`).
- Over a reliable link it completes only for windows 0 and 1 or when one window holds all blocks
  (`GbtProgress.FifoOutcome`).
- Under ciphering a request may be served part of which was never deciphered, exactly when block transfer is on
  (`SessionSafety.RunDecipheredIff`): a first block inside an accepted frame is joined with plain ones from the link. All
  of it was deciphered exactly when the accepted block is the whole transfer (`SessionSafety.FrameDecidesIff`) or the
  reassembled APDU is ciphered itself (`SessionSafety.OriginIff`).
- Sent counters go back exactly when 2^32-1 is accepted between two sent frames, and vectors repeat exactly when enough
  frames follow (`SessionCounters.CountersMove`); a new association restarts them after a release
  (`SessionCounters.NextAssociation`). A server that only answers repeats none once it is associated and its counter is
  off its start or block transfer off (`SessionVectors.SettledIff`), and may repeat one during the handshake
  (`SessionVectors.NeverTwiceIff`).
- A frame is accepted without a tag when its own control octet asks for none (`Protect.AcceptedIff`).
- The limb subtraction is exact only if no all-ones limb of the subtrahend receives a borrow (`Field.SubExactIff`), which
  a verifier's scalar inherits (`Gost.ScalarIdentity`), for some digest with every nonce (`Gost.EveryNonceLoses`), and so
  do the point formulas (`Curve.PointAdd`); the modular additions are right only if no second carry is left.
- Values come back unchanged exactly within the limits of the types and the pool (`ValueParse.ReadBackIff`), compact
  arrays exactly when their rows are uniform, pack to something, have at most 16 levels and keep the limits of packed
  values and of the pool (`CompactMixed.ReadBackIff`).
- Lengths above 2^32-16 wrap in the CMAC and in the password function (`KuznyechikModes.BlockCountIff`, `Aes.Secure`).
- A GMAC handshake needs a client title that is not all zeros (`Hls.TitledIff`, `Hls.UntitledPass3Iff`).
- The blocks of a long ACTION result fit their 256 octets exactly when the PDU limit does (`LongAction.BlocksFitIff`).

Assumed, never proved: p and q are prime, the point operations associate and the generator has order q;
AES-GCM decryption inverts encryption; digests have their widths; a signature verifies under the partner of
the key that made it.

## Model

| member | source | states |
|---|---|---|
| Octets.Buf.WriteU8 | src/codec/codec.c:364-370 | one octet is appended exactly when there is room |
| Octets.Buf.WriteAll | src/codec/codec.c:405-410 | an octet string is appended whole, exactly when all of it fits |
| Octets.Buf.ReadU8 | src/codec/codec.c:282-291 | the octet at the read cursor, or an error at the end |
| Octets.SignedRoundTrip | src/codec/serialize.c:54-113 | a signed integer of any width survives the casts to and from its unsigned pattern |
| Lengths.WriteLen | src/codec/codec.c:26-46 | appends the length field exactly when it fits |
| Lengths.ReadLen | src/codec/codec.c:48-71 | the length at the cursor, the four error cases, and where the cursor ends |
| Lengths.LenRoundTrip | src/codec/codec.c:26-71 | every length up to 2^32-1 is read back, whatever surrounds it |
| Lengths.LenMinimal | src/codec/codec.c:13-71 | no accepted length field is shorter than the one the writer emits for the same length |
| Lengths.ReadOctets | src/codec/codec.c:65-69 | big-endian octets at the cursor |
| Gbt.Encode | src/service/gbt.c:314-335 | succeeds exactly when the header fits; then header and as much payload as there is room for |
| Gbt.DecodeFrame | src/service/gbt.c:337-366 | the block a frame denotes, unread payload octets keeping what the scratch held |
| Gbt.RoundTrip | src/service/gbt.c:314-366 | a block whose frame fits decodes to itself |
| Gbt.RoundTripIffItFits | src/service/gbt.c:314-366 | once the header fits, decoding returns the block for every scratch content if and only if the whole frame fits |
| Gbt.EncodePayload | src/service/gbt.c:331-333 | appends the payload octets that fit and drops the rest |
| Gbt.DecodePayload | src/service/gbt.c:361-364 | octets past the end of the frame keep what the scratch held |
| Gbt.DecodeSent | src/service/gbt.c:314-366 | a cut frame decodes to the kept payload followed by old scratch octets |
| GbtTransfer.AwaitAck | src/service/gbt.c:49-68 | which messages count as an acknowledgement of the window, the errors otherwise, and the payload that came with it |
| GbtTransfer.SendChunk | src/service/gbt.c:70-106 | the block sent next is the slice its number names |
| GbtTransfer.ConfirmWindow | src/service/gbt.c:107-127 | after a window: the acknowledgement, for the bidirectional sender the resume point, and what is handed to the callback |
| GbtTransfer.Transmit | src/service/gbt.c:70-144 | both senders, the window masked to six bits: frames sent, result and payloads handed to the callback, for every inbox and failing transport |
| GbtTransfer.EveryBlockIsItsSlice | src/service/gbt.c:70-130 | in every run, resends included, block k carries slice k and its number fits 16 bits |
| GbtTransfer.ResumePointInside | src/service/gbt.c:279-288 | a resume point accepted from the peer is the start of the block after the acknowledged one |
| GbtTransfer.SequentialNeverResumes | src/service/gbt.c:116-125 | the rewind branch of the sequential sender is never taken |
| GbtTransfer.SuccessMeansAllSent | src/service/gbt.c:70-130 | a sender that reports success has sent every block |
| GbtTransfer.SequentialSendsInOrder | src/service/gbt.c:70-130 | the sequential sender emits blocks in order, without gaps or repeats |
| GbtTransfer.SuccessCount | src/service/gbt.c:70-130 | a successful sequential transfer has exactly ceil(len / payload) blocks |
| GbtTransfer.SessionIsRun | src/service/gbt.c:227-293 | a session over a failing transport emits the frames of a run, up to the failure |
| GbtTransfer.Link.Send | src/service/gbt.c:15-15 | a frame is sent or the transport fails |
| GbtTransfer.Link.Recv | src/service/gbt.c:18-35 | the next message decoded, or its error |
| GbtTransfer.Link.SendBlock | src/service/gbt.c:8-16 | encode, then send; a header that does not fit is an error and nothing is sent |
| GbtTransfer.IndexBound | src/service/gbt.c:73-80 | no block number exceeds the APDU limit, so the 16-bit counter never wraps |
| GbtTransfer.BlockCount | src/service/gbt.c:83-88 | there is a last block, and the block count is its number |
| GbtTransfer.SendLoop | src/service/gbt.c:227-293 | the sending loop for a checked configuration |
| GbtTransfer.SequentialHandsNothing | src/service/gbt.c:56-60 | the sequential sender never passes a payload on |
| GbtReceive.TakeBlock | src/service/gbt.c:170-222 | what one block does to the receiver: gap, duplicate, overflow, last block, acknowledgement |
| GbtReceive.Receive | src/service/gbt.c:146-225 | acknowledgements and assembled APDU are those of the reception function, for every event sequence |
| GbtReceive.ReceptionSafe | src/service/gbt.c:146-225 | over any loss, repetition and reordering of the whole frames of one transfer, success means exactly the sent APDU |
| GbtReceive.TransferSafe | src/service/gbt.c:70-225 | end to end: if a whole frame fits the send scratch, the frames of any session of either sender, delivered in any way, never yield another APDU |
| GbtReceive.ShortScratchCorrupts | src/service/gbt.c:8-225 | for every transfer, window and sender: if the largest header but not its frame fits, a delivery of the transfer's own frames makes the receiver succeed with another APDU |
| GbtReceive.NextBlock | src/service/gbt.c:159-177 | the first block if one is given, else the next received |
| GbtReceive.Store | src/service/gbt.c:206-210 | the payload is appended whole, or nothing and out of memory |
| GbtReceive.StepSafe | src/service/gbt.c:178-223 | any block of the transfer keeps the receiver holding exactly the slices before the expected one |
| GbtReceive.TransferSafeIff | src/service/gbt.c:8-225 | a transfer is safe under every delivery if and only if the largest frame fits the send scratch or not even its header does |
| GbtReceive.NothingSent | src/service/gbt.c:12-14 | a header that does not fit: nothing is sent and no receiver succeeds |
| GbtReceive.SessionSucceeds | src/service/gbt.c:70-293 | if headers fit, the transport works and the peer acknowledges, either sender succeeds |
| GbtReceive.AllOnTheLink | src/service/gbt.c:70-293 | and every block is on the link |
| GbtReceive.CutReception | src/service/gbt.c:146-225 | a receiver of cut blocks in order completes with a foreign octet where the first block was cut |
| GbtReceive.CutBlock | src/service/gbt.c:314-366 | a cut block keeps number and length; the first one gets a foreign octet |
| GbtOrigin.SourcesTell | src/service/gbt.c:146-225 | every octet of a reassembled APDU is traced to the frame and position it stood in, or to the old block contents that a short frame exposed |
| GbtOrigin.FirstFrameIff | src/service/gbt.c:146-225 | a reassembled APDU comes whole from the first frame if and only if that frame is block 1, complete, and as long as the APDU |
| GbtOrigin.FirstFrameText | src/service/gbt.c:146-225 | it is then a stretch of that frame |
| GbtOrigin.FirstOnlyIff | src/service/gbt.c:146-225 | whatever else arrives, everything reassembled stood in the first frame: if and only if that is undecodable, or block 1, the last and complete |
| GbtProgress.NextKeeps | src/service/gbt.c:49-225 | every step of sequential sender and receiver together keeps the protocol invariant |
| GbtProgress.RunsAreShort | src/service/gbt.c:49-225 | every interleaving of the sequential sender and a receiver with room for the APDU ends after at most three steps per block |
| GbtProgress.FifoOutcome | src/service/gbt.c:49-225 | over a reliable link the transfer completes if and only if the window is 0 or 1 or holds all blocks; then ceil(len / payload) blocks, and n-1 acknowledgements for window 1; otherwise the sender fails at the first acknowledgement |
| GbtProgress.EmitKeeps | src/service/gbt.c:83-106 | sending a block keeps the protocol invariant |
| GbtProgress.ConfirmKeeps | src/service/gbt.c:108-127 | taking an acknowledgement keeps it |
| GbtProgress.TakeKeeps | src/service/gbt.c:178-223 | receiving a block keeps it |
| GbtProgress.NextWorks | src/service/gbt.c:49-225 | every step uses up one unit of a measure |
| GbtProgress.RunInv | src/service/gbt.c:49-225 | the invariant holds and the measure is spent at the end of every run |
| GbtProgress.StuckOutcome | src/service/gbt.c:49-225 | what every halted state looks like |
| Values.LeafRoundTrip | src/codec/serialize.c:1187-1306 | every value without elements is read back from its contents |
| Values.FormOfTag | src/codec/types.h:22-166 | the tag a value is written with selects the form it is read with |
| Values.PlainRoundTrip | src/codec/serialize.c:54-147 | fixed-width values are read back |
| Values.DateTimeRoundTrip | src/codec/serialize.c:252-287 | date-times are read back, twelve octets consumed |
| Values.TextRoundTrip | src/codec/serialize.c:1226-1293 | strings within the limit are read back |
| Values.BitsRoundTrip | src/codec/serialize.c:1263-1280 | bit strings are read back, the empty one included |
| Pool.ReadPool.constructor | src/codec/serialize.c:39-42 | an empty pool |
| Pool.StoredFrame | src/codec/serialize.c:1319-1334 | a stored tree depends on its own slots only |
| Pool.StoredOneMore | src/codec/serialize.c:1324-1329 | storing the next element completes the slice one further |
| FieldRead.ReadLeaf | src/codec/serialize.c:1187-1306 | the reader of contents without elements: values, limits and errors |
| FieldRead.ReadText | src/codec/serialize.c:1226-1293 | strings: limit first, then availability |
| FieldRead.ReadBits | src/codec/serialize.c:1263-1280 | bit strings: the count is the octets less the unused bits, modulo 2^32 as in the code |
| FieldRead.ReadDateTime | src/codec/serialize.c:253-268 | date, time and three ignored octets |
| FieldRead.ReadPlain | src/codec/serialize.c:1187-1306 | fixed-width contents |
| FieldRead.ReadSlice | src/codec/serialize.c:1235-1240 | n octets, or an error when fewer remain |
| ValueParse.ValueRoundTrip | src/codec/serialize.c:1172-1463 | any value within the limits and the pool is read back from the bytes of the writer, with anything before and after, and exactly those bytes are consumed |
| ValueParse.CompactReadsAsArray | src/codec/serialize.c:1032-1115 | tag 19 of uniform rows reads as the array of those rows if and only if a row packs to at least one octet |
| ValueParse.SlicesEndToEnd | src/codec/serialize.c:1319-1334 | bump allocation: the element slices of a value lie end to end |
| ValueParse.SlicesSafe | src/codec/serialize.c:1319-1334 | for every octet string, the slices handed out by one read are disjoint and inside the 512 slots |
| ValueParse.ItemsRoundTrip | src/codec/serialize.c:1324-1329 | elements in order are read back |
| ValueParse.EndToEndDisjoint | src/codec/serialize.c:1319-1334 | slices end to end are disjoint and in order |
| ValueParse.ReadBackIff | src/codec/serialize.c:1172-1463 | whatever the writer can be given is read back if and only if it is within the limits and the pool suffices |
| ValueRead.ReadImpl | src/codec/serialize.c:1172-1343 | terminates on every buffer with the cursor inside it; result, errors, cursor and pool contents are those of the parse function; with both skip passes the recursion is at most pool length + 18 deep |
| ValueRead.ReadItems | src/codec/serialize.c:1324-1329 | element i is stored in slot i of the slice, slots in use stay untouched |
| ValueRead.Read | src/codec/serialize.c:1121-1138 | a top-level read starts with an empty pool and stores exactly the parsed tree |
| ValueRead.ReadList | src/codec/serialize.c:1308-1335 | count limit, pool limit, then the elements |
| ValueRead.ReadInto | src/codec/serialize.c:1325-1328 | one element into its slot |
| ValueWrite.WriteValue | src/codec/serialize.c:1345-1463 | succeeds if and only if the encoding fits, and then appends exactly it |
| ValueWrite.WriteItems | src/codec/serialize.c:1449-1463 | count and elements in order |
| ValueWrite.WriteDateTime | src/codec/serialize.c:270-287 | date, time, two reserved octets and the deviation |
| ValueWrite.WriteText | src/codec/serialize.c:1395-1435 | length and octets |
| ValueWrite.WriteBits | src/codec/serialize.c:1412-1425 | length, unused bits and octets |
| ValueWrite.WritePlain | src/codec/serialize.c:1345-1447 | fixed-width contents |
| ValueWrite.WriteLeaf | src/codec/serialize.c:1345-1447 | contents without elements |
| Compact.SkipAgrees | src/codec/serialize.c:840-1030 | whenever the walk of an element succeeds, the skip pass succeeds and ends at the same places of description and contents |
| Compact.SkipPackedAgrees | src/codec/serialize.c:745-881 | the same for one packed value, over the table of type widths |
| Compact.SkipFieldsAgrees | src/codec/serialize.c:883-1030 | skip and walk agree over the fields of a structure |
| Compact.SkipRepeatAgrees | src/codec/serialize.c:883-1030 | skip and walk agree over the elements of an array, its description re-read for each |
| CompactTrip.SkipTypeExact | src/codec/serialize.c:496-529 | the description of a shape of at most 16 levels is skipped over exactly |
| CompactTrip.WalkRoundTrip | src/codec/serialize.c:972-1030 | a value of a shape comes back from its packed form |
| CompactTrip.CountsRows | src/codec/serialize.c:925-939 | the counting pass finds every row |
| CompactTrip.PackedNothing | src/codec/serialize.c:572-621 | a value packs to no octets exactly when its shape has only nulls |
| CompactTrip.CompactRoundTrip | src/codec/serialize.c:840-1115 | 1..32 uniform rows of at most 16 levels: the decoder returns the rows, or an empty array exactly when a row packs to nothing |
| CompactTrip.PackedRoundTrip | src/codec/serialize.c:623-838 | one packed value is read back |
| CompactTrip.DecodeRoundTrip | src/codec/serialize.c:943-970 | description and packed rows decode to the rows, or to nothing for rows of no octets |
| CompactTrip.SkipTypeDeep | src/codec/serialize.c:496-529 | the description of a shape of more than 16 levels is refused |
| SkipDepth.Residue | src/codec/serialize.c:883-923 | between where the skip pass stops and where the validated description ends there are whole descriptions |
| CompactRead.SkipTypeDescription | src/codec/serialize.c:496-529 | the recursive skip over cursors is the skip function, and at most 16 levels deeper |
| CompactRead.SkipPackedValue | src/codec/serialize.c:840-881 | one packed value is skipped as the table says |
| CompactRead.SkipDescription | src/codec/serialize.c:883-923 | the skip pass over two cursors, arrays restarting at their element description; less than 16 levels deeper on a validated description |
| CompactRead.CountElements | src/codec/serialize.c:925-939 | the row count, or too many rows; on a validated description at most 16 levels of recursion |
| CompactRead.ReadPackedValue | src/codec/serialize.c:727-838 | packed contents: values, limits and errors |
| CompactRead.WalkDescription | src/codec/serialize.c:972-1030 | the walk pass: value, cursors, pool contents and recursion depth |
| CompactRead.DecodeElements | src/codec/serialize.c:943-970 | count, allocate, walk: the array the decode function yields |
| CompactRead.ReadCompact | src/codec/serialize.c:1032-1077 | the whole decoder, cursor past the contents |
| CompactRead.Window | src/codec/serialize.c:1050-1072 | a fresh buffer over a stretch of another |
| CompactRead.SkipElements | src/codec/serialize.c:905-920 | every element of an array skipped from the same description |
| CompactRead.ReadPackedBits | src/codec/serialize.c:727-743 | packed bit strings |
| CompactRead.WalkListInto | src/codec/serialize.c:972-1030 | slots first, then the elements, or out of memory |
| CompactRead.WalkInto | src/codec/serialize.c:972-1030 | one element into its slot |
| CompactRead.WalkFieldList | src/codec/serialize.c:972-1030 | the fields of a structure |
| CompactRead.WalkElements | src/codec/serialize.c:972-1030 | the elements of an array |
| CompactRead.WalkRows | src/codec/serialize.c:943-970 | the rows of the compact array |
| CompactRead.OpenCompact | src/codec/serialize.c:1032-1077 | where description and contents lie, or the error |
| CompactRead.DescriptionEnd | src/codec/serialize.c:1032-1050 | where the description ends, found with a second cursor; at most 16 levels of recursion more |
| CompactWrite.WriteType | src/codec/serialize.c:531-570 | the description, or failure on an empty array or a full buffer |
| CompactWrite.TypeDescOfShape | src/codec/serialize.c:531-570 | values of one shape have one description |
| CompactWrite.PackedSize | src/codec/serialize.c:478-621 | packed_value_size is the number of octets pack_value emits |
| CompactWrite.PackValue | src/codec/serialize.c:623-725 | the packed form is appended exactly when it fits |
| CompactWrite.WriteCompact | src/codec/serialize.c:1079-1115 | the whole encoding, or failure for no rows, an undescribable row or more than 2^32-1 octets |
| CompactWrite.CompactEncOfShape | src/codec/serialize.c:1079-1115 | for uniform rows that encoding is the one the decoder inverts |
| CompactWrite.LenSize | src/codec/serialize.c:478-492 | the size of a length field is the number of octets written for it |
| CompactWrite.PackedSizes | src/codec/serialize.c:572-621 | sizes of elements add up |
| CompactWrite.PackItems | src/codec/serialize.c:623-725 | packed elements in order |
| CompactWrite.WriteContents | src/codec/serialize.c:1097-1114 | length and packed rows |
| CompactMixed.ReadBackIff | src/codec/serialize.c:1032-1115 | any rows the writer accepts come back unchanged if and only if all have the shape of the first, it packs to an octet or more and has at most 16 levels, and rows, strings and pool are within the limits |
| CompactMixed.DescribedBy | src/codec/serialize.c:531-570 | a description is that of the shape taken from first elements |
| CompactMixed.WalkFits | src/codec/serialize.c:972-1030 | whatever a walk yields has the described shape and is within the limits |
| CompactMixed.DecodedFit | src/codec/serialize.c:943-970 | whatever the contents, decoded rows have the described shape and are within the limits |
| CompactMixed.MixedExample | src/codec/serialize.c:1079-1115 | rows of different types that the writer accepts |
| CompactMixed.DeepRefused | src/codec/serialize.c:496-529 | rows of more than 16 levels are written and refused by the reader |
| Streaming.WriteRights | src/codec/serialize.c:1750-1825 | access rights: the bytes of the equivalent structure |
| Streaming.WriteObjectList | src/codec/serialize.c:1860-1918 | exactly the bytes of the value writer on the array of structures |
| Streaming.Begin | src/codec/serialize.c:345-377 | tag and count |
| Streaming.WriteAttrs | src/codec/serialize.c:1767-1796 | attribute rights as an array of structures |
| Streaming.WriteMethods | src/codec/serialize.c:1798-1823 | method rights as an array of structures |
| Streaming.WriteElement | src/codec/serialize.c:1876-1915 | one list element as a structure |
| Streaming.AttrEnc | src/codec/serialize.c:1772-1795 | the bytes written for an attribute right are those of its structure |
| Streaming.MethodEnc | src/codec/serialize.c:1803-1822 | the bytes written for a method right are those of its structure |
| Streaming.ElementEnc | src/codec/serialize.c:1876-1915 | the bytes written for an element are those of its structure |
| ProfileWindow.WriteBuffer | src/codec/serialize.c:1920-1965 | exactly the bytes of the value writer on the windowed array of row structures |
| ProfileWindow.WriteObjectListRef | src/codec/serialize.c:1465-1472 | placeholder tag in and out, then the object list |
| ProfileWindow.WriteBufferRef | src/codec/serialize.c:1474-1480 | placeholder tag in and out, then the profile buffer |
| ProfileWindow.FilterInPlace | src/server/server.c:856-868 | in-place compaction keeps exactly the selected entries in order |
| ProfileWindow.SelectMeaning | src/server/server.c:860-867 | for every from and to, 0 included, the selection is one stretch of entries |
| ProfileWindow.WindowsAgree | src/server/server.c:849-877 | turning rows into structures commutes with the selection: the streamed window writes what the in-place filter would have kept |
| ProfileWindow.SelectRows | src/codec/serialize.c:1929-1942 | the index list holds exactly the selected rows |
| ProfileWindow.PickedIsSelected | src/codec/serialize.c:1929-1948 | picking by index list is selecting |
| ProfileWindow.WriteRow | src/codec/serialize.c:1949-1962 | one row as a structure |
| ProfileWindow.WriteRows | src/codec/serialize.c:1947-1963 | the picked rows in order |
| ProfileWindow.Placeholder | src/codec/serialize.c:1465-1470 | the placeholder tag leaves no trace |
| Acl.FindIndex | src/ic/association_ln.c:9-17 | the first matching entry, or none |
| Acl.Can | src/ic/association_ln.c:57-118 | allowed exactly when the first matching right of the first matching entry grants it |
| Acl.Decisive | src/ic/association_ln.c:57-118 | there is one deciding right |
| Acl.Gate | src/server/dispatcher.c:56-103 | for an object that exists: with a bound association access as it allows, without one always |
| Acl.Implements | src/server/dispatcher.c:43-54 | the first registered object of the class and name decides whether the access is implemented |
| Server.SecretEq | src/server/server.c:324-333 | equality of passwords, lengths included |
| Server.Server.SendApdu | src/server/server.c:196-227 | the frame handed to the transport, plain or protected, or nothing; a counter is spent per protected frame and never the last one |
| Server.Server.PickAssociation | src/server/server.c:344-365 | by client address, else by mechanism, else the bound one |
| Server.Server.DecideAarq | src/server/server.c:543-626 | the decision on an association request |
| Server.Server.Associate | src/server/server.c:529-727 | decision, ciphering contexts, answer |
| Server.Server.Pass3Received | src/server/server.c:1222-1287 | pass 3 and the answer to it |
| Server.Server.TryDecipher | src/server/server.c:1379-1394 | deciphering of a received APDU |
| Server.Server.Dispatch | src/server/dispatcher.c:56-103 | exactly the implemented and permitted targets are called, in order |
| Server.Server.ServeApdu | src/server/server.c:1463-1540 | the service switch |
| Server.Server.ServiceReceived | src/server/server.c:1377-1460 | deciphering, counter alignment, association gate, plaintext gate |
| Server.Server.AcceptApdu | src/server/server.c:1334-1540 | one received APDU: the whole step |
| Server.Server.constructor | src/server/server.c:130-147 | not associated, nothing pending, not ciphering |
| Server.Server.BeginHls | src/server/server.c:576-621 | mechanism, secret and challenges of a handshake |
| Server.Server.Behind | src/server/server.c:1419-1530 | an associated server: wrapped transfer, second deciphering, plaintext gate |
| Server.Server.InFront | src/server/server.c:1404-1417 | a server not associated: pass 3 or an exception |
| Server.Server.Respond | src/server/server.c:243-253 | the response, and if it went out the queued notification |
| Server.Server.SendNotification | src/server/server.c:286-308 | a notification is sent like a response, but only while associated |
| Server.Server.Reassemble | src/server/server.c:1419-1437 | the APDU that the block receiver assembles from the message at hand and those that follow, if it fits the buffer |
| SessionSafety.RunSafe | src/server/server.c:1291-1540 | in every run and at every step: never associated and pending at once; accesses as StepAccesses says; associated only by lowest-level acceptance, equal password or verified pass 3; ended by release, disconnection and I/O error |
| SessionSafety.StepFlags | src/server/server.c:1334-1530 | associated is set only by an admitted request or a verified pass 3 |
| SessionSafety.StepAccesses | src/server/server.c:1377-1530 | objects are reached only while associated, as permitted, and for what the served text names; under ciphering every octet of that text was deciphered if and only if it was not mixed from several blocks |
| SessionSafety.EndsAssociation | src/server/server.c:1315-1374 | release, disconnection and I/O error clear association, handshake and ciphering |
| SessionSafety.DecideFlags | src/server/server.c:543-626 | associated afterwards if and only if admitted; never pending as well |
| SessionSafety.AarqFlags | src/server/server.c:529-727 | the same after the answer |
| SessionSafety.AcceptNamed | src/server/server.c:1334-1540 | which text is served, and that accesses are named by its request and permitted |
| SessionSafety.OriginIff | src/server/server.c:1377-1460 | under ciphering every octet of a served request was deciphered, unless and only unless an accepted frame held a block that was not the whole of a plain reassembled APDU |
| SessionSafety.DecipheredStretch | src/server/server.c:1377-1460 | all deciphered means: the served text is a stretch of the plaintext of the last accepted frame |
| SessionSafety.FrameDecidesIff | src/server/server.c:1419-1437 | for every link behaviour the reassembled text was deciphered whole if and only if the accepted block is undecodable, or number 1, last and complete |
| SessionSafety.RunDeciphered | src/server/server.c:1377-1460 | every run of a ciphering server serves deciphered octets only, with block transfer off or while accepted blocks are whole transfers |
| SessionSafety.SplitReassembled | src/server/server.c:1419-1437 | the receiver joins a first block from an accepted frame and a second one from the link |
| SessionSafety.SplitExample | src/server/server.c:1377-1460 | with block transfer on, any split of a GET, SET or ACTION over an accepted first block and a plain second one is served, although the second part was never deciphered |
| SessionSafety.RunDecipheredIff | src/server/server.c:1377-1460 | all runs of a ciphering association that permits something and can still accept a frame serve deciphered octets only, if and only if block transfer is off |
| SessionCounters.CountersMove | src/server/server.c:196-227 | in every run within an association: accepted counters strictly increase; sent counters do if and only if the peer's last counter was not accepted in front of the gate between two sent frames; a vector repeats if and only if the restarted counter reaches an earlier one |
| SessionCounters.RunFine | src/server/server.c:1377-1402 | over every run within an association, notifications included, the trace determines both counters |
| SessionCounters.AlignForwardIff | src/server/server.c:1395-1401 | following the peer never moves the outbound counter back if and only if the peer counter is below 2^32-1 or the own counter is 0 |
| SessionCounters.StepFine | src/server/server.c:1377-1402 | the same for one message |
| SessionCounters.IvInjective | src/security/security.c:859-865 | different counters give different vectors |
| SessionCounters.RiseIff | src/server/server.c:1395-1401 | when sent counters increase, on traces |
| SessionCounters.VectorsIff | src/server/server.c:1395-1401 | when two sent frames share a vector, on traces |
| SessionCounters.NextAssociation | src/server/server.c:101-123 | a further association keeps the outbound counter while ciphering stays on and otherwise restarts it; the replay state is cleared |
| SessionCounters.AcceptedAgainIff | src/security/security.c:1003-1006 | a frame accepted before is accepted again under the same keys if and only if its counter is fresh |
| SessionVectors.StepSends | src/server/server.c:196-253 | a step within an association sends at most two ciphered frames |
| SessionVectors.TwiceTakesSteps | src/server/server.c:196-253 | a vector comes twice only if twice the number of steps exceeds the outbound counter at the start |
| SessionVectors.StepPrompt | src/server/server.c:1377-1460 | an established association that only answers sends at most one ciphered frame per step, and only after accepting one |
| SessionVectors.AnsweringNeverTwice | src/server/server.c:1377-1460 | an established association that only answers never uses a vector twice in any run, without block transfer or with the counter off its start |
| SessionVectors.BlockAskTwice | src/server/server.c:1419-1486 | with block transfer and the counter at 0, a malformed GET ciphered inside an unciphered block and one with the peer's last counter are answered under one vector, whatever the responses |
| SessionVectors.SettledIff | src/server/server.c:1377-1460 | for a new association that can answer, no run of answers repeats a vector if and only if block transfer is off or the counter is positive |
| SessionVectors.WrongAnswersTwice | src/server/server.c:1222-1287 | during the handshake, pass-3 messages that are refused without being counted make a vector come twice, for every start of the counter, request and response |
| SessionVectors.ShortIsWrong | src/security/security.c:535-603 | such messages exist for both mechanisms with a counter |
| SessionVectors.NeverTwiceIff | src/server/server.c:1222-1402 | no run of answers repeats a vector if and only if the association is established |
| LongGet.GetServer.GetNext | src/server/server.c:783-818 | block, no transfer or out of sequence, and the transfer afterwards |
| LongGet.GetServer.Start | src/server/server.c:753-761 | the first block of a new transfer |
| LongGet.NextKeeps | src/server/server.c:783-818 | while active the next block starts inside the data; a refused acknowledgement changes nothing |
| LongGet.Reassemble | src/client/client.c:411-445 | ends with the server's octets after ceil(len / M) blocks and an inactive transfer, if and only if they fit the client |
| LongGet.GetValue | src/client/client.c:370-451 | the client decodes the value the server encoded |
| LongGet.OffsetIsProduct | src/server/server.c:799-800 | block k starts at k times the block size |
| LongGet.GetServer.constructor | src/server/server.c:130-147 | no transfer |
| LongGet.PayloadMax | src/server/server.c:763-781 | at most the 256 octets a block can hold, for every PDU and frame limit |
| LongAction.BlocksFitIff | src/server/server.c:1042-1055 | the blocks of a result fit the 256 octets of a block if and only if the PDU limit does |
| LongAction.DefaultLimitExample | src/server/server.c:1042-1055 | with the default limit the first block has 1024 octets |
| LongAction.ResultKeeps | src/server/server.c:1023-1061 | the transfer stays inside its data; an acknowledgement out of order ends it |
| LongAction.ActionServer.ResultNext | src/server/server.c:1023-1061 | block, no transfer or aborted, and the transfer afterwards |
| LongAction.ActionServer.Start | src/server/server.c:1079-1085 | the first block of a result |
| LongAction.ActionServer.constructor | src/server/server.c:130-147 | no transfer |
| LongAction.FetchResult | src/client/client.c:796-827 | where blocks have room: the server's octets after ceil(len / M) blocks, if and only if they fit the client |
| LongAction.ResultValue | src/client/client.c:785-836 | the client decodes the value the method returned |
| BlockWrite.BlockServer.Handle | src/server/server.c:923-983 | what one block does to the pending transfer, and the call it makes |
| BlockWrite.CallsOnlyAtTheEnd | src/server/server.c:1097-1160 | in every run a request makes at most one call, only with a last block and through an open gate, with the decoding of everything since the latest first block |
| BlockWrite.TransferCalls | src/client/client.c:555-614 | a transfer cut short calls nothing; a complete one asks the dispatcher once |
| BlockWrite.SendBlocks | src/client/client.c:725-783 | the exchange: one dispatch with the decoded octets; success exactly when the gate is open and the object takes the value |
| BlockWrite.SendValue | src/client/client.c:555-614 | a value of up to 4096 octets reaches the object unchanged if the gate is open; success exactly if the object takes it |
| BlockWrite.PendingIsSince | src/server/server.c:923-983 | what is collected is everything since the latest first block |
| BlockWrite.BlockServer.constructor | src/server/server.c:130-147 | no transfer, no calls |
| BlockWrite.FirstForgets | src/server/server.c:974-980 | a first block starts over whatever was pending |
| BlockWrite.BlockServer.Deliver | src/server/server.c:956-971 | decoding, gate, object and result code |
| BlockWrite.LastStep | src/server/server.c:923-972 | what each request of a transfer answers and does |
| Protect.ControlRoundTrip | src/security/security.h:120-143 | the policy is recovered from the control octet, for every suite |
| Protect.SecContext.Protect | src/security/security.c:898-976 | the protected frame for every suite, policy and key kind, or failure |
| Protect.WriteFrame | src/security/security.c:879-896 | tag, length and body, or too long |
| Protect.SecContext.Unprotect | src/security/security.c:978-1120 | outcome and context afterwards: malformed, replayed, wrong tag or plaintext |
| Protect.ProtectRoundTrip | src/security/security.c:837-1120 | when sealing succeeds, matching contexts recover 1..1024 octets, the policy and the counter, for any GCM whose decryption inverts encryption and for the Kuznyechik AEAD |
| Protect.GostOpensSealed | src/security/kuznyechik.c:217-315 | the Kuznyechik AEAD opens what it seals, for every combination of services |
| Protect.GostSealTotal | src/security/kuznyechik.c:217-258 | it never fails on a non-empty text |
| Protect.UnprotectState | src/security/security.c:1003-1119 | a refused frame changes nothing; an accepted one strictly raises the counter and changes no more than counter and policy |
| Protect.NoSecondAcceptance | src/security/security.c:1003-1119 | a frame accepted once is a replay afterwards |
| Protect.GenRoundTrip | src/security/general_ciphering.c:56-101 | when sealing succeeds, general ciphering recovers plaintext and plain tag; the title travels with the frame |
| Protect.GenFits | src/security/general_ciphering.c:36-54 | its frames fit the caller's buffer |
| Protect.GenUnprotectState | src/security/general_ciphering.c:71-101 | a refused frame changes at most the peer title |
| Protect.AesOpensSealed | src/security/security.c:935-1114 | the AES branches open what they seal |
| Protect.OpensSealed | src/security/security.c:898-1114 | every suite opens what it seals |
| Protect.FrameFields | src/security/security.c:879-1009 | the fields of a written frame are read back |
| Protect.GenFieldsRoundTrip | src/security/general_ciphering.c:36-93 | title and service are read back |
| Protect.ReadFields | src/security/security.c:978-1009 | control octet, counter and protected part, or malformed |
| Protect.AcceptedIff | src/security/security.c:978-1120 | exactly the accepted frames: fresh counter, and a matching tag if and only if bit 0x10 of the frame's control octet asks for one |
| Protect.BareAccepted | src/security/security.c:1061-1114 | a frame with neither service is accepted under any keys and policy once its counter is fresh |
| Hls.Same | src/security/security.c:591-595 | the full-length comparison is equality |
| Hls.HlsContext.Pass3Verify | src/security/security.c:515-627 | codes and context for every mechanism |
| Hls.HlsContext.Pass4Build | src/security/security.c:629-653 | the server's answer; a counter at its end is refused, otherwise it moves on |
| Hls.HlsContext.Pass4Verify | src/security/security.c:655-733 | acceptance, failure count and lock-out |
| Hls.Pass3Agrees | src/security/security.c:285-627 | for every mechanism, what the client builds the paired server accepts (fresh counter where one is checked) |
| Hls.Pass4Agrees | src/security/security.c:311-733 | for every mechanism, what the server builds the paired client accepts unless locked |
| Hls.Pass3NotTwice | src/security/security.c:575-579 | an accepted counter is stale afterwards |
| Hls.CountMoves | src/security/security.c:535-603 | a counted pass 3 that is long enough and not locked clears the failures or adds one; a refusal changes nothing else |
| Hls.RunCount | src/security/security.c:515-733 | in every run failures never exceed five, and five stays five |
| Hls.LockedForGood | src/security/security.c:659-662 | once locked, no later run accepts a GMAC or CMAC pass 3 or any pass 4 |
| Hls.StampFields | src/security/security.c:455-461 | control octet, counter and MAC are found where they were put |
| Hls.CountedAgrees | src/security/security.c:285-487 | GMAC and CMAC: the verifier expects the MAC the builder sent |
| Hls.PlainAgrees | src/security/security.c:203-443 | the other mechanisms: the verifier expects what the builder sent, or accepts the signature |
| Hls.StepCount | src/security/security.c:515-733 | one operation keeps the failure bound and the lock |
| Hls.HlsContext.CountedVerify | src/security/security.c:535-603 | GMAC and CMAC: codes, counter and failures |
| Hls.TitledIff | src/security/security.c:127-132 | the verifier takes the vector of the sender if and only if the sender has a title, or neither has |
| Hls.UntitledPass3Iff | src/security/security.c:535-603 | a GMAC answer from a client without a title is accepted by a server with one if and only if the cipher gives the same tag under two different vectors |
| Limbs.U128Mul | src/security/gost3410.c:31-43 | the portable 64x64 product is exact |
| Limbs.U128Add3 | src/security/gost3410.c:44-51 | three words: sum and carry are exact |
| Limbs.Mul512 | src/security/gost3410.c:177-189 | the exact 512-bit product |
| Limbs.MulRow | src/security/gost3410.c:180-187 | one row of the product; the carry never overflows its word |
| Modular.Fermat | src/security/gost3410.c:236-239 | Fermat's little theorem, on which the inverse rests |
| Modular.FermatInverse | src/security/gost3410.c:236-239 | the power with exponent q-2 is an inverse |
| Field.Cmp | src/security/gost3410.c:79-89 | compares the numbers |
| Field.SubInto | src/security/gost3410.c:126-131 | what the borrow loop leaves, its sum taken modulo 2^64 |
| Field.SubExactIff | src/security/gost3410.c:168-173 | for a >= b the borrow loop is exact if and only if no all-ones limb of b receives a borrow |
| Field.SubInexactExample | src/security/gost3410.c:170-172 | operands for which it is off by 2^128 |
| Field.Reduce | src/security/gost3410.c:124-133 | the canonical residue, with at most one subtraction, for both moduli |
| Field.ScAdd | src/security/gost3410.c:143-155 | canonical, and the sum modulo q if and only if the operands leave no second carry |
| Field.FeAdd | src/security/gost3410.c:241-253 | canonical, and the sum modulo p if and only if the operands leave no second carry |
| Field.ModSub | src/security/gost3410.c:157-175 | sc_sub and fe_sub for all operands: the raw difference, or the modular sum of a and the raw complement; for b <= m the difference plus what the borrow loop loses |
| Field.SubCorrectIff | src/security/gost3410.c:255-273 | for a < b <= m the modular difference is right if and only if m - b loses no borrow |
| Field.AddInto | src/security/gost3410.c:144-147 | sum and carry out |
| Field.AddWord | src/security/gost3410.c:247-250 | the early-exit carry loop adds a word modulo 2^256 |
| Field.LostSize | src/security/gost3410.c:126-131 | what a subtraction loses is 0 exactly when safe, else between 2^64 and 2^193 |
| Field.RawIdentity | src/security/gost3410.c:126-131 | after each limb: difference, borrow and what was lost so far |
| Field.BothGood | src/security/gost3410.c:76-77 | each fold constant is 2^256 minus its modulus and below 2^128, and both moduli have all-ones top limbs |
| Field.OnesOnTopSafe | src/security/gost3410.c:124-133 | subtracting p or q from anything at least as large loses no borrow |
| Field.AddedComplement | src/security/gost3410.c:166-166 | adding m - b to a smaller a leaves no second carry |
| FieldMul.Reduce512 | src/security/gost3410.c:191-209 | keeps the residue and reaches four limbs in at most three folds, for both constants |
| FieldMul.Fold | src/security/gost3410.c:197-207 | one fold; the carry out of eight limbs is always zero |
| FieldMul.ModMul | src/security/gost3410.c:211-286 | the canonical product of any two 256-bit numbers, modulo p or q |
| FieldMul.ModPow | src/security/gost3410.c:218-304 | the canonical power for every base and exponent |
| FieldMul.ModInv | src/security/gost3410.c:236-309 | the power with exponent m-2; an inverse for a prime modulus |
| FieldMul.FoldShrinks | src/security/gost3410.c:192-207 | three folds suffice |
| FieldMul.FoldKeepsResidue | src/security/gost3410.c:197-207 | a fold keeps the residue |
| FieldMul.IsZero | src/security/gost3410.c:91-93 | zero exactly when the number is |
| FieldMul.PowLimb | src/security/gost3410.c:223-231 | sixty-four square-and-multiply steps append one limb to the exponent |
| FieldMul.InverseExponents | src/security/gost3410.c:237-237 | the exponents are q-2 and p-2 |
| Group.Halve | src/security/gost3410.c:386-391 | the four-limb shift halves the scalar |
| Group.PointMul | src/security/gost3410.c:374-399 | double-and-add is n times the point in any abelian group, n = 0 included |
| Group.Round | src/security/gost3410.c:380-396 | one round keeps result + n * addend |
| Group.TimesAdd | src/security/gost3410.c:374-399 | (m + n) * a = m * a + n * a |
| Group.TimesTimes | src/security/gost3410.c:374-399 | m * (n * a) = mn * a |
| Group.TimesResidue | src/security/gost3410.c:374-399 | multiples depend on the scalar modulo the order only |
| Gost.LeRoundTrip | src/security/gost3410.c:95-118 | limbs survive their 32 octets |
| Gost.HashToScalar | src/security/gost3410.c:401-412 | the digest modulo q, 1 in place of 0 |
| Gost.CheckKey | src/security/gost3410.c:510-512 | accepts exactly the canonical coordinates on the curve |
| Gost.SignWithK | src/security/gost3410.c:445-479 | the signature of section 6.1 of RFC 7091, and nothing exactly when it has none |
| Gost.VerifyScalars | src/security/gost3410.c:516-520 | the scalars z1 and z2 as computed |
| Gost.Verify | src/security/gost3410.c:498-535 | accepts exactly when ranges, key and the combined point say so |
| Gost.ScalarIdentity | src/security/gost3410.c:445-535 | z1 + z2*d = k modulo q if and only if q - rv loses no borrow, for all d, k and digests |
| Gost.VerifiedPoint | src/security/gost3410.c:516-527 | the point verification reaches, with any lost borrow accounted for |
| Gost.SignThenVerify | src/security/gost3410.c:445-535 | a produced signature is accepted under its key if and only if k plus d times the lost borrow has the abscissa r; in particular whenever nothing is lost |
| Gost.LostBorrowExample | src/security/gost3410.c:518-520 | for every r there is a digest with which the recovered scalar is wrong, for every d and k |
| Gost.Agreement | src/security/gost3410.c:547-576 | both sides reach the same point; they reach one if and only if q does not divide the nonce |
| Gost.SignScalar | src/security/gost3410.c:469-472 | s = r*d + k*e modulo q |
| Gost.NonceScalar | src/security/gost3410.c:458-468 | r = x(kG) modulo q, or nothing for infinity or zero |
| Gost.SignChecked | src/security/gost3410.c:458-478 | the signature once the scalars are in range |
| Gost.Equation | src/security/gost3410.c:414-423 | the curve equation modulo p |
| Gost.Combine | src/security/gost3410.c:516-534 | the comparison of the recovered abscissa with r |
| Gost.ScalarSum | src/security/gost3410.c:516-520 | the recovered scalar is k plus what the borrow loses times d |
| Gost.InScalarRange | src/security/gost3410.c:452-454 | exactly 0 < w < q |
| Gost.MultipleIsAffine | src/security/gost3410.c:425-443 | scalar multiples of the generator are never infinite |
| Gost.PublicKey | src/security/gost3410.c:425-443 | every private key in range has a public key, and no other |
| Gost.SharedOctets | src/security/gost3410.c:537-576 | the octets of the shared point, or nothing |
| Gost.SharedScalar | src/security/gost3410.c:561-562 | nonce times private key modulo q |
| Gost.EveryNonceLoses | src/security/gost3410.c:516-520 | for every r and every number that loses a borrow, the digest that makes verification subtract just that number |
| Curve.Newton | src/security/gost3410.c:317-372 | a line meets the cubic again where the three abscissas add up to the square of its slope |
| Curve.SumOn | src/security/gost3410.c:317-372 | chord and tangent keep the curve, for all points, given that p is prime |
| Curve.Opposite | src/security/gost3410.c:352-358 | points with one abscissa are equal or opposite, so the third case is infinity |
| Curve.SumCommutes | src/security/gost3410.c:343-372 | the sum does not depend on the order |
| Curve.LawIff | src/security/gost3410.c:317-372 | chord and tangent form an abelian group on the curve if and only if they associate |
| Curve.FeSub | src/security/gost3410.c:255-273 | field subtraction of canonical operands is right if and only if no borrow is lost |
| Curve.TangentRise | src/security/gost3410.c:322-328 | 3x^2 + a modulo p |
| Curve.Tail | src/security/gost3410.c:334-340 | the third point of the line from its slope, while no borrow is lost |
| Curve.PointDouble | src/security/gost3410.c:317-341 | the tangent point, or infinity, while no borrow is lost |
| Curve.ChordSlope | src/security/gost3410.c:360-365 | the slope of the chord, while no borrow is lost |
| Curve.PointAdd | src/security/gost3410.c:343-372 | the sum by chord, tangent or infinity, while no borrow is lost |
| Kuznyechik.LStep | src/security/kuznyechik.c:18-36 | one register step in place through the rotating index |
| Kuznyechik.LInPlace | src/security/kuznyechik.c:49-51 | sixteen rotating steps equal sixteen steps of the shift register R of section 4.3 of RFC 7801, for any tables |
| Kuznyechik.LsxInPlace | src/security/kuznyechik.c:44-52 | key addition, substitution, linear transformation |
| Kuznyechik.KeyStep | src/security/kuznyechik.c:58-71 | eight Feistel steps without moving the halves |
| Kuznyechik.Expand | src/security/kuznyechik.c:73-84 | the ten round keys of section 4.4 of RFC 7801 |
| Kuznyechik.EncryptInPlace | src/security/kuznyechik.c:86-91 | nine rounds and a last key |
| Kuznyechik.NextView | src/security/kuznyechik.c:18-36 | seen through the rotating index, one in-place step is one step of R |
| Kuznyechik.XorInPlace | src/security/kuznyechik.c:38-42 | blockwise exclusive or |
| Kuznyechik.HalfStep | src/security/kuznyechik.c:61-69 | one Feistel step, halves named in alternation |
| Kuznyechik.XorTwice | src/security/kuznyechik.c:38-42 | exclusive or with the same octet twice is the identity |
| KuznyechikModes.EncryptUnder | src/security/kuznyechik.c:73-91 | expansion and encryption together |
| KuznyechikModes.CtrRun | src/security/kuznyechik.c:153-185 | counter mode over any length, nothing written beyond it |
| KuznyechikModes.CtrTwice | src/security/kuznyechik.c:153-185 | applied twice it is the identity |
| KuznyechikModes.CountersDiffer | src/security/kuznyechik.c:164-171 | no counter block repeats within a message |
| KuznyechikModes.DblInPlace | src/security/kuznyechik.c:93-99 | doubling of section 6.1 of NIST SP 800-38B |
| KuznyechikModes.ShiftDoubles | src/security/kuznyechik.c:93-99 | the shift doubles the 128-bit number, modulo its width |
| KuznyechikModes.CmacRun | src/security/kuznyechik.c:101-151 | the MAC of section 6.2 of NIST SP 800-38B for every length up to 2^32-16, 0 included |
| KuznyechikModes.BlockCountIff | src/security/kuznyechik.c:121-121 | the block count, a sum of 32 bits, is right if and only if the length is at most 2^32-16; beyond it is 0 |
| Gf.Shortcut | src/security/hls_high.c:72-76 | one doubling and the column sum give {02}a + {03}b + c + d |
| Gf.Galois | src/security/hls_high.c:33-42 | the routine doubles in GF(2^8), section 4.2.1 of FIPS 197 |
| Gf.XtimeLinear | src/security/hls_high.c:33-42 | doubling distributes over exclusive or |
| Aes.ShiftInPlace | src/security/hls_high.c:50-67 | the byte moves are ShiftRows |
| Aes.MixInPlace | src/security/hls_high.c:70-86 | the shortened loop is MixColumns |
| Aes.KeyInPlace | src/security/hls_high.c:89-95 | the in-place update is the next round key |
| Aes.NextRoundKey | src/security/hls_high.c:89-95 | four chained words are words 4r+4..4r+7 of the expanded key of section 5.2 of FIPS 197 |
| Aes.EncryptBlock | src/security/hls_high.c:44-101 | equals the AES-128 cipher of section 5.1 of FIPS 197 for every key, block and S-box |
| Aes.Secure | src/security/hls_high.c:103-143 | padding and block loop: each block enciphered under the password, or refusal, if and only if the padded length does not wrap; beyond, a success with no octets |
| Aes.RconTable | src/security/hls_high.c:10-12 | the round constants are the powers of x in GF(2^8) |
| Aes.KeyAndSub | src/security/hls_high.c:46-48 | AddRoundKey, then SubBytes |
| Aes.MixOne | src/security/hls_high.c:71-85 | one column, although later octets read updated ones |
| Aes.RunBlocks | src/security/hls_high.c:135-139 | each block enciphered under a fresh copy of the key |
| Aes.PaddedLength | src/security/hls_high.c:109-118 | the larger length rounded up to whole blocks, modulo 2^32 |
| Aes.OneBlock | src/security/hls_high.c:136-138 | the key copy is consumed, the key kept |
| Aes.KeyTail | src/security/hls_high.c:93-95 | the twelve other octets of the next round key |
| Aes.PaddedLenIff | src/security/hls_high.c:109-118 | it holds both arguments if and only if the larger has at most 2^32-16 octets; beyond it is 0 |

## Left out

- Transports, HDLC, serial ports and sockets: replaced by message sequences and failures; they hold no logic of the parts above.
- xDLMS and ACSE encoders and decoders (`src/service/service.c` is not part of this model): requests are typed records, decoders are arbitrary functions in `Session`.
- aarq_validate and the initiate codec: flat checks; `Session` takes their verdict as an input.
- Associativity of the chord and tangent law: assumed; `Gost` works over any abelian group law on the curve, so a borrow lost inside a point operation is not followed through a signature; `Curve` proves the rest of that law and when the code computes it.
- AES-GCM, MD5, SHA, Streebog and ECDSA: arbitrary functions with the contracts named above.
- Table contents (S-boxes, multiplication tables, key-schedule constants of Kuznyechik): results hold for any tables.
- osp_gost3410_sign: only derives k and calls the modelled function.
- General ciphering with tag 0xDD and general signing: the same wrapping with more fields.
- Contents and timing of notifications and pushes, the current-association mirror, ACSE logging: a notification is an input of `Session`, a queued push part of a request's outcome.
- Acknowledgements that the receiver sends while it reassembles blocks: modelled in `GbtReceive`, not repeated among the events of `Session`.
- The other streaming writers (schedules, scripts, seasons, users): repetitions of the two modelled ones.
- Mutexes, thread-local scratch lifetimes and zeroization: environment concerns.
- OSP_REQUIRE_ACL: the build that refuses access without a bound association.
- Key rotation, the client's own counters and its side of the association: not modelled.
- ValueWrite.WriteValue: says whether it succeeds and what it appends, not which error code a full buffer yields.
- FieldRead.ReadBits: assumes buffers below 2^29 octets, so that the bit count does not wrap.
- CompactRead.ReadCompact: the windows on description and contents are copies; sharing memory with the buffer is not modelled, since nothing is written through them.
- Server.Server.SendApdu: block transfer of responses is off; with it on, one protected frame is cut into several blocks.
- LongAction.FetchResult: assumes a PDU limit of at most 256 octets; what the code does to memory beyond a block's data is not modelled.
- KuznyechikModes.CmacRun: assumes at most 2^32-16 octets; beyond, the block count is 0 and the loop of the code runs past its input.
- Aes.Secure: assumes that what is copied fits the output of 64 octets, also where the padded length wraps to 0.
- Curve.PointAdd: says nothing of the result once a borrow is lost.
- Curve.PointDouble: says nothing of the result once a borrow is lost.
- Hls.HlsContext.Pass3Verify: mechanism 2 uses an arbitrary password function; `Aes.Secure` is the one in the code.
