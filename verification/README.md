# Verified model of the MQTT client core

A Dafny model of the parts of an MQTT v5.0 client that keep state across reconnections or move bytes in place, and of
the hardest routines of the class library kept under its `tests` directory. `dafny verify dfyconfig.toml` checks the
whole project.

| file | what it models |
|---|---|
| `Ring.dfy`, `PacketList.dfy` | the ring buffer of unacknowledged packets, refined to an ordered list and then to a map with a budget |
| `PacketIds.dfy` | the packed table of packet identifiers |
| `Handshake.dfy` | one publish, one received packet, one resent slot: class `Client` over the ring buffer and the table |
| `StepOutcomes.dfy` | every answer, result and effect of those steps, case by case |
| `Session.dfy`, `SessionProofs.dfy`, `Inbound.dfy`, `Resending.dfy`, `Redelivery.dfy`, `ResendOrder.dfy` | runs of that client against a broker that follows sections 4.3.2, 4.3.3 and 4.4 of OASIS MQTT 5.0, over channels that lose their contents on disconnect |
| `VarInt.dfy`, `PropertyCodec.dfy`, `PropertyLists.dfy` | variable byte integers, typed properties and their registries, owned lists and views |
| `PublishHeaders.dfy`, `PublishPackets.dfy`, `ConnectPayloads.dfy`, `SubscribePayloads.dfy` | whole packets whose layout depends on flags |
| `RobinHood.dfy` | the open-addressing hash table |
| `MultDiv.dfy` | 64-bit multiply and divide |
| `FindReplace.dfy`, `SplitJoin.dfy` | in-place replacement, splitting and joining of strings |
| `RwLock.dfy` | the compare-and-set reader/writer lock |
| `Utf8.dfy` | the UTF-8 encoder and decoder |
| `Bits.dfy`, `Circular.dfy`, `Memory.dfy`, `Counting.dfy`, `Options.dfy` | bitwise operations as arithmetic, wrapped positions, block copies, set sizes, absent values |

Objects whose methods update fields are classes with those fields; the state they stand for is a ghost field or a
function of the fields, and each method's contract gives its new value. What runs of several methods promise is proved
about the specification functions. The lock and the session are transition systems, one step for each atomic access or
each packet.

## Findings

- `Properties::append` says it does not update an existing property, and asks for one by the property's type. The type
  is a byte, so the call is the lookup by index, which returns null in every case; duplicates are accepted
  (`PropertyLists.Properties.Append`, `PropertyLists.Properties.GetPropertyAt`).
- A PUBLISH packet whose body exceeds 268435455 bytes is still written, without a remaining length. It is read back if
  and only if it is within the limit (`PublishPackets.PublishRoundTrips`).
- The stored packet is released before the answer to PUBREC is sent and the table entry advances after it. If that send
  fails the publication can no longer be resent (`SessionProofs.RecNeedsItsAnswerSent`).
- Sending a slot twice on one connection can lose a later message (`Resending.SecondResendLoses`): the session results ask
  for at most once, which a single pass over the slots gives.
- A QoS 2 publication of the broker that is sent again, as section 4.4 of OASIS MQTT 5.0 asks after a lost connection, takes a
  second slot, and the exchange frees one (`Inbound.RepeatLeaks`). An identifier is forgotten after its PUBREL if and only
  if it was taken at most once (`Inbound.ForgottenExactly`).
- `bjoin` of an empty list with a separator sizes its block from minus one separators (`SplitJoin.BlockFits`).
- `storeValue` on a full table drops an entry and still counts it (`RobinHood.RobinHoodHashTable.StoreValue`);
  `reliableStoreValue` never gets there (`RobinHood.RobinHoodHashTable.ReliableStoreValue`).
- The documentation of `ReadWriteLock` says that no reader takes the lock once a writer wants to enter. A reader past its
  check does (`RwLock.ReaderOvertakes`): exactly the readers past it whose next access succeeds can
  (`RwLock.OvertakesWhenReady`), each once (`RwLock.OvertakingIsBounded`).
- A variable byte integer that does not end within its buffer or four bytes is refused by the owned reader and accepted
  by the mapped visitor (`VarInt.VisitorAgrees`, `VarInt.VisitorOvershoots`), which also shows the continuation bit of a
  fourth byte as part of the number (`VarInt.DecodedIsValue`).
- An empty list of topics is written as nothing, and cannot be read (`SubscribePayloads.TopicsRoundTrip`).
- A PUBLISH is resent with the bytes stored when it was first sent. Section 3.3.1.1 of OASIS MQTT 5.0 asks for DUP 1; the
  resent packet has it if and only if the first one had (`Redelivery.ResendKeepsDup`), and publish always clears it
  (`Redelivery.NeverSaysAgain`, `Redelivery.SentAgainUnmarked`).
- The resend loop goes by slot, and slots are reused. Section 4.6 asks for the order of publishing; it is kept if and only
  if every publication finds its slot behind those that await an answer (`ResendOrder.ResendsInOrder`,
  `ResendOrder.OutOfOrder`).

## Model

| member | source | states |
|---|---|---|
| `SessionProofs.ExactlyOnce` | lib/src/Network/Clients/MQTTClient.cpp:789-824 | Over every run of publishes, receptions, resends, losses and reconnects with a conforming broker, with local sends that may fail except in the answer to a PUBREC: whatever the broker delivers is a stored message with its own bytes, a QoS 2 message is delivered at most once, and a message whose identifier has been freed has been delivered (exactly once with QoS 2, at least once with QoS 1) |
| `SessionProofs.Coupled` | lib/src/Network/Clients/MQTTClient.cpp:800-815 | In every reachable state a packet is stored under an identifier exactly when the table awaits PUBACK or PUBREC for it, and every unfinished table entry can be sent again, as PUBREL or as the exact original bytes of its message |
| `SessionProofs.RecNeedsItsAnswerSent` | lib/src/Network/Clients/MQTTClient.cpp:935-971 | After a PUBREC the publication can still be resent if and only if the local send of its PUBREL succeeded: the stored packet is released before the send and the entry advances after it |
| `Resending.SecondResendLoses` | lib/src/Network/Clients/MQTTClient.cpp:1094-1132 | The condition that a slot is sent at most once per connection is needed: a concrete run, allowed in every other respect, in which a second PUBREL makes the client free an identifier that carries a new message, which is never delivered and stays stored |
| `Redelivery.ResendKeepsDup` | lib/src/Network/Clients/MQTTClient.cpp:1107-1121 | In every run a packet that awaits its first answer is resent as exactly the bytes first sent, so the resent packet has the DUP flag that section 3.3.1.1 of OASIS MQTT 5.0 asks for if and only if the first one had it |
| `Redelivery.NeverSaysAgain` | lib/src/Network/Clients/MQTTClient.cpp:1107-1121 | In every run of publications whose header has DUP clear, as publish writes it, no resent packet has the flag |
| `Redelivery.SentAgainUnmarked` | lib/src/Network/Clients/MQTTClient.cpp:1107-1121 | A concrete run: a QoS 2 packet with header 0x34 is lost with its connection and goes up again with DUP clear |
| `ResendOrder.ResendsInOrder` | lib/src/Network/Clients/MQTTClient.cpp:1092-1132 | In every state of a run the loop would resend in the order of publishing, as section 4.6 of OASIS MQTT 5.0 asks, if and only if every publication of the run began in a slot behind all slots that awaited a first answer |
| `ResendOrder.PublishOrder` | lib/src/Network/Clients/MQTTClient.cpp:83-94 | Beginning a publication keeps the resend order if and only if the first free slot lies behind every slot that awaits a first answer |
| `ResendOrder.OthersKeepOrder` | lib/src/Network/Clients/MQTTClient.cpp:875-976 | No other step of client, broker or network puts a packet out of order |
| `ResendOrder.OutOfOrder` | lib/src/Network/Clients/MQTTClient.cpp:1092-1132 | A concrete run: the slot of an acknowledged first message is reused by a third, which would then be resent before the second |
| `ResendOrder.PassInOrder` | lib/src/Network/Clients/MQTTClient.cpp:1092-1132 | The messages the loop resends come in the order of publishing if and only if the slots that await an answer are in that order |
| `SessionProofs.StepKeeps` | lib/src/Network/Clients/MQTTClient.cpp:875-976 | Every step of client, broker and network keeps the invariant that ties table, storage, packets under way and broker session together |
| `SessionProofs.RunKeeps` | lib/src/Network/Clients/MQTTClient.cpp:875-976 | The invariant holds after every run |
| `SessionProofs.PublishKeeps` | lib/src/Network/Clients/MQTTClient.cpp:800-815 | Publishing with a fresh identifier and a free slot keeps the invariant, whether or not the storage has room and whether or not the first send succeeds |
| `SessionProofs.ResendPossible` | lib/src/Network/Clients/MQTTClient.cpp:1096-1121 | For every outgoing entry of a reachable state the resend loop finds what it needs: no stored packet is missing |
| `SessionProofs.ResendKeeps` | lib/src/Network/Clients/MQTTClient.cpp:1096-1121 | Sending an unfinished entry again, once per connection and whether or not the send succeeds, keeps the invariant |
| `SessionProofs.AckKeeps` | lib/src/Network/Clients/MQTTClient.cpp:937-947 | PUBACK frees packet and identifier together, after at least one delivery |
| `SessionProofs.RecKeeps` | lib/src/Network/Clients/MQTTClient.cpp:937-967 | PUBREC releases the stored packet, advances the entry and answers PUBREL |
| `SessionProofs.CompKeeps` | lib/src/Network/Clients/MQTTClient.cpp:943-947 | PUBCOMP frees the identifier after exactly one delivery |
| `SessionProofs.InboundKeeps` | lib/src/Network/Clients/MQTTClient.cpp:899-924 | Packets the broker sends on its own account use table slots of their own direction and disturb no outgoing publication |
| `Inbound.InboundLedger` | lib/src/Network/Clients/MQTTClient.cpp:899-971 | Over every run the two laws of the broker's own publications: every turn is well answered, and the table lists each of their identifiers as often as the record of the run says, which counts the QoS 2 publications taken and the QoS 1 publications whose PUBACK could not be sent, less the answered PUBRELs |
| `Inbound.RunAnswered` | lib/src/Network/Clients/MQTTClient.cpp:899-971 | In every turn of every run PUBACK, PUBREC and PUBCOMP go up only as the answer to the packet just received: PUBACK to a QoS 1 publication, PUBREC to a QoS 2 one, PUBCOMP to a PUBREL, with its identifier; and the answer goes up if and only if the packet asks for one, the send succeeds and, for a publication, a slot is free |
| `Inbound.RunPending` | lib/src/Network/Clients/MQTTClient.cpp:919-971 | The record of an identifier and the number of its entries in the table agree at the end of every run |
| `Inbound.AnsweredOnceForgotten` | lib/src/Network/Clients/MQTTClient.cpp:918-971 | An answered QoS 1 publication under an identifier that is not listed leaves storage and table as they were |
| `Inbound.QoS2IsListed` | lib/src/Network/Clients/MQTTClient.cpp:918-924 | Taking a QoS 2 publication writes its identifier and QoS into a free slot and changes nothing else |
| `Inbound.HeldUntilReleased` | lib/src/Network/Clients/MQTTClient.cpp:943-971 | A listed publication keeps its slot in every state of every run until a PUBREL, or a QoS 1 publication, with its identifier arrives |
| `Inbound.ForgottenExactly` | lib/src/Network/Clients/MQTTClient.cpp:968-971 | After any run, an answered PUBREL leaves no entry of its identifier if and only if the run had taken the identifier at most once since it was last forgotten |
| `Inbound.RepeatLeaks` | lib/src/Network/Clients/MQTTClient.cpp:913-924 | A concrete run of a conforming broker: a QoS 2 publication is sent again after its PUBREC was lost with the connection, takes a second slot, and one of its entries is left when the exchange has ended |
| `Handshake.Client.PrepareSAR` | lib/src/Network/Clients/MQTTClient.cpp:789-824 | The new storage and table, and the result, are those of the handshake step Send, whose results and effects are stated case by case in StepOutcomes.SendResults |
| `Handshake.Client.DealWithNoise` | lib/src/Network/Clients/MQTTClient.cpp:875-976 | The new storage and table, the answer sent and the result are those of the handshake step Deal, for every packet of the publish exchange and whether or not the local send succeeds; what Deal answers and leaves behind is stated case by case in StepOutcomes and over runs in Inbound |
| `Handshake.Client.ResendSlot` | lib/src/Network/Clients/MQTTClient.cpp:1096-1113 | One slot of the resend loop sends PUBREL, or the stored packet as head and tail, or finds the packet lost, as the bits of the packed word say |
| `StepOutcomes.DealResults` | lib/src/Network/Clients/MQTTClient.cpp:899-976 | Which packets are answered and how, and which of the three results is returned, for every state, packet and send: an answer, of the right kind and identifier, if and only if the packet asks for one, is not refused and the send succeeds; the network error if and only if only the send fails; the storage error if and only if a slot, a stored packet or an entry is missing |
| `StepOutcomes.DealStores` | lib/src/Network/Clients/MQTTClient.cpp:937-942 | PUBACK and PUBREC take the packet stored under their identifier out, whatever happens next; no other packet touches the storage |
| `StepOutcomes.InboundLists` | lib/src/Network/Clients/MQTTClient.cpp:918-971 | What a publication of the broker does to the table: the first free slot takes identifier and QoS; an answered QoS 1 publication frees the first entry with its identifier, which leaves the table as it was unless one was listed in an earlier slot |
| `StepOutcomes.OthersList` | lib/src/Network/Clients/MQTTClient.cpp:943-971 | What each acknowledgement does to each slot: PUBACK and PUBCOMP free the first entry of the identifier, PUBREC marks it as received once its answer is sent, PUBREL frees the first inbound entry once its answer is sent |
| `StepOutcomes.SendResults` | lib/src/Network/Clients/MQTTClient.cpp:789-824 | The result is Success if and only if the send succeeds and, with QoS, packet and identifier could be stored; QoS 0 touches neither storage nor table; a failed send leaves both stored; the first free slot takes the identifier with its QoS |
| `StepOutcomes.ResendResults` | lib/src/Network/Clients/MQTTClient.cpp:1096-1113 | A slot sends nothing exactly when it is free or inbound, PUBREL exactly when past PUBREC, and else the bytes stored under its identifier, which are missing exactly when none are stored |
| `PacketIds.PackBits` | lib/src/Network/Clients/MQTTClient.cpp:90-92 | Every bit test of the source on a packed word reads back the field that was packed: identifier, direction, QoS level and step |
| `PacketIds.PackInjective` | lib/src/Network/Clients/MQTTClient.cpp:67-71 | Two table entries with the same packed word are the same entry |
| `PacketIds.PackAdvance` | lib/src/Network/Clients/MQTTClient.cpp:95 | Setting bit 30 of a packed word records the PUBREC and changes nothing else |
| `PacketIds.PackNew` | lib/src/Network/Clients/MQTTClient.cpp:93-94 | The words stored for a new QoS 1 or QoS 2 identifier are the packed entries for it, in either direction |
| `PacketIds.Buffers.FindID` | lib/src/Network/Clients/MQTTClient.cpp:76-82 | The index of the first entry with the identifier and direction, or the number of slots |
| `PacketIds.Buffers.ClearSetID` | lib/src/Network/Clients/MQTTClient.cpp:83-89 | The first entry with the key is replaced; without one the table is unchanged and the call fails |
| `PacketIds.Buffers.StoreQoS1ID` | lib/src/Network/Clients/MQTTClient.cpp:93 | A QoS 1 entry takes the first free slot, or the call fails |
| `PacketIds.Buffers.StoreQoS2ID` | lib/src/Network/Clients/MQTTClient.cpp:94 | A QoS 2 entry takes the first free slot, or the call fails |
| `PacketIds.Buffers.AvanceQoS2` | lib/src/Network/Clients/MQTTClient.cpp:95 | The entry found is marked as past PUBREC |
| `PacketIds.Buffers.ReleaseID` | lib/src/Network/Clients/MQTTClient.cpp:96 | The entry found becomes free |
| `PacketIds.Buffers.CountSentID` | lib/src/Network/Clients/MQTTClient.cpp:101-107 | The number of unfinished outgoing entries |
| `PacketList.RunIsMap` | lib/src/Network/Clients/MQTTClient.cpp:185-328 | After any run of saves and releases the list holds what a plain map from identifier to bytes holds, with the same bytes in use: a save succeeds exactly when the budget and the bookmarks allow it, so no order of releases fragments the buffer |
| `PacketList.SaveOnMap` | lib/src/Network/Clients/MQTTClient.cpp:200-217 | The effect of a save on the map and on the bytes in use, and exactly when it succeeds |
| `PacketList.ReleaseOnMap` | lib/src/Network/Clients/MQTTClient.cpp:238-328 | The effect of a release on the map and on the bytes in use, and exactly when it succeeds |
| `Ring.RingBuffer.constructor` | lib/src/Network/Clients/MQTTClient.cpp:172-184 | An empty buffer with one byte less than its power-of-two capacity to give |
| `Ring.RingBuffer.GetSize` | lib/src/Network/Clients/MQTTClient.cpp:194-197 | The size computed from the two positions is the sum of the sizes of the stored packets |
| `Ring.RingBuffer.FindID` | lib/src/Network/Clients/MQTTClient.cpp:186-192 | The first bookmark with the identifier |
| `Ring.RingBuffer.Save` | lib/src/Network/Clients/MQTTClient.cpp:200-217 | Succeeds exactly when the packet fits in the capacity minus 1 minus the stored bytes and a bookmark is free; then the packet is appended to the list, wrapped or not |
| `Ring.RingBuffer.Write` | lib/src/Network/Clients/MQTTClient.cpp:208-212 | The two block copies put the bytes at the write position and on from the start of the buffer |
| `Ring.RingBuffer.Load` | lib/src/Network/Clients/MQTTClient.cpp:223-235 | Finds exactly the stored packets; head followed by tail is the saved bytes |
| `Ring.RingBuffer.Release` | lib/src/Network/Clients/MQTTClient.cpp:238-328 | From any place in the buffer: the packet leaves the list, every other packet keeps its bytes and its order, and an unknown identifier changes nothing |
| `Ring.RingBuffer.Slide` | lib/src/Network/Clients/MQTTClient.cpp:299-300 | The forward circular copy moves every byte behind the hole down by its size without reading a byte it has overwritten, and touches no other byte |
| `Ring.RingBuffer.MoveBookmarks` | lib/src/Network/Clients/MQTTClient.cpp:310-326 | The search loop ends and has shifted exactly the bookmarks of the packets behind the hole, whatever the slot order and whatever left-over positions of free bookmarks it meets |
| `Ring.RingBuffer.CloseHole` | lib/src/Network/Clients/MQTTClient.cpp:297-327 | Copy, new write position and bookmark search together restore the layout for the list without the packet |
| `Ring.RingBuffer.Apply` | lib/src/Network/Clients/MQTTClient.cpp:200-328 | Each call does to the list what the corresponding list operation does |
| `Ring.MaskWraps` | lib/src/Network/Clients/MQTTClient.cpp:215 | Masking with the capacity minus 1 wraps a position, for a power-of-two capacity |
| `Ring.FreeBookmark` | lib/src/Network/Clients/MQTTClient.cpp:205-206 | A free bookmark exists exactly when fewer packets are stored than there are bookmarks |
| `Ring.DropFirst` | lib/src/Network/Clients/MQTTClient.cpp:250-255 | Dropping the oldest packet only moves the read position |
| `Ring.DropLast` | lib/src/Network/Clients/MQTTClient.cpp:259-263 | Dropping the newest packet only moves the write position |
| `Ring.DropMiddle` | lib/src/Network/Clients/MQTTClient.cpp:297-326 | If the bytes behind the hole have slid and exactly the later bookmarks have moved, the layout holds for the list without the packet |
| `Ring.StoredSlid` | lib/src/Network/Clients/MQTTClient.cpp:299-300 | After the slide every remaining packet has its bytes where it should |
| `Ring.NextInLine` | lib/src/Network/Clients/MQTTClient.cpp:317-319 | A packet whose bookmark starts where the hole ends is the next packet, and no other |
| `Ring.FoundAt` | lib/src/Network/Clients/MQTTClient.cpp:240-259 | A bookmark found by identifier tells where its packet lies, and the two comparisons of release tell whether it is the oldest or the newest |
| `Ring.ChaseStep` | lib/src/Network/Clients/MQTTClient.cpp:313-325 | One round of the search either moves the next packet or lowers the number of free bookmarks at the end of the hole: this is why it ends |
| `Ring.ChaseDone` | lib/src/Network/Clients/MQTTClient.cpp:310-326 | When nothing starts at the end of the hole, every packet behind it has been moved |
| `Ring.Places` | lib/src/Network/Clients/MQTTClient.cpp:249-297 | The comparisons of positions with r, w and each other tell oldest, newest and middle packets apart, and the unwrapped distances are right in each wrapping case |
| `RobinHood.RobinHoodHashTable.GetValue` | tests/ClassPath/include/Hash/RobinHoodHashTable.hpp:171-185 | Finds a key exactly when the map holds it, with its data: the early exit never misses a stored key |
| `RobinHood.RobinHoodHashTable.StoreValue` | tests/ClassPath/include/Hash/RobinHoodHashTable.hpp:191-243 | Inserts a fresh key or updates a stored one in the map, with count kept; refuses, when asked to update, exactly a new key that would bring the count to four fifths of the buckets or above; on a full table an entry is lost, so the table represents the map asked for if and only if a bucket was free or the key was stored |
| `RobinHood.RobinHoodHashTable.ShouldResize` | tests/ClassPath/include/Hash/RobinHoodHashTable.hpp:336 | True exactly when one more entry would reach 0.80 of the buckets |
| `RobinHood.RobinHoodHashTable.Insert` | tests/ClassPath/include/Hash/RobinHoodHashTable.hpp:195-242 | The probing loop inserts or updates the key in the map when it is stored or a bucket is free, and otherwise loses an entry |
| `RobinHood.RobinHoodHashTable.ExtractValue` | tests/ClassPath/include/Hash/RobinHoodHashTable.hpp:246-293 | Removes exactly the key and returns its data; the probe order is restored |
| `RobinHood.RobinHoodHashTable.CloseGap` | tests/ClassPath/include/Hash/RobinHoodHashTable.hpp:267-286 | The backshift loop leaves a table in probe order that stands for the map without the removed key |
| `RobinHood.RobinHoodHashTable.ComputeDistToInit` | tests/ClassPath/include/Hash/RobinHoodHashTable.hpp:129-135 | The circular distance of an entry from the position it hashes to; the table size for an empty bucket and for no other |
| `RobinHood.RobinHoodHashTable.ComputeSize` | tests/ClassPath/include/Hash/RobinHoodHashTable.hpp:296-302 | The occupied buckets are as many as count |
| `RobinHood.RobinHoodHashTable.Resize` | tests/ClassPath/include/Hash/RobinHoodHashTable.hpp:373-390 | A table of twice the size that stands for the same map, with the same count |
| `RobinHood.RobinHoodHashTable.ReliableStoreValue` | tests/ClassPath/include/Hash/RobinHoodHashTable.hpp:325-333 | The table doubles if and only if a new key would bring the count to four fifths of the buckets or above, and otherwise stays the same array; with a free bucket the key is always stored, a new one leaves the table below that load, and a free bucket is left |
| `RobinHood.Chain` | tests/ClassPath/include/Hash/RobinHoodHashTable.hpp:171-185 | In a table in probe order every bucket between an entry and its home is full and no closer to its own home than the entry was there |
| `RobinHood.Meets` | tests/ClassPath/include/Hash/RobinHoodHashTable.hpp:176-181 | A stored key is met on its probe sequence before any bucket that would stop the search |
| `RobinHood.Displace` | tests/ClassPath/include/Hash/RobinHoodHashTable.hpp:226-238 | Displacing an entry closer to its home keeps the probe order, and the displaced entry goes on |
| `RobinHood.Place` | tests/ClassPath/include/Hash/RobinHoodHashTable.hpp:215-224 | Placing the entry in hand in an empty bucket keeps the probe order |
| `RobinHood.Backshift` | tests/ClassPath/include/Hash/RobinHoodHashTable.hpp:268-286 | Moving the bucket behind the hole into it keeps the order everywhere but at the new hole, and brings the entry one step closer to its home |
| `RobinHood.InsertLost` | tests/ClassPath/include/Hash/RobinHoodHashTable.hpp:203-242 | With no bucket free, some key of the wanted map is in no bucket |
| `RobinHood.ShiftEnd` | tests/ClassPath/include/Hash/RobinHoodHashTable.hpp:268-288 | A backshift that goes once around still leaves a table in probe order |
| `MultDiv.MultDiv` | tests/ClassPath/src/Time.cpp:550-613 | floor(a*b/c) modulo 2^64 for all 64-bit a, b and c > 0 |
| `MultDiv.LongDivide` | tests/ClassPath/src/Time.cpp:565-612 | For a divisor of two digits the two computed digits are the whole quotient; no 64-bit operation overflows except the wrapping subtractions |
| `MultDiv.Digit` | tests/ClassPath/src/Time.cpp:588-597 | The digit is the exact quotient digit, and its correction loop runs at most twice |
| `MultDiv.Product` | tests/ClassPath/src/Time.cpp:570-582 | The digits of the full 128-bit product, no step overflowing |
| `MultDiv.SplitQuotient` | tests/ClassPath/src/Time.cpp:555-558 | What the easy part leaves out is the quotient of the two remainders |
| `MultDiv.EstimateTooLarge` | tests/ClassPath/src/Time.cpp:594 | While the correction loop goes on the estimate is above the digit |
| `MultDiv.EstimateExact` | tests/ClassPath/src/Time.cpp:594-597 | When the loop stops the estimate is not above the digit |
| `MultDiv.EstimateClose` | tests/ClassPath/src/Time.cpp:589-593 | With a normalised divisor the first estimate is at most two above the digit |
| `MultDiv.WrappedRemainder` | tests/ClassPath/src/Time.cpp:598-601 | Subtracting digit by digit with wraparound leaves the true remainder |
| `MultDiv.Normalised` | tests/ClassPath/src/Time.cpp:566-568 | Scaling by the norm sets the top bit of the divisor without overflow |
| `MultDiv.LongDivision` | tests/ClassPath/src/Time.cpp:584-612 | Two digits of long division give the quotient |
| `FindReplace.BString.FindReplaceEngine` | tests/ClassPath/src/bstrlib.c:1410-1535 | For every position in the text the result is the text up to it followed by the rest with all leftmost non-overlapping matches replaced, in all three forms and also where the source returns early; for a position behind the text nothing changes; an empty find string or a negative position is an error that changes nothing |
| `FindReplace.BString.ReplaceEqual` | tests/ClassPath/src/bstrlib.c:1441-1451 | The equal-length form computes the functional replacement in place |
| `FindReplace.BString.ReplaceShrinking` | tests/ClassPath/src/bstrlib.c:1453-1477 | The shrinking form computes the functional replacement in place, and the length is adjusted |
| `FindReplace.BString.ReplaceExpanding` | tests/ClassPath/src/bstrlib.c:1479-1533 | The expanding form lists the matches, grows the text and moves it up from its end; the result is the functional replacement |
| `FindReplace.BString.ShrinkOne` | tests/ClassPath/src/bstrlib.c:1457-1464 | One turn moves the text since the last match and the replacement down; the unread text is untouched |
| `FindReplace.BString.ScanMatches` | tests/ClassPath/src/bstrlib.c:1486-1509 | The first pass lists exactly the matches of the functional replacement and adds up the growth |
| `FindReplace.BString.ExpandOne` | tests/ClassPath/src/bstrlib.c:1513-1525 | One turn of the second pass moves a stretch and writes its replacement; the text before the match is untouched |
| `FindReplace.BString.Binstr` | tests/ClassPath/src/bstrlib.c:930-967 | The first match at or after pos, or an error code exactly when there is none |
| `FindReplace.BString.Balloc` | tests/ClassPath/src/bstrlib.c:87-125 | Makes room and keeps the text; the block grows to the snapped size exactly when the request does not fit and that size is larger |
| `FindReplace.ReplacedLength` | tests/ClassPath/src/bstrlib.c:1466-1472 | The length changes by the number of matches times the difference of the lengths |
| `FindReplace.ReplaceSelf` | tests/ClassPath/src/bstrlib.c:1441-1451 | Replacing a string by itself changes nothing |
| `FindReplace.EndsInOrder` | tests/ClassPath/src/bstrlib.c:1486-1509 | The listed positions are matches, in order, without overlap, each the first one after the previous |
| `FindReplace.NoRoom` | tests/ClassPath/src/bstrlib.c:1422 | Where the find string no longer fits before the end, the search finds nothing and the functional replacement is the text itself: the early return of the source loses no match |
| `FindReplace.SnapIsLeast` | tests/ClassPath/src/bstrlib.c:59-81 | The snapped size is a power of two, at least 8, above the request and no more than twice it |
| `SplitJoin.JoinSplit` | tests/ClassPath/src/bstrlib.c:2226-2242 | Joining the pieces with the separator gives the text back, no piece holds the separator, and there is one more piece than separators |
| `SplitJoin.SplitJoined` | tests/ClassPath/src/bstrlib.c:2085-2123 | Splitting what was joined gives the pieces back when none of them holds the separator |
| `SplitJoin.ReplaceIsRejoin` | tests/ClassPath/src/bstrlib.c:1410-1535 | Replacing a one-character string is splitting at it and joining with the replacement |
| `SplitJoin.ReplaceJoined` | tests/ClassPath/src/bstrlib.c:1410-1535 | Replacing any string in pieces joined with it joins the pieces with the replacement, when searching meets exactly the joints |
| `SplitJoin.MatchIsOccurrence` | tests/ClassPath/src/bstrlib.c:930-967 | A match is a part of the text: every occurrence between any two pieces is one, and every match splits the text there |
| `SplitJoin.MidIsPart` | tests/ClassPath/src/bstrlib.c:850-870 | The substring is the positions from left on, len of them, that lie in the text, for every left and len, negative ones included |
| `SplitJoin.BSplit` | tests/ClassPath/src/bstrlib.c:2323-2338 | The list of pieces, the last one included even when empty |
| `SplitJoin.BJoin` | tests/ClassPath/src/bstrlib.c:2085-2123 | The joined text, in a block of exactly its length plus the terminator; for an empty list and a longer separator the negative block size makes the call fail |
| `SplitJoin.BlockFits` | tests/ClassPath/src/bstrlib.c:2092-2103 | The block size the source computes is that of the joined text and its terminator if and only if the list has a piece or there is no separator |
| `SplitJoin.JoinInto` | tests/ClassPath/src/bstrlib.c:2112-2121 | The second loop fills the block with the pieces, the separators between them and the terminator |
| `SplitJoin.SplitOnce` | tests/ClassPath/src/bstrlib.c:850-863 | Each callback takes the next piece of the text as a substring |
| `SplitJoin.JoinLength` | tests/ClassPath/src/bstrlib.c:2092-2099 | The length added up before the allocation is the length of the joined text |
| `VarInt.VBInt.Assign` | lib/include/Protocol/MQTT/MQTT.hpp:630-648 | The shifted encoder stores the bytes of the divide-by-128 algorithm of section 1.5.5 of OASIS MQTT 5.0 for every value up to 268435455, and an empty encoding above |
| `VarInt.Stores` | lib/include/Protocol/MQTT/MQTT.hpp:636-644 | The shifted, masked and carried bytes of each branch of the encoder are the bytes of the standard encoding |
| `VarInt.VBInt.ReadFrom` | lib/include/Protocol/MQTT/MQTT.hpp:686-696 | Succeeds exactly when an encoding ends within four bytes and the buffer; then the object holds its bytes and decodes to its value |
| `VarInt.VBInt.Set` | lib/include/Protocol/MQTT/MQTT.hpp:622-628 | The copy has the bytes and size of the other object |
| `VarInt.VBInt.CopyInto` | lib/include/Protocol/MQTT/MQTT.hpp:682 | The encoded bytes are written, and nothing else |
| `VarInt.DecodedIsValue` | lib/include/Protocol/MQTT/MQTT.hpp:651-666 | For every size and every bytes the shift-and-or decoder computes the value the standard defines, plus the continuation bit of a fourth byte, which it does not mask |
| `VarInt.HoldsEncoding` | lib/include/Protocol/MQTT/MQTT.hpp:651-671 | An object that holds the encoding of x decodes to x and passes its check |
| `VarInt.AcceptBuffer` | lib/include/Protocol/MQTT/MQTT.hpp:715-737 | The mapped visitor returns the size of Accepted and, whenever it accepts, the standard value of those bytes plus the unmasked continuation bit of a fourth byte |
| `VarInt.VisitorAgrees` | lib/include/Protocol/MQTT/MQTT.hpp:715-737 | Visitor and reader return the same if and only if one of the first four bytes of the buffer ends an encoding; otherwise the visitor takes what there is, up to four bytes, and refuses only the empty buffer |
| `VarInt.ReaderSucceeds` | lib/include/Protocol/MQTT/MQTT.hpp:686-696 | The reader succeeds if and only if one of the four bytes it may look at ends an encoding; without one it asks for more data on fewer than four bytes and refuses four |
| `VarInt.PartialEncode` | lib/include/Protocol/MQTT/MQTT.hpp:686-696 | Every part of an encoding that stops short of its end asks for more data |
| `VarInt.VisitorOvershoots` | lib/include/Protocol/MQTT/MQTT.hpp:715-737 | Two buffers, one cut short and one of four continued bytes, that the visitor accepts and the reader refuses |
| `VarInt.AcceptedIsTight` | lib/include/Protocol/MQTT/MQTT.hpp:715-737 | The bytes the visitor accepts are the encoding of the number it decodes if and only if the last one ends an encoding and is not zero padding |
| `VarInt.RoundTrip` | lib/include/Protocol/MQTT/MQTT.hpp:686-696 | An encoded number is read back by both readers whatever follows it |
| `VarInt.ExtentEncode` | lib/include/Protocol/MQTT/MQTT.hpp:686-696 | The reader stops exactly at the end of an encoding, at any place in the four bytes |
| `VarInt.EncodeLength` | lib/include/Protocol/MQTT/MQTT.hpp:603-609 | The number of bytes of an encoding, from the limits of the source |
| `VarInt.EncodeIsShortest` | lib/include/Protocol/MQTT/MQTT.hpp:630-648 | No byte string that is read as the value is shorter |
| `VarInt.PrefixFree` | lib/include/Protocol/MQTT/MQTT.hpp:630-648 | No encoding is a prefix of another |
| `PropertyCodec.RegistriesAgree` | lib/include/Protocol/MQTT/MQTT.hpp:1270-1310 | For every property type byte, the visitor registered for it is of the type the property is declared and deserialized with, which is the type of table 2-4 of OASIS MQTT 5.0, and unknown types have neither |
| `PropertyCodec.ValueReads` | lib/include/Protocol/MQTT/MQTT.hpp:1347-1791 | A value written by any property class is accepted by the registered visitor, whole and unchanged, whatever follows |
| `PropertyCodec.PropertyReads` | lib/include/Protocol/MQTT/MQTT.hpp:1365-1372 | A written property is read back by the owned reader, whatever follows |
| `PropertyCodec.AcceptedIsEncoding` | lib/include/Protocol/MQTT/MQTT.hpp:1161-1165 | What a visitor of any type accepts is the encoding of the value it shows if and only if a variable byte integer in it is neither unfinished nor padded |
| `PropertyCodec.DataReads` | lib/include/Protocol/MQTT/MQTT.hpp:277-290 | Length-prefixed data is read back |
| `PropertyCodec.PairReads` | lib/include/Protocol/MQTT/MQTT.hpp:342-354 | A string pair is read back |
| `PropertyCodec.AcceptsExactly` | lib/include/Protocol/MQTT/MQTT.hpp:1161-1165 | For every type and all bytes: when the visitor accepts and how many bytes it takes, from the width of a number, the prefix of data or the bytes that are there, and what a variable byte integer shows |
| `PropertyCodec.BigEndian` | lib/include/Protocol/MQTT/MQTT.hpp:803-812 | Two- and four-byte numbers go out with the most significant byte first: comparing their bytes from the front compares the numbers |
| `PropertyCodec.PropertySamples` | lib/include/Protocol/MQTT/MQTT.hpp:1347-1791 | The bytes of one property of each type |
| `PropertyCodec.PropertyTruncated` | lib/include/Protocol/MQTT/MQTT.hpp:1365-1372 | A written property that is cut anywhere behind its type asks for more data |
| `PropertyLists.Properties.Append` | lib/include/Protocol/MQTT/MQTT.hpp:2092-2104 | The property goes to the front and its size into the length, if and only if the length still has an encoding; a second property of the same type is accepted like the first, against the comment in the source |
| `PropertyLists.Properties.GetPropertyAt` | lib/include/Protocol/MQTT/MQTT.hpp:1995 | The lookup by index returns null for every list and index, since the index has wrapped or the list has ended when it is tested |
| `PropertyLists.Properties.CopyInto` | lib/include/Protocol/MQTT/MQTT.hpp:2031-2037 | The length and then every property from the head are written; the number of bytes is getSize |
| `PropertyLists.Properties.ReadFrom` | lib/include/Protocol/MQTT/MQTT.hpp:2042-2061 | The result is that of the specification parser; on success the list is the reverse of what is on the wire |
| `PropertyLists.PropertiesRead` | lib/include/Protocol/MQTT/MQTT.hpp:2042-2061 | A list that was written is read back entirely, with its length, so that reading reverses it exactly |
| `PropertyLists.ListReads` | lib/include/Protocol/MQTT/MQTT.hpp:1808-1820 | Every written property is recognised by the registry and read back |
| `PropertyLists.PropertiesView.ReadFrom` | lib/include/Protocol/MQTT/MQTT.hpp:2212-2219 | The view covers exactly the announced bytes, or the call fails |
| `PropertyLists.PropertiesView.GetProperty` | lib/include/Protocol/MQTT/MQTT.hpp:2184-2197 | One visit, from any offset: the record at the offset is shown and the offset moves behind it, or nothing is shown and the offset stays; at or past the length nothing is shown |
| `PropertyLists.PropertiesView.VisitAll` | lib/include/Protocol/MQTT/MQTT.hpp:2158-2172 | The loop over a view ends and shows all records up to the first that cannot be shown |
| `PropertyLists.VisitTiles` | lib/include/Protocol/MQTT/MQTT.hpp:2184-2197 | On arbitrary bytes: each record takes at least two bytes, the records together never pass the end, and the visit stops where no further record can be shown |
| `PropertyLists.VisitedAt` | lib/include/Protocol/MQTT/MQTT.hpp:2184-2197 | On arbitrary bytes: each record is the one that starts where the previous one ends |
| `PropertyLists.RecordIsEncoding` | lib/include/Protocol/MQTT/MQTT.hpp:2184-2197 | Each visited record is byte for byte the encoding of a well-typed property it shows if and only if a variable byte integer in it is neither unfinished nor padded |
| `PropertyLists.OwnedAndViewAgree` | lib/include/Protocol/MQTT/MQTT.hpp:1808-1820 | On all bytes the owned reader takes exactly the records the view shows whose variable byte integer ends within them, with the same property and size; it refuses exactly unknown types and variable byte integers of four continued bytes, and asks for more data otherwise |
| `PropertyLists.UnserializedIsEncoding` | lib/include/Protocol/MQTT/MQTT.hpp:1808-1820 | What the owned reader takes is a well-typed property, and the bytes are its encoding if and only if a variable byte integer in it is not padded, which is if and only if they are as many |
| `PropertyLists.ReadAllIsVisit` | lib/include/Protocol/MQTT/MQTT.hpp:2042-2061 | A block is read whole if and only if its visit reaches the end and every variable byte integer in it ends; the list is the one the visit shows |
| `PropertyLists.ReadAllIsEncoding` | lib/include/Protocol/MQTT/MQTT.hpp:2042-2061 | Whatever block is read whole gives well-typed properties that can be written, in no more bytes, and in the same bytes if and only if in as many |
| `PropertyLists.PropertiesTile` | lib/include/Protocol/MQTT/MQTT.hpp:2042-2061 | Whatever bytes are read or viewed as a list are a variable byte integer and the block whose bytes it counts |
| `PropertyLists.PropertiesTruncated` | lib/include/Protocol/MQTT/MQTT.hpp:2042-2061 | A written list that is cut anywhere asks for more data, from the reader and from the view |
| `PropertyLists.ListShown` | lib/include/Protocol/MQTT/MQTT.hpp:2184-2197 | A written list is visited in order with the same types and values, and the visit stops exactly at its length |
| `PropertyLists.PropertiesViewed` | lib/include/Protocol/MQTT/MQTT.hpp:2184-2219 | A written list with its header is viewed whole, whatever follows it |
| `PublishPackets.PublishRoundTrips` | lib/include/Protocol/MQTT/MQTT.hpp:3340-3393 | A PUBLISH packet followed by anything is read back with the same fields, visited properties and length if and only if its body is at most 268435455 bytes |
| `PublishPackets.ReadIsWithinLimit` | lib/include/Protocol/MQTT/MQTT.hpp:3367-3393 | Whatever bytes are read as a PUBLISH packet, its fields fit a body within the size limit: the 32-bit subtraction behind the payload size never passes wrapped |
| `PublishPackets.PublishTiles` | lib/include/Protocol/MQTT/MQTT.hpp:3367-3393 | The converse of the round trip: whatever bytes are read as a PUBLISH packet are the header byte, a remaining length, and a body of that many bytes that consists of the shown topic, the identifier exactly when the QoS is not 0, a counted block of properties and the shown payload |
| `PublishPackets.PublishTruncated` | lib/include/Protocol/MQTT/MQTT.hpp:3367-3393 | A written packet that is cut anywhere asks for more data |
| `PublishPackets.ViewedFields` | lib/include/Protocol/MQTT/MQTT.hpp:3367-3393 | The fields read back are those of the packet, with the identifier exactly when the QoS is not 0 |
| `Redelivery.SentIsPacket` | lib/include/Protocol/MQTT/MQTT.hpp:3352-3365 | The eight bytes of a QoS 2 packet with a one-letter topic and identifier 1 |
| `PublishPackets.PublishPacket.ComputePacketSize` | lib/include/Protocol/MQTT/MQTT.hpp:3340-3349 | With payload: the exact number of bytes of the packet, and the remaining length set for it; without: what the remaining length leaves for the payload |
| `PublishPackets.PublishPacket.CopyFixed` | lib/include/Protocol/MQTT/MQTT.hpp:2814-2823 | Topic, then identifier if the flags ask for one |
| `PublishPackets.PublishPacket.CopyInto` | lib/include/Protocol/MQTT/MQTT.hpp:3355-3363 | Writes header, remaining length, topic, identifier, properties and payload end to end, and returns their number |
| `PublishPackets.PublishPacket.CopyBody` | lib/include/Protocol/MQTT/MQTT.hpp:3355-3363 | Variable header, properties and payload end to end |
| `PublishPackets.PublishPacket.SetDup` | lib/include/Protocol/MQTT/MQTT.hpp:930 | Sets the DUP field of the header byte and leaves type, quality of service and RETAIN |
| `PublishPackets.PublishPacket.SetRetain` | lib/include/Protocol/MQTT/MQTT.hpp:931 | Sets the RETAIN field and leaves the others |
| `PublishPackets.PublishPacket.SetQoS` | lib/include/Protocol/MQTT/MQTT.hpp:932 | Sets the quality of service, 0 for a value out of range, and leaves the others |
| `PublishPackets.PublishPacket.Fill` | lib/src/Network/Clients/MQTTClient.cpp:1919-1938 | The packet publish fills in has type, quality of service and RETAIN as asked, DUP clear, and the fresh identifier, or 0 without quality of service |
| `PublishHeaders.FieldTests` | lib/include/Protocol/MQTT/MQTT.hpp:926-928 | The masks 8 and 6 test the DUP and quality of service fields |
| `PublishHeaders.WithDup` | lib/include/Protocol/MQTT/MQTT.hpp:930 | Clearing with the complement of 8 and joining changes the DUP field only, for every header byte |
| `PublishHeaders.WithQoS` | lib/include/Protocol/MQTT/MQTT.hpp:932 | Clearing with the complement of 6 and joining changes the quality of service only, for every header byte |
| `PublishPackets.ROPublishPacket.ReadFrom` | lib/include/Protocol/MQTT/MQTT.hpp:3367-3393 | Result and fields are those of the specification parser on any buffer |
| `PublishPackets.FixedReads` | lib/include/Protocol/MQTT/MQTT.hpp:2827-2839 | Topic and identifier are read back, the identifier exactly when the flags announce it |
| `ConnectPayloads.PayloadRoundTrips` | lib/include/Protocol/MQTT/MQTT.hpp:2980-3018 | A CONNECT payload is read back for every combination of will, username and password flags, whatever follows it |
| `ConnectPayloads.AnnouncedFields` | lib/include/Protocol/MQTT/MQTT.hpp:2943-3060 | Each announced field is among those read back as it was written, and each flag adds the bytes of its field and no other |
| `ConnectPayloads.PayloadSample` | lib/include/Protocol/MQTT/MQTT.hpp:2943-3060 | The bytes of two payloads: all fields, the will with its properties first, and a password alone |
| `ConnectPayloads.PayloadTiles` | lib/include/Protocol/MQTT/MQTT.hpp:2943-3060 | The converse of the round trip: whatever bytes are read are the shown fields in their order, nothing for a field that is not announced |
| `ConnectPayloads.PayloadTruncated` | lib/include/Protocol/MQTT/MQTT.hpp:2943-3060 | A written payload that is cut anywhere asks for more data |
| `ConnectPayloads.ConnectPayload.CopyInto` | lib/include/Protocol/MQTT/MQTT.hpp:2980-2988 | The announced fields are written in order |
| `ConnectPayloads.ConnectPayload.ReadFrom` | lib/include/Protocol/MQTT/MQTT.hpp:2993-3018 | The announced fields are those of the specification parser, with the will properties reversed; a will message is allocated when there is none |
| `ConnectPayloads.WillMessage.CopyInto` | lib/include/Protocol/MQTT/MQTT.hpp:2879-2885 | Properties, topic and payload of the will are written in order |
| `ConnectPayloads.WillMessage.ReadFrom` | lib/include/Protocol/MQTT/MQTT.hpp:2891-2903 | The fields of the will are those of the specification parser, with the properties reversed |
| `ConnectPayloads.WillReads` | lib/include/Protocol/MQTT/MQTT.hpp:2879-2903 | A will message is read back |
| `SubscribePayloads.TopicsRoundTrip` | lib/include/Protocol/MQTT/MQTT.hpp:2341-2370 | A topic list of any length is read back in order, whole, if and only if it is not empty |
| `SubscribePayloads.TopicsExactly` | lib/include/Protocol/MQTT/MQTT.hpp:2341-2370 | The bytes that are read as topics are exactly the encodings of nonempty lists; all others ask for more data |
| `SubscribePayloads.TopicsTile` | lib/include/Protocol/MQTT/MQTT.hpp:2341-2370 | Whatever bytes are read as topics are the encoding of those topics |
| `SubscribePayloads.TopicsSample` | lib/include/Protocol/MQTT/MQTT.hpp:2341-2370 | The bytes of two topics |
| `SubscribePayloads.SubscribeTopic.GetSize` | lib/include/Protocol/MQTT/MQTT.hpp:2337 | The bytes of the topic and of all behind it |
| `SubscribePayloads.SubscribeTopic.CopyInto` | lib/include/Protocol/MQTT/MQTT.hpp:2341-2348 | The linked topics are written in order |
| `SubscribePayloads.SubscribeTopic.ReadFrom` | lib/include/Protocol/MQTT/MQTT.hpp:2353-2370 | The linked list that is built holds the topics of the specification parser, in order, in fresh objects |
| `SubscribePayloads.SubscribePayload.CopyInto` | lib/include/Protocol/MQTT/MQTT.hpp:3178 | The list of topics, or nothing without one |
| `SubscribePayloads.SubscribePayload.ReadFrom` | lib/include/Protocol/MQTT/MQTT.hpp:3183-3189 | Exactly the expected number of bytes is read as a list of topics |
| `RwLock.WordsCount` | tests/ClassPath/src/Lock.cpp:34-187 | For any number of threads below WriterFlag and any interleaving: the readers word is WriterFlag exactly when one thread is the writer, and otherwise counts the readers; waitingWriter counts the writers waiting, holding or releasing |
| `RwLock.StepKeeps` | tests/ClassPath/src/Lock.cpp:34-187 | No atomic step of any thread breaks the accounting or wraps a counter |
| `RwLock.ActKeeps` | tests/ClassPath/src/Lock.cpp:34-187 | The accounting of one atomic access, for every operation and every outcome |
| `RwLock.RunKeeps` | tests/ClassPath/src/Lock.cpp:34-187 | The accounting holds after every run |
| `RwLock.WriterExcludes` | tests/ClassPath/src/Lock.cpp:77-118 | While a thread is the writer no other thread is writer or reader |
| `RwLock.AssertionsHold` | tests/ClassPath/src/Lock.cpp:57-187 | The conditions the source asserts in release, downgrade and upgrade hold in every state of every run |
| `RwLock.UpgradeIsSole` | tests/ClassPath/src/Lock.cpp:160-187 | An upgrade succeeds only for the sole reader, and no other writer gets in while it tries |
| `RwLock.OperationLeads` | tests/ClassPath/src/Lock.cpp:34-187 | For each of the six operations and any interleaving: a thread that starts it and nothing else is inside it until it reaches its goal, reader for acquireReader and downgrade, writer for acquireWriter and upgrade, idle for the releases; only acquiring and upgrading can come back to where they started, and only after a timeout |
| `RwLock.HoldsOnTheWay` | tests/ClassPath/src/Lock.cpp:113-187 | In every state on the way a release of the writer is never a reader and a release of a reader never a writer; a downgrade or upgrade holds the lock as writer or reader, and no other thread is a writer |
| `RwLock.FinishesAlone` | tests/ClassPath/src/Lock.cpp:34-187 | An undisturbed thread reaches the goal, after two or three accesses and with exactly the change of both words its operation stands for, if and only if the lock is open for it: no announced writer for acquireReader, no reader for acquireWriter, one for upgrade, always for the others |
| `RwLock.GivesUp` | tests/ClassPath/src/Lock.cpp:34-187 | A timeout leads back to where the operation started and takes back its announcement |
| `RwLock.OvertakingIsBounded` | tests/ClassPath/src/Lock.cpp:34-55 | While a writer is announced, the readers that still enter are at most the threads that had passed the check before, each once; those threads have at most one peek and one try each, failed ones included, before they are back behind the check |
| `RwLock.OvertakesWhenReady` | tests/ClassPath/src/Lock.cpp:34-55 | In every state with a writer announced, a thread can get the lock as a reader by its own steps while one stays announced if and only if it has passed the check and no writer holds the lock, or is about to compare with the current value |
| `RwLock.ReaderOvertakes` | tests/ClassPath/include/Threading/Lock.hpp:2013-2014 | A concrete run in which a reader takes the lock after a writer has announced itself, which the documentation excludes |
| `Utf8.DecodingInverts` | tests/ClassPath/src/Strings.cpp:258-316 | Decoding the encoding of any 32-bit values, followed by any bytes, returns them in order without those from 0x80000000 on, so all of them when every value is below, and then decodes what follows |
| `Utf8.EncodingIsShortest` | tests/ClassPath/src/Strings.cpp:332-381 | No byte string that decodes to a value as one character, overlong and cut forms included, has fewer bytes than its encoding |
| `Utf8.AnyCharDecodes` | tests/ClassPath/src/Strings.cpp:266-311 | On all bytes: a byte below 0x80 stands for itself; any other takes the continuation bytes that are there, up to as many as its leading ones announce, and the value is what its low bits and their groups make in 32 bits |
| `Utf8.OnesAreTop` | tests/ClassPath/src/Strings.cpp:277-287 | The count of a first byte is read off its leading ones, which end in a zero |
| `Utf8.CharRoundTrips` | tests/ClassPath/src/Strings.cpp:258-316 | Each of the six encoding lengths is decoded to its value, whatever follows |
| `Utf8.ToUtf8` | tests/ClassPath/src/Strings.cpp:332-381 | The bytes of the six-length encoding of every character, in order; Utf8.EncodingIsShortest and Utf8.CharRoundTrips fix that encoding |
| `Utf8.AppendChar` | tests/ClassPath/src/Strings.cpp:337-378 | The shifts and masks of each branch write the shortest encoding of the character; values from 0x80000000 on write nothing |
| `Utf8.FromUtf8` | tests/ClassPath/src/Strings.cpp:258-316 | The characters of the specification decoder on any bytes, malformed ones included, within the buffer of one more than the input |
| `Utf8.TakeChar` | tests/ClassPath/src/Strings.cpp:269-309 | One character and the bytes it takes: a sequence is cut short by the end of the text or by a byte that is no continuation |
| `Utf8.CountOnes` | tests/ClassPath/src/Strings.cpp:277-288 | The two shifting masks count the leading ones and keep the data bits, for every first byte up to 0xFF |
| `Utf8.TailContinues` | tests/ClassPath/src/Strings.cpp:293-304 | Continuation bytes bring back the value they were cut from |
## Left out

- Session: identifiers are fresh when published, a table slot is free at each publish, the answer to a PUBREC is sent successfully, and each slot is sent at most once per connection; a publish during the resend loop is covered by the last condition. A send that fails is taken not to reach the broker. Channels lose their contents only when the connection drops.
- Session: the loop over all slots at `lib/src/Network/Clients/MQTTClient.cpp:1094-1132` returns at the first answer and tests its bound one slot late; each resend is one step and no claim is made that one reconnect empties the table. `ResendOrder` speaks of the order in which a pass takes the slots; a pass that stops early resends the front of it.
- Session: `allocatePacketID` wraps at 16 bits; freshness of identifiers is a condition on publish.
- Inbound: the callback, which the source calls for every PUBLISH before any lookup of its identifier and so again for a repeated one, is not modelled; what is proved is the answers and the table. Failure reason codes in acknowledgements are ignored by the source too.
- Handshake.Client.PrepareSAR: a slot table that is full after the packet has been stored is part of the contract, but the session results ask for a free slot.
- Handshake: the wire form of acknowledgements, the callback, timeouts and the receive state are not modelled; whether a send succeeds is a parameter.
- Handshake.Client.DealWithNoise: packets that carry an identifier carry a nonzero one, as section 2.2.1 of OASIS MQTT 5.0 asks; with 0 the source would find free slots.
- PacketIds.Buffers.constructor: takes the number of slots, at most 255; the source multiplies a caller's number by three and truncates to 8 bits.
- Ring.RingBuffer.constructor: asks for a power-of-two capacity up to 2^31, as the source's documentation does; positions are then exact in 32 bits.
- Ring.RingBuffer.Save: asks for a nonzero identifier that is not in flight and for a nonempty packet.
- RobinHood.RobinHoodHashTable.StoreValue: without the update flag the key must be fresh, as two equal keys would be stored.
- RobinHood: the load factor is the exact rational 4/5 where the source multiplies floating-point numbers; hash values are nonzero; allocation succeeds; key and hash policies are one hash function and equality.
- FindReplace: strings share no storage with the text, where the source copies them first when they do; allocation succeeds and lengths stay below the overflow of `int`. The block size `snapUpSize` is the next power of two, computed without bit smearing.
- SplitJoin.BJoin: an empty list with a separator of one byte, for which the source allocates no byte and writes one, is excluded.
- PropertyCodec: a variable byte integer property above 268435455, which the source writes without a value, cannot be built. Reading keeps the number of a variable byte integer and not its padding, so nothing is said about writing a list again that was read from padded bytes.
- PropertyLists.Properties.ReadFrom: on an error the properties read so far are not specified. `capture`, `clone`, reference lists and heap ownership are not modelled; the linked list is a sequence.
- PropertyLists.VisitorVariant: the value of a visitor whose visit failed is not specified. Views are values: a view that outlives its buffer is not modelled.
- PropertyLists: the owned lookup by visitor (`PropertyBase::acceptVisitor`) fails in every case in the source and is not modelled, nor is the table of allowed properties.
- PublishPackets: sizes and buffers are below 2^32 bytes. Dumping, validation and the capture of properties by publish are not modelled.
- SubscribePayloads: `append`, UNSUBSCRIBE lists and option bit fields are not modelled; the option is one byte.
- ConnectPayloads: the fixed header is its three flags and is always attached; the client identifier check is not modelled.
- RwLock: events and waiting are nondeterministic steps, so progress is proved for an undisturbed thread only (`RwLock.FinishesAlone`); memory order is sequential. Threads release, upgrade and downgrade only what they hold. The lock is a transition system over all threads, not a class with one caller.
- Utf8.FromUtf8: characters are 32 bits wide and unsigned.
- `receiveControlPacket`, sockets, TLS, addresses, URLs, logging, command-line tools and platform code.
