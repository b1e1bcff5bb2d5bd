# PytideNetworking: messages, reliable and notify channels, TCP framing, server

A model, in Dafny, of the parts of PytideNetworking that carry its guarantees, with proofs of what the code does:

- the **wire format**: bit fields, byte strings, LEB128 and zigzag integers at any bit offset of a growing byte
  array; typed values appended to a message; printing a message as a byte stream and parsing it again;
- the **reliable channel**: the duplicate filter over 16-bit wrapping sequence IDs, the pending messages, the ack
  exchange, and two connected endpoints over a network that loses, repeats and reorders messages and acks;
- the **notify channel**: which IDs are reported as delivered or lost, and the 64-outcome window of the metrics;
- **TCP framing** under any fragmentation of the stream;
- the **server**: the pool of client IDs, who is registered under which ID, and the life of a connection;
- the **delayed events** of a peer.

Objects that the code updates in place are classes whose methods are proved against functions on values; the
statements over runs are lemmas about these functions.

| file | models |
|---|---|
| PyInt.dfy | Python's unbounded integers under shifts, `&`, <code>&#124;</code>, `^` and `~` |
| BitBuffer.dfy, DistinctIds.dfy | byte buffers seen as sequences of bits; sequences without repetition |
| Converter.dfy, Reading.dfy, VarInt.dfy | `utils/converter.py` |
| Typed.dfy, Message.dfy, Exchange.dfy | `message.py`, `message_base.py`, the ack messages of `connection.py` |
| SequenceGap.dfy, Bitfield.dfy | `utils/helper.py`, `utils/bitfield.py` |
| ReliableSequencer.dfy, ReliableChannel.dfy, AnyRun.dfy, AckMarks.dfy | `utils/sequencer.py`, `utils/relieble_sequencer.py`, `connection.py` |
| MeantChannel.dfy | the reliable channel with the bookkeeping of acks as it was meant |
| NotifySequencer.dfy, NotifyRuns.dfy, ConnectionMetrics.dfy | `utils/notify_sequencer.py`, `utils/connection_metrics.py` |
| TcpFraming.dfy | `transports/tcp/tcp_connection.py` |
| Server.dfy, ServerEvents.dfy | `server.py`, the connection states of `connection.py` |
| Peer.dfy | `peer.py` |

## Where the code does not do what it is for

The model follows the code. For each item a lemma gives an input, or describes the inputs, on which the intention fails,
and where the intention can be met another one says exactly when it is:

- *Duplicates* (`utils/relieble_sequencer.py:19-35`): the filter is the set of the IDs seen exactly as long as each ID is
  `Recognised` when it arrives (`HandledRightIff`, `FilterIsASet`), which it is whenever it is less than half the ID
  range away from the newest one. A message accepted more than half a range and less than a whole one ago is handled a
  second time (`DuplicateAgain`); one that is more than half a range ahead of the newest, with an ID below 65536, is
  discarded (`AheadIsDiscarded`). Exactly where nothing new arrives beyond the filter's reach like that, every ID that
  arrives is accepted, as far as its 16 bits tell (`AcceptedIff`).
- *Acks* (`utils/relieble_sequencer.py:38-48`): the sender measures the gap, and numbers what it trims, from the ID it
  last **received**. An ack that arrives twice can clear a message that never arrived (`TheTrimLoopLoses`). Handling an
  ack removes only what the ack speaks for exactly when `HarmlessFor` holds of the sender's state and pending messages
  before (`AckSafeIff`). In every run at all, acks speak only of what arrived (`AcksSpeakOfArrivals`), and each message
  sent is pending until it arrives exactly when the trim loop clears no pending message that did not
  (`KeptUntilArrivedIff`), which is so where acks are harmless; what arrives within reach is accepted as well
  (`NothingIsLostInReach`), what does not is lost, as its ack clears it (`AheadIsLost`). In *timely* runs, in which every
  message is recognised, the same is said of accepted IDs (`NothingIsLost`, `NothingIsEverLostIff`). Acks are harmless
  where only one end sends (`OneWayIsHarmless`). A gap above the bitfield's capacity ends in an exception (`RaisesIff`).
  With the gap and the trimmed IDs taken from the ID last **acknowledged**, each message sent is pending until it arrives
  in every run at all (`MeantKeepsUntilArrived`), and nothing is lost in any timely run (`MeantLosesNothing`).
- *Sequence IDs* (`utils/sequencer.py:28`): the mask applies to the literal 1. IDs do not wrap in memory, only on the
  wire; the first one is 2; a message with an ID above 65535 is never cleared, in any run (`BeyondIsPending`); and an
  ack of such a message clears the one with the same 16 bits, received or not (`TwinIsCleared`).
- *Flags over the wire* (`message.py:342-354`): reading a flag off a byte boundary touches the following byte. A
  receiver, who holds a payload of whole bytes, cannot read a flag near the end (`TwoFlagsAreLate`, `WireReadableIff`).
- *Notify* (`utils/notify_sequencer.py`): two fields are read under a name that the constructor does not set, so that
  every notify message raises on a new connection (`FreshNeverWorks`). No run of notify messages sets the field that is
  missing, so that all else said about notify messages starts from a state in which it is set from outside: then IDs are
  reported twice unless the updates go forward as `OnceRun` says (`RunOnceIff`), each leaving the last acknowledged ID
  one short (`RunFields`); the receiver filters nothing (`NothingIsFiltered`); and the marks that it sends back move by
  the ID itself, so that from wire ID 9 on they say that nothing else was received (`NothingMarked`). The byte with the eight marks is read with four bits too many (`HeaderFields`), which makes no
  difference (`OnlyEightBits`).
- *Loss rate* (`utils/connection_metrics.py:174-176`): a loss that leaves the window is taken from the total
  (`RollingLostIff`, `OneDisplaced`).
- *TCP* (`transports/tcp/tcp_connection.py:87`, `:108-111`): sending less than the whole buffer sends one byte too
  many (`SentIff`); a size that is not positive makes `receive` loop for ever (`TcpConnection.Receive`).
- *Server* (`server.py:294`, `:483-485`): a second disconnect can remove the entry of another client
  (`LateDisconnect`); a client that waits to be accepted and sends a welcome all the same becomes connected, with the
  event, without an ID or an entry (`WelcomedUnasked`); and a connection that is handed to the server twice gets two IDs
  (`ConnectedTwice`). The last takes a direct call of `acceptConnection` or a transport of one's own: the repository's
  own transports drop a second connect message (`transports/tcp/tcp_server.py:181-183`,
  `transports/udp/udp_server.py:77`). The three checks that are missing are necessary and sufficient (`RegisteredIff`).
- *Events* (`peer.py:207-209`): an event that is scheduled into the past is due at once. With one due event that
  schedules itself one millisecond back the drain never ends (`SpinsForEver`), nor does any in which each call schedules
  something into the past (`NeverEnds`). It ends exactly when what the calls schedule into the past is used up, a count
  that does not depend on which events are called (`EndsIff`). When it ends without a stop, the events called are as many
  as were due exactly when none of the calls that happened scheduled into the past (`EndsOnTimeIff`), and in the order
  of their priorities exactly when none scheduled an event before itself (`OrderedIff`).

## Model

| member | source | states |
|---|---|---|
| Converter.EnsureSpaceAvailable | pytidenetworking/utils/converter.py:69-73 | appends just the zero bytes that are missing |
| Converter.SetBits8 | pytidenetworking/utils/converter.py:88-102 | the field, cut to 8 bits, is stored bit by bit, aligned or not, every other bit keeps its value, space grows to 8 bits |
| Converter.SetBits16 | pytidenetworking/utils/converter.py:105-123 | the same specification, for 16 bits |
| Converter.SetBits32 | pytidenetworking/utils/converter.py:126-148 | the same specification, for 32 bits |
| Converter.SetBits64 | pytidenetworking/utils/converter.py:151-181 | the same specification, for 64 bits |
| Converter.SetBits | pytidenetworking/utils/converter.py:77-85 | whichever routine is picked, the low bits of the integer are at the position and nothing else changed |
| Converter.StoredBits | pytidenetworking/utils/converter.py:77-210 | what storing means for each single bit: the field's own, kept, or zero where the array grew |
| Converter.SetBitsFromBytes | pytidenetworking/utils/converter.py:184-210 | for any bit amount, start and source: exactly those bits come from the source, as far as it has them, all others stay, it stays in the space it adds, and it raises exactly on a source that is too short |
| Converter.BytesToBits | pytidenetworking/utils/converter.py:397-417 | the bytes' bits replace the ones at the position and no others, as many as there is room for; it raises exactly where there is not enough |
| Converter.UshortToBits | pytidenetworking/utils/converter.py:292-303 | which bits a 16-bit write sets, including the rest of the last byte and what shines through in the first; where the array ends before, it raises, with the part inside the array written |
| Converter.UshortOverZeros | pytidenetworking/utils/converter.py:292-303 | over zeros the value alone is written |
| Reading.IntFromBitsBit | pytidenetworking/utils/converter.py:277-391 | an integer read works exactly when the bytes it touches are there, and each of its bits is the buffer's |
| Reading.UshortValue | pytidenetworking/utils/converter.py:306-317 | the 16 bits at any offset, or an exception |
| Reading.UshortRoundTrip | pytidenetworking/utils/converter.py:292-317 | reading undoes the 16-bit write, modulo 65536, over free bits that are zero, and both need the same bytes |
| Reading.GetBitsValue | pytidenetworking/utils/converter.py:236-247 | a field of up to 64 bits reads the buffer's bits, exactly when the width of its routine is there; a wider one reads zero |
| Reading.Pack | pytidenetworking/utils/converter.py:77-181 | any list of fields stored one after the other is a row of bits; what was behind stays |
| Reading.PackedReadsBack | pytidenetworking/utils/converter.py:236-247 | each field of such a list reads back modulo 2 to its width |
| Reading.Unpack | pytidenetworking/utils/converter.py:236-247 | all fields come back through consecutive reads |
| Reading.BytesFromBits | pytidenetworking/utils/converter.py:420-441 | which bytes are read at any offset, zeros past the end off a byte boundary, a shorter slice at one, and when the read fails |
| Reading.ByteAroundBits | pytidenetworking/utils/converter.py:420-441 | the byte that a read of nothing returns off a byte boundary, bit by bit |
| Reading.BytesRoundTrip | pytidenetworking/utils/converter.py:397-441 | reading undoes writing for every byte string at every offset with room for it, except an empty one off a byte boundary |
| VarInt.ToVarULong | pytidenetworking/utils/converter.py:457-472 | the loop produces the groups of seven bits, low first; negative values raise |
| VarInt.FromVarULong | pytidenetworking/utils/converter.py:475-488 | the loop computes the value and length of the encoding at any bit offset, or runs off the buffer |
| VarInt.VarRoundTrip | pytidenetworking/utils/converter.py:457-488 | decoding undoes encoding for every natural number at every bit offset, whatever surrounds it |
| VarInt.VarLength | pytidenetworking/utils/converter.py:457-472 | the number of bytes is the number of groups of seven bits |
| VarInt.VarShortest | pytidenetworking/utils/converter.py:457-488 | nothing shorter decodes to the same value |
| VarInt.ZigzagRoundTrip | pytidenetworking/utils/converter.py:27-62 | zigzag of n bits round-trips exactly the n-bit signed integers |
| VarInt.ZigzagValue | pytidenetworking/utils/converter.py:27-35 | non-negative values become even numbers, negative ones odd numbers |
| VarInt.ZigzagNatural | pytidenetworking/utils/converter.py:27-35 | zigzag makes a natural number of every integer |
| VarInt.ToVarLong | pytidenetworking/utils/converter.py:448-449 | every integer is encoded as its zigzag number, without an exception |
| VarInt.FromVarLong | pytidenetworking/utils/converter.py:452-454 | zigzag of what is decoded, with the length |
| VarInt.SignedVarRoundTrip | pytidenetworking/utils/converter.py:448-454 | exactly the signed 64-bit integers survive both encodings, at every bit offset |
| Typed.IntOfField | pytidenetworking/message.py:408-937 | an integer that fits its kind is read back from its bits, sign included |
| Typed.KindRanges | pytidenetworking/message.py:408-890 | in numbers, which integers each of the eight kinds takes, and in how many bits |
| Typed.KindReads | pytidenetworking/message.py:424-898 | in numbers, what a read of each kind makes of its bits: for the signed kinds, from the half on, the number less the whole range |
| Typed.ValuesReadBack | pytidenetworking/message.py:342-937 | any sequence of flags, integers and integer arrays is read back in order exactly when each flag has the byte its read needs |
| MessageFormat.Message.AppendBits | pytidenetworking/message.py:129-138 | the payload so far is extended by the bytes' bits at any offset |
| MessageFormat.Message.PutBool | pytidenetworking/message.py:324-340 | one bit is appended; without room the message is unchanged |
| MessageFormat.Message.PutInt | pytidenetworking/message.py:408-422 | an integer is appended exactly when there is room in the 9848 bits and it is in the range of its kind, each range in numbers |
| MessageFormat.Message.PutVarULong | pytidenetworking/message.py:255-266 | a length is appended, unchecked; a negative one raises and changes nothing |
| MessageFormat.Message.PutInts | pytidenetworking/message.py:433-937 | a length-prefixed array is appended whole exactly when there is room and every element fits; otherwise its length stays, with the elements before the first one that does not go in |
| MessageFormat.Message.GetBool | pytidenetworking/message.py:342-354 | reads the next bit, or raises where the read runs off the buffer |
| MessageFormat.Message.GetBytes | pytidenetworking/message.py:305-318 | reads exactly the next bytes at any offset, or raises without moving; off a byte boundary, no bytes are one byte |
| MessageFormat.Message.GetInt | pytidenetworking/message.py:424-431 | reads the integer at the read position, as `KindReads` says in numbers, or raises |
| MessageFormat.Message.GetInts | pytidenetworking/message.py:456-937 | reads a length-prefixed array, or raises |
| MessageFormat.Message.MakeHeaderUnreliable | pytidenetworking/message_base.py:164-170 | four header bits, then zeros |
| MessageFormat.Message.MakeHeaderReliable | pytidenetworking/message_base.py:172-180 | header and sequence ID; an ID beyond 16 bits leaks into the next four bits |
| MessageFormat.Message.MakeHeaderNotify | pytidenetworking/message_base.py:182-190 | header and 40 notify bits in nine bytes |
| MessageFormat.Message.CreateBytestream | pytidenetworking/message_base.py:138-162 | the stream is header, message ID and payload in a row, then zeros, or what leaks of a sequence ID beyond 16 bits; only headers 0 and 7 need a message ID that is not negative, and the lengths are in numbers for the others |
| MessageFormat.WireLayout | pytidenetworking/message_base.py:138-190 | what the stream is made of, header by header; only for 0 and 7 does it depend on the message ID |
| MessageFormat.StreamLength | pytidenetworking/message_base.py:138-190 | how long it is, header by header |
| MessageFormat.PayloadStart | pytidenetworking/message_base.py:209-287 | where the payload begins, header by header, and which streams are too short |
| MessageFormat.Message.FromBytestream | pytidenetworking/message_base.py:209-258 | takes any stream apart, raising exactly where its head is incomplete; the payload is the rest, from bit 4, 44 or 20 on where no message ID is |
| MessageFormat.ParsePrinted | pytidenetworking/message_base.py:138-258 | parsing a printed message gives back header, sequence ID, notify bits, message ID and payload start |
| Exchange.PutAll | pytidenetworking/message.py:324-937 | values go in, in order, exactly when each is representable and together they fit the maximum size |
| Exchange.GetAll | pytidenetworking/message.py:342-937 | reads values of the given shapes in order, or raises |
| Exchange.OnOneMessage | pytidenetworking/message.py:129-937 | on one message object every sequence of values that fits is read back, the read position ending where the write position is |
| Exchange.OverTheWire | pytidenetworking/message_base.py:138-258 | sender to receiver: the head arrives, and the values do exactly when no flag is too late |
| Exchange.WireReadableIff | pytidenetworking/message.py:342-354 | when a flag is too late, for every header, in terms of its position and the payload's length |
| Exchange.TwoFlagsAreLate | pytidenetworking/message.py:342-354 | two flags in a message: the receiver cannot read the second |
| Exchange.AckExchange | pytidenetworking/connection.py:368-399 | the three numbers of an ack arrive as they were sent, the explicit ID off a byte boundary |
| SequenceGap.GapExact | pytidenetworking/utils/helper.py:3-18 | the gap of two wire IDs is the true difference exactly below half the range, or at it in the upper half |
| SequenceGap.GapCongruent | pytidenetworking/utils/helper.py:3-18 | always congruent to the difference and at most half the range |
| SequenceGap.GapAntisymmetric | pytidenetworking/utils/helper.py:3-18 | exchanging the IDs negates the gap |
| Bitfields.Bitfield.HasCapacityFor | pytidenetworking/utils/bitfield.py:21-23 | the overflow, and whether it is negative |
| Bitfields.Bitfield.ShiftLeft | pytidenetworking/utils/bitfield.py:25-39 | shifts bits and count, the capacity becoming the count; nothing is ever trimmed |
| Bitfields.Bitfield.IsSet | pytidenetworking/utils/bitfield.py:41-48 | positions beyond the count are set, others say what their bit says, below one it raises |
| Bitfields.Bitfield.Set | pytidenetworking/utils/bitfield.py:50-54 | sets one position, or raises |
| Bitfields.Bitfield.CheckAndTrimLast | pytidenetworking/utils/bitfield.py:56-61 | the oldest position and its bit, the count going down; raises on an empty bitfield |
| Bitfields.Bitfield.Combine | pytidenetworking/utils/bitfield.py:67-68 | takes in other marks |
| Bitfields.BitWith | pytidenetworking/utils/bitfield.py:50-54 | setting a position marks that one and no other |
| Bitfields.First16Bits | pytidenetworking/utils/bitfield.py:17-19 | the 16 latest marks, as a 16-bit number |
| ReliableSequencer.Sequencer.NextSequenceID | pytidenetworking/utils/sequencer.py:23-29 | counts up without wrapping |
| ReliableSequencer.Sequencer.ShouldHandle | pytidenetworking/utils/relieble_sequencer.py:19-35 | new state, verdict and ack are those of the specification `Handled` |
| ReliableSequencer.Sequencer.TrimAcked | pytidenetworking/utils/relieble_sequencer.py:41-48 | the trim loop, with the resends and clears it asks for, in order, until it raises |
| ReliableSequencer.Sequencer.ClearSelected | pytidenetworking/utils/relieble_sequencer.py:53-55 | the loop over the 16 bits of an ack |
| ReliableSequencer.Sequencer.UpdateReceivedAcks | pytidenetworking/utils/relieble_sequencer.py:37-63 | new state, requests and exception are those of the specification `Updated` |
| ReliableSequencer.RaisesIff | pytidenetworking/utils/relieble_sequencer.py:41-48 | the bookkeeping raises exactly on a gap above the capacity, which the first positive gap fixes |
| ReliableSequencer.FirstRaisesIff | pytidenetworking/utils/relieble_sequencer.py:37-48 | the first ack of a connection raises exactly when it is more than 128 ahead |
| ReliableSequencer.Connection.SendReliable | pytidenetworking/connection.py:276-281 | the message is pending under the next ID |
| ReliableSequencer.Connection.ClearMessage | pytidenetworking/connection.py:339-344 | a pending message is reported as delivered, once, and no longer pending |
| ReliableSequencer.Connection.ResendMessage | pytidenetworking/connection.py:331-337 | a pending message is sent again |
| ReliableSequencer.Connection.SendAck | pytidenetworking/connection.py:368-385 | the last ID, the 16 marks and the ID answered |
| ReliableSequencer.Connection.HandleAck | pytidenetworking/connection.py:387-400 | clears the ID answered, then what the bookkeeping asks for |
| ReliableChannel.HandledRightIff | pytidenetworking/utils/relieble_sequencer.py:19-35 | an exact filter does right by a message, and stays exact, exactly when it recognises its ID |
| ReliableChannel.DuplicateAgain | pytidenetworking/utils/relieble_sequencer.py:19-35 | a message accepted more than half the ID range ago is handled again |
| ReliableChannel.AheadIsDiscarded | pytidenetworking/utils/relieble_sequencer.py:19-35 | a message more than half the ID range ahead of the newest is not handled |
| ReliableChannel.FilterIsASet | pytidenetworking/utils/relieble_sequencer.py:19-35 | over every run, across any number of wraparounds, exactly the IDs that did not occur before are handled exactly when each is recognised, in particular when each is less than half the range away from the newest |
| ReliableChannel.AckTruthful | pytidenetworking/connection.py:368-385 | each ID an outgoing ack speaks for was received |
| ReliableChannel.UpdatedClears | pytidenetworking/utils/relieble_sequencer.py:37-63 | exactly which messages the bookkeeping clears, and exactly which it sends again |
| ReliableChannel.AckRemovesExactly | pytidenetworking/connection.py:387-400 | exactly which pending messages an ack removes; the others stay as they are |
| ReliableChannel.UpdatedMarks | pytidenetworking/utils/relieble_sequencer.py:37-63 | the marks after any ack, bit by bit: forward, the old ones moved by the gap, those it brings and the one for what was the latest ID, within the capacity; at a gap of zero those it brings are added; backward, its own ID's; and only the first asks for anything |
| AckMarks.MarkedIff | pytidenetworking/utils/relieble_sequencer.py:37-63 | the marks after an ack are exactly those it makes and, in their new places, those that were there |
| AckMarks.NeverAskedAgain | pytidenetworking/utils/relieble_sequencer.py:41-48 | over every run, a position that an ack has marked is never asked for again by a later ack, wherever it has moved by then |
| AckMarks.AckResendsExactly | pytidenetworking/utils/relieble_sequencer.py:41-48 | an ack sends again exactly the pending messages at the positions it trims that are not marked, other than the one it answers, each once |
| ReliableChannel.AckSafeIff | pytidenetworking/utils/relieble_sequencer.py:37-63 | handling an ack removes only messages it speaks for exactly when the trim loop is harmless for the messages that are pending |
| ReliableChannel.StepKeeps | pytidenetworking/connection.py:258-400 | every send, recognised delivery and ack keeps filters exact and acks truthful; it keeps each sent ID pending or received exactly when what it trims was received, as with every harmless ack |
| ReliableChannel.RunKeeps | pytidenetworking/connection.py:258-400 | so does every timely run |
| ReliableChannel.EveryRunIsHonest | pytidenetworking/connection.py:258-400 | in every timely run (every message that arrives is recognised) accepted IDs are distinct and were sent, and every ack ever sent is truthful |
| ReliableChannel.NothingIsLost | pytidenetworking/connection.py:258-400 | in every timely run of harmless acks each ID sent is pending or was accepted by the other end |
| ReliableChannel.NothingIsEverLostIff | pytidenetworking/connection.py:258-400 | in a timely run each ID sent is pending or received all along exactly when no pending ID is trimmed that was not received |
| ReliableChannel.BeyondIsPending | pytidenetworking/utils/sequencer.py:23-29 | in every run, timely or not, a message beyond ID 65535 is never cleared |
| ReliableChannel.TwinIsCleared | pytidenetworking/connection.py:387-400 | an ack of an ID beyond 65535 clears the ID with the same 16 bits, though it was not received |
| ReliableChannel.OneWayIsHarmless | pytidenetworking/utils/relieble_sequencer.py:37-63 | where only one end sends, every run is such a run |
| ReliableChannel.TheTrimLoopLoses | pytidenetworking/utils/relieble_sequencer.py:41-48 | a timely run of nine steps in which a message is neither pending nor accepted |
| ReliableChannel.AheadIsLost | pytidenetworking/connection.py:387-400 | a message too far ahead is neither accepted nor, once its ack arrives, pending |
| ReliableChannel.DeliveredOnce | pytidenetworking/connection.py:339-344 | in every run each ID sent is either pending or was reported as delivered, exactly once |
| ReliableChannel.ArrivesIff | pytidenetworking/connection.py:258-344 | in every run a message can arrive exactly when it was sent, pending or not |
| ReliableChannel.DeliveredIsReceived | pytidenetworking/connection.py:339-344 | in timely runs of harmless acks what was reported as delivered was accepted by the other end |
| AnyRun.HandledMarked | pytidenetworking/utils/relieble_sequencer.py:19-35 | whatever arrives, each mark of the filter and each ack stand for IDs that arrived; a message is discarded only beyond the filter's reach or if one with its 16 bits arrived before |
| AnyRun.AcksSpeakOfArrivals | pytidenetworking/connection.py:258-400 | in every run what arrived was sent, what was accepted arrived, and every ack ever sent is truthful about what arrived |
| AnyRun.KeptUntilArrivedIff | pytidenetworking/connection.py:258-400 | in every run each ID sent is pending or arrived all along exactly when no pending ID is trimmed that did not arrive; harmless acks see to it |
| AnyRun.AcceptedIff | pytidenetworking/utils/relieble_sequencer.py:19-35 | in every run all that arrives is accepted, as far as 16 bits tell, exactly when nothing new arrives beyond the filter's reach |
| AnyRun.NothingIsLostInReach | pytidenetworking/connection.py:258-400 | in every run of harmless acks an ID that is no longer pending arrived, and was accepted if nothing new arrived out of reach |
| AnyRun.TimelyInReach | pytidenetworking/utils/relieble_sequencer.py:19-35 | in a timely run nothing arrives out of reach |
| MeantChannel.ClearedReceived | pytidenetworking/utils/relieble_sequencer.py:37-63 | with the gap taken from the ID last acknowledged, whatever an ack clears was received |
| MeantChannel.AckedStands | pytidenetworking/utils/relieble_sequencer.py:37-63 | and each mark of the sender goes on standing for an ID that was received |
| MeantChannel.MeantMarks | pytidenetworking/utils/relieble_sequencer.py:37-63 | and the marks change as in the code, the gap apart |
| MeantChannel.MeantClears | pytidenetworking/utils/relieble_sequencer.py:37-63 | exactly which messages an ack clears then, and which it asks for again |
| MeantChannel.MeantLosesNothing | pytidenetworking/utils/relieble_sequencer.py:37-63 | so that nothing is lost in any timely run, whatever acks arrive, how often and when |
| MeantChannel.MeantKeepsUntilArrived | pytidenetworking/utils/relieble_sequencer.py:37-63 | and in every run at all, an ID that is no longer pending arrived |
| NotifySequencer.Sequencer.InsertHeader | pytidenetworking/utils/notify_sequencer.py:19-23 | the notify bits and the next ID; raises while the field is unset, the ID being used up |
| NotifySequencer.Sequencer.ShouldHandle | pytidenetworking/utils/notify_sequencer.py:25-37 | new state and verdict are those of the specification `Handled` |
| NotifySequencer.Sequencer.UpdateReceivedAcks | pytidenetworking/utils/notify_sequencer.py:39-62 | new state and reports are those of the specification `Updated` |
| NotifySequencer.Sequencer.ReportGap | pytidenetworking/utils/notify_sequencer.py:43-59 | the two loops report the IDs of the gap in order, each by its distance |
| NotifySequencer.Sequencer.ProcessNotify | pytidenetworking/connection.py:302-310 | on any stream: first the reports, then the verdict; neither where a number is missing or a field is not set |
| NotifySequencer.HeaderFields | pytidenetworking/connection.py:303-305 | the reads from the stream give back the last ID, the eight marks with four bits of the ID above them, and the ID modulo 65536 |
| NotifySequencer.OnlyEightBits | pytidenetworking/utils/notify_sequencer.py:39-62 | an update depends on the low eight bits of the marks only |
| NotifySequencer.NotifyExchange | pytidenetworking/connection.py:269-310 | from header to stream to the other end: the receiver does what it does with the sender's three numbers, the ID modulo 65536; nothing happens at its end while the sender's field is unset |
| NotifySequencer.NothingIsFiltered | pytidenetworking/utils/notify_sequencer.py:25-37 | a message is handed on exactly when its wire ID is from 1 to 32768, whatever was received before |
| NotifySequencer.UpdateOnceIff | pytidenetworking/utils/notify_sequencer.py:39-62 | an update reports each ID after the last acked up to the remote one once, in order, exactly when the gap leads there; an ID is delivered exactly when it is the remote one or one of the eight before it with its bit set |
| NotifySequencer.RunOnceIff | pytidenetworking/utils/notify_sequencer.py:39-62 | over a run each ID is reported exactly once exactly when the first forward update is right and the later ones go forward by one |
| NotifySequencer.FreshNeverWorks | pytidenetworking/utils/notify_sequencer.py:14-62 | on a new connection every run of notify messages raises and reports nothing |
| NotifyRuns.HandledFields | pytidenetworking/utils/notify_sequencer.py:25-37 | what a message does to the fields and to each mark; a message that is not handed on changes nothing |
| NotifyRuns.NothingMarked | pytidenetworking/utils/notify_sequencer.py:25-37 | after a message with a wire ID from 9 to 32768 the eight marks that go out are all clear |
| NotifyRuns.ProcessedFields | pytidenetworking/connection.py:302-310 | what comes of a received message: when it is handed on, how many reports there are, and which fields move by how much |
| NotifyRuns.ShortStream | pytidenetworking/connection.py:302-310 | what comes of a stream that ends before the numbers do |
| NotifyRuns.RunFields | pytidenetworking/utils/notify_sequencer.py:14-62 | over every run: one ID for each message sent, the ID sent along is that of the latest message handed on, and the last acknowledged ID falls behind by one with every update that goes forward |
| NotifySequencer.MeantOnce | pytidenetworking/utils/notify_sequencer.py:39-62 | with one field and the gap taken from the last acked ID, every ID up to it is reported exactly once over every run |
| NotifySequencer.UpdateOnceMod | pytidenetworking/utils/notify_sequencer.py:39-62 | an update across a wraparound reports each ID modulo 65536 once, in order, with the outcome its bit says |
| NotifySequencer.MeantOnceMod | pytidenetworking/utils/notify_sequencer.py:39-62 | the same over every run, across any number of wraparounds, modulo 65536 |
| ConnectionMetrics.Metrics.DeliveredNotify | pytidenetworking/utils/connection_metrics.py:169-178 | the counters and the tracker after a delivery |
| ConnectionMetrics.Metrics.LostNotify | pytidenetworking/utils/connection_metrics.py:180-188 | the counters and the tracker after a loss |
| ConnectionMetrics.WindowCounts | pytidenetworking/utils/connection_metrics.py:169-188 | the rolling deliveries are those of the last 64 outcomes; what the rolling losses have too many, the total has too few |
| ConnectionMetrics.RollingLostIff | pytidenetworking/utils/connection_metrics.py:117-127 | rolling losses and total are right exactly when no delivery ever pushed a loss out of the window |
| ConnectionMetrics.OneDisplaced | pytidenetworking/utils/connection_metrics.py:169-178 | 64 losses and a delivery |
| TcpFraming.SizeRoundTrip | pytidenetworking/transports/tcp/tcp_connection.py:85-109 | a size survives its four bytes |
| TcpFraming.LowestFirst | pytidenetworking/transports/tcp/tcp_connection.py:109 | the size that any four bytes, or fewer, stand for: lowest byte first, signed |
| TcpFraming.SentLowestFirst | pytidenetworking/transports/tcp/tcp_connection.py:85 | the four bytes sent for a size |
| TcpFraming.SentIff | pytidenetworking/transports/tcp/tcp_connection.py:71-90 | what is sent is a frame exactly when all of the buffer is; otherwise one byte too many, or a size that is not positive |
| TcpFraming.SentSome | pytidenetworking/transports/tcp/tcp_connection.py:79-85 | sending raises exactly on no data and on an amount beyond four signed bytes |
| TcpFraming.SentNothing | pytidenetworking/transports/tcp/tcp_connection.py:82-87 | what goes out for an amount that is not positive |
| TcpFraming.ReadOn | pytidenetworking/transports/tcp/tcp_connection.py:92-157 | reading on from what is held is reading the whole stream |
| TcpFraming.ReadPrefix | pytidenetworking/transports/tcp/tcp_connection.py:92-157 | any part of the stream of some messages gives those whose frames are complete in it, in order, and the rest |
| TcpFraming.StreamRoundTrip | pytidenetworking/transports/tcp/tcp_connection.py:71-157 | the stream of any messages is read back as these messages |
| TcpFraming.PollsRead | pytidenetworking/transports/tcp/tcp_connection.py:92-157 | what the polls deliver and keep does not depend on how the stream is cut |
| TcpFraming.PollsDeliver | pytidenetworking/transports/tcp/tcp_connection.py:71-157 | the messages sent come out complete and in order under every fragmentation, and no poll gets stuck |
| TcpFraming.TcpConnection.Receive | pytidenetworking/transports/tcp/tcp_connection.py:92-140 | one poll terminates, delivers exactly the complete messages and keeps the rest, unless it meets a size that is not positive, and then it never ends; a read that fails ends it, with the first messages delivered, nothing lost, and the disconnect reported once, under the reason for the exception |
| TcpFraming.TcpConnection.Turn | pytidenetworking/transports/tcp/tcp_connection.py:96-140 | one turn of the loop delivers one message, waits, or fails; on a size that is not positive it changes nothing and asks for more |
| TcpFraming.TcpConnection.ReceiveSize | pytidenetworking/transports/tcp/tcp_connection.py:102-107 | reads size bytes, in any pieces, until there are four or no more |
| TcpFraming.TcpConnection.TryReceiveMessage | pytidenetworking/transports/tcp/tcp_connection.py:142-157 | reads message bytes, in any pieces, until the message is complete or there are no more |
| ServerClients.Connection.SetPending | pytidenetworking/connection.py:346-349 | only from connecting |
| ServerClients.Connection.HandleWelcomeResponse | pytidenetworking/connection.py:413-430 | connected exactly from pending |
| ServerClients.Server.Start | pytidenetworking/server.py:180-205 | all IDs up to the maximum are free; a maximum above 65535 is refused |
| ServerClients.Server.HandleConnectionAttempt | pytidenetworking/server.py:225-232 | a new connection is known to the server, in its first state, and nothing else changes |
| ServerClients.Server.HandleConnect | pytidenetworking/server.py:234-254 | accepts, asks, or rejects, as the specification `HandledConnect` says |
| ServerClients.Server.AcceptConnection | pytidenetworking/server.py:287-303 | gives the first free ID, or rejects a full server's client |
| ServerClients.Server.GetAvailableClientId | pytidenetworking/server.py:533-542 | the first free ID, or 0 |
| ServerClients.Server.Accept | pytidenetworking/server.py:256-267 | accepts a connection that waits |
| ServerClients.Server.Reject | pytidenetworking/server.py:269-285 | rejects a connection that waits |
| ServerClients.Server.DoReject | pytidenetworking/server.py:306-334 | not connected, without an event |
| ServerClients.Server.HandleWelcome | pytidenetworking/server.py:387-389 | the connected event, exactly once per change |
| ServerClients.Server.LocalDisconnect | pytidenetworking/server.py:470-492 | frees the ID behind all free ones, raises the event of the state, and closes |
| ServerEvents.StepEvents | pytidenetworking/server.py:387-492 | a disconnect raises the disconnected event for a connected client, the failed event for a pending one, a welcome the connected event for a pending one, and nothing else raises anything |
| ServerEvents.RunEvents | pytidenetworking/server.py:387-492 | over every run, each event was raised exactly as often as a step met the connection in the state that calls for it |
| ServerEvents.LeavesWithEvent | pytidenetworking/server.py:470-492 | a client that connects, is welcomed and leaves |
| ServerEvents.StepStatus | pytidenetworking/server.py:234-492 | which steps end a connection, make it pending, and make it connected, and that no others do |
| ServerEvents.RunClosed | pytidenetworking/server.py:234-492 | over every run, a connection is closed exactly when some step ended it |
| ServerEvents.DecidedWaits | pytidenetworking/server.py:256-285 | who is accepted or rejected waits no longer, and the others do, in their order; one that does not wait changes nothing |
| ServerEvents.RunWaits | pytidenetworking/server.py:234-285 | over every run nobody waits twice, and a connection waits exactly when a step put it there and it was neither accepted nor rejected since |
| ServerClients.StepPartition | pytidenetworking/server.py:234-542 | every step keeps free and registered IDs a partition of 1 to the maximum |
| ServerClients.TakePartition | pytidenetworking/server.py:293-297 | there is a free ID whenever there is room, so that 0 is never given out |
| ServerClients.RunPartition | pytidenetworking/server.py:180-542 | over every run: the partition, and IDs are issued in the order in which they became free |
| ServerClients.StepLife | pytidenetworking/server.py:234-492 | a step touches one connection only, keeps its events in order, and never revives a closed one |
| ServerClients.RunLives | pytidenetworking/server.py:234-492 | over every run: the events are a beginning of [connected, disconnected] or [failed], and closed is for good |
| ServerClients.RegisteredIff | pytidenetworking/server.py:234-492 | a step keeps every client under its own ID exactly when it passes three checks that the code leaves out |
| ServerClients.RunRegistered | pytidenetworking/server.py:234-492 | over every run that passes them, every connected client is found under its ID |
| ServerClients.LateDisconnect | pytidenetworking/server.py:470-492 | a second disconnect removes the next owner of the ID, who stays connected |
| ServerClients.WelcomedUnasked | pytidenetworking/server.py:387-389 | a client that waits to be accepted becomes connected by its own welcome, without an ID |
| ServerClients.ConnectedTwice | pytidenetworking/server.py:287-303 | a connection that is handed in twice is registered under two IDs |
| Peers.AppliedDue | pytidenetworking/peer.py:184-220 | what an event schedules leaves the due events as they are exactly when no delay is negative |
| Peers.PastDue | pytidenetworking/peer.py:200-220 | how many events are due after a call: one more for each that is scheduled into the past, none behind a stop |
| Peers.DrainRemaining | pytidenetworking/peer.py:200-209 | after any number of calls, as many events are due as their effects say, whichever events were called |
| Peers.EndsIff | pytidenetworking/peer.py:200-209 | the drain can end exactly when that number becomes zero |
| Peers.DrainCounts | pytidenetworking/peer.py:200-209 | without a stop, the calls made and the events still due are those that were due and those scheduled into the past |
| Peers.EndsOnTimeIff | pytidenetworking/peer.py:200-209 | a drain that ends makes as many calls as events were due exactly when no call that happened scheduled into the past |
| Peers.NeverEnds | pytidenetworking/peer.py:200-209 | it never ends as long as each call schedules something into the past |
| Peers.SpinsForEver | pytidenetworking/peer.py:200-209 | one event that schedules itself into the past: after any number of turns all is as it was |
| Peers.ForwardEnds | pytidenetworking/peer.py:200-209 | it always ends where nothing is scheduled into the past |
| Peers.OrderedIff | pytidenetworking/peer.py:200-209 | the calls of a drain that ends are in order exactly when none schedules an event before itself |
| Peers.DrainRight | pytidenetworking/peer.py:200-209 | the events called are those that were due, exactly when nothing was scheduled into the past; no event is lost |
| Peers.Peer.ExecuteLater | pytidenetworking/peer.py:211-220 | an event at the current time plus the delay |
| Peers.Peer.StopTime | pytidenetworking/peer.py:184-190 | time zero and no events |
| Peers.Peer.Update | pytidenetworking/peer.py:200-209 | whatever the events do, if there is an end: the drain is one of turns of least events, leaves nothing due, loses no event, calls the due events exactly when the calls that happened schedule nothing into the past, and in order exactly when none schedules before itself; with a stop and nothing in the past, some of the due ones, in order |

## Left out

- ReliableChannel.FilterIsASet: what becomes of the filter from the first message that is not recognised is said only as far as it goes for every run (`AnyRun.HandledMarked`, `AnyRun.AcceptedIff`).
- ReliableChannel.StepKeeps: no step that delivers a message which is not recognised; AnyRun.dfy says what holds then.
- ReliableChannel.RunKeeps: runs with such a step; likewise.
- ReliableChannel.EveryRunIsHonest: the same (`AnyRun.AcksSpeakOfArrivals`); that accepted IDs are distinct is false there (`DuplicateAgain`).
- ReliableChannel.NothingIsLost: the same (`AnyRun.NothingIsLostInReach`), and nothing about when a message arrives; sending again is a free choice of the network. The ID that was accepted is the very one only as long as the sender is below 65536.
- ReliableChannel.NothingIsEverLostIff: the same (`AnyRun.KeptUntilArrivedIff`).
- MeantChannel.MeantLosesNothing: in a run with a message that is not recognised only that a message arrived (`MeantKeepsUntilArrived`), not that it was accepted: the filter is the code's.
- ServerClients.Server.HandleConnect: calls back into the server from an event handler or from the connection callback; they are separate steps.
- ServerClients.Server.LocalDisconnect: stands for kicks, time-outs, quality disconnects and the transport's own, which all end in it; `stop`, which forgets all clients at once without an event, is not modelled.
- Peers.Peer.Update: a drain that has no end (`EndsIff`, `NeverEnds`), of which every beginning is described instead (`DrainRemaining`, `DrainCounts`); and an event object that is put into the queue a second time while it is still in it.
- NotifySequencer.RunOnceIff: no run from a new connection, on which the field it needs is never set (`FreshNeverWorks`).
- NotifySequencer.NotifyExchange: a last ID beyond 16 bits, which no message received can set.
- NotifySequencer.MeantOnce: the design with one field, not the code; across a wraparound of the wire ID see `NotifySequencer.MeantOnceMod`.
- Sockets, threads, polling, logging, the clock: what arrives, and when, is a parameter or a free choice.
- `pending_message.py`: when a message is sent again. Its fields are set under names that are never read, and its test compares a delay with a time.
- `RollingStat` and the disconnects for poor quality: fed by nothing here, and a question of real arithmetic.
- Floats, strings, flag arrays (`getBitsToBytes`), `appendMessage`, writing at an explicit position, and big-endian byte order.
- `byteToBits`, `uintToBits`, `ulongToBits`, `setBitsSegmentArray` and the fixed-capacity bitfield, which nothing uses.
- `None` in place of a value, and the counts that the puts return.
- The client side, UDP, message handlers, the relay filter, the object pools and the order of `_handleMessages`.
- Connections are compared by identity; the code compares the remote addresses of TCP connections.
