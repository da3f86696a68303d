# Verified models of cpp-async-rpc

This project models the parts of cpp-async-rpc that have to be right for remote calls to mean
what their callers think: how object graphs become bytes and come back, how packets are framed,
how calls are tracked on both sides of a connection, how cancellation spreads, how a thread pool
hands over work, how `select` flattens what it waits for, and the containers, hashes and queues
below them. `dafny verify dfyconfig.toml` checks everything.

| file | what it models |
|---|---|
| `Results.dfy`, `Streams.dfy`, `Octets.dfy` | errors and results; byte strings and byte streams; bytes as bit vectors |
| `Variant.dfy` | the variable-length integers of the binary codec |
| `Codec.dfy`, `CodecImpl.dfy` | the binary codec: as functions on bytes, and as the two stateful objects, proved to do the same |
| `CodecRoundTrip.dfy`, `CodecGraph.dfy` | decoding what was encoded, step by step; whole streams and graphs |
| `CodecFormat.dfy`, `CodecHosts.dfy` | the format in so many bytes, and what is refused; hosts of different byte order |
| `CodecNumbers.dfy` | which numbers and names a stream contains |
| `CodecLength.dfy`, `CodecExact.dfy` | no input is shorter than the encoding of what it is decoded into; exactly when a stream is decoded into what was encoded |
| `CodecInput.dfy`, `CodecHashes.dfy` | arbitrary and truncated input; where the classes of decoded objects come from |
| `Cobs.dfy`, `Framing.dfy` | in-place byte stuffing; MAC and packet protocols |
| `FlatTree.dfy` | sorted-vector maps and sets |
| `Queues.dfy` | bounded queues and promises |
| `Client.dfy`, `Deadlines.dfy`, `Server.dfy` | the client's table of pending calls; its deadline handler; the server's tables |
| `RpcSystem.dfy`, `RpcAnswers.dfy` | clients, connections and server together, exchanging packets: what never happens, and what can always still happen |
| `RpcBytes.dfy` | the same over byte streams that may break anywhere |
| `Contexts.dfy`, `ContextThreads.dfy` | the tree of contexts; cancellation by many threads at once |
| `ThreadPool.dfy` | the pool's queues of functions and of waiting workers |
| `HighwayHash.dfy`, `HighwaySeparate.dfy`, `HighwayVector.dfy` | chunked hashing; what the hash keeps apart; one hash worked out in full |
| `TypeHash.dfy` | structural type hashes |
| `Select.dfy` | flattening, timeouts and activation in `select` |

Objects that the source updates in place are classes with loops, each method proved against a
function of the old state; the properties are then lemmas about those functions. Code that runs
in several threads is a transition system whose steps are the source's critical sections, and its
theorems speak of every state of every run.

What holds only under a condition:

* `write_variant` sends base-128 digits least significant first, as its comment says;
  `read_variant` folds them most significant first, although its comment says the same. The code
  is followed: a number survives exactly when its digits form a palindrome, so every number below
  128 does and 128 does not. `Reader.AsWritten` is the code; `Reader.Repaired` is a reader that
  matches the comment. The codec theorems hold for both, for streams in which every number is
  readable: with the code as it is, streams that visit fewer than 128 shared objects and at most
  128 dynamic classes, and whose container and class name lengths are below 128 or palindromic.
* A decoder looks a class name up only to its first zero byte, whatever length it read. So the name
  of a dynamic class must not contain one, and other texts than the name are accepted for the
  class: 65, 0, 88 for the class named 65 (`CodecHashes.LongerNameAccepted`).
* Without associative containers, no stream outside these two conditions is decoded into what was
  encoded with exactly what followed left over. If what is left over is not looked at, one exception
  remains: a class whose name length is not readable and whose hash begins with a zero byte. Its
  name can be read on into the hash and beyond, and be cut to the right one again
  (`CodecExact.LongNameRebuilt`).
* The default packet protocol puts such a number in front of every packet. A packet whose length
  is not readable is not received as sent: one of 385 bytes is accepted as its first 131, and the
  other 254 bytes are read as further packets. So the end-to-end theorems hold over byte streams
  if every packet sent is one that its protocol delivers, which is a readable length here and a
  frame within the receiver's limit on a serial line. `RpcBytes.LongCallRunsOnLess` is a run in
  which a call with 380 bytes of arguments is executed with the first 126 of them.
* A client must issue fewer than 2^32 request ids, and a server accept fewer than 2^64
  connections, for a response to be certain to answer its own call.
* The deadline handler never sleeps through a deadline exactly when its event queue has room for
  at least one event.
* `thread_pool::run` loses a callable passed as an rvalue exactly when it saw room in the queue but
  no free worker, and then finds the queue full. One passed as an lvalue is copied and not lost.
* A function in the pool's queue can still be started, without anything else being submitted, if
  and only if some worker is not waiting in a slot or some submitter has a function in hand. A
  submitter and a worker that look at the same time can both miss each other
  (`ThreadPool.CrossedLooksStrandFunction`).
* The structure hash has room for 24 bits of a size: types that differ in a size below 2^24 have
  different leaf hashes, and sizes that differ by 2^24 are the same to it.
* `queue<T>::empty` answers the opposite of its name; `Queues.Queue.Empty` follows the code.
* A type has a hash if and only if no container or aggregate among its parts contains itself: a
  class with a vector of itself has none, a class with a unique pointer to itself has one.

## Model

| member | source | states |
|---|---|---|
| Variant.ReadBackIsDigitReversal | src/arpc/binary_codecs.h:595-604 | reading what was written gives the base-128 digits of the number in reverse order, modulo 2^64, and consumes exactly the written bytes, at most ten |
| Variant.RoundTripExactlyPalindromes | src/arpc/binary_codecs.h:197-206 | a number is read back unchanged if and only if its digits form a palindrome |
| Variant.SmallestFailure | src/arpc/binary_codecs.h:588-604 | every number below 128 survives; 128 is read back as 1 |
| Variant.Examples | src/arpc/binary_codecs.h:197-206 | the bytes on the stream for 0, 127, 300 and 16384 |
| Variant.ReadableRoundTrip | src/arpc/binary_codecs.h:190-206 | the numbers called readable survive either reader with whatever follows untouched; for the repaired reader these are all 64-bit numbers |
| Variant.WriteVariant | src/arpc/binary_codecs.h:197-206 | the writing loop puts exactly the specified bytes on the stream |
| Variant.ReadVariantLoop | src/arpc/binary_codecs.h:595-604 | the reading loop returns what the specification reads, or runs out of input with it |
| CodecRoundTrip.SaveThenLoad | src/arpc/binary_codecs.h:156-174 | the step-by-step invariant: when the reader can read every number in the bytes of a typed value and no class name in them has a zero byte, loading them gives its renamed copy, keeps both object numberings and both class numberings equal, leaves earlier memory alone and finishes every object it created |
| CodecRoundTrip.ClassRoundTrip | src/arpc/binary_codecs.h:208-231 | a class reference, first or repeated, whose own number is readable, and whose name, if written, has a readable length and no zero byte, is read back as the class it names, and both class tables stay in step |
| CodecRoundTrip.StartInStep | src/arpc/binary_codecs.h:547-570 | at a first visit both sides take the same next id, and the new object is published before its content is decoded, so that cycles close |
| CodecRoundTrip.KnownRoundTrips | src/arpc/binary_codecs.h:557-569 | a repeated visit is one back-reference, which, when readable, is read as the object created for that id |
| CodecRoundTrip.RebuildAscending | src/arpc/binary_codecs.h:450-464 | inserting the decoded elements of a unique-key container one by one rebuilds it in its order |
| CodecHosts.WireAt | src/arpc/binary_codecs.h:319-341 | a scalar stands on the stream as it lies in memory, or, when bytes are reversed, with byte k of the stream being byte k of the scalar from its end |
| CodecHosts.ScalarBetweenHosts | src/arpc/binary_codecs.h:779-807 | a scalar saved with one setting and loaded with another comes out byte by byte as it was if both reverse or neither does, and as its mirror image otherwise, leaving exactly what follows |
| CodecHosts.LoadMirrors | src/arpc/binary_codecs.h:394-577 | on any bytes, a host of the other byte order, with the same classes and comparators that see the same numbers, decodes the mirror image of what this host decodes, or refuses them with the same error |
| CodecHosts.GraphBetweenHosts | src/arpc/binary_codecs.h:779-807 | a graph written on one host is rebuilt on a host of the other byte order as an isomorphic graph with the same sharing, every scalar being the mirror image of the bytes it was |
| CodecFormat.PlainFormat | src/arpc/binary_codecs.h:73-152 | scalars, arrays, tuples, sequences, sets, optionals and unique pointers in so many bytes |
| CodecFormat.SharedFormat | src/arpc/binary_codecs.h:156-174 | null is 0; objects are numbered from 1 in the order in which they are met, and follow their number the first time only, byte by byte for two objects |
| CodecFormat.ClassFormat | src/arpc/binary_codecs.h:208-231 | classes are numbered from 0, and followed by name length, name and hash the first time only, byte by byte for two classes |
| CodecFormat.ReferenceExactly | src/arpc/binary_codecs.h:527-570 | a shared pointer to an object seen before is accepted if and only if the object has the type of the pointer, or its class derives from the pointer's; otherwise, as for a number beyond the next, it is a mismatch |
| CodecFormat.ClassReferenceExactly | src/arpc/binary_codecs.h:607-647 | a class seen before is accepted if and only if it derives from the pointer's class; otherwise, as for a number beyond the next, it is a mismatch |
| CodecFormat.NewClassRefused | src/arpc/binary_codecs.h:617-638 | a new class whose name is unknown is not found, and one with another hash is a mismatch |
| CodecFormat.FlagExactly | src/arpc/binary_codecs.h:500-511 | a zero flag is an empty optional, any other flag is followed by the value |
| CodecGraph.GraphRoundTrip | src/arpc/binary_codecs.h:156-174 | any graph, with cycles and sharing, written by several calls on one encoder from unchanged memory, with every number on the wire readable and no zero byte in class names, is decoded into an isomorphic copy of exactly the reachable objects, one new object each, with the same sharing across calls and nothing else read |
| CodecGraph.TwoObjectCycle | src/arpc/binary_codecs.h:527-570 | an instance that meets all conditions: two objects that point to each other are decoded as two new objects that point to each other |
| CodecGraph.PlainRoundTrip | src/arpc/binary_codecs.h:65-152 | values without shared pointers, whose written sizes and class references are readable, are decoded unchanged in either byte order, leaving exactly what follows |
| CodecGraph.TupleLocal | src/arpc/binary_codecs.h:154-174 | encoding looks at nothing but objects reachable from the values, and numbers no others |
| CodecNumbers.ClearExactly | src/arpc/binary_codecs.h:156-231 | all numbers and names on the wire survive if and only if the ids of the visited objects and classes and the sizes of variable-size containers in the roots and visited objects are readable, and the names of the visited classes have readable lengths and no zero byte |
| CodecNumbers.ClearAsWritten | src/arpc/binary_codecs.h:595-604 | with the reader as it is, the ids are readable if and only if fewer than 128 objects and at most 128 dynamic classes are visited |
| CodecGraph.Object128IsLost | src/arpc/binary_codecs.h:527-570 | whatever came before, the 128th object of a stream is taken for the first one, or reported as a mismatch |
| CodecExact.RebuiltExactly | src/arpc/binary_codecs.h:527-647 | without associative containers, decoding yields an isomorphic copy of the encoded graph and leaves exactly what followed if and only if the reader can read every number and name that was written |
| CodecExact.NeverByAccident | src/arpc/binary_codecs.h:617-647 | the same if and only if, whatever bytes follow and whatever is left of them, when no visited class has both an unreadable name length and a hash that begins with a zero byte |
| CodecExact.LongNameRebuilt | src/arpc/binary_codecs.h:617-647 | an instance that shows this condition is needed: a class with a name of 130 bytes and such a hash is not rebuilt with exactly the right rest, but is rebuilt when 123 bytes and its hash follow |
| CodecLength.LoadsEnough | src/arpc/binary_codecs.h:394-647 | on any bytes, decoding that yields the image of a value without associative containers consumes at least as many bytes as encoding it writes, even where names were read longer and classes twice |
| CodecLength.ReadsEnough | src/arpc/binary_codecs.h:595-604 | on any bytes, either reader consumes at least as many as writing the number that it returns takes |
| CodecExact.RebuiltAsWritten | src/arpc/binary_codecs.h:595-604 | RebuiltExactly for the reader as it is: if and only if fewer than 128 objects and at most 128 dynamic classes are visited, all written lengths are palindromic and no class name has a zero byte |
| CodecExact.ExactSave | src/arpc/binary_codecs.h:394-647 | the step-by-step invariant behind both: a value that comes out right, from no more than its own bytes or without a name that can run on, was read from exactly its own bytes, with every id, size and name right |
| CodecInput.LoadCut | src/arpc/binary_codecs.h:751-769 | a truncated input gives the same result as the full one unless it is cut inside what is needed; then the end of file is reported |
| CodecInput.ProperPrefixIsEof | src/arpc/io_adapters.cpp:26-31 | every proper prefix of an encoding whose numbers are readable is refused with the end-of-file error |
| CodecInput.LoadSafe | src/arpc/binary_codecs.h:527-570 | on any bytes, an accepted value has its type, its references point to finished objects that the pointers may hold, and existing memory is untouched |
| CodecInput.ClassSafe | src/arpc/binary_codecs.h:607-647 | a class that is accepted behind a pointer, found under a text cut at its first zero byte, is registered and derives from the pointer's class |
| CodecHashes.NewClassExactly | src/arpc/binary_codecs.h:617-638 | a class new to the stream is accepted if and only if it is registered here and the text that was read names it, up to the text's first zero byte, and is followed by the registered structure hash |
| CodecHashes.OwnNameExactly | src/arpc/binary_codecs.h:617-638 | the text under which a class was accepted is the class's own name if and only if it has no zero byte |
| CodecHashes.LongerNameAccepted | src/arpc/binary_codecs.h:629-631 | an instance: the class named by the one byte 65 is accepted under the text 65, 0, 88 |
| CodecHashes.LoadAttests | src/arpc/binary_codecs.h:607-647 | on any bytes, whatever one value's decoding adds to the class table is named in those bytes, by a text cut at its first zero byte and followed by the registered hash, and every dynamic object it makes is of a class in the table |
| CodecHashes.OnlyAttestedClasses | src/arpc/binary_codecs.h:607-647 | a fresh decoder on arbitrary bytes: every class in its table, and so the class of every dynamic object it made, is named in the input, by a text cut at its first zero byte and followed by the registered structure hash |
| CodecInput.AcceptedIsWellTyped | src/arpc/binary_codecs.h:607-672 | a fresh decoder turns arbitrary bytes either into an error or into a completely well-typed object graph |
| CodecImpl.BinaryEncoder.Write | src/arpc/binary_codecs.h:73-182 | one call on the encoder object appends the specified bytes and moves both of its maps to the specified state |
| CodecImpl.BinaryEncoder.WriteShared | src/arpc/binary_codecs.h:156-174 | a shared pointer writes its id, new or known, and its object on the first visit only |
| CodecImpl.BinaryEncoder.SaveClassReference | src/arpc/binary_codecs.h:208-231 | a new class takes the next id and is followed by its name and structure hash |
| CodecImpl.BinaryEncoder.WriteBlock | src/arpc/binary_codecs.h:321-341 | every byte that is appended: byte k of the scalar, or byte k from its end when bytes are reversed; nothing before them changes |
| CodecImpl.BinaryDecoder.Read | src/arpc/binary_codecs.h:394-577 | one call on the decoder object returns the specified value or error, and moves its vectors, its memory and its input to the specified state |
| CodecImpl.BinaryDecoder.ReadShared | src/arpc/binary_codecs.h:527-570 | an id beyond the next is refused; the next creates, publishes and then fills an object; a known one is shared after a type check |
| CodecImpl.BinaryDecoder.ReadInserting | src/arpc/binary_codecs.h:450-464 | the insertion loop builds the container that inserting all elements in order builds |
| CodecImpl.BinaryDecoder.LoadClassReference | src/arpc/binary_codecs.h:607-647 | the class reference is read, its name looked up to the first zero byte, recorded when new, and checked as specified |
| CodecImpl.BinaryDecoder.ReadBlock | src/arpc/binary_codecs.h:751-769 | every byte of the result: byte k of the input, or of its first n bytes byte k from their end when bytes are reversed; succeeds if and only if there are n bytes, and leaves exactly the rest |
| Cobs.DecodeEncode | src/arpc/packet_codecs.cpp:121-137 | decoding an encoding gives back the original, for every byte string |
| Cobs.EncodeDecodeExactlyWellFormed | src/arpc/packet_codecs.cpp:75-137 | encoding a decoded string gives the string back if and only if it parses into zero-free blocks whose last is not full |
| Cobs.EncodedHasNoZero | src/arpc/packet_codecs.cpp:75-119 | an encoding contains no zero byte and is not empty |
| Cobs.EncodedLength | src/arpc/packet_codecs.cpp:76-79 | the exact length, one more than the original plus the number of full runs, and its bound, which the buffer is sized for |
| Cobs.DecoderAcceptsMore | src/arpc/packet_codecs.cpp:121-137 | inputs that are no encodings but that the decoder accepts, and what becomes of them |
| Cobs.DecodeTwo | src/arpc/packet_codecs.cpp:121-137 | two encodings one after the other decode to the two strings with a zero between them |
| Cobs.DecodeRefuses | src/arpc/packet_codecs.cpp:121-137 | the empty string is refused for its length, and a block cut short or with a zero code as a mismatch, whatever blocks come before it |
| Cobs.Examples | src/arpc/packet_codecs.cpp:75-119 | the encodings of nothing, of a zero, of a zero between two bytes, and of any full run |
| Cobs.Scan | src/arpc/packet_codecs.cpp:82-100 | the forward pass records exactly the run lengths of the block specification, and one extra byte more than there are full runs |
| Cobs.ExpandBackwards | src/arpc/packet_codecs.cpp:101-116 | the backward pass turns the buffer into the encoding in place: the write cursor leads by one plus the full runs still to the left, so no unread byte is overwritten, and both cursors end at the start |
| Cobs.Encode | src/arpc/packet_codecs.cpp:75-119 | the whole in-place encoder yields the recursive block specification |
| Cobs.DecodeBlock | src/arpc/packet_codecs.cpp:124-135 | one block is moved forwards in the same buffer, or its truncation noticed |
| Cobs.Decode | src/arpc/packet_codecs.cpp:121-137 | the in-place decoder yields the specified string or error |
| Framing.UnsealExactlySealed | src/arpc/packet_codecs.cpp:36-71 | MAC decoding succeeds exactly on MAC encodings and returns what was encoded, for any hash function |
| Framing.MacCodec.Encode | src/arpc/packet_codecs.cpp:36-49 | appends eight bytes, of which byte k is the hash divided by 256 to the power of k, modulo 256 |
| Framing.MacCodec.Decode | src/arpc/packet_codecs.cpp:51-71 | cuts off the hash bytes if they match and refuses otherwise |
| Framing.SendThenReceive | src/arpc/packet_protocols.h:39-59 | a packet sent over the serial line is received, and nothing behind it touched, if and only if its encoding fits the receiver's limit |
| Framing.ReceiveRefuses | src/arpc/packet_protocols.h:48-59 | the errors of receive: the end of the file without a delimiter, a line longer than the limit, what the COBS decoder refuses, and a MAC that does not match; all but the first two leave exactly the next line |
| Framing.BackToBack | src/arpc/packet_protocols.h:39-84 | in either protocol, packets sent back to back are received as the same list, with exactly what follows left over, if and only if each of them is deliverable: its frame fits the receiver's limit, or its length is readable |
| Framing.Resynchronizes | src/arpc/packet_protocols.h:48-59 | whatever bytes stand where frames were lost, after at most one receive for each zero and each overlong stretch among them, and two more, the line is at the start of a frame again; at most one intact packet is lost, none if the damage ends with a delimiter, and all others arrive |
| Framing.AcceptedIsSealed | src/arpc/packet_protocols.h:48-59 | on any bytes, an accepted packet stood on the line encoded with its own MAC |
| Framing.CutLine | src/arpc/packet_protocols.h:66-84 | of frames on a connection that was cut anywhere, the next packet received is the first one sent, in either protocol |
| Framing.SerialLineProtocol.Send | src/arpc/packet_protocols.h:39-46 | writes exactly one frame |
| Framing.SerialLineProtocol.Receive | src/arpc/packet_protocols.h:48-59 | the reading loop and the two decoders return the specified packet or error and leave the specified rest |
| Framing.StreamRoundTrip | src/arpc/packet_protocols.h:66-85 | a length-prefixed packet survives if and only if the reader can read its length |
| Framing.Packet385IsCutShort | src/arpc/packet_protocols.h:79-84 | with the default protocol as it is, a packet of 385 bytes is accepted as its first 131, and the rest is left to be read as packets |
| FlatTree.BoundsDelimitBlock | src/arpc/container/detail/flat_tree.h:220-238 | lower and upper bound delimit exactly the elements equivalent to the key, under any strict weak order |
| FlatTree.InsertAtLowerBound | src/arpc/container/detail/flat_tree.h:241-254 | insertion keeps the order, puts the value first under its key and changes nothing under other keys |
| FlatTree.EraseBlock | src/arpc/container/detail/flat_tree.h:310-315 | erasure empties the key's block and changes nothing under other keys |
| FlatTree.UniqueOfSorted | src/arpc/container/detail/flat_tree.h:190-198 | sorting constructors without duplicates keep, under every key, the element that sorting put first |
| FlatTree.FlatTree.LowerBound | src/arpc/container/detail/flat_tree.h:227-232 | the search finds the lower bound |
| FlatTree.FlatTree.UpperBound | src/arpc/container/detail/flat_tree.h:221-226 | the search finds the upper bound |
| FlatTree.FlatTree.Insert | src/arpc/container/detail/flat_tree.h:241-268 | unique insertion keeps the old value and says so; multi insertion puts the new one first in its block |
| FlatTree.FlatTree.EraseKey | src/arpc/container/detail/flat_tree.h:310-315 | removes the whole block, which is what lies between the bounds, and returns its size |
| FlatTree.FlatTree.Count | src/arpc/container/detail/flat_tree.h:318-321 | the number of values under the key |
| FlatTree.FlatTree.Find | src/arpc/container/detail/flat_tree.h:324-337 | the first equivalent element, or the end if and only if there is none |
| FlatTree.FlatTree.At | src/arpc/container/flat_map.h:71-77 | the value under the key, or the out-of-range error |
| FlatTree.FlatTree.Index | src/arpc/container/flat_map.h:53-60 | finds the value, or inserts the initial one and changes nothing else |
| FlatTree.FlatTree.FromRange | src/arpc/container/detail/flat_tree.h:190-198 | what construction from a range holds under every key |
| FlatTree.InsertUniqueAscending | src/arpc/container/detail/flat_tree.h:241-254 | unique insertion of whole elements keeps them strictly ascending; nothing changes if an equivalent element is there, and otherwise the element is inserted at its place |
| Queues.Queue.MaybePut | src/arpc/queue.h:60-65 | appends, or refuses exactly when full; both flags again say what the contents allow |
| Queues.Queue.MaybeGet | src/arpc/queue.h:66-74 | takes the front, or refuses exactly when empty; both flags again say what the contents allow |
| Queues.Queue.Empty | src/arpc/queue.h:51-54 | answers true exactly when the queue is not empty |
| Queues.Tokens.MaybePut | src/arpc/queue.h:139-144 | one more token, or refusal exactly at the limit |
| Queues.Tokens.MaybeGet | src/arpc/queue.h:145-150 | one token less, or refusal exactly at zero |
| Queues.Promise.Set | src/arpc/future.h:328-347 | the first outcome stays and is announced; a second one is refused and changes nothing |
| Queues.Promise.Destroy | src/arpc/future.h:319-324 | a promise without outcome is broken, one with an outcome keeps it |
| Queues.Promise.MaybeGet | src/arpc/future.h:80-87 | the outcome if there is one, otherwise to be tried again; a value is moved out, so that the next get finds what moving left, and an exception stays |
| Client.FirstVerdictWins | src/arpc/client.h:219-265 | over any run, a pending request leaves the table at the first event that concerns it, with that event's outcome, and keeps that outcome for good |
| Client.OutcomeIsFinal | src/arpc/client.h:249-256 | late or duplicate responses, cancellations, expiries and broadcasts change no outcome |
| Client.AfterKeeps | src/arpc/client.h:219-297 | after every critical section each request is either pending or resolved, never both, and only pending ones were resolved |
| Client.ClientConnection.Finish | src/arpc/client.h:239-256 | giving a pending request its outcome takes it out of the table at the same time; its promise was never set before |
| Client.ClientConnection.NewRequestId | src/arpc/client.h:234-237 | ids count up on 32 bits |
| Client.ClientConnection.AbandonRequest | src/arpc/client.h:239-247 | resolves the request with the cancelled error if it is pending, and otherwise does nothing |
| Client.ClientConnection.SetResponse | src/arpc/client.h:249-256 | resolves the request with the response if it is pending, and otherwise does nothing |
| Client.ClientConnection.Gc | src/arpc/client.h:219-232 | exactly the requests whose deadline has passed leave the table, with the deadline error |
| Client.ClientConnection.BroadcastException | src/arpc/client.h:258-265 | every pending request gets the exception and the table is empty |
| Client.ClientConnection.RegisterRequest | src/arpc/client.h:285-297 | the request becomes pending with a fresh promise, and a deadline leaves a token unless the queue is full |
| Client.ClientConnection.SendRequest | src/arpc/client.h:281-307 | registers, sends, and on failure abandons the request again and reports the error |
| Client.ClientConnection.CancelRequest | src/arpc/client.h:203-210 | abandons the request and queues its cancellation unless that queue is full |
| Client.ClientConnection.ReceiveUntilLost | src/arpc/client.h:309-355 | responses resolve their requests until the connection fails or sends something else; then all that is pending fails |
| Client.ReceivedOutcomes | src/arpc/client.h:309-355 | a request that was pending when the receiver thread began has the first response that came under its id, and the error of the loss if none came |
| Client.ClientConnection.GetEarliestDeadline | src/arpc/client.h:357-370 | the least deadline of all pending requests, or none if there is none |
| Deadlines.NoLostWakeup | src/arpc/client.h:372-405 | in every reachable state a waiting handler has a token or a timer no later than any pending deadline, even after tokens were dropped, if and only if the queue has room for a token |
| Deadlines.WithoutCapacity | src/arpc/client.h:291-296 | a run in which, without room for tokens, a deadline goes unnoticed |
| Deadlines.NextKeepsInvariant | src/arpc/client.h:281-297 | registering, resolving, waking and taking a snapshot all keep the wakeup invariant |
| Server.FirstRequestWins | src/arpc/server.h:334-372 | over any run of the request table, from the last removal of a key on, its entry has the payload of the first packet under it, whatever duplicates follow, and is marked cancelled exactly if a cancellation of that key came after the packet; without such a packet there is no entry |
| Server.KnownRequestStays | src/arpc/server.h:334-354 | a known request keeps its payload over any run that does not remove it, and only its own cancellations mark it |
| Server.ServerTables.Finish | src/arpc/server.h:315-325 | if the connection that the request came from is still known, its queue is the old one and the reply with the request's id and the response that was stored; the request leaves the table, and no other queue or request changes |
| Server.ServerTables.GetNewConnection | src/arpc/server.h:518-528 | the connection gets the first key, counting round, that is not in use, with an empty queue, and no other changes |
| RpcSystem.ResponsesComeFromTheirCall | src/arpc/client.h:249-256 | between clients and server that exchange whole packets, over all interleavings, losses and reconnects: a call that is answered is answered with what an execution of its own payload returned |
| RpcSystem.ExecutedAtMostOnce | src/arpc/server.h:349-372 | with whole packets, no call is started twice, however packets, connections and threads interleave |
| RpcSystem.OnlyOwnCallsCancelled | src/arpc/server.h:334-341 | with whole packets, a request is marked cancelled only if its own client sent the cancellation of that call |
| RpcSystem.NewCallIsFresh | src/arpc/client.h:234-237 | below 2^32 ids a new request id was never used by that client |
| RpcSystem.AcceptKey | src/arpc/server.h:518-528 | below 2^64 connections a new connection key was never used |
| RpcSystem.NextKeepsInvariant | src/arpc/server.h:315-372 | every step of any client, of the network of packets or of the server keeps the end-to-end invariant |
| RpcAnswers.AnswerArrives | src/arpc/server.h:315-325 | in every reachable state, an executed call whose client still waits and whose connection is still up gets the response of its own execution, by the server delivering and sending and the client reading; nothing else is needed |
| RpcAnswers.CallIsAnswered | src/arpc/client.h:281-307 | in every reachable state, a client with ids left and a connection the server knows can make a call, which is executed once more than before, with its own arguments, and whose outcome is whatever the execution returned |
| RpcAnswers.CancelArrives | src/arpc/server.h:334-341 | in every reachable state, a cancellation that its client sends marks the request, which keeps its payload and progress |
| RpcAnswers.NextKeepsResults | src/arpc/server.h:315-372 | every step keeps this: no call has two results, and none while it is still being executed |
| RpcAnswers.ReachableResults | src/arpc/server.h:315-372 | what these theorems ask of a state is true of every state that a run reaches |
| RpcBytes.RunRefines | src/arpc/client.h:309-329 | over byte streams that may break anywhere, in either packet protocol, every run in which each packet sent is deliverable reaches only states that the system of whole packets reaches, by the corresponding steps |
| RpcBytes.NextRefines | src/arpc/server.h:193-223 | every single step on bytes, the receiver taking whatever it can parse, is the corresponding step on packets or none, and keeps what the streams carry |
| RpcBytes.ResponsesComeFromTheirCall | src/arpc/client.h:249-256 | end to end over bytes, if every packet sent is deliverable: a call that is answered is answered with what an execution of its own payload returned |
| RpcBytes.ExecutedAtMostOnce | src/arpc/server.h:349-372 | over bytes, under the same condition, no call is started twice |
| RpcBytes.OnlyOwnCallsCancelled | src/arpc/server.h:334-341 | over bytes, under the same condition, a request is marked cancelled only if its own client sent the cancellation of that call |
| RpcBytes.RequestArrivesExactly | src/arpc/server.h:195-210 | a request at the front of a connection is taken by the server as itself, leaving exactly what follows, if and only if its packet is deliverable |
| RpcBytes.ResponseArrivesExactly | src/arpc/client.h:318-336 | a response at the front of a connection is taken by the client as itself, leaving exactly what follows, if and only if its packet is deliverable |
| RpcBytes.RunImplements | src/arpc/packet_protocols.h:39-84 | the other direction of the refinement: as long as no connection breaks, every run of whole packets that sends only deliverable ones is possible on bytes and does the same |
| RpcBytes.CallIsAnswered | src/arpc/client.h:281-355 | over bytes, in every state reached with deliverable packets and unbroken connections, a call can be made, executed with its own arguments and answered with what the execution returned, if its packets and the responses that already wait are deliverable |
| RpcBytes.LongCallRunsOnLess | src/arpc/client.h:64-68 | a run of the default protocol in which the server executes a call of 380 bytes of arguments with the first 126 |
| Contexts.ReachIsLeast | src/arpc/context.cpp:103-109 | what cancellation reaches is contained in every set closed under registered children |
| Contexts.ReachIsClosed | src/arpc/context.cpp:103-109 | what cancellation reaches is itself closed under registered children |
| Contexts.CancelSettles | src/arpc/context.cpp:103-109 | the context and everything registered beneath it is marked, nothing outside any closed set that contains it is, and a cancelled context still has only cancelled children |
| Contexts.CreateSettles | src/arpc/context.cpp:40-54 | a new context is cancelled exactly if its parent is and it is no shield; nothing else changes |
| Contexts.CreateCommutes | src/arpc/context.cpp:72-78 | joining late or early comes to the same: creation and cancellation commute |
| Contexts.DetachSettles | src/arpc/context.cpp:80-86 | removing a child keeps the tree valid and settled |
| Contexts.Context.Cancel | src/arpc/context.cpp:103-109 | the recursion over children marks exactly this context and what is reachable from it; it ends because parents are older than children |
| Contexts.Context.AddChild | src/arpc/context.cpp:72-78 | registers the child, and cancels it if and only if this context is cancelled |
| Contexts.Context.RemoveChild | src/arpc/context.cpp:80-86 | unregisters the child and changes nothing else |
| Contexts.Context.SetDeadline | src/arpc/context.cpp:129-134 | the earlier of the old and the new deadline |
| Contexts.NewContext | src/arpc/context.cpp:40-54 | a child starts with its parent's deadline and data, joins it unless it is a shield, and is then cancelled if and only if the parent is |
| ContextThreads.CancelledHasCancelledChildren | src/arpc/context.cpp:72-109 | with any number of threads cancelling, creating and removing, a cancelled context whose lock is free has only cancelled children |
| ContextThreads.OnlyBeneathRequested | src/arpc/context.cpp:40-109 | in every reachable state a cancelled context is one on which cancel was called, or descends from one without passing a shield; no interleaving cancels anything else |
| ContextThreads.CancelledExactly | src/arpc/context.cpp:40-109 | when all calls have returned, whatever the interleaving was: everything on which cancel was called, or that descends from it by links that were not removed, is cancelled; without removals, that is exactly what is |
| ContextThreads.CallsTakeEffect | src/arpc/context.cpp:40-109 | the same in terms of the calls that were made: each context on which cancel was called is cancelled in the end, and so is each that was created under a cancelled one, before or after |
| ContextThreads.SomeoneGoesOn | src/arpc/context.cpp:72-109 | nested locks never deadlock: whenever a thread is inside a call, some thread can take its next step |
| ContextThreads.NextKeepsInvariant | src/arpc/context.cpp:40-109 | every critical section keeps the invariant of the tree and of the calls in progress |
| ThreadPool.Conservation | src/arpc/executor.h:53-74 | in every reachable state, whatever looks at the queues were stale, each submitted function is in exactly one place, is started at most once, and waiting slots never outnumber workers |
| ThreadPool.WorkerGets | src/arpc/executor.cpp:47-67 | in every reachable state, a worker that saw work gets the function that waits longest, if there still is one, and one that saw only room always finds a slot |
| ThreadPool.SubmitterGives | src/arpc/executor.h:53-74 | a submitter hands its function to the worker that waits longest, or to the end of the queue |
| ThreadPool.PendingCanRun | src/arpc/executor.cpp:47-67 | a function in the queue can still be started without a further submission if and only if some worker is not waiting or some submitter has a function in hand |
| ThreadPool.CrossedLooksStrandFunction | src/arpc/executor.h:55-73 | a run in which a submitter and the only worker look at the same time, and function and worker both wait |
| ThreadPool.LostExactlyWhenFull | src/arpc/executor.h:65-69 | a function is lost exactly when it was passed as an rvalue and its submitter saw room but no slot and then finds the queue full |
| ThreadPool.StaleLookLosesFunction | src/arpc/executor.h:55-73 | a run in which two submitters see one free place and one function is lost |
| ThreadPool.Pool.TryRun | src/arpc/executor.h:58-72 | if a slot was seen, the worker that waits longest gets the function unless none waits; if only room was seen, the function joins the queue unless it is full, and then its submitter is left with an empty one; otherwise nothing changes, and it answers so |
| ThreadPool.Pool.TryRequest | src/arpc/executor.cpp:47-67 | if work was seen, the promise gets the function that waits longest unless none waits; if only room was seen, the promise waits behind the others unless there is none; otherwise nothing changes, and it answers so |
| ThreadPool.Pool.Run | src/arpc/executor.h:54-74 | the retry loop places the function once, and says when it has become an empty one |
| HighwayHash.ChunksHashAlike | src/arpc/highway_hash.cpp:75-127 | however a message is cut into chunks, appending them and finishing gives the one-shot hash of every width |
| HighwayHash.AppendMeans | src/arpc/highway_hash.cpp:75-100 | appending amounts to absorbing the buffered and the new bytes together; the buffer is the tail of the message modulo 32 |
| HighwayHash.PacketsSplit | src/arpc/highway_hash.cpp:91-95 | absorbing a concatenation is absorbing the first part and then its tail with the second |
| HighwayHash.Hasher.AppendBytes | src/arpc/highway_hash.cpp:75-100 | the buffer, the packet loop and the rest do what the specification of appending says |
| HighwayHash.Hasher.FinishCopy | src/arpc/highway_hash.cpp:103-127 | the hash of what was appended so far, without changing the object |
| HighwayHash.Hasher.UpdateLanes | src/arpc/highway_hash.cpp:179-191 | the lane loop and the four merges compute the specified update in place |
| HighwayHash.Hasher.UpdateRemainder | src/arpc/highway_hash.cpp:138-163 | size, rotation by 1 to 31 and padding are applied as specified |
| HighwayHash.Hasher.PadPacket | src/arpc/highway_hash.cpp:143-161 | the padded packet has each remaining byte in its place, and the specified zeros; HighwaySeparate.PaddedSeparates says that none is lost |
| HighwayHash.Hasher.Rotate32By | src/arpc/highway_hash.cpp:204-214 | rotates both halves of every lane; the count is always between 1 and 31 |
| HighwayHash.Hasher.ProcessAll | src/arpc/highway_hash.cpp:270-276 | absorbs a whole message |
| HighwayHash.Hash | src/arpc/highway_hash.cpp:28-49 | the one-shot hash, whose value for one message is worked out in HighwayVector.HashOfAbc |
| HighwaySeparate.PaddedSeparates | src/arpc/highway_hash.cpp:138-163 | tails of the same length that differ have different padded packets |
| HighwaySeparate.UpdateSeparates | src/arpc/highway_hash.cpp:179-191 | an update can be undone: its result determines the old state from the words mixed in, and the words from the old state |
| HighwaySeparate.PacketSeparates | src/arpc/highway_hash.cpp:129-136 | different packets on one state, or one packet on different states, give different states |
| HighwaySeparate.MessagesSeparate | src/arpc/highway_hash.cpp:270-276 | under one key, messages of the same length that differ within one block of 32 bytes, or in the rest, end in different states, after any number of final rounds |
| HighwaySeparate.KeysSeparate | src/arpc/highway_hash.cpp:51-73 | different keys end in different states, for every message |
| HighwayVector.HashOfAbc | src/arpc/highway_hash.cpp:28-49 | the 64-bit hash of "abc" under the key of the bytes 0 to 31, step by step |
| TypeHash.HashRenamed | src/arpc/type_hash.h:103-118 | neither the hash nor whether there is one changes under any renaming of types that keeps different types apart, within any larger program, whatever else that contains: structure alone counts |
| TypeHash.CombineSeparates | src/arpc/type_hash.h:78-84 | changing the hash of exactly one part of a type, at whatever place, changes the hash of the type |
| TypeHash.LeafSeparates | src/arpc/type_hash.h:86-92 | leaves that differ in family, sign or a size below 2^24 have different hashes |
| TypeHash.SizesWrap | src/arpc/type_hash.h:86-92 | sizes that differ by 2^24 have the same |
| TypeHash.Examples | src/arpc/type_hash.h:78-92 | the hashes of two scalars, of a tuple of them and of a class with one field, as numbers |
| TypeHash.ReferenceCounts | src/arpc/type_hash.h:103-118 | a new type takes the next position in the list of types met, and those met earlier keep theirs |
| TypeHash.BackReferenced | src/arpc/type_hash.h:107-110 | a part that was met before, or that is the type itself, is hashed as its position |
| TypeHash.EnoughFuel | src/arpc/type_hash.h:94-118 | on types that do not recur through containers or aggregates the recursion ends, at a depth after which the result no longer changes |
| TypeHash.ContainerLoopNeverEnds | src/arpc/type_hash.h:144-182 | a type with a part that is a container or aggregate containing itself has no hash: no depth of recursion is enough |
| TypeHash.HashExactly | src/arpc/type_hash.h:94-182 | a type has a hash if and only if no container or aggregate among its parts contains itself |
| TypeHash.RankedExactly | src/arpc/type_hash.h:144-182 | types can be ranked, so that the recursion is seen to end, if and only if no container or aggregate contains itself |
| TypeHash.VectorOfItself | src/arpc/type_hash.h:144-182 | a class with a vector of itself has no hash, one with a unique pointer to itself has one |
| TypeHash.SeenRenamed | src/arpc/type_hash.h:107-110 | back-references are positions in the list of types met, and survive renaming |
| Select.SlicesPartition | src/arpc/select.h:188-199 | the prefix sums cut the pollfd array into adjacent, disjoint slices that cover it, each holding its input's awaitables |
| Select.NestedMinIsFlat | src/arpc/select.h:256-271 | the minimum over inputs of the minima within them is the minimum over all awaitables, the first one winning |
| Select.TimeoutActivatesSoonest | src/arpc/select.h:50-57 | when poll times out, the awaitable that is soonest is activated, and a plain timeout is activated exactly if it equals the minimum |
| Select.MinIsFirstSoonest | src/arpc/select.h:139-159 | the minimum is the time left of the first soonest awaitable, or there is no timeout at all |
| Select.ElapsedLags | src/arpc/select.h:295-297 | the time counted as elapsed never exceeds the time that passed and lags by less than a millisecond a turn |
| Select.TimeoutInfo | src/arpc/select.h:139-159 | the loop over a vector computes its minimum |
| Select.EarliestTimeout | src/arpc/select.h:256-271 | the accumulation over inputs: none if no awaitable has a timeout, otherwise what some awaitable has left and none has less, where polling ones count what has elapsed |
| Select.MakePollfds | src/arpc/select.h:220-240 | entry k has the descriptor and direction of awaitable k of all inputs in order, and no events |
| Select.MakeResults | src/arpc/select.h:210-218 | each input gets its own slice; if anything is reported, each awaitable has a result if and only if its own events are reported and it need not wait on, and it is its own value or error |
| Select.SelectArguments | src/arpc/select.h:244-299 | select ends at the first turn with a result. If poll reports something in it, cancellation is returned if and only if its awaitable is reported and fails, then the deadline alike, and otherwise each awaitable of each argument has its own result; before, all that were reported had to wait on |
| Select.ReportedResult | src/arpc/select.h:58-75 | in a turn in which poll reports something, an awaitable has a result if and only if its own events are reported and it need not wait on, and the result is its value or its error |
| Select.QuietEnd | src/arpc/select.h:54-57 | how a turn ends in which poll reports nothing: the awaitables with no more time than the first that is due fire, and with a polling one all polling ones |

## Left out

- Sockets, pipes, `poll`, address resolution, files and the iostream adapters: a stream is a byte sequence with a position, a flag a boolean, and setting a flag always succeeds.
- Custom `save` and `load` methods, the `verify_structure` tag, time points and durations: user code, or thin layers over scalars.
- Multi-key associative containers in the codec: decoding inserts at the lower bound, so values under equal keys come back in reverse order.
- Containers ordered by the addresses of shared objects: decoding changes addresses, so the theorems ask that no comparator depends on them.
- The class registry and the structure hashes of dynamic classes: a fixed table, the same on both sides.
- A shared pointer's table entry is pushed before the class name is read and completed afterwards; the model makes one step of it, as nothing looks at the table in between.
- Objects that only weak pointers refer to: decoding creates them like all others, and they die with the decoder, which the model's memory does not show.
- Memory that changes between calls on one encoder, which keeps addresses and no objects: an object changed after its first visit is not written again, and one freed whose address is reused is taken for the old one.
- Shared pointers to a part of an object at the object's own address, and statically typed ones to a base of an object known under another type: an address has one object of one type.
- CodecExact.RebuiltExactly: does not speak of values with associative containers, where insertion can hide elements read beyond the end; for those GraphRoundTrip gives one direction.
- Blocks of scalars are written element by element; the bytes are the same.
- Objects are filled in memory when their content is complete rather than field by field; nothing reads them earlier.
- Boolean bytes other than 0 and 1, which C++ leaves undefined: any byte but 0 counts as true.
- Contexts, object and method names inside request packets: what follows the kind and the id is the payload.
- Connections replaced inside one receive. A receiver that meets bytes it cannot parse takes nothing more from that connection.
- Bytes altered on a connection: it loses bytes only at its end. Damage is treated for the serial line alone.
- The life of server connections (`receive_done`, `send_done`): a connection may be removed at any time, busy or not.
- Exceptions that escape `execute`, destruction of a server with calls in progress, proxies and interface generation.
- Requests whose id is still pending after 2^32 others, which would receive an empty future.
- Waking order and fairness among the pool's threads: `ThreadPool.PendingCanRun` says what can happen, not that it does.
- ThreadPool.Pool.Run: runs alone, so the queues do not change between its attempts; the transition system has all threads.
- Destroying a context that still has children, which waits for them, and the current-context pointer of each thread.
- `std::sort` in the sorting constructors of flat containers: its result is a parameter, with equivalent elements in any order.
- Copy construction of flat containers, which does not copy the comparator.
- The strength of the hash functions: the sums at the end of a hash are not shown to keep anything apart.
- Progress of calls: `RpcAnswers` says that a call can be answered, not that the threads and the network do what is needed.
- Preprocessor macros, traits, tuple utilities, singletons and reconnectable connections.
