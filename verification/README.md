# flake4j in Dafny

A model of flake4j's 128-bit "flake" identifier generator and of its MAC-address
node identifier.

An identifier is 16 bytes, all big-endian:

- bytes 0..7 hold the millisecond timestamp, as `ByteBuffer.putLong` writes it;
- bytes 8..13 hold the six node bytes;
- bytes 14..15 hold the sequence number within that millisecond, as `putShort((short) sequence)` writes it.

The generator keeps `lastTime` and `sequence`. A call at a new clock reading
restarts the sequence at 0. A call at the same reading counts it up. At the
same reading with the sequence at `0xFFFF`, the call fails with a sequence
overflow and changes nothing.

The node bytes are the low 48 bits of a node value. In production that value is
the hardware address of the first network interface that is up and not a
loopback, folded into a number.

Files:

- `Wrappers.dfy`: `Option` and `Result`.
- `Bytes.dfy`: Java bytes and `long`s, and big-endian fields.
  - `ToBigEndian` is what `putLong`/`putShort` write.
  - `FromBigEndian` is the unsigned value of a field.
  - `Signed` is the two's complement reading that `getLong`, `getShort` and `new BigInteger(byte[])` perform.
  - Their round trips are proved here.
- `Hex.dfy`: `asHexString`, which writes two lower-case hex digits per byte. Also a decoder and both round trips.
- `Decimal.dfy`: the decimal text of a `long`, as string concatenation writes it, with a parser and its round trip.
- `MacAddress.dfy`: `MacAddressNodeIdentifier`.
  - address validation;
  - the `get()` fold;
  - the first-match search over an interface list;
  - lookup by name.
- `Flake.dfy`: the generator.
  - the `updateState` state machine (`NextState`) and runs of it over a sequence of clock readings;
  - the identifier layout;
  - the packing of the node value;
  - the class `Flake4J` with its constructor, `UpdateState` and `GenerateId`;
  - both text forms.

Every operation takes the clock reading `now` (`clock.millis()`) as a parameter.
The operating system's interface list is also a parameter: a sequence of
interface records in enumeration order.

## Model

| member | source | states |
|---|---|---|
| Flake.NextState | src/main/java/com/github/charithe/flake4j/Flake4J.java:103-114 | The call fails exactly when the reading equals lastTime and the sequence is at MAX_SEQ. Otherwise: lastTime becomes the reading; a new reading gives sequence 0 and the same reading gives sequence + 1; the sequence stays in 0..0xFFFF; a reading not before lastTime gives a state strictly later in (time, sequence) order. |
| Flake.Flake4J.constructor | src/main/java/com/github/charithe/flake4j/Flake4J.java:80-85 | A new generator has lastTime equal to the first clock reading and sequence -1; currentTime keeps its default 0 until the first call. |
| Flake.Flake4J.UpdateState | src/main/java/com/github/charithe/flake4j/Flake4J.java:103-114 | currentTime becomes the reading. The method fails with SequenceOverflow exactly when NextState fails, and then (lastTime, sequence) is unchanged. Otherwise the state becomes NextState's result. |
| Flake.Flake4J.GenerateId | src/main/java/com/github/charithe/flake4j/Flake4J.java:92-101 | currentTime becomes the reading. On overflow it returns SequenceOverflow and leaves (lastTime, sequence) unchanged. Otherwise it steps the state and returns the 16-byte IdLayout of the reading, the node bytes and the new sequence. |
| Flake.Put | src/main/java/com/github/charithe/flake4j/Flake4J.java:96-97 | A relative ByteBuffer put: the bytes land at the cursor, the rest of the buffer is untouched, and the cursor advances by their length. |
| Flake.Flake4J.NewInstance | src/main/java/com/github/charithe/flake4j/Flake4J.java:71-78 | The generator's node bytes are the packed node value, and its state is (first reading, -1). |
| Flake.PackNodeId | src/main/java/com/github/charithe/flake4j/Flake4J.java:72-76 | The six bytes are (v >> 8(5-i)) & 0xFF. Read back, they give the node value modulo 2^48. |
| Flake.PackingRestoresMacAddress | src/main/java/com/github/charithe/flake4j/Flake4J.java:72-76 | Packing the get() value of a six-byte address gives back exactly the address bytes. |
| Flake.NewInstanceFromInterfaces | src/main/java/com/github/charithe/flake4j/Flake4J.java:50-52 | The no-argument factory. It fails exactly when no interface is up and non-loopback or the first such interface's address is not six bytes long. It fails with NoViableAddress exactly in the first case, and otherwise with InvalidAddress. On success the node bytes are the first viable interface's address and the state is (reading, -1). |
| Flake.FirstCallIssuesZero | src/main/java/com/github/charithe/flake4j/Flake4J.java:84-114 | The first call after construction always succeeds and issues sequence 0 at its reading. |
| Flake.SequenceReset | src/test/java/com/github/charithe/flake4j/Flake4JTest.java:63-71 | A call at a new reading issues sequence 0, so byte 14 of the identifier is the same (zero) after any change of reading. |
| Flake.FrozenClock | src/main/java/com/github/charithe/flake4j/Flake4J.java:103-114 | With a frozen clock, call i (for i ≤ 0xFFFF) issues sequence i. Every later call fails, and the final state is known exactly. |
| Flake.OverflowOnCall65537 | src/test/java/com/github/charithe/flake4j/Flake4JTest.java:52-61 | With a frozen clock, calls 1..65536 succeed with sequences 0..65535 and call 65537 fails. |
| Flake.RunIncreasing | src/main/java/com/github/charithe/flake4j/Flake4J.java:103-114 | While readings do not go backwards, the (time, sequence) pairs a run issues are strictly increasing, and each sequence fits 16 bits. |
| Flake.IdLayoutFields | src/main/java/com/github/charithe/flake4j/Flake4J.java:96-97 | Bytes 0..7 read as a signed long give the time, bytes 8..13 are the node bytes, and bytes 14..15 read unsigned give the sequence. |
| Flake.IdLayoutInjective | src/main/java/com/github/charithe/flake4j/Flake4J.java:96-97 | Two layouts with 16-bit sequences are equal only if time, node and sequence all are. |
| Flake.IdsDistinct | src/main/java/com/github/charithe/flake4j/Flake4J.java:92-114 | While the clock does not go backwards, no two successful calls of one generator return the same identifier. |
| Flake.FrozenClockIdsDistinct | src/test/java/com/github/charithe/flake4j/Flake4JTest.java:38-50 | With a frozen clock, the first 65536 calls all succeed and return pairwise distinct identifiers. |
| Flake.NodeHexInIdentifier | src/test/java/com/github/charithe/flake4j/Flake4JTest.java:49 | For node 123456789, hex characters 16..27 of any identifier are "0000075bcd15". |
| Flake.TestNodeBytes | src/test/java/com/github/charithe/flake4j/Flake4JTest.java:40 | Node 123456789 packs to the bytes 00 00 07 5b cd 15. |
| HexString.AsHexString | src/main/java/com/github/charithe/flake4j/Flake4J.java:116-122 | The loop builds exactly Hex(id): two characters per byte, in order. |
| HexString.HexAt | src/main/java/com/github/charithe/flake4j/Flake4J.java:118-120 | Characters 2i and 2i+1 are the lower-case hex digits of byte i's high and low nibble. |
| HexString.HexAppend | src/main/java/com/github/charithe/flake4j/Flake4J.java:118-120 | The hex string of a concatenation is the concatenation of the hex strings. |
| HexString.UnHexOfHex | src/main/java/com/github/charithe/flake4j/Flake4J.java:116-122 | Decoding the hex string gives back the bytes. |
| HexString.HexOfUnHex | src/main/java/com/github/charithe/flake4j/Flake4J.java:116-122 | Any string the decoder accepts is the hex string of what it decodes to, so the encoding is a bijection onto the strings UnHex accepts. |
| Decimal.ParseLeadingOfDecimal | src/main/java/com/github/charithe/flake4j/Flake4J.java:128 | A number's decimal text, followed by anything not starting with a digit, is read back as that number and that remainder. |
| Flake.ParseRender | src/main/java/com/github/charithe/flake4j/Flake4J.java:128 | The "L-N-S" text is unambiguous even with negative numbers: parsing it gives the three numbers back. |
| Flake.ReadComponents | src/main/java/com/github/charithe/flake4j/Flake4J.java:124-129 | asComponentString's reads, as written. Fewer than 16 bytes give BufferUnderflow. Otherwise: the "node" is the sign-extended bytes 0..5, the "time" is the signed long at bytes 6..13, and the "sequence" is the signed short at bytes 14..15; each re-encodes to its bytes and lies in its signed range. |
| Flake.AsComponentString | src/main/java/com/github/charithe/flake4j/Flake4J.java:124-129 | Fails exactly on input shorter than 16 bytes. Otherwise the text parses back to the numbers ReadComponents reads. |
| Flake.ComponentsOfGeneratedId | src/main/java/com/github/charithe/flake4j/Flake4J.java:124-129 | On a generated identifier, asComponentString prints three numbers: the time >> 16 as "node"; the low 16 bits of the time joined to the node bytes, read signed, as "time"; and the sequence read as a signed short. |
| Flake.ComponentStringMisreadsLayout | src/main/java/com/github/charithe/flake4j/Flake4J.java:126-128 | For times below 32768 and node 123456789, the printed node is 0, the printed time is time·2^48 + 123456789, and the printed triple differs from (time, node, sequence). |
| Flake.ComponentStringNegativeSequence | src/main/java/com/github/charithe/flake4j/Flake4J.java:128 | Sequence 32768 is printed as -32768. |
| Flake.DecodeComponents | src/main/java/com/github/charithe/flake4j/Flake4J.java:124-129 | The corrected reading of generateId's layout. Fewer than 16 bytes fail. Otherwise the time comes from bytes 0..7, the node from 8..13 and the unsigned sequence from 14..15; each re-encodes to its bytes, the time lies in the signed 64-bit range, the node in the signed 48-bit range and the sequence in 0..0xFFFF. |
| Flake.ComponentString | src/main/java/com/github/charithe/flake4j/Flake4J.java:124-129 | Fails exactly on input shorter than 16 bytes. Otherwise the text parses back to the corrected DecodeComponents numbers. |
| Flake.DecodeGeneratedId | src/main/java/com/github/charithe/flake4j/Flake4J.java:92-129 | The corrected decoder gives back the time, the signed node value and the sequence of any generated identifier. |
| Flake.ComponentStringRoundTrip | src/main/java/com/github/charithe/flake4j/Flake4J.java:92-129 | The corrected component string of a generated identifier parses back to (time, node, sequence), and the node number re-encodes to the node bytes. |
| Bytes.ToBigEndianAt | src/main/java/com/github/charithe/flake4j/Flake4J.java:74-76 | Byte i of an n-byte field is x >> 8(n-1-i), masked to 8 bits. |
| Bytes.FromToBigEndian | src/main/java/com/github/charithe/flake4j/Flake4J.java:97 | Reading back a written field gives the value modulo 256^n: putShort of a (short) cast keeps the low 16 bits. |
| Bytes.ToFromBigEndian | src/main/java/com/github/charithe/flake4j/Flake4J.java:97 | Writing a field's value gives back the field's bytes. |
| Bytes.SignedOfField | src/main/java/com/github/charithe/flake4j/Flake4J.java:97 | getLong reads back what putLong wrote, for every long. |
| Bytes.UnsignedOfField | src/main/java/com/github/charithe/flake4j/Flake4J.java:97 | A value in 0..256^n-1 is read back unchanged from its n-byte field. |
| Bytes.SignedFieldRoundTrip | src/main/java/com/github/charithe/flake4j/Flake4J.java:128 | Writing a field's signed reading gives back the field's bytes, so no signed reading loses information. |
| MacAddress.MacAddressNodeIdentifier.Get | src/main/java/com/github/charithe/flake4j/node/MacAddressNodeIdentifier.java:69-77 | The fold of the six address bytes, most significant first, is their big-endian value, which is below 2^48. |
| MacAddress.FoldStep | src/main/java/com/github/charithe/flake4j/node/MacAddressNodeIdentifier.java:72-75 | One loop step: ORing byte i in at weight 256^(5-i) extends the folded prefix by that byte. |
| MacAddress.GetInjective | src/main/java/com/github/charithe/flake4j/node/MacAddressNodeIdentifier.java:69-77 | Distinct valid addresses give distinct node values. |
| MacAddress.FromAddress | src/main/java/com/github/charithe/flake4j/node/MacAddressNodeIdentifier.java:45-51 | Succeeds exactly for a non-null address of length six, and keeps that address. A null address gives NullAddress; any other length gives InvalidAddress. |
| MacAddress.FindViableMacAddress | src/main/java/com/github/charithe/flake4j/node/MacAddressNodeIdentifier.java:53-62 | Returns nothing exactly when no interface is up and non-loopback. Otherwise it returns the address of the first such interface in enumeration order. |
| MacAddress.GetMacAddressFromInterface | src/main/java/com/github/charithe/flake4j/node/MacAddressNodeIdentifier.java:64-67 | Returns nothing exactly when no interface carries the name. Otherwise it returns the address of an interface with that name. |
| MacAddress.NewInstance | src/main/java/com/github/charithe/flake4j/node/MacAddressNodeIdentifier.java:33-37 | Fails exactly when no interface is viable or the first viable one has an address whose length is not six. The error is NoViableAddress exactly in the first case, and otherwise InvalidAddress. On success the identifier holds the first viable interface's address. |
| MacAddress.NewInstanceByName | src/main/java/com/github/charithe/flake4j/node/MacAddressNodeIdentifier.java:39-43 | Succeeds exactly when an interface has the name and its address is six bytes long. The error is InterfaceNotFound exactly when no interface has the name, and otherwise InvalidAddress. On success the identifier holds the named interface's address. |

## Left out

- The fair `ReentrantLock` and the `volatile` fields: the model is sequential. Because the lock serialises `generateId`, runs of calls in some order are the whole behaviour. The multithreaded uniqueness test is therefore covered only through `IdsDistinct`.
- `java.time.Clock`: every reading is a parameter. The sleep in the sequence-reset test is represented by two different readings.
- A clock that goes backwards. `NextState` models it as the source does: any new reading restarts the sequence at 0. The uniqueness lemmas assume non-decreasing readings, which is the source's own open assumption.
- `NetworkInterface.getNetworkInterfaces`, `getByName` and `SocketException`: the interface list is a parameter, and the OS query and its failure are not modelled.
- `NetworkInterface.getHardwareAddress` returning null: the interface record always carries an address. In the source, `Optional.of(null)` would throw before the null check in `newInstance(byte[])` is reached. `FromAddress` still models that null check for a null argument.
- MacAddress.GetMacAddressFromInterface: the OS can hold only one interface per name, so the model promises some interface with that name. It picks the first.
- The `NodeIdentifier` interface is not part of this model. `Flake4J.NewInstance` takes the `long` its `get()` returns.
- Null `id` arguments to `asHexString` and `asComponentString`: a `seq` is never null.
- Bit operations are written arithmetically. `>>` on a `long` is floor division by a power of 256, and `& 0xFF` is `% 256`. `|=` in `get()` is `+`, because each byte lands on bits that are still zero.
- `Flake.Flake4J.GenerateId` returns a Dafny sequence copied from the buffer, not the backing `byte[]` that `ByteBuffer.array()` hands out. Aliasing of that array is not modelled.

## Findings

| source | as written | input that shows it | evidently intended | confidence | as-written member | corrected member |
|---|---|---|---|---|---|---|
| src/main/java/com/github/charithe/flake4j/Flake4J.java:126-128 | asComponentString reads the six node bytes from offset 0 and the long from offset 6, but generateId writes the long at offset 0 and the node at offset 8 | time 1000, node 123456789, sequence 0: prints "281474976834112789-0-0" | print time, node and sequence from offsets 0, 8 and 14: "1000-123456789-0" | not executed | Flake.ComponentStringMisreadsLayout | Flake.ComponentStringRoundTrip |
| src/main/java/com/github/charithe/flake4j/Flake4J.java:128 | the sequence is read back with getShort, which sign-extends | sequence 32768 at any time and node: the third number printed is -32768 | print the unsigned sequence 0..65535 that generateId counted | not executed | Flake.ComponentStringNegativeSequence | Flake.ComponentStringRoundTrip |
