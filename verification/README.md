# A verified model of the chat programs and of the protocol buffer runtime they use

The repository holds a TCP chat server and client and the part of the Protocol Buffers 2.5 runtime
whose bodies are in its headers and in the generated `packet.pb.cc`. This Dafny project models both
halves and proves what they promise. `dafny verify dfyconfig.toml` checks everything.

How it is laid out:

- `Bytes`, `Varint`, `WireFormat`: little-endian words, base-128 varints and the fast paths on them, tags, ZigZag.
- `CodedStream`: the input stream over a flat array and the array writers; `BulkRead`: reading runs of a repeated field;
  `PrimitiveValues`: every declared type as it is written and read back.
- `UnknownFields`, `Messages`: a plain parser that only reads tags and dispatches on the field number, a
  serialiser and a size function, for any message of string and bool fields; unknown fields may nest as groups.
  `ParserCases`: what that parser does with single fields on the wire, refusals included.
- `Store`, `MessageStrings`, `MessageSharing`, `MessageLedger`, `PacketMessages`, `PeekAhead`: heap objects with their owners, the
  string accessors as a state machine over any number of messages, the same for one message whoever owns the rest of
  the heap, which strings are made, handed out and deleted, the class `ChatNotify` with its goto-style parser, and when that parser's last tag differs.
- `RepeatedField`, `RepeatedPtrSpec`, `RepeatedPtrRuns`: the two growable arrays. The one of pointers is a state machine
  over every run of its operations, for elements of any type with an empty value and a merge that copies onto it.
  `RepeatedPtrSharing`, `RepeatedPtrFamilies`: any number of such fields on one heap, merged, copied and swapped among
  each other. `RepeatedPtrLedger`: which objects each operation makes, reuses, hands out and deletes.
  `RepeatedPtrField`: the class over an array, which refines the machine step by step. `TypeHandlers`: the
  two element types.
- `Packet`, `Framer`, `DispatchSafety`: the 12-byte header, the incremental decoder of the session and of the client,
  and what it may dispatch whatever arrives.
- `SessionPool`, `ChatServer`, `Conversation`: the accept and close protocol, `process_packet`, delivery from one client
  to all, and what a login has to do with it.
- `SymbolIndex`: the prefix index, whose nine-step proof in a comment is carried out here.

Where the source works step by step, a class or a loop does so here too, and each of its methods is tied to a
function of the old state; the properties are proved about that function.

What the proofs turned up, with the code kept as it is:

- The parser's shortcut behaves as the plain loop in everything but one point. When it fails on a message string
  whose one-byte tag it took with `ExpectTag(42)` right behind a name, the last tag still is 34, not 42. That happens
  exactly when the input starts with whole fields and a name, and right behind the name stands the byte 42 with no
  whole string behind it (`MergePartialFromCodedStream`, `FailsPastPeekFails`, `FailsPastPeekIff`); the bytes
  34, 0, 42, 5 are an example (`PeekWitness`).
- The framer counts buffered bytes in 32 bits. A well-formed packet is dispatched exactly when `content_size_ + 12`
  is below 2^32 (`DispatchedIffSizeFits`); `LongLoginIsLost` names a packet that is lost. The mark equals the
  buffer's size between reads exactly as long as fewer than 2^32 bytes are buffered (`TracksIffNeverWraps`).
- The gates on headers do not hold without a limit. When the mark wraps around to 1 .. 11 content mode stays on, the
  next bytes overwrite the header, and no gate looks at it again: on `LongChatStream` the server dispatches a chat
  request with 21 bytes of content (`LongChatIsDispatched`). A header that was let in keeps what it leads to behind
  both gates, whatever follows, if and only if `content_size_ + 12` is at most 2^32 - 11 at the server and 2^32 - 9 at
  the client, whose reads are shorter (`GatesHoldIffThereIsRoom`); the mark can be relied on for one byte less
  (`MarkHoldsIffThereIsRoom`). Runs whose headers keep within that dispatch only what passed the gates
  (`EveryDispatchIsGated`, `EveryDispatchIsVetted`).
- A session that is used again has only its mark reset. If its last client left in the middle of a packet, content mode
  is still on, and the next client's first packet passes no gate (`ReusedInsideAPacket`); otherwise the gates hold
  (`ReusedBetweenPackets`). It also keeps the name until the next login (`NameLasts`).
- A merged message shows what was left over in the object it is merged into unless that object was empty
  (`LeftoversShow`), so repeated messages rely on the pool being clean.
- Bytes of the next packet that arrive in the same read as the end of one are dropped (`StraddlingBytesAreDropped`).
- One failed accept ends accepting for good (`AcceptErrorIsFinal`).
- The limit of 20 bytes of chat content is a limit of 18 bytes of text (`ChatTextLimit`, `ChatRequestIsWellFormed`).
- A name with a NUL is delivered cut off at it, and only then is it delivered changed (`ChatIsDelivered`).
- Reading a repeated fixed-size field in bulk and element by element give the same elements; where a matching tag is
  followed by too few bytes the one stops in front of the tag and the other fails behind it (`BulkReadsTheSame`).
- `CopyFrom` of a `RepeatedField` onto itself empties it; `operator=` guards against that (`RepeatedField.CopyFrom`).

## Model

| member | source | states |
|---|---|---|
| Varint.EncodedLength | Common/google/protobuf/io/coded_stream.h:92-107 | An encoding has at most k bytes if and only if the value is below 128^k. |
| Varint.DecodeEncode | Common/google/protobuf/io/coded_stream.h:92-107 | Reading what was written gives the value back, takes exactly the bytes written, whatever follows. |
| Varint.Varint64RoundTrip | Common/google/protobuf/io/coded_stream.h:767-775 | Every 64-bit value survives writing and reading within the ten-byte limit. |
| Varint.Varint32RoundTrip | Common/google/protobuf/io/coded_stream.h:757-765 | Every 32-bit value survives writing and reading. |
| Varint.CanonicalIsShortest | Common/google/protobuf/io/coded_stream.h:92-107 | No varint that reads as v is shorter than the encoding of v, and one as short is the encoding. |
| Varint.DecodeIgnoresSuffix | Common/google/protobuf/io/coded_stream.h:92-107 | What follows a varint does not change how it is read. |
| Varint.EndsAtFirstLowByte | Common/google/protobuf/io/coded_stream.h:92-107 | A varint is read if and only if one of the first k bytes is below 128, and it ends with the first of them. |
| Varint.GroupsOfSeven | Common/google/protobuf/io/coded_stream.h:92-107 | The low seven bits of the bytes are the digits to base 128, least significant first; all bytes but the last have the top bit set. |
| Varint.VarintSizeIsLength | Common/google/protobuf/io/coded_stream.h:690-711 | The size by thresholds is the length of the encoding, for every 32-bit value. |
| Varint.WriteTagIsCanonical | Common/google/protobuf/io/coded_stream.h:998-1010 | The unrolled tag writer stores the canonical encoding, for one byte, two bytes and more. |
| Varint.ExpectTagIffCanonical | Common/google/protobuf/io/coded_stream.h:861-882 | ExpectTag accepts if and only if the tag is below 2^14 and its canonical encoding is next; over-long forms are refused. |
| Varint.NegativeTakesTenBytes | Common/google/protobuf/io/coded_stream.h:952-959 | A negative int32, sign-extended, takes exactly ten bytes. |
| Varint.Int32RoundTrip | Common/google/protobuf/wire_format_lite_inl.h:53-61 | Every int32 written sign-extended is recovered by the truncating 32-bit read, and the size function is exact. |
| Varint.SignExtendTruncates | Common/google/protobuf/wire_format_lite_inl.h:57-59 | Casting to uint64 and truncating to 32 bits keeps an int32. |
| Bytes.DecodeEncodeLE | Common/google/protobuf/io/coded_stream.h:961-992 | A word stored low byte first is read back, for any width. |
| Bytes.EncodeDecodeLE | Common/google/protobuf/io/coded_stream.h:778-812 | Bytes read as a word are stored as the same bytes. |
| Bytes.DecodeOneMore | Common/google/protobuf/io/coded_stream.h:778-812 | Each byte weighs 256 times the one before it. |
| WireFormat.MakeTag | Common/google/protobuf/wire_format_lite.h:528-538 | Field number and wire type are recovered from the tag made of them. |
| WireFormat.TagParts | Common/google/protobuf/wire_format_lite.h:528-538 | A tag is the tag made of its own field number and wire type. |
| WireFormat.ZigZagEncodeIs | Common/google/protobuf/wire_format_lite.h:576-603 | For any word width the shifts and the xor are the map n to 2n, and to -2n-1 for negative n. |
| WireFormat.ZigZagDecodeIs | Common/google/protobuf/wire_format_lite.h:605-616 | For any word width decoding is u/2 for even u and -(u/2)-1 for odd u. |
| WireFormat.ZigZagInverse | Common/google/protobuf/wire_format_lite.h:600-616 | For any word width the two transforms are inverse to each other, in both orders. |
| WireFormat.SInt32RoundTrip | Common/google/protobuf/wire_format_lite_inl.h:84-91 | Writing an sint32 and reading it gives the value back. |
| WireFormat.SInt64RoundTrip | Common/google/protobuf/wire_format_lite_inl.h:93-100 | Writing an sint64 and reading it gives the value back. |
| CodedStream.CodedInputStream.ReadVarint32 | Common/google/protobuf/io/coded_stream.h:757-765 | The inline byte and the fallback together read what the varint definition says, and advance by it. |
| CodedStream.CodedInputStream.ReadTag | Common/google/protobuf/io/coded_stream.h:842-851 | Tag, position, last tag and end flag after either path are those of the next varint. |
| CodedStream.CodedInputStream.ExpectTag | Common/google/protobuf/io/coded_stream.h:861-882 | True if and only if the canonical encoding of a tag below 2^14 is next, and only then the stream moves. |
| CodedStream.CodedInputStream.ExpectAtEnd | Common/google/protobuf/io/coded_stream.h:905-918 | True exactly at the end, which also clears the last tag and sets the end flag. |
| CodedStream.CodedInputStream.ReadString | Common/google/protobuf/io/coded_stream.h:198-205 | Reads a length and that many bytes, or fails. |
| CodedStream.CodedInputStream.ReadLittleEndian | Common/google/protobuf/io/coded_stream.h:814-840 | Reads a word of the given width if that many bytes are left. |
| CodedStream.CodedInputStream.Skip | Common/google/protobuf/io/coded_stream.h:177-179 | Goes on by the count, or to the end and answers false. |
| CodedStream.PatchTwice | Common/google/protobuf/io/coded_stream.h:646-651 | Two writes, the second where the first ended, are one write of both pieces and leave all other bytes alone. |
| CodedStream.WriteVarint32ToArray | Common/google/protobuf/io/coded_stream.h:934-942 | Stores exactly the encoding, returns the position behind it, changes no other byte. |
| CodedStream.WriteTagToArray | Common/google/protobuf/io/coded_stream.h:998-1010 | Stores exactly the canonical encoding in each of its three branches. |
| CodedStream.WriteRawToArray | Common/google/protobuf/io/coded_stream.h:641-646 | Stores the bytes at the position and no others. |
| BulkRead.PlainReadInPieces | Common/google/protobuf/wire_format_lite_inl.h:224-238 | m + n rounds of the plain loop are m rounds and then n from where these stopped. |
| BulkRead.PlainReadOneMore | Common/google/protobuf/wire_format_lite_inl.h:232-236 | One more round appends one value. |
| BulkRead.FromArrayAgrees | Common/google/protobuf/io/coded_stream.h:884-897 | With enough bytes at hold ExpectTagFromArray answers as ExpectTag does. |
| CodedStream.CodedInputStream.ReadVarint64 | Common/google/protobuf/io/coded_stream.h:767-775 | The same for 64 bits. |
| BulkRead.ReadPrimitive | Common/google/protobuf/wire_format_lite_inl.h:53-166 | Signed, unsigned, ZigZag and bool varints of 32 and 64 bits and words of a fixed width are read and converted, or refused, as their encodings say. |
| BulkRead.ReadOneMore | Common/google/protobuf/wire_format_lite_inl.h:232-236 | One round of the loop: no tag, a tag without a value behind it, or one more element. |
| BulkRead.ReadRepeatedPrimitive | Common/google/protobuf/wire_format_lite_inl.h:224-238 | Reads an element and as many more as slots and matching tags allow; behind the first element false if and only if slots are left, the tag matches and no whole value follows. |
| BulkRead.ReadDirect | Common/google/protobuf/wire_format_lite_inl.h:272-278 | The unchecked loop never leaves the buffer or the reserved slots and reads what the plain loop reads. |
| BulkRead.ReadRepeatedFixedSizePrimitive | Common/google/protobuf/wire_format_lite_inl.h:241-285 | Values and position are those of as many plain rounds; it grows the field once at most and stops only for lack of slots, bytes or the tag. |
| BulkRead.BulkReadsTheSame | Common/google/protobuf/wire_format_lite_inl.h:224-285 | On the same input the bulk and the plain loop read the same number of elements. |
| PrimitiveValues.PrimitiveReads | Common/google/protobuf/wire_format_lite_inl.h:53-166 | Every value of every declared type, written sign-extended, by ZigZag, as a flag or as a word of any width, signed or not, comes back as it was, whatever follows it. |
| PrimitiveValues.BoolIsNonZero | Common/google/protobuf/wire_format_lite_inl.h:149-157 | A bool is true if and only if the varint is not zero, and is missing only when the varint is. |
| PrimitiveValues.SignedWordReads | Common/google/protobuf/wire_format_lite_inl.h:113-130 | The words of any width that stand for negative numbers are the upper half. |
| PrimitiveValues.RepeatedReads | Common/google/protobuf/wire_format_lite_inl.h:224-238 | A repeated field of any declared type that was written is read back, value by value and byte by byte, whatever follows it. |
| UnknownFields.SkipFieldIgnoresSuffix | Common/google/protobuf/wire_format.h:130-134 | What follows an unknown field, nested groups included, does not change how it is skipped. |
| UnknownFields.SkipFieldReads | Common/google/protobuf/wire_format.h:130-143 | An unknown field that was written is read back, for every wire type and nesting. |
| UnknownFields.SkipMessageReads | Common/google/protobuf/wire_format.h:136-143 | So are the fields of a group up to its end tag. |
| UnknownFields.SkipFieldWellFormed | Common/google/protobuf/wire_format.h:130-134 | Only fields that can be written again are ever read. |
| ParserCases.UnknownLayout | Common/google/protobuf/wire_format.h:130-143 | The bytes of each kind of unknown field, tag by tag. |
| ParserCases.GroupEndsWithItsNumber | Common/google/protobuf/wire_format.h:130-143 | A group that ends with the end tag of another number is refused. |
| ParserCases.NestingIsLimited | Common/google/protobuf/io/coded_stream.h:1054-1057 | Nested groups are read if and only if they nest no deeper than the limit. |
| ParserCases.SkipFieldRefuses | Common/google/protobuf/wire_format.h:130-134 | An end tag, the wire types 6 and 7, and values that are not all there are refused. |
| ParserCases.StringIsRefused | Common/google/protobuf/io/coded_stream.h:198-205 | A length of 2^31 or more, and one beyond the input, is refused. |
| Messages.MergeContinues | Common/packet.pb.cc:910-963 | A parse that reached the end of a continues on what follows as if it had started there with its message. |
| Messages.MergeCommutes | Common/packet.pb.cc:910-963 | A successful parse onto x merged with y is that parse onto y, merged into x. |
| Messages.ConcatenationIsMerge | Common/packet.pb.cc:1062-1073 | Inputs that each parse to their end parse, one behind the other, to the merge of the messages: last value wins, unknown fields in order. |
| Messages.ByteSizeIsExact | Common/packet.pb.cc:1020-1048 | ByteSize is the number of bytes that serialising writes. |
| Messages.KnownReads | Common/packet.pb.cc:991-1011 | The known fields as written are merged back onto any message. |
| Messages.UnknownReads | Common/packet.pb.cc:1013-1016 | So are the unknown fields, in order and to the end of the input. |
| Messages.RoundTrip | Common/packet.pb.cc:991-1018 | Parsing what was written gives the equal message, takes every byte and ends at the end of the input. |
| Messages.MergeWellFormed | Common/packet.pb.cc:910-963 | Whatever the input, the parser only makes messages that can be written. |
| Messages.ReparseIsStable | Common/packet.pb.cc:910-1018 | Any message that was parsed survives being written and parsed again. |
| ParserCases.ParseStops | Common/packet.pb.cc:910-963 | A parse ends well, but not at the end of the input, at an end-group tag, at a zero tag, and where no tag can be read. |
| ParserCases.BrokenStringIsSet | Common/packet.pb.cc:917-927 | A string that is not all there fails the parse and yet sets the field. |
| ParserCases.BrokenBoolIsNotSet | Common/packet.pb.cc:462-479 | A bool that is not all there fails the parse and sets nothing. |
| ParserCases.BoolIsSet | Common/packet.pb.cc:462-479 | A bool is set to true if and only if its varint is not zero. |
| ParserCases.WrongWireTypeIsUnknown | Common/packet.pb.cc:949-958 | A defined field with the wire type of the other kind is kept as an unknown field and sets nothing. |
| Store.OwnedIsLive | Common/packet.pb.h:588-646 | An object that is owned is live, not the caller's, and owned in one place. |
| MessageStrings.MutableKeeps | Common/packet.pb.h:618-624 | mutable_name sets the bit, gives the field a string of its own, and disturbs no other field. |
| MessageStrings.SetKeeps | Common/packet.pb.h:597-603 | set_name sets this field to the value and no other; ownership stays in order. |
| MessageStrings.SetLeavesOthers | Common/packet.pb.h:597-603 | It writes neither the shared empty string nor a string of the caller. |
| MessageStrings.ClearFieldKeeps | Common/packet.pb.h:588-593 | clear_name leaves the field unset and reading as empty. |
| MessageStrings.ReleaseKeeps | Common/packet.pb.h:625-634 | release_name leaves the field unset and ownership in order. |
| MessageStrings.SetAllocatedKeeps | Common/packet.pb.h:635-646 | set_allocated_name sets the field to the given string's value, or unsets it, and ownership stays in order. |
| MessageStrings.ClearMessageKeeps | Common/packet.pb.cc:893-908 | Although Clear skips unset fields, every field reads as empty afterwards. |
| MessageStrings.SwapKeeps | Common/packet.pb.cc:1093-1101 | Swapping pointers and bits swaps the fields. |
| MessageStrings.StepRefines | Common/packet.pb.h:588-716 | Each accessor keeps the invariant and acts on the fields as on a record of optional values. |
| MessageStrings.RunRefines | Common/packet.pb.h:588-716 | So does every run of accessors over any number of messages. |
| MessageStrings.EveryRunKeeps | Common/packet.pb.h:588-716 | After any run each pointer is the shared empty string or a live string owned once, the shared one is intact, nothing is lost or deleted twice, and an unset field reads as empty. |
| MessageLedger.StepAccounts | Common/packet.pb.h:588-716 | For each accessor: which strings it deletes, hands out and takes over, how many it makes, and where each field points afterwards; a string is made only for a field with the shared one, and clearing keeps it. |
| MessageLedger.ReleaseHandsOut | Common/packet.pb.h:625-634 | The field's string becomes the caller's, alive and with its value, and nothing is deleted; the shared string is not handed out. |
| MessageLedger.NothingElseDeletes | Common/packet.pb.h:588-716 | Runs without set_allocated and the caller's own delete delete nothing. |
| PacketMessages.SetBits | Common/packet.pb.h:649-654 | Setting one has-bit leaves the other alone. |
| PacketMessages.ClearBits | Common/packet.pb.h:655-657 | Clearing one has-bit leaves the other alone. |
| MessageSharing.StepKeepsSound | Common/packet.pb.h:588-716 | Each accessor keeps one message in order whoever owns the rest of the heap, acts on its fields as on a record, and leaves alone what is not its own. |
| MessageSharing.OtherMessageStays | Common/packet.pb.cc:1062-1073 | What leaves the rest of the heap alone leaves every other message on it in order and unchanged. |
| PacketMessages.ChatNotify.constructor | Common/packet.pb.cc:850-855 | A new message points to the shared empty string and is the empty message. |
| PacketMessages.ChatNotify.MutableName | Common/packet.pb.h:618-624 | Moves pointer, bit and heap as the state machine says. |
| PacketMessages.ChatNotify.MutableMessage | Common/packet.pb.h:688-694 | The same for the message. |
| PacketMessages.ChatNotify.SetName | Common/packet.pb.h:597-603 | The same for set_name. |
| PacketMessages.ChatNotify.SetMessage | Common/packet.pb.h:667-673 | The same for set_message. |
| PacketMessages.ChatNotify.ClearName | Common/packet.pb.h:588-593 | The same for clear_name. |
| PacketMessages.ChatNotify.ClearMessageField | Common/packet.pb.h:658-663 | The same for clear_message. |
| PacketMessages.ChatNotify.ReleaseName | Common/packet.pb.h:625-634 | The same for release_name, with what it returns. |
| PacketMessages.ChatNotify.SetAllocatedName | Common/packet.pb.h:635-646 | The same for set_allocated_name. |
| PacketMessages.ChatNotify.Clear | Common/packet.pb.cc:893-908 | The message is empty afterwards, and both strings read as empty. |
| PacketMessages.ChatNotify.Destroy | Common/packet.pb.cc:861-870 | Both strings are deleted once; what lives afterwards is what lived outside the message. |
| PacketMessages.NotifyString | Common/packet.pb.cc:917-947 | One string field takes the parse to the parse of the rest, with the last tag of a failure behind the peek. |
| PacketMessages.NotifyForeign | Common/packet.pb.cc:949-958 | One undefined field does, or ends the parse. |
| PacketMessages.FailsPastPeekFails | Common/packet.pb.cc:928-938 | Where the shortcut's last tag is 34 the plain parser fails with last tag 42, so the two differ exactly there. |
| PeekAhead.FailsPastPeekIff | Common/packet.pb.cc:928-938 | That is so if and only if whole fields, a name and the byte 42 come first and no whole string follows. |
| PacketMessages.PeekWitness | Common/packet.pb.cc:928-938 | There is such an input. |
| PacketMessages.ChatNotify.Round | Common/packet.pb.cc:914-959 | One round of the loop, the jump included, leads the parse to an equivalent later moment or ends it. |
| PacketMessages.ChatNotify.AfterName | Common/packet.pb.cc:928-946 | The look behind a name and the jump do the same. |
| PacketMessages.ChatNotify.MergePartialFromCodedStream | Common/packet.pb.cc:910-963 | For every input: answer, message, position and end flag of the plain parser, and its last tag but for FailsPastPeek. |
| PacketMessages.ChatNotify.IsInitialized | Common/packet.pb.cc:1087-1091 | True exactly when both required fields are set. |
| PacketMessages.ChatNotify.ParseFromArray | Common/google/protobuf/message_lite.h:140-141 | The old content is gone; true exactly when the bytes parse to their end with both required fields. |
| PacketMessages.ChatNotify.ByteSize | Common/packet.pb.cc:1020-1048 | The accumulated size is the size function of the message, and is cached. |
| PacketMessages.WriteStringToArray | Common/google/protobuf/wire_format_lite_inl.h:655-665 | Stores tag, length and bytes of the string and nothing else. |
| PacketMessages.ChatNotify.SerializeWithCachedSizesToArray | Common/packet.pb.cc:991-1018 | Fills exactly the bytes of the serialised message and returns the position behind them. |
| PacketMessages.ChatNotify.MergeFrom | Common/packet.pb.cc:1062-1073 | From any two valid messages on one heap the value becomes the merge of the two; the other message keeps its value, both stay valid and share no string. |
| Growth.AddIsAmortised | Common/google/protobuf/repeated_field.h:629-633 | n calls of Add on an empty field move fewer than 2n elements; the capacity stays within max(4, 2n). |
| Growth.AddsInvariant | Common/google/protobuf/repeated_field.h:749-760 | Each slot beyond the first four was paid for by one moved element. |
| RepeatedFields.RepeatedField.Reserve | Common/google/protobuf/repeated_field.h:749-760 | Contents stay; the capacity grows by the stated rule and the elements moved are counted. |
| RepeatedFields.RepeatedField.Add | Common/google/protobuf/repeated_field.h:630-633 | Appends the value, at the cost that AddIsAmortised adds up. |
| RepeatedFields.RepeatedField.ExtractSubrange | Common/google/protobuf/repeated_field.h:648-666 | Hands out the range and closes the gap. |
| RepeatedFields.RepeatedField.Truncate | Common/google/protobuf/repeated_field.h:763-766 | Keeps the prefix. |
| RepeatedFields.RepeatedField.RemoveLast | Common/google/protobuf/repeated_field.h:642-645 | Drops the last element. |
| RepeatedFields.RepeatedField.MergeFrom | Common/google/protobuf/repeated_field.h:674-680 | Appends the other field's contents, also when the other field is this one. |
| RepeatedFields.RepeatedField.CopyFrom | Common/google/protobuf/repeated_field.h:683-686 | Copies the other field's contents; onto itself it leaves nothing. |
| RepeatedPtrRuns.AddKeeps | Common/google/protobuf/repeated_field.h:837-846 | Add appends an empty object, reused or new, and keeps ownership in order. |
| RepeatedPtrRuns.RemoveLastKeeps | Common/google/protobuf/repeated_field.h:849-852 | The last value is dropped, and the pool holds empty objects. |
| RepeatedPtrRuns.ClearKeeps | Common/google/protobuf/repeated_field.h:855-860 | All values are dropped, and the pool holds empty objects. |
| RepeatedPtrRuns.AddAllocatedKeeps | Common/google/protobuf/repeated_field.h:927-951 | In all four branches the object given is appended with its value and no object is lost or held twice. |
| RepeatedPtrRuns.ReleaseLastKeeps | Common/google/protobuf/repeated_field.h:954-965 | The last value is dropped, and ownership stays in order. |
| RepeatedPtrRuns.AddClearedKeeps | Common/google/protobuf/repeated_field.h:972-976 | The pool takes over an empty object, the elements stay. |
| RepeatedPtrRuns.ReleaseClearedKeeps | Common/google/protobuf/repeated_field.h:979-982 | The object that is handed out is empty, the elements stay. |
| RepeatedPtrRuns.ExtractSubrangeKeeps | Common/google/protobuf/repeated_field.h:1067-1081 | The range is cut out of the values, and ownership stays in order. |
| RepeatedPtrRuns.DeleteSubrangeKeeps | Common/google/protobuf/repeated_field.h:1057-1064 | The range is cut out of the values, and the rest closes up and stays live. |
| RepeatedPtrRuns.SwapElementsKeeps | Common/google/protobuf/repeated_field.h:903-905 | Two elements change places. |
| RepeatedPtrRuns.MergeIntoNew | Common/google/protobuf/repeated_field.h:866-866 | Because the pool is clean, merging into what Add returns copies the value. |
| RepeatedPtrRuns.AppendKeeps | Common/google/protobuf/repeated_field.h:865-867 | So merging into what Add returns, value by value, appends equal values and leaves the other field's objects alone. |
| RepeatedPtrRuns.MergeFromKeeps | Common/google/protobuf/repeated_field.h:863-868 | Equal contents are appended and no object of the other field is held. |
| RepeatedPtrRuns.CopyFromKeeps | Common/google/protobuf/repeated_field.h:871-874 | Equal contents, also from pooled objects, and no object of the other field is held. |
| RepeatedPtrRuns.StepRefines | Common/google/protobuf/repeated_field.h:810-982 | Each operation keeps current <= allocated <= total, a pool of empty objects and ownership, and acts as on a plain sequence. |
| RepeatedPtrRuns.RunRefines | Common/google/protobuf/repeated_field.h:810-982 | So does every run. |
| RepeatedPtrRuns.EveryRunConserves | Common/google/protobuf/repeated_field.h:810-1081 | After any run every object made or handed in is in exactly one of the slots, the caller's hands or deleted; the slots hold distinct live objects; destroying deletes what is left once. |
| RepeatedPtrRuns.DestroyDeletes | Common/google/protobuf/repeated_field.h:810-815 | Every remaining object is deleted exactly once. |
| RepeatedPtrSharing.StepInCrowd | Common/google/protobuf/repeated_field.h:810-982 | What an operation does to a field does not depend on who owns the objects outside its slots, and it leaves those alone. |
| RepeatedPtrSharing.StepKeepsSound | Common/google/protobuf/repeated_field.h:810-982 | Each operation keeps one field in order whoever owns the rest of the heap, and acts on it as on a plain sequence. |
| RepeatedPtrSharing.OtherFieldStays | Common/google/protobuf/repeated_field.h:863-874 | What leaves the rest of the heap alone leaves every other field in order, unchanged and apart. |
| RepeatedPtrLedger.StepAccounts | Common/google/protobuf/repeated_field.h:810-1081 | For each operation: the objects it deletes, in order, those it hands out and takes over, how many it makes, and when the array grows. None is made while the pool has one, and only AddAllocated into a full array with cleared objects deletes one of the pool. |
| RepeatedPtrLedger.StepSupplies | Common/google/protobuf/repeated_field.h:837-982 | Elements that stay keep their objects, and new ones are the pool's from the front before any is made. |
| RepeatedPtrLedger.PoolIsKept | Common/google/protobuf/repeated_field.h:837-951 | Add after RemoveLast takes the same object back; AddAllocated keeps what is pooled but for the one it may delete. |
| RepeatedPtrLedger.AppendAccounts | Common/google/protobuf/repeated_field.h:863-868 | Merging takes its objects from the pool, in order, before it makes any, and does not grow the array again. |
| RepeatedPtrLedger.ReleaseLastHandsOut | Common/google/protobuf/repeated_field.h:954-965 | The object that was last becomes the caller's, alive and with its value, and nothing is deleted. |
| RepeatedPtrLedger.ReleaseClearedHandsOut | Common/google/protobuf/repeated_field.h:979-982 | A pooled object becomes the caller's, alive and empty, and nothing is deleted. |
| RepeatedPtrLedger.ExtractSubrangeHandsOut | Common/google/protobuf/repeated_field.h:1067-1081 | So does each object of the range with its value, and no other. |
| RepeatedPtrLedger.NothingElseDeletes | Common/google/protobuf/repeated_field.h:810-1081 | Runs without AddAllocated, DeleteSubrange and the caller's own delete delete nothing. |
| RepeatedPtrLedger.FillAndClearDoesNotLeak | Common/google/protobuf/repeated_field.h:934-939 | A loop of AddAllocated and Clear, however long, keeps the array's size, and every object made is in it or deleted. |
| RepeatedPtrFamilies.MergeAndCopyKeep | Common/google/protobuf/repeated_field.h:863-874 | Between two fields of any family MergeFrom appends and CopyFrom copies the values; the other field and all others stay as they were. |
| RepeatedPtrFamilies.ExchangeKeeps | Common/google/protobuf/repeated_field.h:1111-1113 | Swapping two fields swaps their values and loses no object. |
| RepeatedPtrFamilies.HappenRefines | Common/google/protobuf/repeated_field.h:810-1081 | Every operation on or between fields keeps the family in order and acts as on plain sequences. |
| RepeatedPtrFamilies.EveryFamilyRunConserves | Common/google/protobuf/repeated_field.h:810-1081 | After any run of any number of fields every object is in one slot of one field, with the caller or deleted once; no two fields share one; the values are those of plain sequences. |
| TypeHandlers.MessagesMergeOntoEmpty | Common/google/protobuf/repeated_field.h:338-340 | Merging into an empty message copies. |
| TypeHandlers.LeftoversShow | Common/google/protobuf/repeated_field.h:338-340 | Merging copies every message if and only if the target is empty. |
| TypeHandlers.RepeatedMessagesAreSequences | Common/google/protobuf/repeated_field.h:331-343 | Families of repeated messages behave as plain sequences of messages. |
| TypeHandlers.RepeatedStringsAreSequences | Common/google/protobuf/repeated_field.h:378-388 | Families of repeated strings behave as plain sequences of strings. |
| RepeatedPtrFields.RepeatedPtrField.Reserve | Common/google/protobuf/repeated_field.h:432-435 | Objects stay where they are in a larger array. |
| RepeatedPtrFields.RepeatedPtrField.Add | Common/google/protobuf/repeated_field.h:837-846 | The array code is the step Add and returns the appended object. |
| RepeatedPtrFields.RepeatedPtrField.RemoveLast | Common/google/protobuf/repeated_field.h:849-852 | The array code is the step RemoveLast. |
| RepeatedPtrFields.RepeatedPtrField.Clear | Common/google/protobuf/repeated_field.h:855-860 | The loop is the step Clear. |
| RepeatedPtrFields.RepeatedPtrField.AddAllocated | Common/google/protobuf/repeated_field.h:927-951 | The four branches on the array are the step AddAllocated. |
| RepeatedPtrFields.RepeatedPtrField.ReleaseLast | Common/google/protobuf/repeated_field.h:954-965 | The array code is the step ReleaseLast and returns the object. |
| RepeatedPtrFields.RepeatedPtrField.AddCleared | Common/google/protobuf/repeated_field.h:972-976 | The array code is the step AddCleared. |
| RepeatedPtrFields.RepeatedPtrField.ReleaseCleared | Common/google/protobuf/repeated_field.h:979-982 | The array code is the step ReleaseCleared and returns the object. |
| RepeatedPtrFields.RepeatedPtrField.CloseGap | Common/google/protobuf/repeated_field.h:265-271 | The loop cuts the range out of the live part and keeps the pool. |
| RepeatedPtrFields.RepeatedPtrField.ExtractSubrange | Common/google/protobuf/repeated_field.h:1067-1081 | The loop hands out the range and is the step ExtractSubrange. |
| RepeatedPtrFields.RepeatedPtrField.DeleteSubrange | Common/google/protobuf/repeated_field.h:1057-1064 | The loop deletes the range and is the step DeleteSubrange. |
| RepeatedPtrFields.RepeatedPtrField.SwapElements | Common/google/protobuf/repeated_field.h:903-905 | The array code is the step SwapElements. |
| RepeatedPtrFields.RepeatedPtrField.MergeFrom | Common/google/protobuf/repeated_field.h:863-868 | For any two valid fields on one heap that share no object: the values of the other are appended, it keeps its own, both stay valid and apart; the loop is the step MergeFrom. |
| RepeatedPtrFields.RepeatedPtrField.CopyFrom | Common/google/protobuf/repeated_field.h:871-874 | The values become those of the other field, which keeps its own; both stay valid and apart; Clear and MergeFrom are the step CopyFrom. |
| RepeatedPtrFields.RepeatedPtrField.Destroy | Common/google/protobuf/repeated_field.h:810-815 | The loop deletes each object in the slots once. |
| Packets.PacketReads | Common/protocol.cpp:20-30 | The header that build_packet stores is read back, its CRC matches, and the content is found behind it. |
| Packets.HeaderLayout | Common/Protocol.h:18-37 | Where id, content size and CRC lie in the twelve bytes, low byte first. |
| Packets.OnlyTheServerLimits | AsioTCPChattingServer/server_session.cpp:169-190 | The client takes a built packet of any id and size; the server refuses chat requests with more than 20 bytes, and only those. |
| Packets.StoreLE | Common/protocol.cpp:24-27 | Stores a header field low byte first and leaves the other bytes alone. |
| Packets.BuildPacket | Common/protocol.cpp:20-30 | The array is a packet of that id and size around whatever the fresh memory held. |
| Framer.ReceivePiece | AsioTCPChattingServer/server_session.cpp:144-205 | One read inside a packet buffers it; one that completes it dispatches the buffer and empties it. |
| Framer.RestOfPacket | AsioTCPChattingServer/server_session.cpp:144-205 | The rest of a packet completes it however it is cut. |
| Framer.ChunkingDoesNotMatter | AsioTCPChattingServer/server_session.cpp:144-205 | Any list of well-formed packets, each cut in any way, is dispatched exactly and in order, and the buffer ends empty. |
| Framer.StraddlingBytesAreDropped | AsioTCPChattingServer/server_session.cpp:195-200 | Bytes behind the end of a packet are handed over with it, outside its content, and dropped. |
| Framer.StuckRuns | AsioTCPChattingServer/server_session.cpp:149-205 | A packet of at least 2^32 bytes is waited for in vain. |
| Framer.TooLongIsNeverDispatched | AsioTCPChattingServer/server_session.cpp:149-205 | It is never dispatched, from wherever in its header the cut is. |
| Framer.DispatchedIffSizeFits | AsioTCPChattingServer/server_session.cpp:149-205 | A well-formed packet is dispatched if and only if content_size_ + 12 is below 2^32. |
| Framer.LongLoginIsLost | AsioTCPChattingServer/server_session.cpp:149-205 | A concrete packet that is lost, with the mark no longer the buffer's size. |
| DispatchSafety.DispatchedIsComplete | AsioTCPChattingServer/server_session.cpp:194-198 | For any state and any bytes in any chunks a dispatched packet is all there. |
| DispatchSafety.ReceiveKeepsTracking | AsioTCPChattingServer/server_session.cpp:144-205 | One read keeps mark and buffer together, with content mode meaning a header that passed both gates, if and only if the buffered bytes stay below 2^32; then what it dispatches passed the gates. |
| DispatchSafety.EveryDispatchIsVetted | AsioTCPChattingServer/server_session.cpp:159-198 | Along every run whose headers announce at most Room bytes the mark is the buffer's size, and each dispatched packet is complete, passed both gates and has less than one read behind it. |
| DispatchSafety.EveryDispatchIsGated | AsioTCPChattingServer/server_session.cpp:159-198 | Along every run whose headers announce at most Room + 1 bytes each dispatched packet is complete and passed the CRC gate, and no chat request has more than 20 bytes. |
| DispatchSafety.GatesHoldIffThereIsRoom | AsioTCPChattingServer/server_session.cpp:149-205 | A header that was let in keeps what it leads to behind both gates, whatever arrives, if and only if it announces at most Room + 1 bytes. |
| DispatchSafety.MarkHoldsIffThereIsRoom | AsioTCPChattingServer/server_session.cpp:149-205 | The mark stays the buffer's size up to the next dispatch, whatever arrives, if and only if the header announces at most Room bytes. |
| DispatchSafety.UnseenByTheGates | AsioTCPChattingServer/server_session.cpp:153-160 | In content mode with the mark inside the header, any packet that goes on from there is dispatched. |
| DispatchSafety.WrapsAround | AsioTCPChattingServer/server_session.cpp:149-157 | From a header that announces more than Room + 1 bytes the mark can get back to 1. |
| DispatchSafety.LongChatIsDispatched | AsioTCPChattingServer/server_session.cpp:149-198 | A concrete input, from empty buffers, on which the server dispatches a chat request with 21 bytes of content. |
| DispatchSafety.TracksIffNeverWraps | AsioTCPChattingServer/server_session.cpp:149-155 | The mark is the buffer's size all along a run if and only if the buffered bytes stay below 2^32. |
| DispatchSafety.WrapLosesTrack | AsioTCPChattingServer/server_session.cpp:149-155 | The read that takes them to 2^32 breaks it. |
| DispatchSafety.RefusedHeaderIsDropped | AsioTCPChattingServer/server_session.cpp:159-190 | The read that completes a header with a wrong CRC, or at the server one of an oversized chat request, empties the buffer and dispatches nothing. |
| DispatchSafety.HeaderIsCollected | AsioTCPChattingServer/server_session.cpp:149-157 | Bytes that complete no header are kept, however they come. |
| DispatchSafety.RefusedHeadersDoNoHarm | AsioTCPChattingServer/server_session.cpp:107-112 | Among any well-formed packets, each cut in any way, there may be any number of refused headers: the packets are dispatched exactly and in order, and the buffer ends empty. |
| DispatchSafety.ReadsChangePlaces | AsioTCPChattingServer/server_session.cpp:144-155 | A read that takes the count to 2^32 exactly is not counted, so the next one goes in front of it. |
| DispatchSafety.ReusedBetweenPackets | AsioTCPChattingServer/server_session.cpp:37-40 | A session that is used again outside content mode dispatches only gated packets. |
| DispatchSafety.ReusedInsideAPacket | AsioTCPChattingServer/server_session.cpp:37-40 | One that is used again in content mode dispatches the next client's first packet whatever its CRC and size, a chat request with 21 bytes of content included. |
| Framer.PacketReceiver.ClearPacketBuffer | AsioTCPChattingServer/server_session.cpp:107-112 | Back to the state a session starts in. |
| Framer.PacketReceiver.Init | AsioTCPChattingServer/server_session.cpp:37-40 | Resets the mark and nothing else. |
| Framer.PacketReceiver.HandleReceive | AsioTCPChattingClient/chatting_client.cpp:131-194 | The branches on buffer, mark and mode, with the server's size filter or without, are the function Receive, and what is dispatched is recorded. |
| SessionPool.PostAcceptKeeps | AsioTCPChattingServer/chatting_server.cpp:129-148 | Taking a session from the queue to accept on it loses and doubles none. |
| SessionPool.StepKeeps | AsioTCPChattingServer/chatting_server.cpp:129-166 | Every completion keeps the pool invariant. |
| SessionPool.EveryInterleavingKeepsThePool | AsioTCPChattingServer/chatting_server.cpp:36-166 | For every interleaving the ids are partitioned into queue, one pending accept at most, connected with one pending read each, and one lost at most; not accepting means all connected. |
| SessionPool.AllConnected | AsioTCPChattingServer/chatting_server.cpp:129-136 | The server is not accepting if and only if every session is connected. |
| SessionPool.AcceptErrorIsFinal | AsioTCPChattingServer/chatting_server.cpp:150-166 | After a failed accept no accept is posted and no session connects any more. |
| SessionPool.AcceptOkConnects | AsioTCPChattingServer/chatting_server.cpp:150-161 | An accept opens the one session accepted on, with one pending read, and goes on with the front of the queue or stops accepting. |
| SessionPool.AcceptErrorLoses | AsioTCPChattingServer/chatting_server.cpp:162-165 | A failed accept loses that session, and nothing else changes. |
| SessionPool.ReadOkChangesNothing | AsioTCPChattingServer/server_session.cpp:203-203 | A completed read posts the next one, and that is all. |
| SessionPool.ReadErrorCloses | AsioTCPChattingServer/chatting_server.cpp:52-61 | A failed read closes that session alone, which is accepted on at once if the server had stopped accepting, and else queued last. |
| SessionPool.AcceptsGoInOrder | AsioTCPChattingServer/chatting_server.cpp:129-148 | Sessions are accepted on in the order in which they were queued, along every run. |
| SessionPool.OpenAreConnectedNotClosed | AsioTCPChattingServer/chatting_server.cpp:52-61 | The open sessions are those that were connected and not closed since, along every run. |
| SessionPool.EveryInterleavingServesInOrder | AsioTCPChattingServer/chatting_server.cpp:36-166 | From start: the ids accepted on so far, then the pending one, then the queue are 0 .. n - 1 and then those closed, in order; as many sessions are open as accepts succeeded less the reads that failed. |
| SessionPool.ChatServer.constructor | AsioTCPChattingServer/chatting_server.cpp:36-50 | The init loop queues every id once and start posts the first accept. |
| SessionPool.ChatServer.Accept | AsioTCPChattingServer/chatting_server.cpp:129-148 | post_accept is the function PostAccept and answers whether a session was free. |
| SessionPool.ChatServer.CompleteAccept | AsioTCPChattingServer/chatting_server.cpp:150-166 | handle_accept is the step, with and without an error. |
| SessionPool.ChatServer.CompleteReceive | AsioTCPChattingServer/server_session.cpp:114-131 | A completed read posts the next one, a failed one closes the session and accepts again if needed. |
| Chat.CStringIsWhole | AsioTCPChattingServer/chatting_server.cpp:104-104 | A name handed on as a char pointer arrives whole if and only if it holds no NUL. |
| Chat.BroadcastReachesEveryOpenSession | AsioTCPChattingServer/chatting_server.cpp:111-121 | Each open session gets the packet once, in the order of ids, and no other does. |
| Chat.OversizedChatIsDropped | AsioTCPChattingServer/server_session.cpp:169-189 | A chat request over 20 bytes empties the buffer and is not dispatched. |
| Chat.ChatTextLimit | Common/Protocol.h:13-13 | 20 bytes of content are 18 bytes of text. |
| Chat.ChatRequestIsWellFormed | AsioTCPChattingServer/server_session.cpp:169-189 | The server takes a client's chat request if and only if its text has at most 18 bytes. |
| Chat.ChatRequestReads | AsioTCPChattingServer/chatting_server.cpp:99-101 | The server reads the text that the client wrote. |
| Chat.NoticeReads | AsioTCPChattingServer/chatting_server.cpp:103-109 | The notice parses, to its end, to the name up to a NUL and the text. |
| Chat.TextIsShort | AsioTCPChattingServer/chatting_server.cpp:76-79 | A text read from less than 2^31 bytes is shorter by its tag and length, so a name that a login sets is no longer than 2^31 - 7 bytes. |
| Chat.NoticeFits | AsioTCPChattingServer/chatting_server.cpp:103-108 | The notice of two such texts fits the content size of a header. |
| Chat.NoticeSize | AsioTCPChattingServer/chatting_server.cpp:107-107 | The size of the notice's content in terms of the two lengths. |
| Chat.PacketProcessor.BuildNotice | AsioTCPChattingServer/chatting_server.cpp:103-109 | Filling in, measuring and serialising a ChatNotify behind the header makes the notice packet and leaves no string behind. |
| Chat.PacketProcessor.BuildLoginReply | AsioTCPChattingServer/chatting_server.cpp:82-88 | The bytes stored are the reply whose content says success. |
| Chat.PacketProcessor.BroadcastPacket | AsioTCPChattingServer/chatting_server.cpp:111-121 | The loop posts what Broadcast lists. |
| Chat.PacketProcessor.ProcessPacket | AsioTCPChattingServer/chatting_server.cpp:63-127 | Names and posts after a dispatched packet are those of AfterPacket, on which delivery is proved. |
| Chat.ChatIsDelivered | AsioTCPChattingServer/chatting_server.cpp:96-123 | A chat text of at most 18 bytes, cut in any way, makes the server post one chat notice to each open session in order, which its client dispatches, however cut, and parses to the text and the name up to a NUL. |
| Conversation.ContentLayout | Common/packet.pb.cc:991-1018 | The bytes of the four messages: login request, login reply, chat request and notice. |
| Conversation.ReplySaysSuccess | AsioTCPChattingServer/chatting_server.cpp:82-88 | The reply is 14 bytes, is dispatched by the client however it is cut, and parses, completely, to success. |
| Conversation.LoginSetsTheName | AsioTCPChattingServer/chatting_server.cpp:73-94 | A login for any name that fits, cut in any way, makes it the session's name and leaves the others alone; one packet is posted, to that session, and says success. |
| Conversation.OtherPacketsAreIgnored | AsioTCPChattingServer/chatting_server.cpp:70-127 | Packets with an id other than 1 and 6 change nothing and are not answered. |
| Conversation.NameLasts | AsioTCPChattingServer/server_session.cpp:79-87 | Whatever else arrives, a name lasts until the session's next login. |
| Conversation.ChatCarriesTheLoginName | AsioTCPChattingServer/chatting_server.cpp:73-123 | A chat after a login, whatever other packets and sessions came between, reaches the sessions open then as a notice of exactly the bytes of that name, up to a NUL, and the text. |
| Conversation.CStringIsPrefix | AsioTCPChattingServer/server_session.cpp:89-92 | What is passed on is a part of the name without a NUL, and it stops short only in front of one. |
| SymbolIndex.Between | Common/google/protobuf/descriptor_database.h:219-222 | Between a parent and a sub-symbol lie only names that go on with '.' or a lower character. |
| SymbolIndex.BetweenIsSubSymbol | Common/google/protobuf/descriptor_database.h:214-226 | A valid name between them is itself a sub-symbol of the parent. |
| SymbolIndex.LastLessOrEqual | Common/google/protobuf/descriptor_database.h:235-238 | The entry found is the greatest key that is not above the name, and none is found only if there is none. |
| SymbolIndex.MatchIsFound | Common/google/protobuf/descriptor_database.h:198-227 | If a key matches, the entry found is that key. |
| SymbolIndex.LookupIsCompleteAndUnique | Common/google/protobuf/descriptor_database.h:184-233 | A key is answered if and only if the name is that key or a sub-symbol of it, for any name; there is one such key at most. |
| SymbolIndex.LookupByDots | Common/google/protobuf/descriptor_database.h:184-243 | A key answers for itself and for what goes on behind it with a dot, and for no name that goes on with another character. |
| SymbolIndex.NeighboursSuffice | Common/google/protobuf/descriptor_database.h:184-190 | If any key conflicts with a new name, one of its two neighbours does. |
| SymbolIndex.AddSymbolKeepsIndex | Common/google/protobuf/descriptor_database.h:167-190 | A name is added if and only if it is valid and conflicts with no key, and the invariant stays. |

## Left out

- CodedStream.CodedInputStream.ReadString: on failure the model leaves the position as it was and passes no bytes on; the fallback, whose body is not part of this model, may have moved on and filled in a part of the string.
- UnknownFields.SkipFieldReads: SkipField is modelled from its comment and the wire format; where it fails the position and the last tag inside it are not modelled, and the depth limit is the default of 100.
- RepeatedPtrFields.RepeatedPtrField.Reserve: the body of `RepeatedPtrFieldBase::Reserve` is not part of this model; it is taken to grow by the rule of `RepeatedField::Reserve`. Nor is that of its `Swap`, which is taken to exchange the two fields' slots and counters.
- SymbolIndex.AddSymbolKeepsIndex: the body of `AddSymbol` is not part of this model; it is taken to check the two neighbours, which the invariant shows to be enough. The index is a sorted sequence of keys without values, and the files and extensions are left out.
- Varint.VarintSizeIsLength: the fallback's thresholds are those of `StaticVarintSize32`.
- Framer.PacketReceiver.HandleReceive: every path through the source's `while` leaves it in the first round, so it is an `if`; a failed read is the pool's business (`CompleteReceive`).
- PacketMessages.ChatNotify.ParseFromArray: its body is not part of this model; it clears, parses, and checks what its comments demand.
- Chat.PacketProcessor.ProcessPacket: the content is shorter than 2^31 bytes, the size being passed on as an `int`; a notice of 2^31 bytes or more is measured without the overflow of `int`.
- RepeatedPtrFields.RepeatedPtrField.MergeFrom: the other field has to be a different one that shares no object, as any two fields do; only `RepeatedField` is merged with itself.
- PacketMessages.ChatNotify.MergeFrom: the other message has to be a different one, as the check in the code demands, that shares no string, as any two messages do.
- Chat.ChatIsDelivered: server session and clients start with empty buffers; what a reused session does is `ReusedBetweenPackets` and `ReusedInsideAPacket`.
- `LoginRequest`, `LoginResponse` and `ChatRequest` are values parsed and written by `Messages`; their classes repeat the pattern of `ChatNotify` without its jump. `release_message` and `set_allocated_message` repeat `release_name` and `set_allocated_name`.
- Sockets, io_service, the console, the locale and both `main` programs: completions of operations are steps with the bytes read.
- The send queues: a packet posted to a session is the observable event.
- The inside of CRC-32: it is any function of the first eight header bytes. The shared `crc` object, threads, locks and atomics.
- `PushLimit` and with it packed fields and nested messages, `Refresh` and streams of several buffers, and the limit on total bytes: a stream is one flat array.
- `int` overflow of `total_size_ * 2` and of sizes, IEEE floats, iterators, `Swap` of `RepeatedField`, and the logging of bad UTF-8.
- Headers that only declare, and `descriptor.pb.h`, which repeats the accessor pattern.
